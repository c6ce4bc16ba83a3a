/** The arrow-key menu of cli_input.py (`_draw_ia_selection`): a pointer
    moved by the up and down arrows and confirmed with Enter. Key presses are
    a given sequence of character codes; drawing the menu is left out. */
module Selection {
  import opened Wrappers

  const Up: nat := 65
  const Down: nat := 66
  const Enter: nat := 10

  /** The arrow codes the menu reacts to. */
  predicate IsArrow(key: nat)
  {
    key == Up || key == Down
  }

  /** `_move_pointer`: the up arrow moves one entry up, stopping at the
      first; the other arrow one entry down, stopping at the last. */
  function MovePointer(index: int, key: nat, length: nat): (r: int)
    requires length > 0 && 0 <= index < length
    ensures 0 <= r < length
    ensures key == Up ==> r == (if index == 0 then 0 else index - 1)
    ensures key != Up ==> r == (if index == length - 1 then index else index + 1)
  {
    if key == Up then (if 0 > index - 1 then 0 else index - 1)
    else (if index + 1 < length - 1 then index + 1 else length - 1)
  }

  /** The pointer after a run of key presses, starting at the first entry;
      keys other than the arrows leave it where it is. */
  function IndexAfter(keys: seq<nat>, length: nat): (r: int)
    requires length > 0
    ensures 0 <= r < length
  {
    if |keys| == 0 then 0
    else
      var index := IndexAfter(keys[..|keys| - 1], length);
      var key := keys[|keys| - 1];
      if IsArrow(key) then MovePointer(index, key, length) else index
  }

  /** Keys other than the arrows do not move the pointer. */
  lemma NonArrowIgnored(keys: seq<nat>, key: nat, length: nat)
    requires length > 0 && !IsArrow(key)
    ensures IndexAfter(keys + [key], length) == IndexAfter(keys, length)
  {
  }

  /** `n` presses of the down arrow from the top reach entry `min(n, length - 1)`. */
  lemma {:induction false} DownPresses(n: nat, length: nat)
    requires length > 0
    ensures IndexAfter(seq(n, _ => Down), length) == (if n < length - 1 then n else length - 1)
  {
    if n > 0 {
      var keys := seq(n, _ => Down);
      assert keys[..n - 1] == seq(n - 1, _ => Down);
      DownPresses(n - 1, length);
    }
  }

  /** An up arrow after any keys never leaves the pointer lower than before,
      and a down arrow never higher. */
  lemma ArrowDirection(keys: seq<nat>, length: nat)
    requires length > 0
    ensures IndexAfter(keys + [Up], length) <= IndexAfter(keys, length)
    ensures IndexAfter(keys + [Down], length) >= IndexAfter(keys, length)
  {
  }

  /** `_main_loop` and the return of `_draw_ia_selection`: the option the
      pointer is on at the first Enter; `None` when Enter is never pressed. */
  method Select(options: seq<string>, keys: seq<nat>) returns (r: Option<string>)
    requires |options| > 0
    ensures r.None? <==> Enter !in keys
    ensures r.Some? ==> exists n :: 0 <= n < |keys| && keys[n] == Enter && Enter !in keys[..n] &&
                                    r.value == options[IndexAfter(keys[..n + 1], |options|)]
  {
    var index := 0;
    var i := 0;
    while i < |keys|
      invariant 0 <= i <= |keys|
      invariant index == IndexAfter(keys[..i], |options|)
      invariant Enter !in keys[..i]
    {
      var key := keys[i];
      assert keys[..i + 1][..i] == keys[..i] && keys[..i + 1][i] == key;
      if key == Up || key == Down {
        index := MovePointer(index, key, |options|);
      }
      if key == Enter {
        return Some(options[index]);
      }
      assert keys[..i + 1] == keys[..i] + [key];
      i := i + 1;
    }
    assert keys[..i] == keys;
    return None;
  }
}
