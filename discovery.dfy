/** The searches of `extract_rootfs`'s generic-ISO branch (build.py): the
    biggest partition of the ISO, the squashfs inside it, the `.img` inside
    the squashfs and the root directory inside the `.img`. A directory walk
    is given as the sequence of `(dirpath, dirnames, filenames)` entries
    `os.walk` yields, in its order. */
module Discovery {
  import opened Strings
  import opened Wrappers

  datatype WalkEntry = WalkEntry(dirpath: string, dirnames: seq<string>, filenames: seq<string>)

  /** `os.path.join(a, b)` for two components. */
  function PathJoin(a: string, b: string): (r: string)
    ensures EndsWith(r, b)
    ensures StartsWith(b, "/") ==> r == b
    ensures !StartsWith(b, "/") ==>
              StartsWith(r, a) && |r| == |a| + |b| + (if a == "" || EndsWith(a, "/") then 0 else 1)
    ensures !StartsWith(b, "/") && |r| > |a| + |b| ==> r[|a|] == '/'
  {
    if StartsWith(b, "/") then b
    else if a == "" || EndsWith(a, "/") then
      var r := a + b;
      assert r[|r| - |b|..] == b;
      r
    else
      var r := a + "/" + b;
      assert r[|r| - |b|..] == b;
      r
  }

  /** The first index of a largest element. */
  function FirstMaxIndex(s: seq<nat>): (r: nat)
    requires |s| > 0
    ensures r < |s|
    ensures forall j :: 0 <= j < |s| ==> s[j] <= s[r]
    ensures forall j :: 0 <= j < r ==> s[j] < s[r]
  {
    if |s| == 1 then 0
    else
      var k := FirstMaxIndex(s[..|s| - 1]);
      assert forall j :: 0 <= j < |s| - 1 ==> s[..|s| - 1][j] == s[j];
      if s[|s| - 1] > s[k] then |s| - 1 else k
  }

  /** The partition of the ISO's loop device to mount: `lsblk` lists the
      whole device first and then its partitions, and the first of the
      largest partitions is chosen. Its number is its position in the list.
      With no partition listed the source fails (`pop` or `max` on an empty
      list). */
  function BiggestPartition(sizes: seq<nat>): (r: Option<nat>)
    ensures r.Some? <==> |sizes| >= 2
    ensures r.Some? ==> 1 <= r.value < |sizes|
    ensures r.Some? ==> forall j :: 1 <= j < |sizes| ==> sizes[j] <= sizes[r.value]
    ensures r.Some? ==> forall j :: 1 <= j < r.value ==> sizes[j] < sizes[r.value]
  {
    if |sizes| < 2 then None
    else
      var partitions := sizes[1..];
      var k := FirstMaxIndex(partitions);
      assert forall j :: 1 <= j < |sizes| ==> sizes[j] == partitions[j - 1];
      Some(k + 1)
  }

  /** The squashfs names looked for, highest priority first. */
  const SquashfsNames: seq<string> := ["squashfs.img", "filesystem.squashfs", "rootfs.sfs", "image.squashfs"]

  /** The squashfs one directory offers: the index in `SquashfsNames` of the
      first name among its files. */
  function SquashfsIn(filenames: seq<string>): (r: Option<nat>)
    ensures r.Some? ==> r.value < |SquashfsNames| && SquashfsNames[r.value] in filenames
    ensures r.Some? ==> forall j :: 0 <= j < r.value ==> SquashfsNames[j] !in filenames
    ensures r.None? ==> forall j :: 0 <= j < |SquashfsNames| ==> SquashfsNames[j] !in filenames
  {
    if SquashfsNames[0] in filenames then Some(0)
    else if SquashfsNames[1] in filenames then Some(1)
    else if SquashfsNames[2] in filenames then Some(2)
    else if SquashfsNames[3] in filenames then Some(3)
    else None
  }

  /** The squashfs path the search settles on: in the first directory that
      offers one, its highest-priority name; "" when none does. */
  function SquashfsPath(walk: seq<WalkEntry>): string
  {
    if |walk| == 0 then ""
    else match SquashfsIn(walk[0].filenames)
      case Some(k) => PathJoin(walk[0].dirpath, SquashfsNames[k])
      case None => SquashfsPath(walk[1..])
  }

  /** The result comes from the first directory that offers a squashfs. */
  lemma {:induction false} SquashfsPathFirstDirectory(walk: seq<WalkEntry>, i: nat, k: nat)
    requires i < |walk| && SquashfsIn(walk[i].filenames) == Some(k)
    requires forall j :: 0 <= j < i ==> SquashfsIn(walk[j].filenames).None?
    ensures SquashfsPath(walk) == PathJoin(walk[i].dirpath, SquashfsNames[k])
  {
    if i > 0 {
      assert SquashfsIn(walk[0].filenames).None?;
      forall j | 0 <= j < i - 1 ensures SquashfsIn(walk[1..][j].filenames).None? {
        assert walk[1..][j] == walk[j + 1];
      }
      SquashfsPathFirstDirectory(walk[1..], i - 1, k);
    }
  }

  /** No squashfs anywhere in the walk yields "", and that is the only way
      to get "". */
  lemma {:induction false} SquashfsPathEmptyIff(walk: seq<WalkEntry>)
    ensures SquashfsPath(walk) == "" <==> forall i :: 0 <= i < |walk| ==> SquashfsIn(walk[i].filenames).None?
  {
    if |walk| > 0 {
      match SquashfsIn(walk[0].filenames)
      case Some(k) =>
        assert |SquashfsNames[k]| > 0;
      case None =>
        SquashfsPathEmptyIff(walk[1..]);
        assert forall i :: 1 <= i < |walk| ==> walk[i] == walk[1..][i - 1];
    }
  }

  /** The search loop, which stops at the first directory with a squashfs. */
  method FindSquashfs(walk: seq<WalkEntry>) returns (filePath: string)
    ensures filePath == SquashfsPath(walk)
  {
    filePath := "";
    var i := 0;
    while i < |walk|
      invariant 0 <= i <= |walk|
      invariant SquashfsPath(walk[i..]) == SquashfsPath(walk)
    {
      var entry := walk[i];
      assert walk[i..][0] == entry && walk[i..][1..] == walk[i + 1..];
      if "squashfs.img" in entry.filenames {
        filePath := PathJoin(entry.dirpath, "squashfs.img");
        break;
      } else if "filesystem.squashfs" in entry.filenames {
        filePath := PathJoin(entry.dirpath, "filesystem.squashfs");
        break;
      } else if "rootfs.sfs" in entry.filenames {
        filePath := PathJoin(entry.dirpath, "rootfs.sfs");
        break;
      } else if "image.squashfs" in entry.filenames {
        filePath := PathJoin(entry.dirpath, "image.squashfs");
        break;
      }
      i := i + 1;
    }
  }

  /** The index of the first file whose name ends in `.img`. */
  function FirstImg(filenames: seq<string>): (r: Option<nat>)
    ensures r.Some? ==> r.value < |filenames| && EndsWith(filenames[r.value], ".img")
    ensures r.Some? ==> forall j :: 0 <= j < r.value ==> !EndsWith(filenames[j], ".img")
    ensures r.None? ==> forall j :: 0 <= j < |filenames| ==> !EndsWith(filenames[j], ".img")
  {
    if |filenames| == 0 then None
    else if EndsWith(filenames[0], ".img") then Some(0)
    else match FirstImg(filenames[1..])
      case Some(k) =>
        assert forall j :: 1 <= j <= k ==> filenames[j] == filenames[1..][j - 1];
        Some(k + 1)
      case None =>
        assert forall j :: 1 <= j < |filenames| ==> filenames[j] == filenames[1..][j - 1];
        None
  }

  /** The `.img` path the nested search ends with: the inner `break` leaves
      only the file loop, so every later directory holding an `.img`
      overwrites the result, and the first `.img` of the LAST such directory
      wins; "" when there is none. */
  function ImgPath(walk: seq<WalkEntry>): string
  {
    if |walk| == 0 then ""
    else
      var last := walk[|walk| - 1];
      match FirstImg(last.filenames)
      case Some(k) => PathJoin(last.dirpath, last.filenames[k])
      case None => ImgPath(walk[..|walk| - 1])
  }

  /** The result comes from the last directory that holds an `.img`. */
  lemma {:induction false} ImgPathLastDirectory(walk: seq<WalkEntry>, i: nat, k: nat)
    requires i < |walk| && FirstImg(walk[i].filenames) == Some(k)
    requires forall j :: i < j < |walk| ==> FirstImg(walk[j].filenames).None?
    ensures ImgPath(walk) == PathJoin(walk[i].dirpath, walk[i].filenames[k])
    decreases |walk|
  {
    if i < |walk| - 1 {
      var init := walk[..|walk| - 1];
      assert FirstImg(walk[|walk| - 1].filenames).None?;
      forall j | i < j < |init| ensures FirstImg(init[j].filenames).None? {
        assert init[j] == walk[j];
      }
      assert init[i] == walk[i];
      ImgPathLastDirectory(init, i, k);
    }
  }

  /** "" exactly when no directory holds an `.img`. */
  lemma {:induction false} ImgPathEmptyIff(walk: seq<WalkEntry>)
    ensures ImgPath(walk) == "" <==> forall i :: 0 <= i < |walk| ==> FirstImg(walk[i].filenames).None?
    decreases |walk|
  {
    if |walk| > 0 {
      var last := walk[|walk| - 1];
      var init := walk[..|walk| - 1];
      match FirstImg(last.filenames)
      case Some(k) =>
        assert |last.filenames[k]| >= 4;
      case None =>
        ImgPathEmptyIff(init);
        assert forall i :: 0 <= i < |init| ==> init[i] == walk[i];
    }
  }

  /** One more walked directory: it wins if it holds an `.img`. */
  lemma ImgPathStep(walk: seq<WalkEntry>, i: nat)
    requires i < |walk|
    ensures ImgPath(walk[..i + 1]) == match FirstImg(walk[i].filenames)
                                       case Some(k) => PathJoin(walk[i].dirpath, walk[i].filenames[k])
                                       case None => ImgPath(walk[..i])
  {
    assert walk[..i + 1][..i] == walk[..i] && walk[..i + 1][i] == walk[i];
  }

  /** The nested search loop of the source. */
  method FindImgFile(walk: seq<WalkEntry>) returns (imgFilePath: string)
    ensures imgFilePath == ImgPath(walk)
  {
    imgFilePath := "";
    for i := 0 to |walk|
      invariant imgFilePath == ImgPath(walk[..i])
    {
      var entry := walk[i];
      ImgPathStep(walk, i);
      var j := 0;
      while j < |entry.filenames|
        invariant 0 <= j <= |entry.filenames|
        invariant forall k :: 0 <= k < j ==> !EndsWith(entry.filenames[k], ".img")
        invariant imgFilePath == ImgPath(walk[..i])
      {
        var file := entry.filenames[j];
        if EndsWith(file, ".img") {
          imgFilePath := PathJoin(entry.dirpath, file);
          assert FirstImg(entry.filenames) == Some(j);
          break;
        }
        j := j + 1;
      }
    }
    assert walk[..|walk|] == walk;
  }

  /** A directory that looks like a root filesystem: it has `usr` and `bin`. */
  predicate HasRootDirs(entry: WalkEntry)
  {
    "usr" in entry.dirnames && "bin" in entry.dirnames
  }

  /** The root directory found inside the `.img`: the first walked
      directory with both `usr` and `bin`; "" when there is none. */
  function RootfsDirOf(walk: seq<WalkEntry>): string
  {
    if |walk| == 0 then ""
    else if HasRootDirs(walk[0]) then walk[0].dirpath
    else RootfsDirOf(walk[1..])
  }

  /** The result is the first directory that looks like a root filesystem,
      and "" when no directory does. */
  lemma {:induction false} RootfsDirFirst(walk: seq<WalkEntry>, i: nat)
    requires i < |walk| && HasRootDirs(walk[i])
    requires forall j :: 0 <= j < i ==> !HasRootDirs(walk[j])
    ensures RootfsDirOf(walk) == walk[i].dirpath
  {
    if i > 0 {
      assert !HasRootDirs(walk[0]);
      forall j | 0 <= j < i - 1 ensures !HasRootDirs(walk[1..][j]) {
        assert walk[1..][j] == walk[j + 1];
      }
      RootfsDirFirst(walk[1..], i - 1);
    }
  }

  lemma {:induction false} RootfsDirNone(walk: seq<WalkEntry>)
    requires forall j :: 0 <= j < |walk| ==> !HasRootDirs(walk[j])
    ensures RootfsDirOf(walk) == ""
  {
    if |walk| > 0 {
      assert !HasRootDirs(walk[0]);
      forall j | 0 <= j < |walk| - 1 ensures !HasRootDirs(walk[1..][j]) {
        assert walk[1..][j] == walk[j + 1];
      }
      RootfsDirNone(walk[1..]);
    }
  }

  /** The search loop, which stops at the first match. */
  method FindRootfsDir(walk: seq<WalkEntry>) returns (imgRootfsPath: string)
    ensures imgRootfsPath == RootfsDirOf(walk)
  {
    imgRootfsPath := "";
    var i := 0;
    while i < |walk|
      invariant 0 <= i <= |walk|
      invariant RootfsDirOf(walk[i..]) == RootfsDirOf(walk)
    {
      assert walk[i..][0] == walk[i] && walk[i..][1..] == walk[i + 1..];
      if "usr" in walk[i].dirnames && "bin" in walk[i].dirnames {
        imgRootfsPath := walk[i].dirpath;
        break;
      }
      i := i + 1;
    }
  }
}
