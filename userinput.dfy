/** `get_user_input` (cli_input.py): the dialogs that fill in the build
    options. What the user enters is a given sequence of answers, one per
    prompt, in order; a menu answer is the option `ia_selection` returned.
    Running out of answers stands for a user who never completes a dialog.
    The option sizes read from `os_sizes.json` appear as the keys looked up,
    not as numbers. */
module UserInput {
  import opened Strings
  import opened Wrappers
  import opened Options

  /** How a dialog ends: with a value and the answers still to come, with
      `sys.exit(0)`, or waiting for input that never comes. */
  datatype Dialog<T> = Done(value: T, rest: seq<string>) | Exited | NoInput

  // ---------------------------------------------------------------- distro

  const UbuntuOption: string := "Ubuntu"
  const MintOption: string := "Linux Mint" + " (Cinnamon edition)"
  const ArchOption: string := "Arch"
  const FedoraOption: string := "Fedora"
  const PopOption: string := "Pop!_OS"
  const GenericOption: string := "Generic ISO"

  /** The fields the distro dialog sets, and whether it skips the desktop
      menu. */
  datatype DistroChoice = DistroChoice(name: string, version: string, de: string, skipDe: bool)

  const KnownDistros: set<string> := {"ubuntu", "arch", "fedora", "pop-os", "generic"}

  /** The version menus of Ubuntu and Fedora. */
  const UbuntuVersions: seq<string> := ["23.04", "22.04"]
  const FedoraVersions: seq<string> := ["38", "39"]

  /** What `ia_selection` hands back: one of the options it showed (the
      entry `Selection.Select` stops on). An answer that is not among them
      cannot be selected, so the dialog is never completed with it. */
  function MenuAnswer(answers: seq<string>, options: seq<string>): (r: Dialog<string>)
    ensures r.Done? <==> |answers| > 0 && answers[0] in options
    ensures r.Done? ==> r.value == answers[0] && r.rest == answers[1..]
    ensures !r.Exited?
  {
    if |answers| == 0 || answers[0] !in options then NoInput else Done(answers[0], answers[1..])
  }

  /** The distro dialog, starting with `de` as the current desktop field:
      each supported distro sets its name and version (Ubuntu and Fedora
      from a version menu, whose answer is one of its entries); Linux Mint sets Ubuntu 22.04 with Cinnamon
      before asking for confirmation and only skips the desktop menu on
      "Yes"; the generic ISO asks twice and exits on "No". Any other answer
      shows the menu again. */
  function DistroSpec(answers: seq<string>, de: string): (r: Dialog<DistroChoice>)
    ensures r.Done? ==> r.value.name in KnownDistros && |r.rest| < |answers|
    ensures r.Done? && r.value.skipDe ==> r.value == DistroChoice("ubuntu", "22.04", "cinnamon", true)
    ensures r.Done? && r.value.name == "generic" ==> r.value.version == "generic" && r.value.de == "generic"
    ensures r.Done? && r.value.name == "ubuntu" ==> r.value.version in UbuntuVersions
    ensures r.Done? && r.value.name == "fedora" ==> r.value.version in FedoraVersions
    decreases |answers|
  {
    if |answers| == 0 then NoInput
    else
      var a, rest := answers[0], answers[1..];
      if a == UbuntuOption then
        (if |rest| == 0 || rest[0] !in UbuntuVersions then NoInput
         else Done(DistroChoice("ubuntu", rest[0], de, false), rest[1..]))
      else if a == MintOption then
        (if |rest| == 0 then NoInput
         else if rest[0] == "Yes" then Done(DistroChoice("ubuntu", "22.04", "cinnamon", true), rest[1..])
         else DistroSpec(rest[1..], "cinnamon"))
      else if a == ArchOption then Done(DistroChoice("arch", "latest", de, false), rest)
      else if a == FedoraOption then
        (if |rest| == 0 || rest[0] !in FedoraVersions then NoInput
         else Done(DistroChoice("fedora", rest[0], de, false), rest[1..]))
      else if a == PopOption then Done(DistroChoice("pop-os", "22.04", de, false), rest)
      else if a == GenericOption then
        (if |rest| == 0 then NoInput
         else if rest[0] == "No" then Exited
         else if |rest| == 1 then NoInput
         else if rest[1] == "No" then Exited
         else Done(DistroChoice("generic", "generic", "generic", false), rest[2..]))
      else DistroSpec(rest, de)
  }

  /** The distro menu's loop. */
  method ChooseDistro(answers: seq<string>, de0: string) returns (r: Dialog<DistroChoice>)
    ensures r == DistroSpec(answers, de0)
  {
    var i := 0;
    var de := de0;
    while true
      invariant 0 <= i <= |answers|
      invariant DistroSpec(answers[i..], de) == DistroSpec(answers, de0)
      decreases |answers| - i
    {
      if i == |answers| {
        return NoInput;
      }
      var distroName := answers[i];
      assert answers[i..][0] == distroName && answers[i..][1..] == answers[i + 1..];
      i := i + 1;
      if distroName == UbuntuOption {
        if i == |answers| || answers[i] !in UbuntuVersions {
          return NoInput;
        }
        assert answers[i..][1..] == answers[i + 1..];
        return Done(DistroChoice("ubuntu", answers[i], de, false), answers[i + 1..]);
      } else if distroName == MintOption {
        de := "cinnamon";
        if i == |answers| {
          return NoInput;
        }
        var userSelection := answers[i];
        assert answers[i..][1..] == answers[i + 1..];
        i := i + 1;
        if userSelection == "Yes" {
          return Done(DistroChoice("ubuntu", "22.04", de, true), answers[i..]);
        }
      } else if distroName == ArchOption {
        return Done(DistroChoice("arch", "latest", de, false), answers[i..]);
      } else if distroName == FedoraOption {
        if i == |answers| || answers[i] !in FedoraVersions {
          return NoInput;
        }
        assert answers[i..][1..] == answers[i + 1..];
        return Done(DistroChoice("fedora", answers[i], de, false), answers[i + 1..]);
      } else if distroName == PopOption {
        return Done(DistroChoice("pop-os", "22.04", de, false), answers[i..]);
      } else if distroName == GenericOption {
        if i == |answers| {
          return NoInput;
        }
        if answers[i] == "No" {
          return Exited;
        }
        if i + 1 == |answers| {
          return NoInput;
        }
        if answers[i + 1] == "No" {
          return Exited;
        }
        assert answers[i..][2..] == answers[i + 2..];
        return Done(DistroChoice("generic", "generic", "generic", false), answers[i + 2..]);
      }
    }
  }

  /** The menu entries map to the source's distro names and versions. */
  lemma DistroMapping(v: string, de: string, rest: seq<string>)
    ensures DistroSpec([MintOption, "Yes"] + rest, de) == Done(DistroChoice("ubuntu", "22.04", "cinnamon", true), rest)
    ensures DistroSpec([ArchOption] + rest, de) == Done(DistroChoice("arch", "latest", de, false), rest)
    ensures DistroSpec([PopOption] + rest, de) == Done(DistroChoice("pop-os", "22.04", de, false), rest)
    ensures DistroSpec([UbuntuOption, v] + rest, de) ==
            if v in UbuntuVersions then Done(DistroChoice("ubuntu", v, de, false), rest) else NoInput
    ensures DistroSpec([FedoraOption, v] + rest, de) ==
            if v in FedoraVersions then Done(DistroChoice("fedora", v, de, false), rest) else NoInput
  {
    assert MintOption != UbuntuOption && |MintOption| == 29;
    assert ([MintOption, "Yes"] + rest)[1..][1..] == rest;
    assert ([ArchOption] + rest)[1..] == rest;
    assert ([PopOption] + rest)[1..] == rest;
    assert ([UbuntuOption, v] + rest)[1..][1..] == rest;
    assert ([FedoraOption, v] + rest)[1..][1..] == rest;
  }

  /** The generic ISO needs two confirmations; a "No" to either exits. */
  lemma GenericConfirmations(first: string, second: string, de: string, rest: seq<string>)
    ensures DistroSpec([GenericOption, first, second] + rest, de) ==
            if first == "No" || second == "No" then Exited
            else Done(DistroChoice("generic", "generic", "generic", false), rest)
  {
    assert |MintOption| == 29;
    assert ([GenericOption, first, second] + rest)[1..][2..] == rest;
  }

  // --------------------------------------------------------------- desktop

  /** The desktops every distro with a desktop menu offers. */
  const BaseDesktops: seq<string> := ["Gnome", "KDE", "Xfce", "LXQt", "Cinnamon"]

  /** The desktops a distro adds to the base list. */
  function ExtraDesktops(distroName: string, distroVersion: string): seq<string>
  {
    if distroName == "ubuntu" then (if distroVersion == "22.04" then ["deepin"] else []) + ["budgie"]
    else if distroName == "arch" then ["budgie"]
    else if distroName == "fedora" then ["deepin", "budgie"]
    else []
  }

  /** What a menu entry's flag shows: the size of the desktop under its own
      lower-case key in `os_sizes.json`, or nothing (`+0GB`). */
  datatype SizeFlag = SizeOf(key: string) | NoSize

  /** The size keys of the desktops are their names in lower case. */
  lemma DesktopKeys()
    ensures Lower("Gnome") == "gnome" && Lower("KDE") == "kde" && Lower("Xfce") == "xfce"
    ensures Lower("LXQt") == "lxqt" && Lower("Cinnamon") == "cinnamon"
    ensures Lower("deepin") == "deepin" && Lower("budgie") == "budgie"
  {
  }

  /** The desktop menu as `get_user_input` builds it by appending to the
      two lists. */
  method DesktopMenu(distroName: string, distroVersion: string) returns (deList: seq<string>, flagsList: seq<SizeFlag>)
    ensures deList == BaseDesktops + ExtraDesktops(distroName, distroVersion) + ["cli"]
    ensures |flagsList| == |deList| && flagsList[|flagsList| - 1] == NoSize
    ensures forall i :: 0 <= i < |deList| - 1 ==> flagsList[i] == SizeOf(Lower(deList[i]))
  {
    deList := BaseDesktops;
    flagsList := [SizeOf("gnome"), SizeOf("kde"), SizeOf("xfce"), SizeOf("lxqt"), SizeOf("cinnamon")];
    DesktopKeys();
    if distroName == "ubuntu" {
      if distroVersion == "22.04" {
        deList := deList + ["deepin"];
        flagsList := flagsList + [SizeOf("deepin")];
      }
      deList := deList + ["budgie"];
      flagsList := flagsList + [SizeOf("budgie")];
    } else if distroName == "arch" {
      deList := deList + ["budgie"];
      flagsList := flagsList + [SizeOf("budgie")];
    } else if distroName == "fedora" {
      deList := deList + ["deepin", "budgie"];
      flagsList := flagsList + [SizeOf("deepin")];
      flagsList := flagsList + [SizeOf("budgie")];
    }
    deList := deList + ["cli"];
    flagsList := flagsList + [NoSize];
  }

  /** `cli` comes last; deepin is offered on Ubuntu 22.04 and Fedora, budgie
      on Ubuntu, Arch and Fedora. */
  lemma DesktopMenuShape(distroName: string, distroVersion: string)
    ensures var menu := BaseDesktops + ExtraDesktops(distroName, distroVersion) + ["cli"];
            menu[|menu| - 1] == "cli" && "cli" !in menu[..|menu| - 1] &&
            ("deepin" in menu <==> (distroName == "ubuntu" && distroVersion == "22.04") || distroName == "fedora") &&
            ("budgie" in menu <==> distroName in {"ubuntu", "arch", "fedora"})
  {
  }

  /** Whether the desktop menu is shown at all. */
  predicate ShowsDesktopMenu(distroName: string, skipDe: bool)
  {
    distroName !in {"pop-os", "generic"} && !skipDe
  }

  /** The desktop menu's loop over the entries of `menu`: `cli` needs a
      confirmation and "No" shows the menu again; the choice is stored in
      lower case. */
  function DesktopSpec(answers: seq<string>, menu: seq<string>): (r: Dialog<string>)
    ensures r.Done? ==> |r.rest| < |answers|
    ensures r.Done? ==> exists k :: 0 <= k < |menu| && r.value == Lower(menu[k])
    ensures r.Done? ==> forall k :: 0 <= k < |r.value| ==> !('A' <= r.value[k] <= 'Z')
    ensures !r.Exited?
    decreases |answers|
  {
    match MenuAnswer(answers, menu)
    case Done(a, rest) =>
      if a == "cli" then
        (if |rest| == 0 then NoInput
         else if rest[0] == "No" then DesktopSpec(rest[1..], menu)
         else
           assert Lower(a) == "cli";
           Done("cli", rest[1..]))
      else Done(Lower(a), rest)
    case _ => NoInput
  }

  method ChooseDesktop(answers: seq<string>, deList: seq<string>) returns (r: Dialog<string>)
    ensures r == DesktopSpec(answers, deList)
  {
    var i := 0;
    while true
      invariant 0 <= i <= |answers|
      invariant DesktopSpec(answers[i..], deList) == DesktopSpec(answers, deList)
      decreases |answers| - i
    {
      var selection := MenuAnswer(answers[i..], deList);
      if !selection.Done? {
        return NoInput;
      }
      var desktopEnv := selection.value;
      assert answers[i..][1..] == answers[i + 1..];
      i := i + 1;
      if desktopEnv == "cli" {
        if i == |answers| {
          return NoInput;
        }
        var userSelection := answers[i];
        assert answers[i..][1..] == answers[i + 1..];
        i := i + 1;
        if userSelection == "No" {
          continue;
        }
        assert Lower(desktopEnv) == "cli";
      }
      return Done(Lower(desktopEnv), answers[i..]);
    }
  }

  // -------------------------------------------------------------- username

  /** The characters a username may have: ASCII letters, digits, `.`, `_`
      and `-`. */
  predicate UsernameChar(c: char)
  {
    ('a' <= c <= 'z') || ('A' <= c <= 'Z') || ('0' <= c <= '9') || c == '.' || c == '_' || c == '-'
  }

  predicate ValidUsername(name: string)
  {
    forall k :: 0 <= k < |name| ==> UsernameChar(name[k])
  }

  const DefaultUsername: string := "localuser"

  /** The position of the first character the warning names. */
  function FirstInvalidChar(name: string): (r: Option<nat>)
    ensures r.None? <==> ValidUsername(name)
    ensures r.Some? ==> r.value < |name| && !UsernameChar(name[r.value]) && ValidUsername(name[..r.value])
  {
    if |name| == 0 then None
    else if !UsernameChar(name[0]) then Some(0)
    else match FirstInvalidChar(name[1..])
      case Some(k) =>
        assert forall j :: 1 <= j <= k ==> name[j] == name[1..][j - 1];
        assert name[..k + 1] == [name[0]] + name[1..][..k];
        Some(k + 1)
      case None =>
        assert forall j :: 1 <= j < |name| ==> name[j] == name[1..][j - 1];
        None
  }

  /** The username dialog: an empty answer means `localuser`, an answer
      with an invalid character is asked again. */
  function UsernameSpec(answers: seq<string>): (r: Dialog<string>)
    ensures r.Done? ==> r.value == DefaultUsername || (r.value != "" && ValidUsername(r.value))
    ensures r.Done? ==> |r.rest| < |answers|
    ensures !r.Exited?
    decreases |answers|
  {
    if |answers| == 0 then NoInput
    else if answers[0] == "" then Done(DefaultUsername, answers[1..])
    else if FirstInvalidChar(answers[0]).None? then Done(answers[0], answers[1..])
    else UsernameSpec(answers[1..])
  }

  /** One answer decides the username exactly when it is empty or valid;
      an answer with an invalid character is dropped and the next one
      asked for. */
  lemma UsernameFirstAnswer(a: string, rest: seq<string>)
    ensures (UsernameSpec([a] + rest).Done? && UsernameSpec([a] + rest).rest == rest) <==> (a == "" || ValidUsername(a))
    ensures UsernameSpec([a] + rest) ==
            if a == "" then Done(DefaultUsername, rest)
            else if ValidUsername(a) then Done(a, rest)
            else UsernameSpec(rest)
  {
    assert ([a] + rest)[1..] == rest;
  }

  /** The username loop with its `found_invalid_char` flag. */
  method PromptUsername(answers: seq<string>) returns (r: Dialog<string>)
    ensures r == UsernameSpec(answers)
  {
    var i := 0;
    while i < |answers|
      invariant 0 <= i <= |answers|
      invariant UsernameSpec(answers[i..]) == UsernameSpec(answers)
    {
      var username := answers[i];
      assert answers[i..][0] == username && answers[i..][1..] == answers[i + 1..];
      if username == "" {
        return Done(DefaultUsername, answers[i + 1..]);
      }
      var foundInvalidChar := false;
      var k := 0;
      while k < |username|
        invariant 0 <= k <= |username|
        invariant !foundInvalidChar
        invariant forall j :: 0 <= j < k ==> UsernameChar(username[j])
      {
        if !UsernameChar(username[k]) {
          assert FirstInvalidChar(username) == Some(k) by {
            assert username[..k] == username[..k][..k];
          }
          foundInvalidChar := true;
          break;
        }
        k := k + 1;
      }
      if !foundInvalidChar {
        return Done(username, answers[i + 1..]);
      }
      i := i + 1;
    }
    return NoInput;
  }

  // -------------------------------------------------------------- password

  /** The password dialog: an empty password is refused; otherwise the
      repeat must match, or both are asked again. */
  function PasswordSpec(answers: seq<string>): (r: Dialog<string>)
    ensures r.Done? ==> r.value != "" && |r.rest| + 2 <= |answers|
    ensures !r.Exited?
    decreases |answers|
  {
    if |answers| == 0 then NoInput
    else if answers[0] == "" then PasswordSpec(answers[1..])
    else if |answers| == 1 then NoInput
    else if answers[0] == answers[1] then Done(answers[0], answers[2..])
    else PasswordSpec(answers[2..])
  }

  method PromptPassword(answers: seq<string>) returns (r: Dialog<string>)
    ensures r == PasswordSpec(answers)
  {
    var i := 0;
    while i < |answers|
      invariant 0 <= i <= |answers|
      invariant PasswordSpec(answers[i..]) == PasswordSpec(answers)
    {
      var passwdTemp := answers[i];
      assert answers[i..][0] == passwdTemp && answers[i..][1..] == answers[i + 1..];
      if passwdTemp == "" {
        i := i + 1;
        continue;
      }
      if i + 1 == |answers| {
        return NoInput;
      }
      var passwdTempRepeat := answers[i + 1];
      assert answers[i..][1] == passwdTempRepeat && answers[i..][2..] == answers[i + 2..];
      if passwdTemp == passwdTempRepeat {
        return Done(passwdTemp, answers[i + 2..]);
      }
      i := i + 2;
    }
    return NoInput;
  }

  /** A password typed the same way twice is taken; two different entries
      are discarded together. */
  lemma PasswordPairs(p: string, q: string, rest: seq<string>)
    requires p != ""
    ensures PasswordSpec([p, q] + rest) == if p == q then Done(p, rest) else PasswordSpec(rest)
  {
  }

  // ----------------------------------------------------------------- device

  const UsbMarker: string := "usb"
  const ZeroSize: string := "0B"

  /** A line of `lsblk -nd -o NAME,MODEL,SIZE,TRAN` the device menu offers:
      a USB transport and a size other than zero bytes. */
  predicate OffersDevice(line: string)
  {
    Contains(line, UsbMarker) && !Contains(line, ZeroSize)
  }

  /** The offered devices: the first three characters of the line as the
      name, the rest as the description. */
  function UsbEntries(lines: seq<string>): (entries: seq<(string, string)>)
    ensures |entries| <= |lines|
    ensures forall i :: 0 <= i < |entries| ==> entries[i].0 + entries[i].1 in lines
  {
    if |lines| == 0 then []
    else
      var line := lines[|lines| - 1];
      var init := UsbEntries(lines[..|lines| - 1]);
      assert forall i :: 0 <= i < |init| ==> init[i].0 + init[i].1 in lines;
      if OffersDevice(line) then
        assert SliceTo(line, 3) + SliceFrom(line, 3) == line;
        init + [(SliceTo(line, 3), SliceFrom(line, 3))]
      else init
  }

  /** Every offered line is listed, split into name and description. */
  lemma {:induction false} UsbEntriesComplete(lines: seq<string>, i: int)
    requires 0 <= i < |lines| && OffersDevice(lines[i])
    ensures (SliceTo(lines[i], 3), SliceFrom(lines[i], 3)) in UsbEntries(lines)
    decreases |lines|
  {
    if i < |lines| - 1 {
      var init := lines[..|lines| - 1];
      assert init[i] == lines[i];
      UsbEntriesComplete(init, i);
    }
  }

  /** Every entry comes from an offered line, split into name and
      description. */
  lemma {:induction false} UsbEntriesSound(lines: seq<string>, e: (string, string))
    requires e in UsbEntries(lines)
    ensures exists i :: 0 <= i < |lines| && OffersDevice(lines[i]) && e == (SliceTo(lines[i], 3), SliceFrom(lines[i], 3))
    decreases |lines|
  {
    var init := lines[..|lines| - 1];
    var last := lines[|lines| - 1];
    if e in UsbEntries(init) {
      UsbEntriesSound(init, e);
      var i :| 0 <= i < |init| && OffersDevice(init[i]) && e == (SliceTo(init[i], 3), SliceFrom(init[i], 3));
      assert init[i] == lines[i];
    } else {
      assert OffersDevice(last) && e == (SliceTo(last, 3), SliceFrom(last, 3));
    }
  }

  /** Without an offered line there is nothing to choose from. */
  lemma {:induction false} UsbEntriesNone(lines: seq<string>)
    requires forall i :: 0 <= i < |lines| ==> !OffersDevice(lines[i])
    ensures UsbEntries(lines) == []
    decreases |lines|
  {
    if |lines| > 0 {
      UsbEntriesNone(lines[..|lines| - 1]);
    }
  }

  /** One more `lsblk` line adds its entry exactly when it is offered. */
  lemma UsbEntriesStep(lines: seq<string>, n: nat)
    requires n < |lines|
    ensures UsbEntries(lines[..n + 1]) == UsbEntries(lines[..n]) +
              if OffersDevice(lines[n]) then [(SliceTo(lines[n], 3), SliceFrom(lines[n], 3))] else []
  {
    assert lines[..n + 1][..n] == lines[..n] && lines[..n + 1][n] == lines[n];
  }

  /** The loop filling `usb_array` and `usb_info_array`. */
  method ListUsbDevices(lsblkOut: seq<string>) returns (usbArray: seq<string>, usbInfoArray: seq<string>)
    ensures |usbArray| == |usbInfoArray| == |UsbEntries(lsblkOut)|
    ensures forall i :: 0 <= i < |usbArray| ==> (usbArray[i], usbInfoArray[i]) == UsbEntries(lsblkOut)[i]
  {
    usbArray, usbInfoArray := [], [];
    ghost var entries: seq<(string, string)> := [];
    for n := 0 to |lsblkOut|
      invariant entries == UsbEntries(lsblkOut[..n])
      invariant |usbArray| == |usbInfoArray| == |entries|
      invariant forall i :: 0 <= i < |entries| ==> usbArray[i] == entries[i].0
      invariant forall i :: 0 <= i < |entries| ==> usbInfoArray[i] == entries[i].1
    {
      var line := lsblkOut[n];
      UsbEntriesStep(lsblkOut, n);
      if Find(line, UsbMarker) != -1 && Find(line, ZeroSize) == -1 {
        var name, info := SliceTo(line, 3), SliceFrom(line, 3);
        usbArray := usbArray + [name];
        usbInfoArray := usbInfoArray + [info];
        entries := entries + [(name, info)];
      }
    }
    assert lsblkOut[..|lsblkOut|] == lsblkOut;
  }

  /** The names of the offered devices, in menu order. */
  function DeviceNames(entries: seq<(string, string)>): (names: seq<string>)
    ensures |names| == |entries|
    ensures forall i :: 0 <= i < |entries| ==> names[i] == entries[i].0
  {
    seq(|entries|, i requires 0 <= i < |entries| => entries[i].0)
  }

  /** The device question: skipped (and the image kept) when asked to or
      when `/sys/dev/block` is missing, and when no device is offered;
      otherwise the menu of the offered names and `image`, whose answer
      becomes the device unless it is `image`. */
  method ChooseDevice(answers: seq<string>, skipDevice: bool, sysDevBlock: bool, lsblkOut: seq<string>)
    returns (r: Dialog<string>)
    ensures (skipDevice || !sysDevBlock || |UsbEntries(lsblkOut)| == 0) ==> r == Done("image", answers)
    ensures !(skipDevice || !sysDevBlock || |UsbEntries(lsblkOut)| == 0) ==>
              r == MenuAnswer(answers, DeviceNames(UsbEntries(lsblkOut)) + ["image"])
    ensures r.Done? ==> r.value == "image" || exists i :: 0 <= i < |UsbEntries(lsblkOut)| && UsbEntries(lsblkOut)[i].0 == r.value
  {
    if skipDevice || !sysDevBlock {
      return Done("image", answers);
    }
    var usbArray, usbInfoArray := ListUsbDevices(lsblkOut);
    if |usbArray| == 0 {
      return Done("image", answers);
    }
    assert usbArray == DeviceNames(UsbEntries(lsblkOut));
    var device := MenuAnswer(answers, usbArray + ["image"]);
    if !device.Done? {
      return NoInput;
    }
    if device.value == "image" {
      return Done("image", device.rest);
    }
    ghost var k :| 0 <= k < |usbArray| + 1 && (usbArray + ["image"])[k] == device.value;
    assert k < |usbArray| && UsbEntries(lsblkOut)[k].0 == device.value;
    return Done(device.value, device.rest);
  }

  // ------------------------------------------------------------ the dialog

  /** The shell menu and the kernel menu. */
  const ShellOptions: seq<string> := ["bash", "fish", "zsh"]
  const KernelOptions: seq<string> := ["ChromeOS", "Mainline"]

  /** `get_user_input`: the dialogs in order, each filling in its fields of
      the options, which start from their defaults. The first answer is the
      one the welcome screen waits for. */
  method GetUserInput(answers: seq<string>, skipDevice: bool, sysDevBlock: bool, lsblkOut: seq<string>)
    returns (r: Dialog<BuildOptions>)
    ensures r.Done? ==> r.value.distroName in KnownDistros
    ensures r.Done? && r.value.distroName == "ubuntu" ==> r.value.distroVersion in UbuntuVersions
    ensures r.Done? && r.value.distroName == "fedora" ==> r.value.distroVersion in FedoraVersions
    ensures r.Done? && r.value.distroName == "pop-os" ==> r.value.deName == "cosmic-gnome"
    ensures r.Done? && r.value.distroName == "generic" ==> r.value.distroVersion == "generic" && r.value.deName == "generic"
    ensures r.Done? && r.value.distroName !in {"pop-os", "generic"} ==>
              var menu := BaseDesktops + ExtraDesktops(r.value.distroName, r.value.distroVersion) + ["cli"];
              exists k :: 0 <= k < |menu| && r.value.deName == Lower(menu[k])
    ensures r.Done? ==> r.value.shell in ShellOptions
    ensures r.Done? ==> r.value.username == DefaultUsername || (r.value.username != "" && ValidUsername(r.value.username))
    ensures r.Done? ==> r.value.password != ""
    ensures r.Done? ==> r.value.kernelType in {"chromeos", "mainline"}
    ensures r.Done? && (skipDevice || !sysDevBlock || |UsbEntries(lsblkOut)| == 0) ==> r.value.device == "image"
    ensures r.Done? ==>
              (r.value.device == "image" ||
               exists i :: 0 <= i < |UsbEntries(lsblkOut)| && UsbEntries(lsblkOut)[i].0 == r.value.device)
  {
    if |answers| == 0 {
      return NoInput;
    }
    var distro := ChooseDistro(answers[1..], DefaultOptions.deName);
    if !distro.Done? {
      return if distro.Exited? then Exited else NoInput;
    }
    var choice := distro.value;
    var deName := choice.de;
    var rest := distro.rest;
    ghost var menu := BaseDesktops + ExtraDesktops(choice.name, choice.version) + ["cli"];
    ghost var deIndex := 4;
    if ShowsDesktopMenu(choice.name, choice.skipDe) {
      var deList, flagsList := DesktopMenu(choice.name, choice.version);
      var de := ChooseDesktop(rest, deList);
      if !de.Done? {
        return NoInput;
      }
      deIndex :| 0 <= deIndex < |deList| && de.value == Lower(deList[deIndex]);
      deName := de.value;
      rest := de.rest;
    } else if choice.name == "pop-os" {
      deName := "cosmic-gnome";
    } else if choice.name != "generic" {
      DesktopKeys();
      assert deName == Lower(menu[deIndex]);
    }
    var shell := MenuAnswer(rest, ShellOptions);
    if !shell.Done? {
      return NoInput;
    }
    rest := shell.rest;
    var username := PromptUsername(rest);
    if !username.Done? {
      return NoInput;
    }
    rest := username.rest;
    var password := PromptPassword(rest);
    if !password.Done? {
      return NoInput;
    }
    rest := password.rest;
    var kernelType := MenuAnswer(rest, KernelOptions);
    if !kernelType.Done? {
      return NoInput;
    }
    var kernelTypeName := Lower(kernelType.value);
    KernelTypeNames(kernelType.value);
    rest := kernelType.rest;
    var device := ChooseDevice(rest, skipDevice, sysDevBlock, lsblkOut);
    if !device.Done? {
      return NoInput;
    }
    var outputDict := DefaultOptions.(distroName := choice.name, distroVersion := choice.version, deName := deName,
                                      shell := shell.value, username := username.value, password := password.value,
                                      kernelType := kernelTypeName, device := device.value);
    return Done(outputDict, device.rest);
  }

  /** The kernel types as stored: the menu entry in lower case. */
  lemma KernelTypeNames(selection: string)
    requires selection in KernelOptions
    ensures Lower(selection) == if selection == "ChromeOS" then "chromeos" else "mainline"
  {
  }
}
