/** The clean-up `build.py` registers with `atexit` (`exit_handler`): it runs
    only when the build was stopped with Ctrl+C, kills Arch's gpg-agent
    daemons, found by scanning `ps aux`, and lazily unmounts the mount point
    and every partition of the target. */
module Interrupt {
  import opened Strings
  import opened Target

  /** How the interpreter is leaving: the exception in flight, if any. */
  datatype ExitCause = Finished | SystemExit(code: int) | Raised | KeyboardInterrupt

  /** A clean-up action; the commands themselves are opaque. */
  datatype CleanupStep = Kill(pid: string) | LazyUnmount(target: string) | Sleep(seconds: nat)

  /** The command line of the gpg-agent that pacman's keyring set-up starts
      ("gpg-agent --homedir /etc/pacman.d/gnupg --use-standard-socket --daemon"). */
  const GpgAgentMarker: string :=
    "gpg-agent" + " --homedir" + " /etc/pacman.d" + "/gnupg" + " --use-standard" + "-socket" + " --daemon"

  const MountPoint: string := "/mnt/depthboot"

  /** The lines of `ps aux` the handler acts on. */
  predicate IsGpgAgentLine(line: string)
  {
    Contains(line, GpgAgentMarker)
  }

  /** The guard at the top of the handler: clean up only after Ctrl+C. */
  predicate ShouldCleanUp(cause: ExitCause)
  {
    cause.KeyboardInterrupt?
  }

  /** The PID column of a `ps aux` line: the first word after the user
      column, as the handler cuts it out with `find`, `strip` and slicing. */
  function PidOf(line: string): string
  {
    var temp := Strip(SliceFrom(line, Find(line, " ")));
    SliceTo(temp, Find(temp, " "))
  }

  /** The text after the user column strips down to the PID and the command. */
  lemma StripAfterUser(pad: string, word: string)
    requires forall k :: 0 <= k < |pad| ==> pad[k] == ' '
    requires |word| > 0 && !IsSpace(word[0]) && !IsSpace(word[|word| - 1])
    ensures Strip(" " + pad + word) == word
  {
    var sp := " " + pad;
    var t := sp + word;
    assert t[|t| - 1] == word[|word| - 1];
    assert RStrip(t) == t;
    forall k | 0 <= k < |sp| ensures IsSpace(sp[k]) {
      if k > 0 {
        assert sp[k] == pad[k - 1];
      }
    }
    LStripSkipsSpaces(sp, word);
  }

  /** Cutting at the first space keeps a word that has none. */
  lemma CutAtFirstSpace(word: string, rest: string)
    requires ' ' !in word
    ensures SliceTo(word + [' '] + rest, Find(word + [' '] + rest, " ")) == word
  {
    FindAfterFreePrefix(word, ' ', rest);
    assert (word + [' '] + rest)[..|word|] == word;
  }

  /** On a `ps aux` line (user, padding, PID, then the command, which does not
      end in whitespace) the handler's slicing yields exactly the PID. */
  lemma PidOfPsLine(user: string, pad: string, pid: string, rest: string)
    requires ' ' !in user
    requires forall k :: 0 <= k < |pad| ==> pad[k] == ' '
    requires |pid| > 0 && forall k :: 0 <= k < |pid| ==> '0' <= pid[k] <= '9'
    requires |rest| > 0 && !IsSpace(rest[|rest| - 1])
    ensures PidOf(user + " " + pad + pid + " " + rest) == pid
  {
    var word := pid + [' '] + rest;
    var line := user + [' '] + (pad + word);
    assert user + " " + pad + pid + " " + rest == line;
    FindAfterFreePrefix(user, ' ', pad + word);
    assert SliceFrom(line, |user|) == " " + pad + word;
    assert word[0] == pid[0] && word[|word| - 1] == rest[|rest| - 1];
    StripAfterUser(pad, word);
    assert ' ' !in pid by {
      forall k | 0 <= k < |pid| ensures pid[k] != ' ' {
      }
    }
    CutAtFirstSpace(pid, rest);
  }

  /** The PIDs the handler collects from the lines of `ps aux`, in order: one
      for each line that shows the pacman gpg-agent. */
  function GpgPidsOf(lines: seq<string>): (pids: seq<string>)
    ensures |pids| <= |lines|
  {
    if |lines| == 0 then []
    else
      var last := lines[|lines| - 1];
      GpgPidsOf(lines[..|lines| - 1]) + (if IsGpgAgentLine(last) then [PidOf(last)] else [])
  }

  /** Every PID collected comes from a gpg-agent line. */
  lemma {:induction false} GpgPidsSound(lines: seq<string>, p: string)
    requires p in GpgPidsOf(lines)
    ensures exists i :: 0 <= i < |lines| && IsGpgAgentLine(lines[i]) && PidOf(lines[i]) == p
    decreases |lines|
  {
    var init := lines[..|lines| - 1];
    var last := lines[|lines| - 1];
    if p in GpgPidsOf(init) {
      GpgPidsSound(init, p);
      var i :| 0 <= i < |init| && IsGpgAgentLine(init[i]) && PidOf(init[i]) == p;
      assert init[i] == lines[i];
    } else {
      assert IsGpgAgentLine(last) && PidOf(last) == p;
    }
  }

  /** Every gpg-agent line contributes its PID. */
  lemma {:induction false} GpgPidsComplete(lines: seq<string>, i: int)
    requires 0 <= i < |lines| && IsGpgAgentLine(lines[i])
    ensures PidOf(lines[i]) in GpgPidsOf(lines)
    decreases |lines|
  {
    if i < |lines| - 1 {
      var init := lines[..|lines| - 1];
      assert init[i] == lines[i];
      GpgPidsComplete(init, i);
    }
  }

  /** Without a gpg-agent line nothing is killed. */
  lemma {:induction false} GpgPidsNone(lines: seq<string>)
    requires forall i :: 0 <= i < |lines| ==> !IsGpgAgentLine(lines[i])
    ensures GpgPidsOf(lines) == []
    decreases |lines|
  {
    if |lines| > 0 {
      GpgPidsNone(lines[..|lines| - 1]);
    }
  }

  /** One more line of `ps aux` adds its PID exactly when it is a gpg-agent
      line. */
  lemma GpgPidsStep(lines: seq<string>, i: nat)
    requires i < |lines|
    ensures GpgPidsOf(lines[..i + 1]) == GpgPidsOf(lines[..i]) + if IsGpgAgentLine(lines[i]) then [PidOf(lines[i])] else []
  {
    assert lines[..i + 1][..i] == lines[..i] && lines[..i + 1][i] == lines[i];
  }

  /** The handler's scan of the lines of `ps aux`. */
  method ScanPsLines(lines: seq<string>) returns (pids: seq<string>)
    ensures pids == GpgPidsOf(lines)
  {
    pids := [];
    var i := 0;
    while i < |lines|
      invariant 0 <= i <= |lines|
      invariant pids == GpgPidsOf(lines[..i])
    {
      var line := lines[i];
      GpgPidsStep(lines, i);
      if IsGpgAgentLine(line) {
        pids := pids + [PidOf(line)];
      }
      i := i + 1;
    }
    assert lines[..|lines|] == lines;
  }

  /** The unmounts that follow the kills: the mount point, a five second
      pause, then every partition of the target by the `p*` and the `*`
      glob. */
  function UnmountSteps(imgMnt: string): seq<CleanupStep>
  {
    [LazyUnmount(MountPoint), Sleep(5), LazyUnmount(imgMnt + "p*"), LazyUnmount(imgMnt + "*")]
  }

  /** One kill per collected PID, in order. */
  function KillSteps(pids: seq<string>): (steps: seq<CleanupStep>)
    ensures |steps| == |pids|
    ensures forall i :: 0 <= i < |pids| ==> steps[i] == Kill(pids[i])
  {
    if |pids| == 0 then []
    else KillSteps(pids[..|pids| - 1]) + [Kill(pids[|pids| - 1])]
  }

  /** `exit_handler`: what it does, in order, given why the program exits,
      what `ps aux` prints and the target device `img_mnt`. */
  method ExitHandler(cause: ExitCause, psOutput: string, imgMnt: string) returns (steps: seq<CleanupStep>)
    ensures !ShouldCleanUp(cause) ==> steps == []
    ensures ShouldCleanUp(cause) ==> steps == KillSteps(GpgPidsOf(Split(psOutput, '\n'))) + UnmountSteps(imgMnt)
  {
    if !cause.KeyboardInterrupt? {
      return [];
    }
    var lines := Split(psOutput, '\n');
    var pids := ScanPsLines(lines);
    steps := [];
    for i := 0 to |pids|
      invariant steps == KillSteps(pids[..i])
    {
      assert pids[..i + 1][..i] == pids[..i];
      steps := steps + [Kill(pids[i])];
    }
    assert pids[..|pids|] == pids;
    steps := steps + UnmountSteps(imgMnt);
  }

  /** A shell glob `prefix*` matches the paths that start with `prefix`. */
  predicate GlobMatches(glob: string, path: string)
  {
    |glob| > 0 && glob[|glob| - 1] == '*' && StartsWith(path, glob[..|glob| - 1])
  }

  /** The handler's globs reach every partition of the target whatever its
      kind; the `p*` glob reaches exactly the partitions of images and SD
      cards. */
  lemma UnmountGlobsCoverPartitions(imgMnt: string, isUsb: bool, n: PartNum)
    ensures GlobMatches(UnmountSteps(imgMnt)[3].target, PartitionPath(imgMnt, isUsb, n))
    ensures !isUsb ==> GlobMatches(UnmountSteps(imgMnt)[2].target, PartitionPath(imgMnt, isUsb, n))
  {
  }

  /** Every kill comes before the first unmount, and the mount point is
      unmounted before the target's partitions. */
  lemma CleanupOrder(pids: seq<string>, imgMnt: string)
    ensures var steps := KillSteps(pids) + UnmountSteps(imgMnt);
            (forall i :: 0 <= i < |pids| ==> steps[i].Kill?) &&
            (forall i :: |pids| <= i < |steps| ==> !steps[i].Kill?) &&
            steps[|pids|] == LazyUnmount(MountPoint)
  {
  }
}
