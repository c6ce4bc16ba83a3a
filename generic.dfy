/** The generic-ISO branch of `extract_rootfs` (build.py): the two prompt
    loops and the decision where the root filesystem is copied from. The
    user's answers are a given sequence (running out of answers stands for
    a user who never gives a valid one); which paths exist is a given set;
    the walks of the mounted ISO, squashfs and `.img` are inputs. */
module GenericIso {
  import opened Strings
  import opened Wrappers
  import opened Discovery
  import opened Finish

  /** `prompt_user_for_rootfs` drops one trailing slash from the answer. */
  function TrimmedRootfsAnswer(answer: string): (r: string)
    ensures EndsWith(answer, "/") ==> r + "/" == answer
    ensures !EndsWith(answer, "/") ==> r == answer
  {
    if EndsWith(answer, "/") then
      var r := SliceTo(answer, -1);
      assert answer == answer[..|answer| - 1] + answer[|answer| - 1..];
      r
    else answer
  }

  /** The answer is accepted when the directory has `usr` and `bin`. */
  predicate RootfsAccepted(answer: string, existing: set<string>)
  {
    var p := TrimmedRootfsAnswer(answer);
    p + "/usr" in existing && p + "/bin" in existing
  }

  /** `prompt_user_for_rootfs`: ask until the path holds a root filesystem;
      the first accepted answer, trimmed. */
  method PromptRootfs(answers: seq<string>, existing: set<string>) returns (r: Option<string>)
    ensures r.None? ==> forall i :: 0 <= i < |answers| ==> !RootfsAccepted(answers[i], existing)
    ensures r.Some? ==> exists i :: 0 <= i < |answers| && RootfsAccepted(answers[i], existing) &&
                          r.value == TrimmedRootfsAnswer(answers[i]) &&
                          forall j :: 0 <= j < i ==> !RootfsAccepted(answers[j], existing)
  {
    var i := 0;
    while i < |answers|
      invariant 0 <= i <= |answers|
      invariant forall j :: 0 <= j < i ==> !RootfsAccepted(answers[j], existing)
    {
      var userRootfsPath := answers[i];
      if EndsWith(userRootfsPath, "/") {
        userRootfsPath := SliceTo(userRootfsPath, -1);
      }
      if userRootfsPath + "/usr" in existing && userRootfsPath + "/bin" in existing {
        return Some(userRootfsPath);
      }
      i := i + 1;
    }
    return None;
  }

  predicate IsoAccepted(path: string, existing: set<string>)
  {
    path in existing && EndsWith(path, ".iso")
  }

  /** The ISO prompt: ask until the path exists and ends in `.iso`. */
  method PromptIso(answers: seq<string>, existing: set<string>) returns (r: Option<string>)
    ensures r.None? ==> forall i :: 0 <= i < |answers| ==> !IsoAccepted(answers[i], existing)
    ensures r.Some? ==> exists i :: 0 <= i < |answers| && answers[i] == r.value && IsoAccepted(r.value, existing) &&
                          forall j :: 0 <= j < i ==> !IsoAccepted(answers[j], existing)
  {
    var i := 0;
    while i < |answers|
      invariant 0 <= i <= |answers|
      invariant forall j :: 0 <= j < i ==> !IsoAccepted(answers[j], existing)
    {
      var isoPath := answers[i];
      if !(isoPath in existing) || !EndsWith(isoPath, ".iso") {
        i := i + 1;
        continue;
      }
      return Some(isoPath);
    }
    return None;
  }

  /** Where the root filesystem is copied from. */
  datatype RootfsSource =
    | ManualPath                         // the path `prompt_user_for_rootfs` returns
    | SquashfsRoot(squashfs: string)     // the extracted squashfs itself
    | ImgRoot(img: string, dir: string)  // a directory inside the `.img` from the squashfs

  /** What the branch does: whether it asks for a root filesystem path it
      then does not use, whether it mounts the ISO, and where the root
      filesystem comes from. */
  datatype GenericPlan = GenericPlan(discardedPrompt: bool, mountsIso: bool, source: RootfsSource)

  /** The inputs of the searches: the walk of the mounted ISO, whether the
      extracted squashfs itself has `usr` and `bin`, the walk of the
      extracted squashfs and the walk of the mounted `.img`. */
  datatype IsoContents = IsoContents(isoWalk: seq<WalkEntry>, extractHasRoot: bool,
                                     extractWalk: seq<WalkEntry>, imgWalk: seq<WalkEntry>)

  /** The source once the ISO is mounted: the squashfs, then an `.img` in
      it, then a root directory in that; any search that comes up empty
      falls back to the manual path. */
  function SourceFromIso(iso: IsoContents): (r: RootfsSource)
    ensures r.SquashfsRoot? ==> r.squashfs == SquashfsPath(iso.isoWalk) != "" && iso.extractHasRoot
    ensures r.ImgRoot? ==> r.img == ImgPath(iso.extractWalk) != "" && r.dir == RootfsDirOf(iso.imgWalk) != ""
    ensures r.ManualPath? <==> (SquashfsPath(iso.isoWalk) == "" ||
                                (!iso.extractHasRoot && (ImgPath(iso.extractWalk) == "" || RootfsDirOf(iso.imgWalk) == "")))
  {
    var filePath := SquashfsPath(iso.isoWalk);
    if filePath == "" then ManualPath
    else if iso.extractHasRoot then SquashfsRoot(filePath)
    else
      var imgFilePath := ImgPath(iso.extractWalk);
      if imgFilePath == "" then ManualPath
      else
        var imgRootfsPath := RootfsDirOf(iso.imgWalk);
        if imgRootfsPath == "" then ManualPath else ImgRoot(imgFilePath, imgRootfsPath)
  }

  /** The branch as the source has it: on Crostini it reports that ISOs
      cannot be mounted and asks for a root filesystem path, but discards
      the answer and mounts the ISO all the same. */
  function GenericPlanAsWritten(productName: string, iso: IsoContents): GenericPlan
  {
    GenericPlan(productName == Crostini, true, SourceFromIso(iso))
  }

  /** Whatever the ISO holds, on Crostini the path the user is made to
      enter is never used, and the ISO, which Crostini cannot mount, is
      mounted anyway; the corrected branch differs from it every time. */
  lemma CrostiniPromptDiscarded(iso: IsoContents)
    ensures var plan := GenericPlanAsWritten(Crostini, iso);
            plan.discardedPrompt && plan.mountsIso && plan != GenericPlanOf(Crostini, iso)
  {
  }

  /** The branch as its messages describe it: on Crostini the manual path is
      the root filesystem and the ISO is left alone. */
  function GenericPlanOf(productName: string, iso: IsoContents): (plan: GenericPlan)
    ensures !plan.discardedPrompt
    ensures plan.mountsIso <==> productName != Crostini
  {
    if productName == Crostini then GenericPlan(false, false, ManualPath)
    else GenericPlan(false, true, SourceFromIso(iso))
  }

  /** Outside Crostini the corrected branch is the written one; on Crostini
      it uses the manual path instead of mounting the ISO. */
  lemma GenericPlanAgreesOutsideCrostini(productName: string, iso: IsoContents)
    ensures productName != Crostini ==> GenericPlanOf(productName, iso) == GenericPlanAsWritten(productName, iso)
    ensures productName == Crostini ==> GenericPlanOf(productName, iso).source == ManualPath &&
                                         GenericPlanAsWritten(productName, iso).mountsIso
  {
  }

  /** The branch run step by step with the searches of `Discovery`. */
  method ResolveGenericRootfs(productName: string, iso: IsoContents) returns (plan: GenericPlan)
    ensures plan == GenericPlanOf(productName, iso)
  {
    if productName == Crostini {
      return GenericPlan(false, false, ManualPath);
    }
    var filePath := FindSquashfs(iso.isoWalk);
    if filePath == "" {
      return GenericPlan(false, true, ManualPath);
    }
    if iso.extractHasRoot {
      return GenericPlan(false, true, SquashfsRoot(filePath));
    }
    var imgFilePath := FindImgFile(iso.extractWalk);
    if imgFilePath == "" {
      return GenericPlan(false, true, ManualPath);
    }
    var imgRootfsPath := FindRootfsDir(iso.imgWalk);
    if imgRootfsPath == "" {
      return GenericPlan(false, true, ManualPath);
    }
    return GenericPlan(false, true, ImgRoot(imgFilePath, imgRootfsPath));
  }
}
