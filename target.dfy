/** The build target (build.py: `prepare_img`, `prepare_usb_sd`, `partition`
    and the partition names reused by `post_config`): which block device the
    image is written to, how it is partitioned and how its partitions are
    named. Every shell command is opaque; what the model keeps of them is
    their outcome, passed in as a parameter. */
module Target {
  import opened Strings
  import opened Wrappers

  /** Why preparing the target stops the build. */
  datatype BuildError =
    | LoopSetupFailed        // losetup raised outside WSL: the exception propagates
    | LoopSetupFailedOnWsl   // losetup raised under WSL: exit code 1
    | ImageNotMounted        // losetup printed nothing: exit code 1
    | PartitionTableFailed   // parted could not write the GPT label: exit code 1

  /** What `losetup -f --show depthboot.img` did: printed a loop device, or raised. */
  datatype LoopSetup = Attached(device: string) | LoopFailed

  /** The last character of a device name given as a partition or a
      directory: `sda1`, `sda2`, `sda/`. */
  predicate HasPartitionSuffix(device: string)
  {
    |device| > 0 && device[|device| - 1] in {'/', '1', '2'}
  }

  /** `prepare_usb_sd`'s first fix: drop one trailing `/`, `1` or `2`. */
  function StripPartitionSuffix(device: string): (r: string)
    ensures StartsWith(device, r)
    ensures HasPartitionSuffix(device) ==> |r| == |device| - 1
    ensures !HasPartitionSuffix(device) ==> r == device
  {
    if EndsWith(device, "/") || EndsWith(device, "1") || EndsWith(device, "2") then
      SliceTo(device, -1)
    else
      assert !HasPartitionSuffix(device) by {
        if |device| > 0 {
          var last := device[|device| - 1];
          assert device[|device| - 1..] == [last];
        }
      }
      device
  }

  const DevDir: string := "/dev/"

  /** `prepare_usb_sd`'s second fix: put `/dev/` in front of a bare name. */
  function AddDevPrefix(device: string): (r: string)
    ensures StartsWith(r, DevDir)
    ensures EndsWith(r, device)
    ensures StartsWith(device, DevDir) <==> r == device
  {
    if StartsWith(device, DevDir) then device
    else
      var r := DevDir + device;
      assert r[..|DevDir|] == DevDir;
      assert r[|r| - |device|..] == device;
      r
  }

  /** The device path `prepare_usb_sd` stores in `img_mnt`. */
  function NormalizeDevice(device: string): (r: string)
    ensures StartsWith(r, DevDir)
  {
    AddDevPrefix(StripPartitionSuffix(device))
  }

  /** The normalised path is the name with at most one trailing `/`, `1` or
      `2` dropped, and `/dev/` in front unless the name already had it. */
  lemma NormalizeDeviceShape(device: string)
    ensures var stripped := if HasPartitionSuffix(device) then device[..|device| - 1] else device;
            NormalizeDevice(device) == (if StartsWith(stripped, DevDir) then stripped else DevDir + stripped)
  {
  }

  /** A normalised path that ends in neither `/`, `1` nor `2` is left alone
      by a second normalisation. */
  lemma NormalizeDeviceStable(device: string)
    requires !HasPartitionSuffix(NormalizeDevice(device))
    ensures NormalizeDevice(NormalizeDevice(device)) == NormalizeDevice(device)
  {
  }

  /** An SD card whose name ends in the digit 1 loses that digit: the suffix
      rule treats the device number of `mmcblk1` like a partition number. */
  lemma NormalizeDropsCardNumber()
    ensures NormalizeDevice("mmcblk1") == DevDir + "mmcblk"
  {
    assert EndsWith("mmcblk1", "1");
    assert SliceTo("mmcblk1", -1) == "mmcblk";
    assert "mmcblk"[0] != DevDir[0];
  }

  const SdCardMarker: string := "mmcblk"

  /** `prepare_usb_sd`'s classification: a USB drive unless the device path
      names an SD card (`mmcblk`). Images always count as not USB. */
  predicate IsUsb(devicePath: string)
  {
    !Contains(devicePath, SdCardMarker)
  }

  /** Partition numbers used by the layout. */
  type PartNum = n: int | 1 <= n <= 3 witness 1

  function DigitOf(n: PartNum): (c: char)
    ensures '1' <= c <= '3'
    ensures c as int - '0' as int == n
  {
    ['0', '1', '2', '3'][n]
  }

  /** The infix between the device and the partition number: none for USB
      drives (`/dev/sdb3`), `p` for loop devices and SD cards
      (`/dev/loop0p3`, `/dev/mmcblk0p3`). */
  function PartitionInfix(isUsb: bool): string
  {
    if isUsb then "" else "p"
  }

  /** The path of partition `n` of `device`, as `partition` and `post_config`
      spell it. */
  function PartitionPath(device: string, isUsb: bool, n: PartNum): (r: string)
    ensures |r| == |device| + |PartitionInfix(isUsb)| + 1
    ensures StartsWith(r, device)
    ensures r[|r| - 1] == DigitOf(n)
  {
    var r := device + PartitionInfix(isUsb) + [DigitOf(n)];
    assert r[..|device|] == device;
    r
  }

  /** The `p` infix is there exactly when the target is not a USB drive, and
      the number follows right after it. */
  lemma PartitionPathInfix(device: string, isUsb: bool, n: PartNum)
    ensures var r := PartitionPath(device, isUsb, n);
            (|r| == |device| + 2 && r[|device|] == 'p') <==> !isUsb
    ensures StartsWith(PartitionPath(device, isUsb, n), device + PartitionInfix(isUsb))
  {
  }

  /** Different partitions of one target never share a path. */
  lemma PartitionPathInjective(device: string, isUsb: bool, m: PartNum, n: PartNum)
    requires m != n
    ensures PartitionPath(device, isUsb, m) != PartitionPath(device, isUsb, n)
  {
  }

  /** The depthcharge attributes `cgpt add -t kernel` sets on a kernel
      partition: successful (`-S`), tries left (`-T`) and priority (`-P`). */
  datatype KernelAttrs = KernelAttrs(successful: nat, tries: nat, priority: nat)

  /** One entry of the GPT layout `partition` writes with parted and cgpt. */
  datatype GptEntry = GptEntry(name: string, startMiB: nat, endMiB: Option<nat>, kernel: Option<KernelAttrs>)

  /** Partition 1 and 2 hold the kernel (1 with cgpt priority 15, its backup
      2 with priority 1, both marked successful with 5 tries) and 3 the root
      filesystem up to the end (`100%`). */
  const Layout: seq<GptEntry> := [
    GptEntry("Kernel", 1, Some(65), Some(KernelAttrs(1, 5, 15))),
    GptEntry("Kernel", 65, Some(129), Some(KernelAttrs(1, 5, 1))),
    GptEntry("Root", 129, None, None)
  ]

  const MiB: nat := 1048576

  /** The kernel partitions are 64 MiB each, consecutive, both marked
      successful with 5 tries, the first one boots first, and the root
      filesystem starts where the backup kernel ends. */
  lemma LayoutShape()
    ensures |Layout| == 3
    ensures forall i :: 0 <= i < 2 ==> Layout[i].name == "Kernel" && Layout[i].endMiB == Some(Layout[i].startMiB + 64)
    ensures forall i :: 0 <= i < 2 ==> Layout[i].kernel.Some? && Layout[i].kernel.value.successful == 1 && Layout[i].kernel.value.tries == 5
    ensures Layout[0].endMiB == Some(Layout[1].startMiB) && Layout[1].endMiB == Some(Layout[2].startMiB)
    ensures Layout[0].kernel.value.priority > Layout[1].kernel.value.priority
    ensures Layout[2].endMiB == None && Layout[2].kernel == None
    ensures (Layout[1].endMiB.value - Layout[0].startMiB) * MiB == 134217728
  {
  }

  /** The build's target state: `img_mnt`, the device the image is written
      to, and the partition `partition` formatted and mounted at
      `/mnt/depthboot`. */
  class Session {
    var imgMnt: string
    var mountedRootfs: Option<string>
    var table: seq<GptEntry>

    /** The module starts with `img_mnt` empty and nothing partitioned. */
    constructor ()
      ensures imgMnt == "" && mountedRootfs == None && table == []
    {
      imgMnt := "";
      mountedRootfs := None;
      table := [];
    }

    /** The root partition of the target, as `post_config` looks it up. */
    function RootfsPartition(isUsb: bool): (r: string)
      reads this
      ensures StartsWith(r, imgMnt) && |r| > 0 && r[|r| - 1] == '3'
    {
      PartitionPath(imgMnt, isUsb, 3)
    }

    /** The two partitions `post_config` writes the signed kernel to: the
        kernel partition and its backup. */
    function KernelTargets(isUsb: bool): (r: seq<string>)
      reads this
      ensures |r| == 2 && r[0] != r[1]
      ensures forall i :: 0 <= i < 2 ==> StartsWith(r[i], imgMnt) && r[i] != RootfsPartition(isUsb)
      ensures forall i :: 0 <= i < 2 ==> |r[i]| > 0 && r[i][|r[i]| - 1] == DigitOf(i + 1)
    {
      PartitionPathInjective(imgMnt, isUsb, 1, 2);
      PartitionPathInjective(imgMnt, isUsb, 1, 3);
      PartitionPathInjective(imgMnt, isUsb, 2, 3);
      [PartitionPath(imgMnt, isUsb, 1), PartitionPath(imgMnt, isUsb, 2)]
    }

    /** `partition`: wipe the old partition table, label, lay out and format
        the target, then mount its root partition. `mklabelOk` is whether
        `parted mklabel gpt` succeeded; the wipe has happened either way. */
    method Partition(writeUsb: bool, mklabelOk: bool) returns (r: Result<(), BuildError>)
      modifies this
      ensures imgMnt == old(imgMnt)
      ensures r.Ok? <==> mklabelOk
      ensures r.Err? ==> r.error == PartitionTableFailed
      ensures r.Ok? ==> table == Layout && mountedRootfs == Some(RootfsPartition(writeUsb))
      ensures r.Err? ==> table == [] && mountedRootfs == old(mountedRootfs)
    {
      var rootfsMnt := PartitionPath(imgMnt, writeUsb, 3);
      table := [];
      if !mklabelOk {
        return Err(PartitionTableFailed);
      }
      table := Layout;
      mountedRootfs := Some(rootfsMnt);
      return Ok(());
    }

    /** `prepare_img`: attach `depthboot.img` to a loop device and partition
        it. On success the target is never a USB drive. */
    method PrepareImg(attach: LoopSetup, underWsl: bool, mklabelOk: bool) returns (r: Result<bool, BuildError>)
      modifies this
      ensures attach.LoopFailed? ==> imgMnt == old(imgMnt) && r == Err(if underWsl then LoopSetupFailedOnWsl else LoopSetupFailed)
      ensures attach.Attached? ==> imgMnt == attach.device
      ensures attach == Attached("") ==> r == Err(ImageNotMounted)
      ensures attach.Attached? && attach.device != "" ==>
                (r == Ok(false) <==> mklabelOk) && (r.Err? ==> r.error == PartitionTableFailed)
      ensures r.Ok? ==> r.value == false && table == Layout && mountedRootfs == Some(RootfsPartition(false))
      ensures r.Err? && r.error != PartitionTableFailed ==> table == old(table) && mountedRootfs == old(mountedRootfs)
      ensures r == Err(PartitionTableFailed) ==> table == [] && mountedRootfs == old(mountedRootfs)
    {
      if attach.LoopFailed? {
        if !underWsl {
          return Err(LoopSetupFailed);
        }
        return Err(LoopSetupFailedOnWsl);
      }
      imgMnt := attach.device;
      if imgMnt == "" {
        return Err(ImageNotMounted);
      }
      var p := Partition(false, mklabelOk);
      if p.Err? {
        return Err(p.error);
      }
      return Ok(false);
    }

    /** `prepare_usb_sd`: normalise the device name, classify it and
        partition it; returns whether it is a USB drive. */
    method PrepareUsbSd(device: string, mklabelOk: bool) returns (r: Result<bool, BuildError>)
      modifies this
      ensures imgMnt == NormalizeDevice(device) && StartsWith(imgMnt, DevDir)
      ensures r.Ok? <==> mklabelOk
      ensures r.Ok? ==> r.value == IsUsb(imgMnt) && table == Layout && mountedRootfs == Some(RootfsPartition(r.value))
      ensures r.Err? ==> r.error == PartitionTableFailed && table == [] && mountedRootfs == old(mountedRootfs)
    {
      var dev := device;
      if EndsWith(dev, "/") || EndsWith(dev, "1") || EndsWith(dev, "2") {
        dev := SliceTo(dev, -1);
      }
      if !StartsWith(dev, DevDir) {
        dev := DevDir + dev;
      }
      imgMnt := dev;
      var isUsb := !Contains(imgMnt, SdCardMarker);
      var p := Partition(isUsb, mklabelOk);
      if p.Err? {
        return Err(p.error);
      }
      return Ok(isUsb);
    }
  }

  /** The partition names a prepared target uses all have the `p` infix
      exactly when its device path names an SD card. */
  lemma SdCardUsesInfix(devicePath: string, n: PartNum)
    ensures var r := PartitionPath(devicePath, IsUsb(devicePath), n);
            (|r| == |devicePath| + 2 && r[|devicePath|] == 'p') <==> Contains(devicePath, SdCardMarker)
  {
  }
}
