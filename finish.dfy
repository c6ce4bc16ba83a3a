/** The last steps of `start_build` (build.py): the local-path clean-up at
    the start, and, at the end, whether the image is shrunk or renamed and to
    which size it is truncated. */
module Finish {
  import opened Strings
  import opened Wrappers
  import opened Target

  /** `--local-path` as `start_build` uses it: with exactly one trailing
      slash added when it has none, or empty when the option is absent. */
  function LocalPathPosix(localPath: Option<string>): (r: string)
    ensures localPath.None? ==> r == ""
    ensures localPath.Some? ==> EndsWith(r, "/") && StartsWith(r, localPath.value)
    ensures localPath.Some? ==> |r| == |localPath.value| + (if EndsWith(localPath.value, "/") then 0 else 1)
  {
    match localPath
    case None => ""
    case Some(p) =>
      if EndsWith(p, "/") then p
      else
        var r := p + "/";
        assert r[..|p|] == p && r[|r| - 1..] == "/";
        r
  }

  /** Cleaning a cleaned path changes nothing. */
  lemma LocalPathPosixIdempotent(localPath: Option<string>)
    requires localPath.Some?
    ensures LocalPathPosix(Some(LocalPathPosix(localPath))) == LocalPathPosix(localPath)
  {
  }

  /** The files looked up under the local path are the names appended to it,
      one directory level below it. */
  lemma LocalFileUnderPath(localPath: string, name: string)
    ensures var dir := LocalPathPosix(Some(localPath));
            StartsWith(dir + name, localPath) && (dir + name)[|dir| - 1] == '/'
  {
  }

  /** The DMI product name as read from `/sys/devices/virtual/dmi/id/product_name`
      (stripped), or empty where the file is missing (WSL). */
  function ProductName(productFile: Option<string>): (r: string)
    ensures productFile.None? ==> r == ""
    ensures r == [] || (!IsSpace(r[0]) && !IsSpace(r[|r| - 1]))
    ensures productFile.Some? ==>
              var c := productFile.value;
              exists i :: 0 <= i <= |c| - |r| && AllSpace(c[..i]) && c[i..i + |r|] == r && AllSpace(c[i + |r|..])
  {
    match productFile
    case None => ""
    case Some(contents) =>
      StripMeaning(contents);
      Strip(contents)
  }

  const Crostini: string := "crosvm"

  /** The file as the kernel exposes it ends in a newline; stripping is what
      makes the Crostini test match. */
  lemma CrostiniDetected()
    ensures ProductName(Some(Crostini + "\n")) == Crostini
  {
    var s := Crostini + "\n";
    assert IsSpace(s[|s| - 1]) && s[..|s| - 1] == Crostini;
    assert !IsSpace(Crostini[|Crostini| - 1]) && !IsSpace(Crostini[0]);
    assert RStrip(s) == Crostini;
    assert LStrip(Crostini) == Crostini;
  }

  /** Two 64 MiB kernel partitions. */
  const KernelPartitionsBytes: nat := 134217728
  /** The room left after the root filesystem "for Linux to boot". */
  const BootMarginBytes: nat := 20971520
  const BlockSize: nat := 4096

  /** The size `truncate` gives the image after `resize2fs -M`, from the
      block count `dumpe2fs` reports. */
  function ShrunkImageSize(blockCount: nat): (size: nat)
    ensures size >= KernelPartitionsBytes + BootMarginBytes
    ensures (size - KernelPartitionsBytes - BootMarginBytes) % BlockSize == 0
  {
    var actualFsInBytes := blockCount * BlockSize;
    var actualFsInBytes := actualFsInBytes + KernelPartitionsBytes;
    actualFsInBytes + BootMarginBytes
  }

  /** The truncated image still holds the whole root filesystem, which
      starts at 129 MiB in the layout, and leaves 19 MiB after it: the added
      20 MiB minus the 1 MiB before the first kernel partition. The constant
      for the kernel partitions is the layout's two 64 MiB partitions. */
  lemma ShrunkImageHoldsRootfs(blockCount: nat)
    ensures KernelPartitionsBytes == (Layout[1].endMiB.value - Layout[0].startMiB) * MiB
    ensures Layout[2].startMiB * MiB + blockCount * BlockSize + 19 * MiB == ShrunkImageSize(blockCount)
    ensures Layout[2].startMiB * MiB + blockCount * BlockSize < ShrunkImageSize(blockCount)
  {
  }

  /** What happens to `depthboot.img` once it is written. */
  datatype ImageFinish = ImageFinish(truncateTo: Option<nat>, renameToBin: bool)

  /** `start_build`'s final step for the target `device`: nothing for a USB
      drive or SD card; for an image, shrink it unless on Crostini or asked
      not to, and rename it to `.bin` on Crostini. */
  function FinishImage(device: string, productFile: Option<string>, noShrink: bool, blockCount: nat): (r: Option<ImageFinish>)
    ensures r.Some? <==> device == "image"
    ensures r.Some? ==> (r.value.truncateTo.Some? <==> ProductName(productFile) != Crostini && !noShrink)
    ensures r.Some? ==> (r.value.renameToBin <==> ProductName(productFile) == Crostini)
    ensures r.Some? && r.value.truncateTo.Some? ==> r.value.truncateTo.value == ShrunkImageSize(blockCount)
  {
    if device == "image" then
      var productName := ProductName(productFile);
      var shrink := if productName != Crostini && !noShrink then Some(ShrunkImageSize(blockCount)) else None;
      Some(ImageFinish(shrink, productName == Crostini))
    else None
  }

  /** An image is never both shrunk and renamed, and it is left as it is
      exactly when shrinking was turned off outside Crostini. */
  lemma ShrinkAndRenameExclusive(device: string, productFile: Option<string>, noShrink: bool, blockCount: nat)
    requires device == "image"
    ensures var f := FinishImage(device, productFile, noShrink, blockCount).value;
            !(f.truncateTo.Some? && f.renameToBin) &&
            (f.truncateTo.None? && !f.renameToBin <==> noShrink && ProductName(productFile) != Crostini)
  {
  }
}
