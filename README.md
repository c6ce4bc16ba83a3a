# Depthboot builder: the decisions of the build, verified

Depthboot builds a bootable Chromebook Linux image (or writes it straight to
a USB drive or SD card): `cli_input.py` asks the user for the build options,
`build.py` prepares the target, extracts the root filesystem, configures it,
writes the signed kernel and shrinks the image. Almost all of `build.py` is
shell plumbing. This project models the decisions around that plumbing in
Dafny and proves what they promise. The commands themselves (`wipefs`,
`parted`, `mount`, `dd` and the rest) are opaque. Their outcomes, file contents
and the user's answers are parameters.

Modules, one per part of the program:

- `Strings`: the Python string operations the program relies on.
  These are `find`, `in`, `replace`, `split(c)`, `strip`, `lower`, slicing
  with negative bounds and `endswith`/`startswith`.
- `Wrappers`: `Option` and `Result`.
- `Target`: the global `img_mnt` and what `prepare_img`,
  `prepare_usb_sd` and `partition` do to it (a `class Session`), the
  device-name normalisation, the USB/SD classification, the `N`/`pN`
  partition naming and the GPT layout.
- `KernelCmdline`: the `kernel.flags` string `post_config` builds and the
  kernel image it signs.
- `Interrupt`: `exit_handler` (the Ctrl+C guard, the gpg-agent PID scan
  of `ps aux`, the kills and unmounts in order).
- `Finish`: the `--local-path` clean-up, the DMI product name, the final
  shrink/rename of the image and its size arithmetic.
- `Discovery`: the searches of the generic-ISO branch over `os.walk`
  output, given as a sequence of `(dirpath, dirnames, filenames)` entries in
  walk order: biggest partition, prioritised squashfs, the nested `.img`
  search, the directory with `usr` and `bin`.
- `GenericIso`: the two prompt loops of the generic branch and the
  decision where the root filesystem is copied from.
- `PostExtract`: the settings record written to `/etc/eupnea.json` and the
  administrator groups the new user joins.
- `Options`: the build options dictionary.
- `Selection`: the arrow-key menu (`_move_pointer`, `_main_loop`) as a
  fold over key codes.
- `UserInput`: `get_user_input`. The dialogs are methods over a sequence of
  answers, starting with the one the welcome screen waits for. The distro,
  desktop, username and password loops are each proved equal to a recursive
  reference definition. The device dialog is proved against the `lsblk`
  entries it offers. A menu answer is the entry `ia_selection` returns, so
  it is always one of the entries shown.

Behaviour that may surprise a reader, modelled as the code has it:

- An SD card (`mmcblk` in the device path) is partitioned with `write_usb`
  false (build.py:114-120). It gets the `p` partition infix like a loop
  device.
- A device name that ends in `1` or `2` loses that character before
  `/dev/` is added (build.py:101-102). So `mmcblk1` becomes `/dev/mmcblk`.
- On Crostini the branch prints "Crostini doesn't support mounting iso
  files." (build.py:204) and asks for a root filesystem path. It then
  discards that path and mounts the ISO anyway (see Findings).
- When no squashfs is found in the ISO, the branch goes straight to the
  manual root filesystem prompt.

## Model

| member | source | states |
|---|---|---|
| Target.StripPartitionSuffix | build.py:102-103 | the result is a prefix of the name; exactly one character is dropped when the name ends in `/`, `1` or `2`, none otherwise |
| Target.AddDevPrefix | build.py:105-106 | the result starts with `/dev/` and ends with the given name, and equals the name exactly when the name already starts with `/dev/` |
| Target.NormalizeDevice | build.py:101-106 | the device path `prepare_usb_sd` stores always starts with `/dev/` |
| Target.NormalizeDeviceShape | build.py:101-106 | the normalised path is the name less at most one trailing `/`, `1` or `2`, with `/dev/` put in front only when missing |
| Target.NormalizeDeviceStable | build.py:101-106 | normalising a normalised path that ends in none of `/`, `1`, `2` changes nothing |
| Target.NormalizeDropsCardNumber | build.py:102-103 | the suffix rule turns the SD card name `mmcblk1` into `/dev/mmcblk` |
| Target.DigitOf | build.py:127 | partition numbers 1 to 3 are spelled by their own decimal digit |
| Target.PartitionPath | build.py:127 | a partition path is the device, the infix and one digit, and ends in the partition's digit |
| Target.PartitionPathInfix | build.py:413-420 | the path has the `p` infix exactly when the target is not a USB drive, and the digit follows the device and infix |
| Target.PartitionPathInjective | build.py:413-420 | two different partitions of one target never share a path |
| Target.LayoutShape | build.py:142-146 | two consecutive 64 MiB kernel partitions from 1 MiB, both marked successful with 5 tries, the first with the higher boot priority, then the root partition from where the backup kernel ends to the end of the disk |
| Target.Session.constructor | build.py:11 | `img_mnt` starts empty with nothing partitioned or mounted |
| Target.Session.RootfsPartition | build.py:391 | the root partition `post_config` looks up starts with `img_mnt` and ends in `3` |
| Target.Session.KernelTargets | build.py:413-420 | the kernel and its backup go to two different partitions of `img_mnt`, numbered 1 and 2, neither of them the root partition |
| Target.Session.Partition | build.py:123-153 | the old partition table is wiped first; fails with a partition-table error exactly when `mklabelOk` is false (the other commands are taken to succeed), leaving the target without a partition table and the mount alone; otherwise the target gets the layout and its partition 3 (named by the USB rule) is mounted |
| Target.Session.PrepareImg | build.py:74-94 | a `losetup` failure stops the build (an exception outside WSL, exit 1 under WSL) before `img_mnt` changes; an empty loop device stops it after; otherwise it partitions as a non-USB target and reports `is_usb` false, and a failed `mklabel` leaves no partition table |
| Target.Session.PrepareUsbSd | build.py:98-120 | `img_mnt` becomes the normalised device; it succeeds exactly when partitioning does, reporting USB exactly when the path does not name an SD card, with the root partition named accordingly; on failure the device is left without a partition table |
| Target.SdCardUsesInfix | build.py:115-120 | a prepared device uses the `p` partition infix exactly when its path contains `mmcblk` |
| KernelCmdline.KernelFlagsMeaning | build.py:396-404 | the append, replace and replace steps produce exactly the directive, ` root=PARTUUID=`, the PARTUUID, the fixed boot flags and the distro's security flag, in that order |
| KernelCmdline.TemplateWithSecurity | build.py:396-400 | the security flags appended to the base string are AppArmor for pop-os and ubuntu, SELinux for fedora, none otherwise |
| KernelCmdline.SubstitutePartuuid | build.py:404 | replacing the placeholder puts the PARTUUID in its place and changes nothing else |
| KernelCmdline.VerboseReplacement | build.py:401-402 | the verbose replacement changes the single leading `console=` into `loglevel=15` and nothing else |
| KernelCmdline.ConsoleDirectiveIffQuiet | build.py:401-402 | the flags start with `console=` exactly when the kernel is not verbose and with `loglevel=15` exactly when it is |
| KernelCmdline.SecurityFlagIffDistro | build.py:397-400 | the flags end in ` security=apparmor` exactly for pop-os and ubuntu, and in ` security=selinux` exactly for fedora |
| KernelCmdline.PartuuidFollowsRootKey | build.py:404 | ` root=PARTUUID=` followed by the PARTUUID comes right after the leading directive |
| KernelCmdline.PlaceholderGone | build.py:404 | no `insert_partuuid` is left in the written flags unless the PARTUUID itself contains it |
| KernelCmdline.VerboseReplacementIdempotent | build.py:401-402 | applying the verbose replacement to an already verbose string changes nothing |
| KernelCmdline.KernelImagePath | build.py:379-387 | the signed kernel is the local `bzImage` whenever both it and `modules.tar.xz` are under the local path; any other result is the distro's `vmlinuz-eupnea-<type>` |
| Interrupt.PidOfPsLine | build.py:26-27 | on a `ps aux` line (user, padding, numeric PID, command) the find/strip/slice steps yield exactly the PID |
| Interrupt.GpgPidsOf | build.py:23-27 | at most one PID is collected per line of `ps aux` |
| Interrupt.GpgPidsSound | build.py:24-27 | every collected PID is the PID column of a line showing the pacman gpg-agent |
| Interrupt.GpgPidsComplete | build.py:24-27 | every line showing the pacman gpg-agent contributes its PID |
| Interrupt.GpgPidsNone | build.py:24-27 | without a gpg-agent line nothing is killed |
| Interrupt.ScanPsLines | build.py:23-27 | the scan loop collects exactly the PIDs of the reference definition, in line order |
| Interrupt.KillSteps | build.py:28-30 | one kill per collected PID, in order |
| Interrupt.ExitHandler | build.py:15-42 | unless the exit is a KeyboardInterrupt the handler does nothing; otherwise it kills the gpg-agents found in `ps aux`, unmounts the mount point, waits 5 seconds and unmounts the `p*` and `*` globs of `img_mnt` |
| Interrupt.UnmountGlobsCoverPartitions | build.py:39-42 | the `*` glob reaches every partition of the target and the `p*` glob every partition of an image or SD card |
| Interrupt.CleanupOrder | build.py:28-42 | all kills come before any unmount, and the mount point is unmounted first |
| Finish.LocalPathPosix | build.py:477-483 | empty without `--local-path`; otherwise the path with a `/` at the end, added only when missing |
| Finish.LocalPathPosixIdempotent | build.py:483 | cleaning a cleaned local path changes nothing |
| Finish.LocalFileUnderPath | build.py:487-488 | a file looked up under the local path starts with the given path and sits right after a `/` |
| Finish.ProductName | build.py:543-547 | empty when the DMI file is missing; otherwise the contents are whitespace, the product name, whitespace, and the name neither starts nor ends with whitespace |
| Finish.CrostiniDetected | build.py:544-549 | the `crosvm` file contents with their trailing newline are recognised as Crostini |
| Finish.ShrunkImageSize | build.py:554-559 | the truncate size is at least the kernel partitions plus the 20 MiB boot margin, and whole blocks beyond that |
| Finish.ShrunkImageHoldsRootfs | build.py:555-559 | the two kernel partitions of the layout are 134217728 bytes, and the truncated image holds the shrunk root filesystem from its 129 MiB start with 19 MiB to spare |
| Finish.FinishImage | build.py:542-563 | only an image is finished; it is shrunk to the computed size exactly outside Crostini without `--no-shrink`, and renamed to `.bin` exactly on Crostini |
| Finish.ShrinkAndRenameExclusive | build.py:549-563 | an image is never both shrunk and renamed, and is left alone exactly when shrinking is turned off outside Crostini |
| Discovery.PathJoin | build.py:223 | an absolute file name replaces the directory; otherwise the result is the directory, then a `/` only when the directory is non-empty and does not end in one, then the file name |
| Discovery.FirstMaxIndex | build.py:215 | the index of the first largest element |
| Discovery.BiggestPartition | build.py:211-215 | defined exactly when a partition follows the whole device; then a 1-based partition index no smaller than any other partition and strictly larger than every earlier one |
| Discovery.SquashfsIn | build.py:222-237 | the highest-priority squashfs name among a directory's files, none only when it has none of the four |
| Discovery.SquashfsPathFirstDirectory | build.py:220-237 | the squashfs comes from the first walked directory offering any of the four names, with that directory's highest-priority name |
| Discovery.SquashfsPathEmptyIff | build.py:220-238 | the search yields "" exactly when no walked directory offers a squashfs |
| Discovery.FindSquashfs | build.py:220-237 | the loop with its `break`s yields the reference squashfs path |
| Discovery.FirstImg | build.py:258-262 | the first `.img` file of a directory, none only when it has none |
| Discovery.ImgPathLastDirectory | build.py:256-262 | the `.img` found is the first one of the LAST walked directory holding any, because the inner `break` leaves only the file loop |
| Discovery.ImgPathEmptyIff | build.py:256-263 | the search yields "" exactly when no walked directory holds an `.img` |
| Discovery.FindImgFile | build.py:256-262 | the nested loop yields the reference `.img` path |
| Discovery.RootfsDirFirst | build.py:274-279 | the root directory found is the first walked directory with both `usr` and `bin` |
| Discovery.RootfsDirNone | build.py:274-280 | without such a directory the search yields "" |
| Discovery.FindRootfsDir | build.py:274-279 | the loop with its `break` yields the reference root directory |
| GenericIso.TrimmedRootfsAnswer | build.py:176-177 | exactly one trailing `/` is removed, and only when present |
| GenericIso.PromptRootfs | build.py:171-183 | the first answer whose trimmed path has `usr` and `bin`, trimmed; none only when no answer qualifies |
| GenericIso.PromptIso | build.py:187-196 | the first answer that exists and ends in `.iso`; none only when no answer qualifies |
| GenericIso.SourceFromIso | build.py:238-284 | the squashfs itself when it holds `usr` and `bin`, else the root directory inside its `.img`, and the manual path exactly when one of the searches comes up empty |
| GenericIso.CrostiniPromptDiscarded | build.py:203-208 | as written, on Crostini and whatever the ISO holds, the prompted path is discarded and the ISO is mounted anyway, unlike the corrected branch |
| GenericIso.GenericPlanOf | build.py:203-205 | corrected: no prompt result is discarded, and the ISO is mounted exactly outside Crostini |
| GenericIso.GenericPlanAgreesOutsideCrostini | build.py:197-208 | outside Crostini the corrected branch is the written one; on Crostini it uses the manual path where the written one mounts the ISO |
| GenericIso.ResolveGenericRootfs | build.py:197-284 | the branch run step by step with the search loops is the corrected plan |
| PostExtract.SettingsRecord | build.py:318-327 | nothing is written for a generic ISO; otherwise the template with distro, version, desktop and shell from the options, `install_type` set to `direct` when writing to a device, and every other key kept |
| PostExtract.InstallTypeIffDevice | build.py:324-325 | the record says `direct` exactly when writing to a device |
| PostExtract.GroupName | build.py:351 | the group name is the text of the line before its first `:`, or the whole line when it has none |
| PostExtract.AdminGroupsOf | build.py:350-357 | at most one group per line, each of them `sudo`, `wheel` or `doas` |
| PostExtract.AdminGroupsSound | build.py:350-357 | every group joined is named by a line of `/etc/group` |
| PostExtract.AdminGroupsComplete | build.py:350-357 | every `sudo`, `wheel` or `doas` line of `/etc/group` makes the user join that group |
| PostExtract.GroupsToJoin | build.py:348-357 | the loop over the group lines joins exactly the reference groups, in file order |
| Selection.MovePointer | cli_input.py:284-286 | the up arrow moves one entry up and stops at the first, any other key one down and stops at the last; the pointer stays in range |
| Selection.IndexAfter | cli_input.py:288-296 | after any run of keys the pointer is on an existing entry |
| Selection.NonArrowIgnored | cli_input.py:293-294 | keys other than the arrows do not move the pointer |
| Selection.DownPresses | cli_input.py:284-286 | `n` down arrows from the top reach entry `min(n, length - 1)` |
| Selection.ArrowDirection | cli_input.py:284-286 | an up arrow never moves the pointer down, a down arrow never up |
| Selection.Select | cli_input.py:288-303 | the option under the pointer at the first Enter; no result exactly when Enter never comes |
| UserInput.DistroSpec | cli_input.py:34-107 | a completed distro dialog names a known distro; Ubuntu and Fedora versions are entries of their version menus; skipping the desktop menu means Mint's Ubuntu 22.04 with Cinnamon; generic sets all three fields to `generic` |
| UserInput.ChooseDistro | cli_input.py:34-107 | the menu loop is the reference distro dialog |
| UserInput.DistroMapping | cli_input.py:45-79 | Mint confirmed maps to ubuntu 22.04 with cinnamon and skips the desktop menu; Arch to arch latest; Pop!_OS to pop-os 22.04; Ubuntu and Fedora take the version chosen from their menus |
| UserInput.GenericConfirmations | cli_input.py:80-107 | the generic ISO needs two confirmations and a "No" to either exits |
| UserInput.DesktopMenu | cli_input.py:112-137 | the menu is the base desktops, the distro's extras and `cli` last, with one flag per entry, each the entry's own lower-case size key except `cli`'s |
| UserInput.DesktopMenuShape | cli_input.py:119-136 | `cli` is last and only there; deepin is offered exactly on Ubuntu 22.04 and Fedora, budgie exactly on Ubuntu, Arch and Fedora |
| UserInput.DesktopSpec | cli_input.py:139-155 | a chosen desktop is an entry of the menu in lower case, so it has no upper-case letters; the dialog never exits |
| UserInput.ChooseDesktop | cli_input.py:139-155 | the menu loop, where `cli` needs a confirmation, is the reference desktop dialog |
| UserInput.FirstInvalidChar | cli_input.py:175-180 | the first character outside `[A-Za-z0-9._-]`, none exactly when the name has none |
| UserInput.UsernameSpec | cli_input.py:169-183 | the username is `localuser` or a non-empty name of valid characters, and takes at least one answer |
| UserInput.UsernameFirstAnswer | cli_input.py:169-183 | an answer settles the username by itself exactly when it is empty (giving `localuser`) or valid (giving itself); an answer with an invalid character is dropped and the next one asked for |
| UserInput.PromptUsername | cli_input.py:169-183 | the loop with its invalid-character flag, whose inner loop stops at the first invalid character, is the reference username dialog |
| UserInput.PasswordSpec | cli_input.py:186-200 | a stored password is non-empty and takes two answers |
| UserInput.PromptPassword | cli_input.py:186-200 | the loop is the reference password dialog |
| UserInput.PasswordPairs | cli_input.py:192-200 | a password typed twice the same way is stored; two different entries are both discarded |
| UserInput.UsbEntries | cli_input.py:221-224 | each offered device is a line of `lsblk` split into name and description |
| UserInput.UsbEntriesSound | cli_input.py:221-224 | every offered entry comes from a line with `usb` and without `0B`, split after its third character |
| UserInput.UsbEntriesComplete | cli_input.py:221-224 | every line with `usb` and without `0B` is offered, its first three characters as the name |
| UserInput.UsbEntriesNone | cli_input.py:221-226 | without such a line nothing is offered |
| UserInput.ListUsbDevices | cli_input.py:218-224 | the two parallel lists the loop fills are the reference entries |
| UserInput.ChooseDevice | cli_input.py:211-235 | the device stays `image` when the question is skipped, `/sys/dev/block` is missing or nothing is offered; otherwise it is the menu's answer, one of the offered names or `image` |
| UserInput.GetUserInput | cli_input.py:12-238 | after the welcome screen's answer: completed options name a known distro with a version from its menu, pop-os has `cosmic-gnome`, generic is generic throughout, any other desktop is a lower-cased entry of its desktop menu, the shell is bash, fish or zsh, the username is valid or `localuser`, the password non-empty, the kernel type `chromeos` or `mainline`, and the device `image` or an offered name, `image` when none can be chosen |
| UserInput.KernelTypeNames | cli_input.py:202-208 | the kernel entry chosen is stored in lower case: `ChromeOS` as `chromeos`, `Mainline` as `mainline` |

## Left out

- Every shell command and its effect is opaque: wipefs, parted, cgpt, mkfs, mount/umount, losetup, unsquashfs, futility, dd, e2fsck, resize2fs, fixfiles, useradd, chpasswd, usermod, systemctl and `ln` for the time zone. Their success or output is a parameter where a decision depends on it.
- `download_rootfs` and the `--local-path` copies are left out: they are network and file I/O.
- Reading and writing JSON is left out. The settings file is a map of texts. `os_sizes.json` values appear as the keys looked up.
- `/sys/.../product_name`, `/etc/group`, `ps aux`, `lsblk` and `os.walk` are taken as inputs (file contents, lines, walk entries). `ExitHandler` splits `ps aux` itself. The `lsblk` lines are given already split.
- The block count parsed from `dumpe2fs` output is an input to `Finish.ShrunkImageSize`.
- The `dd` fallback of `prepare_img` (build.py:79) is left out. Its size is not the `fallocate` size and no property depends on it.
- `KeyGetter`, the terminal modes and all drawing and printing of the menus are left out. Key codes are an input sequence.
- `verbose_kernel` only changes a printed warning in the desktop dialog, so the dialog does not take it.
- The time-zone link in `post_extract` (build.py:359-364) is not modelled: it is a shell command.
- The Fedora relabelling and the temporary-directory clean-up of `post_config` are left out: they are shell commands.
- The `distro.config` dispatch and `distro/pop_os.py` are not part of this model.
- `sleep` and `atexit` registration are timing and process plumbing. The handler's pause appears only as a `Sleep(5)` step.
- Strings: whitespace for `strip` is the ASCII set plus U+001C to U+001F, U+0085 and U+00A0. Other Unicode spaces are not modelled. `lower` is modelled on ASCII letters only.
- Selection.Select: requires a non-empty option list. With no options the source's `options[__INDEX]` raises `IndexError`, and every menu of the program has options.
- UserInput.GetUserInput and the menu dialogs: the entry a menu returns is given as the answer itself, not as key presses. `Selection.Select` models the key handling separately. For the desktop, shell, kernel type and device menus and the Ubuntu and Fedora version menus, an answer that names no entry of the menu shown cannot come from `ia_selection`, and the model ends the dialog with `NoInput` for it. The distro menu instead asks again on an answer it does not match, as the code's `match` without a default case does. The Yes/No confirmations follow the code's own tests: Mint goes on only on `Yes`, and the generic ISO and `cli` confirmations stop only on `No`.
- UserInput.GetUserInput and the dialog members: a user who never completes a dialog is modelled as running out of answers (`NoInput`), not as an endless loop.
- Interrupt.GpgPidsOf: its own contract only bounds the number of PIDs. What each PID is is stated by `GpgPidsSound`, `GpgPidsComplete` and `PidOfPsLine`.

## Findings

| source | as written | input that shows it | evidently intended | confidence | as-written member | corrected member |
|---|---|---|---|---|---|---|
| build.py:203-208 | on Crostini the branch reports that ISO files cannot be mounted and asks for a root filesystem path, then discards the answer and goes on to `losetup` and mount the ISO | product name `crosvm` with any ISO | copy the root filesystem from the path the user entered and leave the ISO alone | not executed | GenericIso.CrostiniPromptDiscarded | GenericIso.GenericPlanOf |
