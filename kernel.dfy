/** The kernel command line written to `kernel.flags` before signing
    (build.py, `post_config`), and the choice of the kernel image to sign. */
module KernelCmdline {
  import opened Strings

  /** The template's stand-in for the rootfs partition's PARTUUID. */
  const Placeholder: string := "insert_partuuid"
  const ConsoleDirective: string := "console="
  const VerboseDirective: string := "loglevel=15"
  const RootPrefix: string := " root=PARTUUID="
  /** " i915.modeset=1 rootwait rw fbcon=logo-pos:center,logo-count:1", kept in
      short pieces so that facts about its characters stay cheap to prove. */
  const BootFlags: string := " i915.modeset=1" + " rootwait rw" + " fbcon=logo-pos" + ":center," + "logo-count:1"
  /** The source's base string. */
  const Template: string := ConsoleDirective + RootPrefix + Placeholder + BootFlags
  const SecurityKey: string := " security="
  const AppArmorFlag: string := SecurityKey + "apparmor"
  const SelinuxFlag: string := SecurityKey + "selinux"

  /** The flags string exactly as `post_config` computes it: the security
      module flags are appended, the console directive is replaced when the
      kernel is verbose, and then the placeholder is replaced by the PARTUUID. */
  function KernelFlags(distro: string, verboseKernel: bool, partuuid: string): string
  {
    var base := Template;
    var base := if distro in {"pop-os", "ubuntu"} then base + AppArmorFlag else base;
    var base := if distro == "fedora" then base + SelinuxFlag else base;
    var base := if verboseKernel then ReplaceAll(base, ConsoleDirective, VerboseDirective) else base;
    ReplaceAll(base, Placeholder, partuuid)
  }

  /** The security module flag each distro gets: AppArmor for the Ubuntu
      family, SELinux for Fedora, nothing otherwise. */
  function SecurityFlag(distro: string): string
  {
    if distro == "pop-os" || distro == "ubuntu" then AppArmorFlag
    else if distro == "fedora" then SelinuxFlag
    else ""
  }

  /** The directive the command line starts with. */
  function Head(verboseKernel: bool): string
  {
    if verboseKernel then VerboseDirective else ConsoleDirective
  }

  /** Reference definition of the command line, assembled from its parts. */
  function CommandLine(distro: string, verboseKernel: bool, partuuid: string): string
  {
    Head(verboseKernel) + RootPrefix + partuuid + BootFlags + SecurityFlag(distro)
  }

  /** Everything after the placeholder contains no underscore. */
  lemma TailHasNoUnderscore(distro: string)
    ensures '_' !in BootFlags + SecurityFlag(distro)
  {
    assert '_' !in " i915.modeset=1" && '_' !in " rootwait rw" && '_' !in " fbcon=logo-pos";
    assert '_' !in ":center," && '_' !in "logo-count:1";
    assert '_' !in SecurityKey && '_' !in "apparmor" && '_' !in "selinux";
  }

  /** The fixed boot flags never have an `l` followed by an `e`. */
  lemma BootFlagsHaveNoLe()
    ensures !HasPair(BootFlags, 'l', 'e')
  {
    var a, b, c := " i915.modeset=1", " rootwait rw", " fbcon=logo-pos";
    var d, e := ":center,", "logo-count:1";
    assert !HasPair(a, 'l', 'e') && !HasPair(b, 'l', 'e') && !HasPair(c, 'l', 'e');
    assert !HasPair(d, 'l', 'e') && !HasPair(e, 'l', 'e');
    PairFreeConcat(a, b, 'l', 'e');
    PairFreeConcat(a + b, c, 'l', 'e');
    PairFreeConcat(a + b + c, d, 'l', 'e');
    PairFreeConcat(a + b + c + d, e, 'l', 'e');
  }

  /** Neither security flag has an `l` followed by an `e`. */
  lemma SecurityFlagHasNoLe(distro: string)
    ensures !HasPair(SecurityFlag(distro), 'l', 'e')
    ensures SecurityFlag(distro) == [] || SecurityFlag(distro)[0] == ' '
  {
    var sec := SecurityFlag(distro);
    if sec != "" {
      var word := if sec == AppArmorFlag then "apparmor" else "selinux";
      assert !HasPair(SecurityKey, 'l', 'e') && !HasPair(word, 'l', 'e');
      PairFreeConcat(SecurityKey, word, 'l', 'e');
    }
  }

  /** The template after its console directive never has an `l` followed by
      an `e`, so the directive `console=` cannot occur there. */
  lemma RestHasNoLe(distro: string)
    ensures !HasPair(RootPrefix + Placeholder + BootFlags + SecurityFlag(distro), 'l', 'e')
  {
    assert !HasPair(RootPrefix, 'l', 'e') && !HasPair(Placeholder, 'l', 'e');
    PairFreeConcat(RootPrefix, Placeholder, 'l', 'e');
    BootFlagsHaveNoLe();
    assert BootFlags[0] == ' ';
    PairFreeConcat(RootPrefix + Placeholder, BootFlags, 'l', 'e');
    SecurityFlagHasNoLe(distro);
    PairFreeConcat(RootPrefix + Placeholder + BootFlags, SecurityFlag(distro), 'l', 'e');
  }

  lemma Regroup(a: string, b: string, c: string, d: string, e: string)
    ensures a + b + c + d + e == a + (b + c + d + e)
    ensures a + b + c + d + e == (a + b) + (c + (d + e))
    ensures a + b + c + d + e == (a + b) + c + (d + e)
  {
  }

  /** Template with the security flag appended, as `post_config` builds it. */
  lemma TemplateWithSecurity(distro: string)
    ensures (var base := if distro in {"pop-os", "ubuntu"} then Template + AppArmorFlag else Template;
             if distro == "fedora" then base + SelinuxFlag else base)
            == ConsoleDirective + (RootPrefix + Placeholder + BootFlags + SecurityFlag(distro))
  {
    Regroup(ConsoleDirective, RootPrefix, Placeholder, BootFlags, SecurityFlag(distro));
    if SecurityFlag(distro) == "" {
      assert Template + "" == Template;
    }
  }

  /** Replacing the placeholder puts the PARTUUID in its place and changes
      nothing else. */
  lemma SubstitutePartuuid(head: string, distro: string, partuuid: string)
    requires 'i' !in head
    ensures ReplaceAll(head + RootPrefix + Placeholder + BootFlags + SecurityFlag(distro), Placeholder, partuuid)
            == head + RootPrefix + partuuid + BootFlags + SecurityFlag(distro)
  {
    assert 'i' !in head + RootPrefix by {
      assert 'i' !in RootPrefix;
    }
    TailAvoidsPlaceholder(distro);
    ReplaceSingle(head + RootPrefix, Placeholder, BootFlags + SecurityFlag(distro), partuuid);
    Regroup(head, RootPrefix, Placeholder, BootFlags, SecurityFlag(distro));
    Regroup(head, RootPrefix, partuuid, BootFlags, SecurityFlag(distro));
  }

  /** What follows the PARTUUID cannot hold the placeholder, nor start
      inside one. */
  lemma TailAvoidsPlaceholder(distro: string)
    ensures !Contains(BootFlags + SecurityFlag(distro), Placeholder)
    ensures (BootFlags + SecurityFlag(distro))[0] !in Placeholder
  {
    var tail := BootFlags + SecurityFlag(distro);
    TailHasNoUnderscore(distro);
    assert Placeholder[6] == '_';
    AbsentByChar(tail, Placeholder, 6);
    assert tail[0] == BootFlags[0] == ' ';
    assert ' ' !in Placeholder;
  }

  /** In verbose mode the single `console=` directive, which starts the
      template, becomes `loglevel=15`. */
  lemma VerboseReplacement(distro: string)
    ensures ReplaceAll(ConsoleDirective + (RootPrefix + Placeholder + BootFlags + SecurityFlag(distro)), ConsoleDirective, VerboseDirective)
            == VerboseDirective + (RootPrefix + Placeholder + BootFlags + SecurityFlag(distro))
  {
    var rest := RootPrefix + Placeholder + BootFlags + SecurityFlag(distro);
    ReplaceAllHead(rest, ConsoleDirective, VerboseDirective);
    RestHasNoLe(distro);
    assert ConsoleDirective[5] == 'l' && ConsoleDirective[6] == 'e';
    AbsentByPair(rest, ConsoleDirective, 5);
    ReplaceAllAbsent(rest, ConsoleDirective, VerboseDirective);
  }

  /** `post_config`'s string operations produce exactly the command line
      assembled from its parts. */
  lemma KernelFlagsMeaning(distro: string, verboseKernel: bool, partuuid: string)
    ensures KernelFlags(distro, verboseKernel, partuuid) == CommandLine(distro, verboseKernel, partuuid)
  {
    var rest := RootPrefix + Placeholder + BootFlags + SecurityFlag(distro);
    TemplateWithSecurity(distro);
    if verboseKernel {
      VerboseReplacement(distro);
      assert 'i' !in VerboseDirective;
      Regroup(VerboseDirective, RootPrefix, Placeholder, BootFlags, SecurityFlag(distro));
      SubstitutePartuuid(VerboseDirective, distro, partuuid);
    } else {
      assert 'i' !in ConsoleDirective;
      Regroup(ConsoleDirective, RootPrefix, Placeholder, BootFlags, SecurityFlag(distro));
      SubstitutePartuuid(ConsoleDirective, distro, partuuid);
    }
  }

  /** The command line starts with `console=` exactly when the kernel is not
      verbose, and with `loglevel=15` exactly when it is. */
  lemma ConsoleDirectiveIffQuiet(distro: string, verboseKernel: bool, partuuid: string)
    ensures StartsWith(KernelFlags(distro, verboseKernel, partuuid), ConsoleDirective) <==> !verboseKernel
    ensures StartsWith(KernelFlags(distro, verboseKernel, partuuid), VerboseDirective) <==> verboseKernel
  {
    KernelFlagsMeaning(distro, verboseKernel, partuuid);
    FieldAfterHead(Head(verboseKernel), RootPrefix, partuuid, BootFlags, SecurityFlag(distro));
    assert ConsoleDirective[0] == 'c' && VerboseDirective[0] == 'l';
  }

  /** ` security=apparmor` ends the command line exactly for pop-os and
      ubuntu, ` security=selinux` exactly for fedora. */
  lemma SecurityFlagIffDistro(distro: string, verboseKernel: bool, partuuid: string)
    ensures EndsWith(KernelFlags(distro, verboseKernel, partuuid), AppArmorFlag) <==> distro in {"pop-os", "ubuntu"}
    ensures EndsWith(KernelFlags(distro, verboseKernel, partuuid), SelinuxFlag) <==> distro == "fedora"
  {
    KernelFlagsMeaning(distro, verboseKernel, partuuid);
    var front := Head(verboseKernel) + RootPrefix + partuuid + BootFlags;
    var flags := front + SecurityFlag(distro);
    assert flags == CommandLine(distro, verboseKernel, partuuid);
    var last := flags[|flags| - 1];
    if distro == "pop-os" || distro == "ubuntu" {
      assert flags[|flags| - |AppArmorFlag|..] == AppArmorFlag;
      assert last == 'r';
    } else if distro == "fedora" {
      assert flags[|flags| - |SelinuxFlag|..] == SelinuxFlag;
      assert last == 'x';
    } else {
      assert flags == front;
      assert last == BootFlags[|BootFlags| - 1] == '1';
    }
    assert AppArmorFlag[|AppArmorFlag| - 1] == 'r' && SelinuxFlag[|SelinuxFlag| - 1] == 'x';
    assert EndsWith(flags, AppArmorFlag) ==> last == 'r';
    assert EndsWith(flags, SelinuxFlag) ==> last == 'x';
  }

  /** The PARTUUID follows `root=PARTUUID=` right after the leading directive. */
  lemma PartuuidFollowsRootKey(distro: string, verboseKernel: bool, partuuid: string)
    ensures OccursAt(KernelFlags(distro, verboseKernel, partuuid), RootPrefix + partuuid, |Head(verboseKernel)|)
  {
    KernelFlagsMeaning(distro, verboseKernel, partuuid);
    FieldAfterHead(Head(verboseKernel), RootPrefix, partuuid, BootFlags, SecurityFlag(distro));
  }

  /** The shape of `CommandLine`, over arbitrary parts. */
  lemma FieldAfterHead(h: string, key: string, value: string, flags: string, sec: string)
    ensures OccursAt(h + key + value + flags + sec, key + value, |h|)
    ensures StartsWith(h + key + value + flags + sec, h)
    ensures |h| > 0 ==> (h + key + value + flags + sec)[0] == h[0]
  {
    assert h + key + value + flags + sec == h + (key + value) + (flags + sec);
    OccursInMiddle(h, key + value, flags + sec);
    StartsWithFirstPart(h, key + value + flags + sec);
  }

  /** A pattern that does not start in `x`, does not occur in `y` or `z`, and
      cannot cover the first character of `z` does not occur in `x + y + z`. */
  lemma AbsentInThreeParts(x: string, y: string, z: string, pat: string)
    requires |pat| > 0 && pat[0] !in x && !Contains(y, pat) && !Contains(z, pat)
    requires |z| > 0 && z[0] !in pat
    ensures !Contains(x + y + z, pat)
  {
    var s := x + y + z;
    forall k ensures !OccursAt(s, pat, k) {
      if 0 <= k && k + |pat| <= |s| {
        if k < |x| {
          assert s[k..k + |pat|][0] == x[k];
        } else if k + |pat| <= |x| + |y| {
          assert s[k..k + |pat|] == y[k - |x|..k - |x| + |pat|];
          assert !OccursAt(y, pat, k - |x|);
        } else if k < |x| + |y| {
          assert s[k..k + |pat|][|x| + |y| - k] == z[0];
        } else {
          assert s[k..k + |pat|] == z[k - |x| - |y|..k - |x| - |y| + |pat|];
          assert !OccursAt(z, pat, k - |x| - |y|);
        }
      }
    }
  }

  /** Once built, the command line no longer carries the placeholder (as long
      as the PARTUUID itself does not spell it). */
  lemma PlaceholderGone(distro: string, verboseKernel: bool, partuuid: string)
    requires !Contains(partuuid, Placeholder)
    ensures !Contains(KernelFlags(distro, verboseKernel, partuuid), Placeholder)
  {
    KernelFlagsMeaning(distro, verboseKernel, partuuid);
    HeadHasNoI(verboseKernel);
    TailAvoidsPlaceholder(distro);
    assert Placeholder[0] == 'i';
    Regroup(Head(verboseKernel), RootPrefix, partuuid, BootFlags, SecurityFlag(distro));
    AbsentInThreeParts(Head(verboseKernel) + RootPrefix, partuuid, BootFlags + SecurityFlag(distro), Placeholder);
  }

  /** The text before the PARTUUID has no `i`, the placeholder's first letter. */
  lemma HeadHasNoI(verboseKernel: bool)
    ensures 'i' !in Head(verboseKernel) + RootPrefix
  {
    assert 'i' !in ConsoleDirective && 'i' !in VerboseDirective && 'i' !in RootPrefix;
  }

  /** The verbose replacement is idempotent: applied to a template that is
      already verbose, it changes nothing. */
  lemma VerboseReplacementIdempotent(distro: string)
    ensures var verbose := ReplaceAll(ConsoleDirective + (RootPrefix + Placeholder + BootFlags + SecurityFlag(distro)), ConsoleDirective, VerboseDirective);
            ReplaceAll(verbose, ConsoleDirective, VerboseDirective) == verbose
  {
    var rest := RootPrefix + Placeholder + BootFlags + SecurityFlag(distro);
    VerboseReplacement(distro);
    assert 'c' !in VerboseDirective;
    ReplaceAllSkip(VerboseDirective, rest, ConsoleDirective, VerboseDirective);
    RestHasNoLe(distro);
    assert ConsoleDirective[5] == 'l' && ConsoleDirective[6] == 'e';
    AbsentByPair(rest, ConsoleDirective, 5);
    ReplaceAllAbsent(rest, ConsoleDirective, VerboseDirective);
  }

  /** The kernel image to sign: the local `bzImage` when both it and the
      modules archive were supplied, else the one the distro installed. */
  function KernelImagePath(localPath: string, existing: set<string>, kernelType: string): (path: string)
    ensures path == localPath + "bzImage" || path == "/mnt/depthboot/boot/vmlinuz-eupnea-" + kernelType
    ensures localPath + "modules.tar.xz" in existing && localPath + "bzImage" in existing ==> path == localPath + "bzImage"
    ensures path != "/mnt/depthboot/boot/vmlinuz-eupnea-" + kernelType ==>
              localPath + "bzImage" in existing && localPath + "modules.tar.xz" in existing
  {
    if localPath + "modules.tar.xz" in existing && localPath + "bzImage" in existing then localPath + "bzImage"
    else "/mnt/depthboot/boot/vmlinuz-eupnea-" + kernelType
  }
}
