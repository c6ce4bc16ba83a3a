/** The distro-agnostic configuration of `post_extract` (build.py): the
    settings file written for the post-install scripts and the groups the new
    user joins. */
module PostExtract {
  import opened Strings
  import opened Wrappers
  import opened Options

  /** The settings file, `configs/eupnea.json` as a map from key to value
      (values kept as their text). */
  type Settings = map<string, string>

  /** The keys `post_extract` overwrites. */
  const UpdatedKeys: set<string> := {"distro_name", "distro_version", "de_name", "shell", "install_type"}

  /** `/etc/eupnea.json` as `post_extract` writes it from the template:
      the distro, its version, the desktop and the shell from the options,
      and `install_type` set to `direct` when writing to a device. Nothing
      is written for a generic ISO. */
  function SettingsRecord(template: Settings, opts: BuildOptions): (r: Option<Settings>)
    ensures r.Some? <==> opts.distroName != "generic"
    ensures r.Some? ==> r.value.Keys == template.Keys + {"distro_name", "distro_version", "de_name", "shell"} +
                                       (if opts.device != "image" then {"install_type"} else {})
    ensures r.Some? ==> r.value["distro_name"] == opts.distroName && r.value["distro_version"] == opts.distroVersion &&
                        r.value["de_name"] == opts.deName && r.value["shell"] == opts.shell
    ensures r.Some? && opts.device != "image" ==> r.value["install_type"] == "direct"
    ensures r.Some? ==> forall k :: k in template && (k !in UpdatedKeys || (k == "install_type" && opts.device == "image"))
                                    ==> r.value[k] == template[k]
  {
    if opts.distroName == "generic" then None
    else
      var settings := template;
      var settings := settings["distro_name" := opts.distroName];
      var settings := settings["distro_version" := opts.distroVersion];
      var settings := settings["de_name" := opts.deName];
      var settings := settings["shell" := opts.shell];
      var settings := if opts.device != "image" then settings["install_type" := "direct"] else settings;
      Some(settings)
  }

  /** Building an image leaves `install_type` as the template has it;
      writing to a device always records a direct install. */
  lemma InstallTypeIffDevice(template: Settings, opts: BuildOptions)
    requires opts.distroName != "generic"
    requires "install_type" in template && template["install_type"] != "direct"
    ensures SettingsRecord(template, opts).value["install_type"] == "direct" <==> opts.device != "image"
  {
  }

  /** The group names that give the new user administrator rights. */
  const AdminGroups: set<string> := {"sudo", "wheel", "doas"}

  /** The group a line of `/etc/group` defines: the text before the first `:`. */
  function GroupName(line: string): (r: string)
    ensures StartsWith(line, r) && ':' !in r
    ensures r == line || line[|r|] == ':'
  {
    FirstField(line, ':')
  }

  /** The groups the user is added to, one per matching line of
      `/etc/group`, in file order. */
  function AdminGroupsOf(lines: seq<string>): (groups: seq<string>)
    ensures |groups| <= |lines|
    ensures forall i :: 0 <= i < |groups| ==> groups[i] in AdminGroups
  {
    if |lines| == 0 then []
    else
      var name := GroupName(lines[|lines| - 1]);
      AdminGroupsOf(lines[..|lines| - 1]) + (if name in AdminGroups then [name] else [])
  }

  /** Every group joined is named by some line of the file. */
  lemma {:induction false} AdminGroupsSound(lines: seq<string>, g: string)
    requires g in AdminGroupsOf(lines)
    ensures exists i :: 0 <= i < |lines| && GroupName(lines[i]) == g
    decreases |lines|
  {
    var init := lines[..|lines| - 1];
    if g in AdminGroupsOf(init) {
      AdminGroupsSound(init, g);
      var i :| 0 <= i < |init| && GroupName(init[i]) == g;
      assert init[i] == lines[i];
    } else {
      assert GroupName(lines[|lines| - 1]) == g;
    }
  }

  /** Every administrator group the file defines is joined. */
  lemma {:induction false} AdminGroupsComplete(lines: seq<string>, i: int)
    requires 0 <= i < |lines| && GroupName(lines[i]) in AdminGroups
    ensures GroupName(lines[i]) in AdminGroupsOf(lines)
    decreases |lines|
  {
    if i < |lines| - 1 {
      var init := lines[..|lines| - 1];
      assert init[i] == lines[i];
      AdminGroupsComplete(init, i);
    }
  }

  /** The loop over the lines of `/etc/group`; one `usermod -aG` per
      returned group. */
  method GroupsToJoin(groupLines: seq<string>) returns (groups: seq<string>)
    ensures groups == AdminGroupsOf(groupLines)
  {
    groups := [];
    for i := 0 to |groupLines|
      invariant groups == AdminGroupsOf(groupLines[..i])
    {
      assert groupLines[..i + 1][..i] == groupLines[..i] && groupLines[..i + 1][i] == groupLines[i];
      var name := FirstField(groupLines[i], ':');
      if name == "sudo" {
        groups := groups + ["sudo"];
      } else if name == "wheel" {
        groups := groups + ["wheel"];
      } else if name == "doas" {
        groups := groups + ["doas"];
      }
    }
    assert groupLines[..|groupLines|] == groupLines;
  }
}
