/** get_skill_guide of server.py: the SKILL.md of the named skill under a
    heading, or, when there is none, an error text listing the skill
    directories in the order the directory listing gave them. */
module SkillGuide {
  import opened Text
  import opened Resources

  /** An entry of the skills directory and whether it is a directory. */
  datatype DirEntry = DirEntry(name: string, isDir: bool)

  /** `[d for d in os.listdir(base) if os.path.isdir(...)]`: the names of the
      directory entries, in listing order. */
  function AvailableSkills(entries: seq<DirEntry>): (r: seq<string>)
    ensures |r| <= |entries|
    ensures forall i :: 0 <= i < |entries| && entries[i].isDir ==> entries[i].name in r
    decreases |entries|
  {
    if entries == [] then []
    else (if entries[0].isDir then [entries[0].name] else []) + AvailableSkills(entries[1..])
  }

  function MissingSkillText(name: string, available: seq<string>): string {
    "错误：skill '" + name + "' 不存在。\n\n可用的 skills: " + Join(", ", available)
  }

  function GuideTitle(name: string): string {
    "## " + name + " 使用指南\n\n"
  }

  /** get_skill_guide(name) given how the read of `<base>/<name>/SKILL.md`
      went and, when it is missing, how the listing of the skills directory
      went (None when os.listdir raises). Nothing here is guarded, so any
      failure other than a missing guide propagates. */
  function GetSkillGuide(name: string, guide: ReadOutcome, listing: Option<seq<DirEntry>>): (r: Reply)
    ensures guide.Ok? ==> r == Returned(GuideTitle(name) + guide.content)
    ensures guide.OtherError? ==> r == Raised
    ensures guide.NotFound? && listing.None? ==> r == Raised
    ensures guide.NotFound? && listing.Some? ==>
      r == Returned(MissingSkillText(name, AvailableSkills(listing.value)))
  {
    match guide
    case Ok(content) => Returned(GuideTitle(name) + content)
    case OtherError(_) => Raised
    case NotFound =>
      match listing
      case None => Raised
      case Some(entries) => Returned(MissingSkillText(name, AvailableSkills(entries)))
  }

  // ---- properties ----

  /** Only directories are offered, and they keep the listing's order: the
      names of a listing made of two parts are those of the first part, then
      those of the second. */
  lemma {:induction false} AvailableSkillsAppend(a: seq<DirEntry>, b: seq<DirEntry>)
    ensures AvailableSkills(a + b) == AvailableSkills(a) + AvailableSkills(b)
    decreases |a|
  {
    if a == [] {
      assert a + b == b;
    } else {
      assert (a + b)[0] == a[0] && (a + b)[1..] == a[1..] + b;
      AvailableSkillsAppend(a[1..], b);
    }
  }

  /** A listing of directories only is offered as it came, unsorted. */
  lemma {:induction false} AllDirectoriesOffered(entries: seq<DirEntry>)
    requires forall i :: 0 <= i < |entries| ==> entries[i].isDir
    ensures AvailableSkills(entries) == seq(|entries|, i requires 0 <= i < |entries| => entries[i].name)
    decreases |entries|
  {
    if entries != [] {
      AllDirectoriesOffered(entries[1..]);
    }
  }

  /** Every name offered is that of a directory entry of the listing. */
  lemma {:induction false} OfferedAreDirectories(entries: seq<DirEntry>, x: string)
    requires x in AvailableSkills(entries)
    ensures DirEntry(x, true) in entries
    decreases |entries|
  {
    if entries[0] != DirEntry(x, true) {
      OfferedAreDirectories(entries[1..], x);
    }
  }

  /** A found guide is its heading and then the file unchanged: the content
      reads back from the reply. */
  lemma {:induction false} GuideContentRecovered(name: string, content: string)
    ensures var r := GetSkillGuide(name, Ok(content), None);
      r.Returned? && HasAt(r.text, 0, GuideTitle(name)) && r.text[|GuideTitle(name)|..] == content
  {
  }

  /** The missing-skill text names the requested skill verbatim, right after
      its fixed opening. */
  lemma {:induction false} MissingNamesSkill(name: string, available: seq<string>)
    ensures HasAt(MissingSkillText(name, available), |"错误：skill '"|, name)
  {
    var t := MissingSkillText(name, available);
    assert t == "错误：skill '" + name + ("' 不存在。\n\n可用的 skills: " + Join(", ", available));
    InfixAt("错误：skill '", name, "' 不存在。\n\n可用的 skills: " + Join(", ", available));
  }

  /** The two texts cannot be confused: a guide starts with `#`, the error with `错`. */
  lemma {:induction false} RepliesDistinguishable(name: string, content: string, listing: seq<DirEntry>)
    ensures GetSkillGuide(name, Ok(content), None).text[0] == '#'
    ensures GetSkillGuide(name, NotFound, Some(listing)).text[0] == '错'
  {
  }
}
