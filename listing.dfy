/** list_all_skills of server.py: the catalog rendered as a Markdown listing,
    one section per record in parse order, between a fixed header and footer. */
module SkillListing {
  import opened Text
  import opened Catalog
  import opened Resources
  import CatalogDocuments

  const ListingHeader: string := "## 可用的 Skills 列表\n\n"
  const ListingFooter: string := "\n使用 `get_skill_guide(skill_name)` 获取具体 skill 的完整使用指南。"

  /** The section of one record: its name as a level-3 heading, then its description. */
  function Entry(k: Skill): string {
    "### " + k.name + "\n" + k.description + "\n\n"
  }

  /** The listing of `skills`: what the loop of list_all_skills builds. */
  function Listing(skills: seq<Skill>): string {
    ListingHeader + ConcatMap(skills, Entry) + ListingFooter
  }

  /** Where the section of record `i` starts in the listing. */
  function EntryOffset(skills: seq<Skill>, i: nat): nat
    requires i <= |skills|
  {
    |ListingHeader| + |ConcatMap(skills[..i], Entry)|
  }

  /** The rendering loop of list_all_skills: header, one `+=` per record, footer. */
  method RenderListing(skills: seq<Skill>) returns (result: string)
    ensures result == Listing(skills)
  {
    result := ListingHeader;
    for i := 0 to |skills|
      invariant result == ListingHeader + ConcatMap(skills[..i], Entry)
    {
      assert skills[..i + 1][..i] == skills[..i];
      result := result + "### " + skills[i].name + "\n" + skills[i].description + "\n\n";
    }
    assert skills[..|skills|] == skills;
    result := result + ListingFooter;
  }

  /** list_all_skills: the catalog file is read without a handler, so a failed
      read propagates; otherwise the parsed records are rendered. */
  method ListAllSkills(agents: ReadOutcome) returns (reply: Reply)
    ensures !agents.Ok? ==> reply == Raised
    ensures agents.Ok? ==> reply == Returned(Listing(Parse(agents.content)))
  {
    if !agents.Ok? {
      return Raised;
    }
    var skills := LoadSkills(agents.content);
    var text := RenderListing(skills);
    return Returned(text);
  }

  /** With no records the listing is exactly the header followed by the footer. */
  lemma {:induction false} EmptyListing()
    ensures Listing([]) == ListingHeader + ListingFooter
  {
    assert ListingHeader + "" == ListingHeader;
  }

  /** A catalog without `<skill>` is listed as header and footer only. */
  lemma {:induction false} ListingWithoutSkills(content: string)
    requires CatalogDocuments.Absent(content, SkillOpen)
    ensures Listing(Parse(content)) == ListingHeader + ListingFooter
  {
    CatalogDocuments.NoSkillTagNoRecords(content);
    EmptyListing();
  }

  /** The listing is laid out as header, the sections of the records one after
      the other in their order, then the footer, with nothing in between. */
  lemma {:induction false} ListingLayout(skills: seq<Skill>)
    ensures HasAt(Listing(skills), 0, ListingHeader)
    ensures forall i :: 0 <= i < |skills| ==>
      HasAt(Listing(skills), EntryOffset(skills, i), Entry(skills[i]))
      && EntryOffset(skills, i + 1) == EntryOffset(skills, i) + |Entry(skills[i])|
    ensures HasAt(Listing(skills), EntryOffset(skills, |skills|), ListingFooter)
    ensures |Listing(skills)| == EntryOffset(skills, |skills|) + |ListingFooter|
  {
    var s := Listing(skills);
    assert skills[..|skills|] == skills;
    forall i | 0 <= i < |skills|
      ensures HasAt(s, EntryOffset(skills, i), Entry(skills[i]))
      ensures EntryOffset(skills, i + 1) == EntryOffset(skills, i) + |Entry(skills[i])|
    {
      EntryAt(skills, i);
    }
  }

  lemma {:induction false} EntryAt(skills: seq<Skill>, i: nat)
    requires i < |skills|
    ensures HasAt(Listing(skills), EntryOffset(skills, i), Entry(skills[i]))
    ensures EntryOffset(skills, i + 1) == EntryOffset(skills, i) + |Entry(skills[i])|
  {
    var front, back := skills[..i + 1], skills[i + 1..];
    assert front[..i] == skills[..i];
    assert ConcatMap(front, Entry) == ConcatMap(skills[..i], Entry) + Entry(skills[i]);
    assert skills == front + back;
    ConcatMapAppend(front, back, Entry);
    var p := ListingHeader + ConcatMap(skills[..i], Entry);
    var q := ConcatMap(back, Entry) + ListingFooter;
    assert Listing(skills) == p + Entry(skills[i]) + q;
    InfixAt(p, Entry(skills[i]), q);
  }
}
