/** The skill catalog parser of server.py (load_skills_from_agents_md): the
    regular expression

        <skill>\s*<name>(.*?)</name>\s*<description>(.*?)</description>

    applied with re.findall under DOTALL, followed by trimming of both groups.

    `Matches` is the scan that re.findall performs; `IsFindAll` says
    declaratively which sequence of matches re.findall must return, and the
    lemmas at the end of this module prove the two agree. */
module Catalog {
  import opened Text

  const SkillOpen: string := "<skill>"
  const NameOpen: string := "<name>"
  const NameClose: string := "</name>"
  const DescOpen: string := "<description>"
  const DescClose: string := "</description>"

  /** Where FindFrom finds a tag, if anywhere. */
  datatype Found = NoOccurrence | FoundAt(at: nat)

  /** What the part of the pattern after group 1 gives, tried at one place:
      nothing, or where group 2 starts and ends. */
  datatype Tail = NoTail | Tail(descStart: nat, descEnd: nat)

  /** What the regex engine reports for one attempt. */
  datatype Attempt = NoMatch | Match(span: Span)

  /** Where one match of the pattern lies in the document: it starts at
      `start`, group 1 is `[nameStart, nameEnd)`, group 2 is
      `[descStart, descEnd)`, and the match ends after `</description>`. */
  datatype Span = Span(start: nat, nameStart: nat, nameEnd: nat, descStart: nat, descEnd: nat) {
    function End(): nat {
      descEnd + |DescClose|
    }
  }

  /** A skill record as the parser builds it. */
  datatype Skill = Skill(name: string, description: string)

  /** The positions of `m` are in order and inside a document of length `n`. */
  predicate Ordered(m: Span, n: nat) {
    m.start < m.nameStart <= m.nameEnd < m.descStart <= m.descEnd && m.End() <= n
  }

  // ---- what the regular expression means ----

  /** `s[i..j]` consists of whitespace only (the `\s*` of the pattern). */
  ghost predicate SpaceRun(s: string, i: nat, j: nat)
    decreases j - i
  {
    i <= j <= |s| && (i == j || (IsSpace(s[i]) && SpaceRun(s, i + 1, j)))
  }

  /** `<skill>\s*<name>` matches from `start`, and group 1 begins at `nameStart`. */
  ghost predicate HeadAt(s: string, start: nat, nameStart: nat) {
    HasAt(s, start, SkillOpen)
    && start + |SkillOpen| + |NameOpen| <= nameStart
    && SpaceRun(s, start + |SkillOpen|, nameStart - |NameOpen|)
    && HasAt(s, nameStart - |NameOpen|, NameOpen)
  }

  /** `</name>\s*<description>(.*?)</description>` matches from `nameEnd`, with
      group 2 as `[descStart, descEnd)`. */
  ghost predicate TailAt(s: string, nameEnd: nat, descStart: nat, descEnd: nat) {
    HasAt(s, nameEnd, NameClose)
    && nameEnd + |NameClose| + |DescOpen| <= descStart
    && SpaceRun(s, nameEnd + |NameClose|, descStart - |DescOpen|)
    && HasAt(s, descStart - |DescOpen|, DescOpen)
    && descStart <= descEnd && HasAt(s, descEnd, DescClose)
  }

  /** `m` is a way for the pattern to match `s` (under DOTALL `.` matches
      every character, so the two groups are unconstrained). */
  ghost predicate IsMatch(s: string, m: Span) {
    HeadAt(s, m.start, m.nameStart) && m.nameStart <= m.nameEnd
    && TailAt(s, m.nameEnd, m.descStart, m.descEnd)
  }

  /** The backtracking order of the two lazy groups: the shorter group 1 is
      tried first, and for the same group 1 the shorter group 2. */
  ghost predicate TriedFirst(m: Span, m': Span) {
    m.nameEnd < m'.nameEnd || (m.nameEnd == m'.nameEnd && m.descEnd <= m'.descEnd)
  }

  /** `m` is the match the regex engine reports when it tries position `m.start`. */
  ghost predicate IsMatchAt(s: string, m: Span) {
    IsMatch(s, m) && forall m' :: IsMatch(s, m') && m'.start == m.start ==> TriedFirst(m, m')
  }

  /** `m` is the match a search starting at `pos` reports: the leftmost start. */
  ghost predicate IsLeftmostFrom(s: string, pos: nat, m: Span) {
    pos <= m.start && IsMatchAt(s, m)
    && forall m' :: IsMatch(s, m') && pos <= m'.start ==> m.start <= m'.start
  }

  ghost predicate NoMatchFrom(s: string, pos: nat) {
    forall m :: IsMatch(s, m) ==> m.start < pos
  }

  /** `ms` is what re.findall returns when it scans `s` from `pos`: the
      leftmost match, then the matches of the rest of the document from the
      end of that match on (matches never overlap), until none is left. */
  ghost predicate IsFindAll(s: string, pos: nat, ms: seq<Span>)
    decreases |ms|
  {
    if ms == [] then NoMatchFrom(s, pos)
    else IsLeftmostFrom(s, pos, ms[0]) && IsFindAll(s, ms[0].End(), ms[1..])
  }

  // ---- the scan ----

  /** End of the run of whitespace that starts at `i`. */
  function SkipSpace(s: string, i: nat): (j: nat)
    requires i <= |s|
    ensures i <= j <= |s|
    decreases |s| - i
  {
    if i < |s| && IsSpace(s[i]) then SkipSpace(s, i + 1) else i
  }

  /** SkipSpace passes over whitespace only. */
  lemma {:induction false} SkipSpaceRun(s: string, i: nat)
    requires i <= |s|
    ensures SpaceRun(s, i, SkipSpace(s, i))
    decreases |s| - i
  {
    if i < |s| && IsSpace(s[i]) {
      SkipSpaceRun(s, i + 1);
    }
  }

  /** First occurrence of `p` in `s` at or after `i` (FindFromFirst: no
      occurrence at or after `i` comes before it or is missed). */
  function FindFrom(s: string, p: string, i: nat): (r: Found)
    ensures r.FoundAt? ==> i <= r.at && r.at + |p| <= |s|
    decreases |s| - i
  {
    if i + |p| > |s| then NoOccurrence
    else if HasAt(s, i, p) then FoundAt(i)
    else FindFrom(s, p, i + 1)
  }

  /** What FindFrom finds is an occurrence. */
  lemma {:induction false} FindFromFound(s: string, p: string, i: nat)
    requires FindFrom(s, p, i).FoundAt?
    ensures HasAt(s, FindFrom(s, p, i).at, p)
    decreases |s| - i
  {
    if i + |p| <= |s| && !HasAt(s, i, p) {
      FindFromFound(s, p, i + 1);
    }
  }

  /** An occurrence of `p` at `k` is found, or one before it is. */
  lemma {:induction false} FindFromFirst(s: string, p: string, i: nat, k: nat)
    requires i <= k && HasAt(s, k, p)
    ensures FindFrom(s, p, i).FoundAt? && FindFrom(s, p, i).at <= k
    decreases k - i
  {
    if !HasAt(s, i, p) {
      FindFromFirst(s, p, i + 1, k);
    }
  }

  /** `</name>\s*<description>(.*?)</description>` tried at `k`: where
      group 2 starts and, with the lazy group as short as possible, where it
      ends (up to the first `</description>`). */
  function TailSearch(s: string, k: nat): (r: Tail)
    ensures r.Tail? ==> k + |NameClose| + |DescOpen| <= r.descStart <= r.descEnd
    ensures r.Tail? ==> r.descEnd + |DescClose| <= |s|
  {
    if k + |NameClose| > |s| || !HasAt(s, k, NameClose) then NoTail
    else
      var q := SkipSpace(s, k + |NameClose|);
      if !HasAt(s, q, DescOpen) then NoTail
      else
        match FindFrom(s, DescClose, q + |DescOpen|)
        case FoundAt(d) => Tail(q + |DescOpen|, d)
        case NoOccurrence => NoTail
  }

  /** The lazy group 1 extended to `k`, `k + 1`, ... until the rest of the
      pattern matches after it. */
  function NameSearch(s: string, start: nat, nameStart: nat, k: nat): (r: Attempt)
    requires start < nameStart <= k
    ensures r.Match? ==> r.span.start == start && r.span.nameStart == nameStart
    ensures r.Match? ==> k <= r.span.nameEnd && Ordered(r.span, |s|)
    decreases |s| - k
  {
    if k + |NameClose| > |s| then NoMatch
    else
      match TailSearch(s, k)
      case Tail(descStart, descEnd) => Match(Span(start, nameStart, k, descStart, descEnd))
      case NoTail => NameSearch(s, start, nameStart, k + 1)
  }

  /** The attempt of the regex engine to match at position `p`. */
  function MatchAt(s: string, p: nat): (r: Attempt)
    ensures r.Match? ==> r.span.start == p && Ordered(r.span, |s|)
  {
    if !HasAt(s, p, SkillOpen) then NoMatch
    else
      var q := SkipSpace(s, p + |SkillOpen|);
      if !HasAt(s, q, NameOpen) then NoMatch
      else NameSearch(s, p, q + |NameOpen|, q + |NameOpen|)
  }

  /** re.findall's scan from `pos`: try each position in turn; after a match,
      resume at its end. The matches come out left to right and do not overlap. */
  function Matches(s: string, pos: nat): (ms: seq<Span>)
    ensures forall i :: 0 <= i < |ms| ==> pos <= ms[i].start && Ordered(ms[i], |s|)
    ensures forall i :: 0 <= i < |ms| - 1 ==> ms[i].End() <= ms[i + 1].start
    decreases |s| - pos
  {
    if pos >= |s| then []
    else
      match MatchAt(s, pos)
      case Match(m) => [m] + Matches(s, m.End())
      case NoMatch => Matches(s, pos + 1)
  }

  // ---- building the records ----

  function RawName(s: string, m: Span): string
    requires Ordered(m, |s|)
  {
    s[m.nameStart..m.nameEnd]
  }

  function RawDescription(s: string, m: Span): string
    requires Ordered(m, |s|)
  {
    s[m.descStart..m.descEnd]
  }

  /** One record from the two groups of a match: the name stripped of
      whitespace, the description stripped of whitespace and then of every
      leading and trailing `"`. */
  function Record(name: string, description: string): (r: Skill)
    ensures TrimmedBy(r.name, IsSpace) && TrimmedBy(r.description, IsQuote)
  {
    Skill(Strip(name), StripQuotes(Strip(description)))
  }

  /** Stripping keeps a name and a description that need none. */
  lemma {:induction false} RecordOfTrimmed(name: string, description: string)
    ensures TrimmedBy(name, IsSpace) ==> Record(name, description).name == name
    ensures TrimmedBy(description, IsSpace) && TrimmedBy(description, IsQuote) ==>
      Record(name, description).description == description
  {
    if TrimmedBy(name, IsSpace) {
      TrimOfTrimmed(name, IsSpace);
    }
    if TrimmedBy(description, IsSpace) && TrimmedBy(description, IsQuote) {
      TrimOfTrimmed(description, IsSpace);
      TrimOfTrimmed(description, IsQuote);
    }
  }

  /** One record per match, in the order of the matches. */
  function RecordsOf(s: string, ms: seq<Span>): (r: seq<Skill>)
    requires forall i :: 0 <= i < |ms| ==> Ordered(ms[i], |s|)
    ensures |r| == |ms|
    ensures forall i :: 0 <= i < |r| ==> r[i] == Record(RawName(s, ms[i]), RawDescription(s, ms[i]))
  {
    if ms == [] then []
    else
      var last := ms[|ms| - 1];
      RecordsOf(s, ms[..|ms| - 1]) + [Record(RawName(s, last), RawDescription(s, last))]
  }

  /** The list load_skills_from_agents_md returns for the document `content`:
      one record per match of re.findall, in document order. */
  function Parse(content: string): (r: seq<Skill>)
    ensures |r| == |Matches(content, 0)|
    ensures forall i :: 0 <= i < |r| ==> TrimmedBy(r[i].name, IsSpace) && TrimmedBy(r[i].description, IsQuote)
  {
    RecordsOf(content, Matches(content, 0))
  }

  /** load_skills_from_agents_md after the file has been read: the loop that
      appends one record per match. */
  method LoadSkills(content: string) returns (skills: seq<Skill>)
    ensures skills == Parse(content)
  {
    var matches := Matches(content, 0);
    skills := [];
    for i := 0 to |matches|
      invariant skills == RecordsOf(content, matches[..i])
    {
      var m := matches[i];
      assert matches[..i + 1][..i] == matches[..i];
      skills := skills + [Record(content[m.nameStart..m.nameEnd], content[m.descStart..m.descEnd])];
    }
    assert matches[..|matches|] == matches;
  }

  // ---- the scan computes what re.findall returns ----

  lemma {:induction false} HasAtFirst(s: string, i: nat, p: string)
    requires HasAt(s, i, p) && |p| > 0
    ensures s[i] == p[0]
  {
    assert s[i..i + |p|][0] == s[i];
  }

  /** A whitespace run followed by a non-space character ends where SkipSpace says. */
  lemma {:induction false} RunEndsAtSkip(s: string, i: nat, j: nat)
    requires SpaceRun(s, i, j) && j < |s| && !IsSpace(s[j])
    ensures j == SkipSpace(s, i)
    decreases j - i
  {
    if i < j {
      RunEndsAtSkip(s, i + 1, j);
    }
  }

  /** In any match, the position of `<name>` (and of `<description>`) is fixed
      by where the preceding tag ends: `\s*` cannot stop early or run over `<`. */
  lemma {:induction false} HeadFixed(s: string, start: nat, nameStart: nat)
    requires HeadAt(s, start, nameStart)
    ensures nameStart - |NameOpen| == SkipSpace(s, start + |SkillOpen|)
  {
    HasAtFirst(s, nameStart - |NameOpen|, NameOpen);
    RunEndsAtSkip(s, start + |SkillOpen|, nameStart - |NameOpen|);
  }

  lemma {:induction false} TailFixed(s: string, nameEnd: nat, descStart: nat, descEnd: nat)
    requires TailAt(s, nameEnd, descStart, descEnd)
    ensures descStart - |DescOpen| == SkipSpace(s, nameEnd + |NameClose|)
  {
    HasAtFirst(s, descStart - |DescOpen|, DescOpen);
    RunEndsAtSkip(s, nameEnd + |NameClose|, descStart - |DescOpen|);
  }

  lemma {:induction false} MatchTagsFixed(s: string, m: Span)
    requires IsMatch(s, m)
    ensures m.nameStart - |NameOpen| == SkipSpace(s, m.start + |SkillOpen|)
    ensures m.descStart - |DescOpen| == SkipSpace(s, m.nameEnd + |NameClose|)
  {
    HeadFixed(s, m.start, m.nameStart);
    TailFixed(s, m.nameEnd, m.descStart, m.descEnd);
  }

  /** What TailSearch finds is a way of matching the rest of the pattern. */
  lemma {:induction false} TailSearchSound(s: string, k: nat)
    requires TailSearch(s, k).Tail?
    ensures TailAt(s, k, TailSearch(s, k).descStart, TailSearch(s, k).descEnd)
  {
    var q := SkipSpace(s, k + |NameClose|);
    SkipSpaceRun(s, k + |NameClose|);
    FindFromFound(s, DescClose, q + |DescOpen|);
  }

  /** Every way of matching the rest of the pattern from `k` has TailSearch
      succeed there, with the same group 2 start and a group 2 no longer. */
  lemma {:induction false} TailSearchFirst(s: string, k: nat, descStart: nat, descEnd: nat)
    requires TailAt(s, k, descStart, descEnd)
    ensures TailSearch(s, k).Tail? && TailSearch(s, k).descStart == descStart
    ensures TailSearch(s, k).descEnd <= descEnd
  {
    TailFixed(s, k, descStart, descEnd);
    FindFromFirst(s, DescClose, descStart, descEnd);
  }

  /** The search stops where TailSearch first succeeds. */
  lemma {:induction false} NameSearchSound(s: string, start: nat, nameStart: nat, k: nat)
    requires start < nameStart <= k
    ensures var r := NameSearch(s, start, nameStart, k);
      r.Match? ==> TailSearch(s, r.span.nameEnd) == Tail(r.span.descStart, r.span.descEnd)
    decreases |s| - k
  {
    if k + |NameClose| <= |s| && TailSearch(s, k).NoTail? {
      NameSearchSound(s, start, nameStart, k + 1);
    }
  }

  /** The search, begun at `k`, stops at or before any later `e` where
      TailSearch succeeds. */
  lemma {:induction false} NameSearchFirst(s: string, start: nat, nameStart: nat, k: nat, e: nat)
    requires start < nameStart <= k <= e && TailSearch(s, e).Tail?
    ensures NameSearch(s, start, nameStart, k).Match?
    ensures NameSearch(s, start, nameStart, k).span.nameEnd <= e
    decreases e - k
  {
    if k < e && TailSearch(s, k).NoTail? {
      NameSearchFirst(s, start, nameStart, k + 1, e);
    }
  }

  /** Once `<skill>\s*<name>` has matched, the attempt is the search for group 1. */
  lemma {:induction false} MatchAtStart(s: string, p: nat)
    requires HasAt(s, p, SkillOpen) && HasAt(s, SkipSpace(s, p + |SkillOpen|), NameOpen)
    ensures var n := SkipSpace(s, p + |SkillOpen|) + |NameOpen|;
      MatchAt(s, p) == NameSearch(s, p, n, n)
  {
  }

  lemma {:induction false} HeadStart(s: string, start: nat, nameStart: nat)
    requires HeadAt(s, start, nameStart)
    ensures MatchAt(s, start) == NameSearch(s, start, nameStart, nameStart)
  {
    HeadFixed(s, start, nameStart);
    MatchAtStart(s, start);
  }

  lemma {:induction false} MatchAtHead(s: string, p: nat)
    requires MatchAt(s, p).Match?
    ensures HeadAt(s, p, MatchAt(s, p).span.nameStart)
  {
    SkipSpaceRun(s, p + |SkillOpen|);
  }

  lemma {:induction false} MatchAtTail(s: string, p: nat)
    requires MatchAt(s, p).Match?
    ensures var m := MatchAt(s, p).span;
      TailSearch(s, m.nameEnd) == Tail(m.descStart, m.descEnd)
  {
    var q := SkipSpace(s, p + |SkillOpen|);
    if HasAt(s, p, SkillOpen) && HasAt(s, q, NameOpen) {
      MatchAtStart(s, p);
      NameSearchSound(s, p, q + |NameOpen|, q + |NameOpen|);
    }
  }

  /** A head and a tail that TailSearch finds make a way of matching. */
  lemma {:induction false} MatchOfParts(s: string, m: Span)
    requires HeadAt(s, m.start, m.nameStart) && m.nameStart <= m.nameEnd
    requires TailSearch(s, m.nameEnd) == Tail(m.descStart, m.descEnd)
    ensures IsMatch(s, m)
  {
    TailSearchSound(s, m.nameEnd);
  }

  /** What MatchAt finds is a way of matching. */
  lemma {:induction false} MatchAtSound(s: string, p: nat)
    requires MatchAt(s, p).Match?
    ensures IsMatch(s, MatchAt(s, p).span)
  {
    MatchAtHead(s, p);
    MatchAtTail(s, p);
    MatchOfParts(s, MatchAt(s, p).span);
  }

  /** MatchAt finds a match wherever a way of matching starts, and the one it
      finds comes first in backtracking order. */
  lemma {:induction false} MatchAtFirst(s: string, m: Span)
    requires IsMatch(s, m)
    ensures MatchAt(s, m.start).Match? && TriedFirst(MatchAt(s, m.start).span, m)
  {
    HeadStart(s, m.start, m.nameStart);
    TailSearchFirst(s, m.nameEnd, m.descStart, m.descEnd);
    NameSearchFirst(s, m.start, m.nameStart, m.nameStart, m.nameEnd);
    NameSearchSound(s, m.start, m.nameStart, m.nameStart);
  }

  /** MatchAt(s, p) is the match the regex engine finds at `p`, and it finds
      none exactly when no way of matching starts at `p`. */
  lemma {:induction false} MatchAtCorrect(s: string, p: nat)
    ensures MatchAt(s, p).Match? ==> IsMatchAt(s, MatchAt(s, p).span)
    ensures MatchAt(s, p).NoMatch? ==> forall m :: IsMatch(s, m) ==> m.start != p
  {
    if MatchAt(s, p).Match? {
      MatchAtSound(s, p);
    }
    forall m | IsMatch(s, m) && m.start == p
      ensures MatchAt(s, p).Match? && TriedFirst(MatchAt(s, p).span, m)
    {
      MatchAtFirst(s, m);
    }
  }

  /** The scan returns exactly what re.findall must return. */
  lemma {:induction false} MatchesAreFindAll(s: string, pos: nat)
    ensures IsFindAll(s, pos, Matches(s, pos))
    decreases |s| - pos
  {
    if pos >= |s| {
      assert NoMatchFrom(s, pos);
    } else {
      MatchAtCorrect(s, pos);
      match MatchAt(s, pos)
      case Match(m) =>
        MatchesAreFindAll(s, m.End());
        assert ([m] + Matches(s, m.End()))[1..] == Matches(s, m.End());
      case NoMatch =>
        MatchesAreFindAll(s, pos + 1);
        var ms := Matches(s, pos + 1);
        if ms != [] {
          assert IsLeftmostFrom(s, pos, ms[0]);
        }
    }
  }

  lemma {:induction false} MatchAtUnique(s: string, m: Span, m': Span)
    requires IsMatchAt(s, m) && IsMatchAt(s, m') && m.start == m'.start
    ensures m == m'
  {
    MatchTagsFixed(s, m);
    MatchTagsFixed(s, m');
  }

  /** re.findall's result is determined by the document: at most one sequence
      of matches fits the description. */
  lemma {:induction false} FindAllUnique(s: string, pos: nat, a: seq<Span>, b: seq<Span>)
    requires IsFindAll(s, pos, a) && IsFindAll(s, pos, b)
    ensures a == b
    decreases |a|
  {
    if a != [] && b != [] {
      MatchAtUnique(s, a[0], b[0]);
      FindAllUnique(s, a[0].End(), a[1..], b[1..]);
      assert a == [a[0]] + a[1..] && b == [b[0]] + b[1..];
    }
  }

  /** Any sequence of matches that fits re.findall's description is the scan's result. */
  lemma {:induction false} FindAllIsMatches(s: string, pos: nat, ms: seq<Span>)
    requires IsFindAll(s, pos, ms)
    ensures Matches(s, pos) == ms
  {
    MatchesAreFindAll(s, pos);
    FindAllUnique(s, pos, Matches(s, pos), ms);
  }
}
