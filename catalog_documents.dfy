/** Catalog documents written as a sequence of well-formed skill blocks, and
    the round trip: parsing such a document gives back exactly the records the
    blocks were written from, in order. */
module CatalogDocuments {
  import opened Text
  import opened Catalog

  /** `p` occurs nowhere in `x`. */
  ghost predicate Absent(x: string, p: string) {
    forall i: nat :: !HasAt(x, i, p)
  }

  /** The last character of `p` occurs nowhere else in `p`, so an occurrence
      of `p` cannot begin inside a text that is followed by an occurrence. */
  predicate LastUnique(p: string) {
    |p| > 0 && forall k :: 0 <= k < |p| - 1 ==> p[k] != p[|p| - 1]
  }

  /** A skill block preceded by arbitrary text `lead`: either
      `<skill><name>N</name><description>D</description>` or the same with
      the description written as `"D"`. */
  datatype Block = Block(lead: string, name: string, description: string, quoted: bool)

  function Written(b: Block): string {
    if b.quoted then "\"" + b.description + "\"" else b.description
  }

  function BlockText(b: Block): string {
    SkillOpen + NameOpen + b.name + NameClose + DescOpen + Written(b) + DescClose
  }

  /** The blocks one after the other, then `tail`. */
  function Document(bs: seq<Block>, tail: string): string
    decreases |bs|
  {
    if bs == [] then tail else bs[0].lead + BlockText(bs[0]) + Document(bs[1..], tail)
  }

  /** The conditions under which a block reads back as written: no `<skill>`
      in the text before it, a trimmed name without `</name>`, a description
      without `</description>` that neither begins nor ends with `"` and, when
      written bare, is trimmed of whitespace. */
  ghost predicate WellFormed(b: Block) {
    Absent(b.lead, SkillOpen)
    && TrimmedBy(b.name, IsSpace) && Absent(b.name, NameClose)
    && TrimmedBy(b.description, IsQuote) && (b.quoted || TrimmedBy(b.description, IsSpace))
    && Absent(b.description, DescClose)
  }

  /** Where the match of block `b` lies when its lead text starts at `o`. */
  function BlockSpan(o: nat, b: Block): Span {
    SpanAt(o + |b.lead|, b)
  }

  /** Where the match of block `b` lies when its `<skill>` starts at `p`. */
  function SpanAt(p: nat, b: Block): Span {
    var ne := p + |SkillOpen| + |NameOpen| + |b.name|;
    var ds := ne + |NameClose| + |DescOpen|;
    Span(p, p + |SkillOpen| + |NameOpen|, ne, ds, ds + |Written(b)|)
  }

  function BlockSpans(o: nat, bs: seq<Block>): (ms: seq<Span>)
    ensures |ms| == |bs|
    decreases |bs|
  {
    if bs == [] then [] else [BlockSpan(o, bs[0])] + BlockSpans(BlockSpan(o, bs[0]).End(), bs[1..])
  }

  function Expected(bs: seq<Block>): seq<Skill> {
    seq(|bs|, i requires 0 <= i < |bs| => Skill(bs[i].name, bs[i].description))
  }

  // ---- occurrences of tags ----

  /** No occurrence of `p` starts inside a copy of `x` that is followed by an
      occurrence of `p` or by the end of the document. */
  lemma {:induction false} NotInside(s: string, o: nat, x: string, p: string)
    requires LastUnique(p) && Absent(x, p)
    requires o + |x| <= |s| && s[o..o + |x|] == x
    requires HasAt(s, o + |x|, p) || o + |x| == |s|
    ensures forall i: nat :: o <= i < o + |x| ==> !HasAt(s, i, p)
  {
    forall i: nat | o <= i < o + |x| ensures !HasAt(s, i, p) {
      if i + |p| <= o + |x| {
        WithinCopy(s, o, x, p, i);
      } else if i + |p| <= |s| {
        Straddling(s, o + |x|, p, i);
      }
    }
  }

  /** An occurrence lying wholly inside the copy of `x` would be one in `x`. */
  lemma {:induction false} WithinCopy(s: string, o: nat, x: string, p: string, i: nat)
    requires Absent(x, p) && o + |x| <= |s| && s[o..o + |x|] == x
    requires o <= i && i + |p| <= o + |x|
    ensures !HasAt(s, i, p)
  {
    assert !HasAt(x, i - o, p);
    var j :| 0 <= j < |p| && x[i - o + j] != p[j];
    assert s[o..o + |x|][i - o + j] == s[i + j];
  }

  /** An occurrence starting before an occurrence at `j` and running into it
      would put the last character of `p` at a place where the occurrence at
      `j` has an earlier character of `p`. */
  lemma {:induction false} Straddling(s: string, j: nat, p: string, i: nat)
    requires LastUnique(p) && HasAt(s, j, p)
    requires i < j < i + |p| <= |s|
    ensures !HasAt(s, i, p)
  {
    var k := i + |p| - 1 - j;
    assert s[j + k] == p[k] != p[|p| - 1];
    assert s[i + (|p| - 1)] != p[|p| - 1];
  }

  lemma {:induction false} TagsLastUnique()
    ensures LastUnique(SkillOpen) && LastUnique(NameClose) && LastUnique(DescClose)
  {
  }

  lemma {:induction false} QuotedAbsent(d: string)
    requires Absent(d, DescClose)
    ensures Absent("\"" + d + "\"", DescClose)
  {
    var w := "\"" + d + "\"";
    forall i: nat ensures !HasAt(w, i, DescClose) {
      if i + |DescClose| <= |w| {
        if i == 0 {
          assert w[i + 0] != DescClose[0];
        } else if i + |DescClose| == |w| {
          assert w[i + (|DescClose| - 1)] != DescClose[|DescClose| - 1];
        } else {
          assert !HasAt(d, i - 1, DescClose);
          var j :| 0 <= j < |DescClose| && d[i - 1 + j] != DescClose[j];
          assert w[i + j] == d[i - 1 + j];
        }
      }
    }
  }

  lemma {:induction false} WrittenAbsent(b: Block)
    requires WellFormed(b)
    ensures Absent(Written(b), DescClose)
  {
    if b.quoted {
      QuotedAbsent(b.description);
    }
  }

  /** The record built from a well-formed block's groups is the block's own. */
  lemma {:induction false} RecordOfBlock(b: Block)
    requires WellFormed(b)
    ensures Record(b.name, Written(b)) == Skill(b.name, b.description)
  {
    RecordOfTrimmed(b.name, Written(b));
    if b.quoted {
      var w := Written(b);
      assert TrimmedBy(w, IsSpace);
      StripQuotesOfQuoted(b.description);
    }
  }

  // ---- one block ----

  /** Splitting a slice of `s` that reads `u + v` into its two parts. */
  lemma {:induction false} Peel(s: string, i: nat, j: nat, u: string, v: string)
    requires i <= j <= |s| && s[i..j] == u + v
    ensures i + |u| + |v| == j && s[i..i + |u|] == u && s[i + |u|..j] == v
  {
    assert s[i..j][..|u|] == s[i..i + |u|];
    assert s[i..j][|u|..] == s[i + |u|..j];
  }

  /** The pieces of block `b` lie in `s` as span `m` says. */
  ghost predicate PiecesAt(s: string, m: Span, b: Block) {
    && m == SpanAt(m.start, b)
    && HasAt(s, m.start, SkillOpen) && HasAt(s, m.start + |SkillOpen|, NameOpen)
    && m.nameEnd <= |s| && s[m.nameStart..m.nameEnd] == b.name && HasAt(s, m.nameEnd, NameClose)
    && HasAt(s, m.nameEnd + |NameClose|, DescOpen)
    && m.descEnd <= |s| && s[m.descStart..m.descEnd] == Written(b) && HasAt(s, m.descEnd, DescClose)
  }

  /** Where every piece of block `b` lies in `s` when its lead text starts at `o`. */
  ghost predicate Laid(s: string, o: nat, b: Block, rest: string) {
    var m := BlockSpan(o, b);
    && m.End() <= |s| && s[o..m.start] == b.lead && PiecesAt(s, m, b) && s[m.End()..] == rest
  }

  /** The closing pieces of a block text: `</name>`, `<description>`, the
      description as written and `</description>`. */
  lemma {:induction false} TextLayoutTail(s: string, m: Span, b: Block)
    requires m == SpanAt(m.start, b) && m.End() <= |s| && s[m.start..m.End()] == BlockText(b)
    ensures HasAt(s, m.nameEnd, NameClose) && HasAt(s, m.nameEnd + |NameClose|, DescOpen)
    ensures s[m.descStart..m.descEnd] == Written(b) && HasAt(s, m.descEnd, DescClose)
    ensures s[m.start..m.nameEnd] == SkillOpen + NameOpen + b.name
  {
    var p, e, n, w := m.start, m.End(), b.name, Written(b);
    Peel(s, p, e, SkillOpen + NameOpen + n + NameClose + DescOpen + w, DescClose);
    Peel(s, p, m.descEnd, SkillOpen + NameOpen + n + NameClose + DescOpen, w);
    Peel(s, p, m.descStart, SkillOpen + NameOpen + n + NameClose, DescOpen);
    Peel(s, p, m.nameEnd + |NameClose|, SkillOpen + NameOpen + n, NameClose);
  }

  /** The opening pieces: `<skill>`, `<name>` and the name. */
  lemma {:induction false} TextLayoutHead(s: string, m: Span, b: Block)
    requires m == SpanAt(m.start, b) && m.nameEnd <= |s| && s[m.start..m.nameEnd] == SkillOpen + NameOpen + b.name
    ensures HasAt(s, m.start, SkillOpen) && HasAt(s, m.start + |SkillOpen|, NameOpen)
    ensures s[m.nameStart..m.nameEnd] == b.name
  {
    Peel(s, m.start, m.nameEnd, SkillOpen + NameOpen, b.name);
    Peel(s, m.start, m.nameStart, SkillOpen, NameOpen);
  }

  lemma {:induction false} BlockPieces(s: string, m: Span, b: Block)
    requires m == SpanAt(m.start, b) && m.End() <= |s| && s[m.start..m.End()] == BlockText(b)
    ensures PiecesAt(s, m, b)
  {
    TextLayoutTail(s, m, b);
    TextLayoutHead(s, m, b);
  }

  lemma {:induction false} BlockLayout(s: string, o: nat, b: Block, rest: string)
    requires o <= |s| && s[o..] == b.lead + BlockText(b) + rest
    ensures Laid(s, o, b, rest)
  {
    var m := BlockSpan(o, b);
    assert s[o..|s|] == (b.lead + BlockText(b)) + rest;
    Peel(s, o, |s|, b.lead + BlockText(b), rest);
    Peel(s, o, m.End(), b.lead, BlockText(b));
    BlockPieces(s, m, b);
  }

  lemma {:induction false} BlockIsMatch(s: string, m: Span, b: Block)
    requires PiecesAt(s, m, b)
    ensures IsMatch(s, m) && Ordered(m, |s|)
  {
    assert SpaceRun(s, m.start + |SkillOpen|, m.start + |SkillOpen|);
    assert HeadAt(s, m.start, m.nameStart);
    BlockTail(s, m, b);
  }

  lemma {:induction false} BlockTail(s: string, m: Span, b: Block)
    requires PiecesAt(s, m, b)
    ensures TailAt(s, m.nameEnd, m.descStart, m.descEnd)
  {
    assert SpaceRun(s, m.nameEnd + |NameClose|, m.nameEnd + |NameClose|);
  }

  lemma {:induction false} BlockReads(s: string, o: nat, b: Block, rest: string)
    requires Laid(s, o, b, rest)
    ensures ReadsAs(s, BlockSpan(o, b), b)
  {
  }

  /** Every way of matching at the block's `<skill>` has the block's group 1
      start and a group 1 at least as long: `</name>` does not occur inside
      the name. */
  lemma {:induction false} NameFirst(s: string, m: Span, b: Block)
    requires PiecesAt(s, m, b) && Absent(b.name, NameClose)
    ensures forall m' :: IsMatch(s, m') && m'.start == m.start ==>
      m'.nameStart == m.nameStart && m.nameEnd <= m'.nameEnd
  {
    TagsLastUnique();
    NotInside(s, m.nameStart, b.name, NameClose);
    HasAtFirst(s, m.start + |SkillOpen|, NameOpen);
    assert SkipSpace(s, m.start + |SkillOpen|) == m.start + |SkillOpen|;
    forall m' | IsMatch(s, m') && m'.start == m.start ensures m'.nameStart == m.nameStart {
      HeadFixed(s, m'.start, m'.nameStart);
    }
  }

  /** With the same group 1, every way of matching has a group 2 at least as
      long: `</description>` does not occur inside the description. */
  lemma {:induction false} DescriptionFirst(s: string, m: Span, b: Block)
    requires PiecesAt(s, m, b) && Absent(Written(b), DescClose)
    ensures forall m' :: IsMatch(s, m') && m'.nameEnd == m.nameEnd ==>
      m'.descStart == m.descStart && m.descEnd <= m'.descEnd
  {
    TagsLastUnique();
    NotInside(s, m.descStart, Written(b), DescClose);
    HasAtFirst(s, m.nameEnd + |NameClose|, DescOpen);
    assert SkipSpace(s, m.nameEnd + |NameClose|) == m.nameEnd + |NameClose|;
    forall m' | IsMatch(s, m') && m'.nameEnd == m.nameEnd ensures m'.descStart == m.descStart {
      TailFixed(s, m'.nameEnd, m'.descStart, m'.descEnd);
    }
  }

  /** Of all ways of matching at the block's `<skill>`, the block's own span
      comes first in the order the lazy groups are tried. */
  lemma {:induction false} BlockFirst(s: string, m: Span, b: Block)
    requires PiecesAt(s, m, b) && WellFormed(b)
    ensures forall m' :: IsMatch(s, m') && m'.start == m.start ==> TriedFirst(m, m')
  {
    WrittenAbsent(b);
    NameFirst(s, m, b);
    DescriptionFirst(s, m, b);
  }

  /** No way of matching starts inside the block's lead text. */
  lemma {:induction false} BlockLeftmost(s: string, o: nat, b: Block, rest: string)
    requires Laid(s, o, b, rest) && WellFormed(b)
    ensures var m := BlockSpan(o, b);
      forall m' :: IsMatch(s, m') && o <= m'.start ==> m.start <= m'.start
  {
    TagsLastUnique();
    NotInside(s, o, b.lead, SkillOpen);
  }

  /** A well-formed block is what a search from the start of its lead text finds. */
  lemma {:induction false} BlockIsLeftmost(s: string, o: nat, b: Block, rest: string)
    requires Laid(s, o, b, rest) && WellFormed(b)
    ensures IsLeftmostFrom(s, o, BlockSpan(o, b))
  {
    BlockIsMatch(s, BlockSpan(o, b), b);
    BlockFirst(s, BlockSpan(o, b), b);
    BlockLeftmost(s, o, b, rest);
  }

  // ---- the whole document ----

  /** Span `m` of `s` is ordered and its two groups are block `b`'s name and
      its description as written. */
  ghost predicate ReadsAs(s: string, m: Span, b: Block) {
    Ordered(m, |s|) && s[m.nameStart..m.nameEnd] == b.name && s[m.descStart..m.descEnd] == Written(b)
  }

  ghost predicate AllReadAs(s: string, ms: seq<Span>, bs: seq<Block>) {
    |ms| == |bs| && forall i :: 0 <= i < |bs| ==> ReadsAs(s, ms[i], bs[i])
  }

  lemma {:induction false} AllReadAsCons(s: string, m: Span, rs: seq<Span>, bs: seq<Block>)
    requires |bs| > 0 && ReadsAs(s, m, bs[0]) && AllReadAs(s, rs, bs[1..])
    ensures AllReadAs(s, [m] + rs, bs)
  {
    var ms := [m] + rs;
    forall i | 0 <= i < |bs| ensures ReadsAs(s, ms[i], bs[i]) {
      if i > 0 {
        assert ms[i] == rs[i - 1] && bs[i] == bs[1..][i - 1];
      }
    }
  }

  /** The document after the first block starts where that block's match ends. */
  lemma {:induction false} DocumentStep(s: string, o: nat, bs: seq<Block>, tail: string)
    requires o <= |s| && s[o..] == Document(bs, tail) && bs != []
    ensures Laid(s, o, bs[0], Document(bs[1..], tail))
    ensures BlockSpans(o, bs) == [BlockSpan(o, bs[0])] + BlockSpans(BlockSpan(o, bs[0]).End(), bs[1..])
    ensures BlockSpan(o, bs[0]).End() <= |s|
  {
    BlockLayout(s, o, bs[0], Document(bs[1..], tail));
  }

  lemma {:induction false} DocumentFindAll(s: string, o: nat, bs: seq<Block>, tail: string)
    requires o <= |s| && s[o..] == Document(bs, tail)
    requires forall i :: 0 <= i < |bs| ==> WellFormed(bs[i])
    requires Absent(tail, SkillOpen)
    ensures IsFindAll(s, o, BlockSpans(o, bs))
    decreases |bs|
  {
    if bs == [] {
      TagsLastUnique();
      NotInside(s, o, tail, SkillOpen);
      assert NoMatchFrom(s, o);
    } else {
      DocumentStep(s, o, bs, tail);
      var m := BlockSpan(o, bs[0]);
      BlockIsLeftmost(s, o, bs[0], Document(bs[1..], tail));
      DocumentFindAll(s, m.End(), bs[1..], tail);
      assert BlockSpans(o, bs)[1..] == BlockSpans(m.End(), bs[1..]);
    }
  }

  lemma {:induction false} DocumentReads(s: string, o: nat, bs: seq<Block>, tail: string)
    requires o <= |s| && s[o..] == Document(bs, tail)
    ensures AllReadAs(s, BlockSpans(o, bs), bs)
    decreases |bs|
  {
    if bs != [] {
      DocumentStep(s, o, bs, tail);
      var m := BlockSpan(o, bs[0]);
      BlockReads(s, o, bs[0], Document(bs[1..], tail));
      DocumentReads(s, m.End(), bs[1..], tail);
      AllReadAsCons(s, m, BlockSpans(m.End(), bs[1..]), bs);
    }
  }

  /** The record built from the groups of a span that reads as a well-formed block. */
  lemma {:induction false} RecordOfRead(s: string, m: Span, b: Block)
    requires ReadsAs(s, m, b) && WellFormed(b)
    ensures Record(RawName(s, m), RawDescription(s, m)) == Skill(b.name, b.description)
  {
    RecordOfBlock(b);
  }

  /** Round trip: a document made of well-formed blocks, separated by text
      without `<skill>`, parses to exactly the blocks' records, in order,
      whether each description is written bare or in quotes. */
  lemma {:induction false} ParseDocument(bs: seq<Block>, tail: string)
    requires forall i :: 0 <= i < |bs| ==> WellFormed(bs[i])
    requires Absent(tail, SkillOpen)
    ensures Parse(Document(bs, tail)) == Expected(bs)
  {
    var s := Document(bs, tail);
    assert s[0..] == s;
    var ms := BlockSpans(0, bs);
    DocumentFindAll(s, 0, bs, tail);
    DocumentReads(s, 0, bs, tail);
    FindAllIsMatches(s, 0, ms);
    forall i | 0 <= i < |bs| ensures RecordsOf(s, ms)[i] == Expected(bs)[i] {
      RecordOfRead(s, ms[i], bs[i]);
    }
  }

  /** A document without `<skill>` yields no records. */
  lemma {:induction false} NoSkillTagNoRecords(s: string)
    requires Absent(s, SkillOpen)
    ensures Parse(s) == []
  {
    ParseDocument([], s);
  }

  // ---- a malformed block is not skipped ----

  /** `p` cannot occur in a text that lacks one of its characters. */
  lemma {:induction false} AbsentByChar(x: string, p: string, k: nat)
    requires k < |p| && p[k] !in x
    ensures Absent(x, p)
  {
    forall i: nat ensures !HasAt(x, i, p) {
      if i + |p| <= |x| {
        assert x[i + k] in x;
      }
    }
  }

  /** `p` occurs where a slice of `s` reads `p`. */
  lemma {:induction false} SliceHasAt(s: string, i: nat, p: string)
    requires i + |p| <= |s| && s[i..i + |p|] == p
    ensures HasAt(s, i, p)
  {
    forall j | 0 <= j < |p| ensures s[i + j] == p[j] {
      assert s[i..i + |p|][j] == s[i + j];
    }
  }

  /** The text of a skill block whose first `</name>` is followed by `<skill>`
      rather than by `<description>`, and the text of the well-formed block
      after it; written out, the two blocks read
      `<skill><name>A</name><skill><name>B</name><description>D</description>`.

      The lemmas below refer to its layout by offset:
      - 0: `<skill>` (7 characters), so 7: `<name>` (6 characters);
      - 13: group 1 starts, with `A`;
      - 14: the first `</name>` (7 characters);
      - 21: `<skill><name>B`, the rest of the merged name (14 characters);
      - 35: the second `</name>`, where group 1 ends. */
  const MergedHead: string := "A" + NameClose
  const MergedTail: string := SkillOpen + NameOpen + "B"
  const MergedName: string := MergedHead + MergedTail
  const MergedBlock: Block := Block("", MergedName, "D", false)
  const MergedDocument: string := BlockText(MergedBlock)

  /** Where the pieces of the merged name lie in a text laid out as the block. */
  lemma {:induction false} MergedPieces(s: string)
    requires PiecesAt(s, SpanAt(0, MergedBlock), MergedBlock)
    ensures s[21..35] == MergedTail && s[14..21] == NameClose && s[13..14] == "A"
  {
    Peel(s, 13, 35, MergedHead, MergedTail);
    Peel(s, 13, 21, "A", NameClose);
  }

  /** The only `</name>` inside the merged name is its first one. */
  lemma {:induction false} MergedNameCloses(s: string)
    requires 35 + |NameClose| <= |s| && HasAt(s, 35, NameClose)
    requires s[21..35] == MergedTail && s[14..21] == NameClose && s[13..14] == "A"
    ensures HasAt(s, 14, NameClose)
    ensures forall e :: 13 <= e < 35 && HasAt(s, e, NameClose) ==> e == 14
  {
    TagsLastUnique();
    SliceHasAt(s, 14, NameClose);
    AbsentByChar(MergedTail, NameClose, 1);
    NotInside(s, 21, MergedTail, NameClose);
    NotInside(s, 13, "A", NameClose);
    forall e | 14 < e < 21 ensures !HasAt(s, e, NameClose) {
      assert s[14..21][e - 14] == s[e + 0];
    }
  }

  /** After the first `</name>` comes `<skill>`, not `\s*<description>`. */
  lemma {:induction false} MergedNoDescription(s: string)
    requires 35 <= |s| && s[21..35] == MergedTail
    ensures SkipSpace(s, 21) == 21 && !HasAt(s, 21, DescOpen)
  {
    assert s[21] == s[21..35][0] == '<' && s[22] == s[21..35][1] == 's';
    assert s[21 + 1] != DescOpen[1];
  }

  /** At the first `<skill>` of the merged text, the lazy group 1 cannot stop
      at the first `</name>`. */
  lemma {:induction false} MergedNameFirst(s: string, m: Span)
    requires m == SpanAt(0, MergedBlock) && PiecesAt(s, m, MergedBlock)
    ensures forall m' :: IsMatch(s, m') && m'.start == 0 ==>
      m'.nameStart == m.nameStart && m.nameEnd <= m'.nameEnd
  {
    MergedPieces(s);
    MergedNameCloses(s);
    MergedNoDescription(s);
    assert s[7 + 0] == NameOpen[0];
    assert SkipSpace(s, 7) == 7;
    forall m' | IsMatch(s, m') && m'.start == 0
      ensures m'.nameStart == m.nameStart && m.nameEnd <= m'.nameEnd
    {
      HeadFixed(s, 0, m'.nameStart);
      if m'.nameEnd == 14 {
        TailFixed(s, 14, m'.descStart, m'.descEnd);
      }
    }
  }

  /** The merged text is laid out as the merged block. */
  lemma {:induction false} MergedLaid(s: string)
    requires s == MergedDocument
    ensures PiecesAt(s, SpanAt(0, MergedBlock), MergedBlock) && SpanAt(0, MergedBlock).End() == |s|
  {
    var b := MergedBlock;
    assert s[0..] == b.lead + BlockText(b) + "";
    BlockLayout(s, 0, b, "");
  }

  /** The merged text's match at its first `<skill>` is the one the regex
      engine reports there. */
  lemma {:induction false} MergedIsMatchAt(s: string)
    requires PiecesAt(s, SpanAt(0, MergedBlock), MergedBlock)
    ensures IsMatchAt(s, SpanAt(0, MergedBlock))
  {
    var b := MergedBlock;
    var m := SpanAt(0, b);
    BlockIsMatch(s, m, b);
    MergedNameFirst(s, m);
    DescriptionFirst(s, m, b);
  }

  /** re.findall finds a single match in the merged text: it starts at the
      first `<skill>` and its group 1 runs to the second `</name>`. */
  lemma {:induction false} MergedFindAll(s: string)
    requires PiecesAt(s, SpanAt(0, MergedBlock), MergedBlock) && SpanAt(0, MergedBlock).End() == |s|
    ensures Matches(s, 0) == [SpanAt(0, MergedBlock)]
  {
    var m := SpanAt(0, MergedBlock);
    MergedIsMatchAt(s);
    assert IsLeftmostFrom(s, 0, m);
    assert NoMatchFrom(s, m.End());
    assert IsFindAll(s, 0, [m]);
    FindAllIsMatches(s, 0, [m]);
  }

  /** Stripping leaves the merged groups as they are. */
  lemma {:induction false} MergedRecord()
    ensures Record(MergedName, "D") == Skill(MergedName, "D")
  {
    assert MergedName[0] == 'A' && MergedName[|MergedName| - 1] == 'B';
    RecordOfTrimmed(MergedName, "D");
  }

  /** A document with a single match gives the one record built from its groups. */
  lemma {:induction false} ParseSingle(s: string, m: Span)
    requires Ordered(m, |s|) && Matches(s, 0) == [m]
    ensures Parse(s) == [Record(RawName(s, m), RawDescription(s, m))]
  {
  }

  /** A block whose `</name>` is not followed by `<description>` is not
      skipped: the lazy group 1 runs on to the next `</name>` that is, so the
      two blocks give one record whose name, `A</name><skill><name>B`, spans
      both. */
  lemma {:induction false} MalformedBlockMerges()
    ensures Parse(MergedDocument) == [Skill(MergedName, "D")]
  {
    var s := MergedDocument;
    var m := SpanAt(0, MergedBlock);
    MergedLaid(s);
    MergedFindAll(s);
    ParseSingle(s, m);
    MergedRecord();
  }
}
