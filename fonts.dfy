/** get_canvas_design_guide of server.py: the fonts directory listing is
    filtered to `.ttf` names, sorted and rendered as a bullet list with a
    count, inside a fixed guide text around the user's request and the
    skill's SKILL.md. */
module CanvasGuide {
  import opened Text
  import opened Resources

  const FontSuffix: string := ".ttf"

  /** The names of a directory listing that end in `.ttf`, in listing order. */
  function TtfFonts(names: seq<string>): (r: seq<string>)
    ensures |r| <= |names|
    decreases |names|
  {
    if names == [] then []
    else (if EndsWith(names[0], FontSuffix) then [names[0]] else []) + TtfFonts(names[1..])
  }

  /** The names a listing keeps: those ending in `.ttf`, compared exactly
      (`.TTF` is not kept), each as often as it was listed. */
  lemma {:induction false} TtfFontsKept(names: seq<string>)
    ensures forall x :: multiset(TtfFonts(names))[x] == if EndsWith(x, FontSuffix) then multiset(names)[x] else 0
    ensures forall x :: x in TtfFonts(names) <==> x in names && EndsWith(x, FontSuffix)
    decreases |names|
  {
    if names != [] {
      assert names == [names[0]] + names[1..];
      TtfFontsKept(names[1..]);
    }
  }

  /** One `- name` line per font. */
  function Bullets(fonts: seq<string>): (r: seq<string>)
    ensures |r| == |fonts|
  {
    seq(|fonts|, i requires 0 <= i < |fonts| => "- " + fonts[i])
  }

  /** The bullets of the fonts in sorted order, one per line: the lines are
      joined by line breaks, with none after the last. */
  function FontList(fonts: seq<string>): string {
    Join("\n", Bullets(SortLex(fonts)))
  }

  const SectionHeading: string := "## 可用字体资源\n字体目录："
  const CountPrefix: string := "\n共 "
  const CountSuffix: string := " 个字体文件：\n\n"

  /** The "available fonts" section of the guide for the kept `fonts`. */
  function FontSection(fontsPath: string, fonts: seq<string>): string {
    SectionHeading + fontsPath + CountPrefix + NatToString(|fonts|) + CountSuffix + FontList(fonts)
  }

  const Requirements: string :=
    "## 创作要求\n"
    + "1. 先构思设计哲学 - 命名美学运动，确定 4-6 段哲学方向\n"
    + "2. 再表达为视觉作品（.png 或 .pdf 文件）- 90% 视觉设计，10% 必要文字\n"
    + "3. 文字必须极简，作为视觉元素而非说明文字\n"
    + "4. 追求博物馆/杂志级别的精致工艺\n"
    + "5. 所有元素必须在画布边界内，有适当边距和呼吸空间\n"
    + "6. 使用上述字体目录中的字体文件\n"
    + "\n\n"
    + "请根据以上指南，为用户创建「"

  /** The text get_canvas_design_guide returns once SKILL.md has been read as
      `guide` and the fonts directory listed as `names`. */
  function GuideText(request: string, guide: string, fontsPath: string, names: seq<string>): string {
    "## 用户设计需求\n" + request + "\n\n## 设计哲学指南\n" + guide + "\n\n"
    + FontSection(fontsPath, TtfFonts(names)) + "\n\n"
    + Requirements + request + "」的视觉艺术作品。\n"
  }

  /** get_canvas_design_guide: reading SKILL.md and listing the fonts
      directory are not guarded, so either failure propagates. */
  function CanvasDesignGuide(request: string, guide: ReadOutcome, fontsPath: string,
                             listing: Option<seq<string>>): (r: Reply)
    ensures r.Returned? <==> guide.Ok? && listing.Some?
    ensures r.Returned? ==> r.text == GuideText(request, guide.content, fontsPath, listing.value)
  {
    if !guide.Ok? then Raised
    else if listing.None? then Raised
    else Returned(GuideText(request, guide.content, fontsPath, listing.value))
  }

  // ---- properties of the font list ----

  /** Every name the sorted list shows was listed and ends in `.ttf`. */
  lemma {:induction false} SortedFontsListed(names: seq<string>, i: nat)
    requires i < |SortLex(TtfFonts(names))|
    ensures SortLex(TtfFonts(names))[i] in names && EndsWith(SortLex(TtfFonts(names))[i], FontSuffix)
  {
    var sorted := SortLex(TtfFonts(names));
    TtfFontsKept(names);
    assert sorted[i] in multiset(sorted);
  }

  /** No line of the font list holds a line break when no listed `.ttf` name does. */
  lemma {:induction false} BulletsSingleLine(names: seq<string>)
    requires forall i :: 0 <= i < |names| ==> EndsWith(names[i], FontSuffix) ==> '\n' !in names[i]
    ensures forall i :: 0 <= i < |Bullets(SortLex(TtfFonts(names)))| ==>
      '\n' !in Bullets(SortLex(TtfFonts(names)))[i]
  {
    var sorted := SortLex(TtfFonts(names));
    var lines := Bullets(sorted);
    forall i | 0 <= i < |lines| ensures '\n' !in lines[i] {
      SortedFontsListed(names, i);
      var k :| 0 <= k < |names| && names[k] == sorted[i];
      assert lines[i] == "- " + sorted[i];
    }
  }

  /** The font list splits into one `- name` line per kept font, in sorted
      order, each kept font as often as it was listed; with no font kept it
      is empty. The `.ttf` names are assumed free of line breaks. */
  lemma {:induction false} FontListLines(names: seq<string>)
    requires forall i :: 0 <= i < |names| ==> EndsWith(names[i], FontSuffix) ==> '\n' !in names[i]
    ensures var sorted := SortLex(TtfFonts(names));
      && SortedLex(sorted)
      && (forall x :: multiset(sorted)[x] == if EndsWith(x, FontSuffix) then multiset(names)[x] else 0)
      && (sorted == [] ==> FontList(TtfFonts(names)) == "")
      && (sorted != [] ==> Split(FontList(TtfFonts(names)), '\n') == Bullets(sorted))
  {
    var sorted := SortLex(TtfFonts(names));
    TtfFontsKept(names);
    if sorted != [] {
      BulletsSingleLine(names);
      SplitJoin(Bullets(sorted), '\n');
    }
  }

  /** sorted() makes the list independent of the order os.listdir returns:
      two listings of the same names give the same font list. */
  lemma {:induction false} FontListOrderIndependent(a: seq<string>, b: seq<string>)
    requires multiset(a) == multiset(b)
    ensures FontList(TtfFonts(a)) == FontList(TtfFonts(b))
  {
    var fa, fb := TtfFonts(a), TtfFonts(b);
    TtfFontsKept(a);
    TtfFontsKept(b);
    assert multiset(fa) == multiset(fb) by {
      forall x ensures multiset(fa)[x] == multiset(fb)[x] { }
    }
    SortedUnique(SortLex(fa), SortLex(fb));
  }

  /** The count printed in the section reads back as the number of kept
      fonts, which is the number of lines of the font list. */
  lemma {:induction false} FontCount(fontsPath: string, names: seq<string>)
    ensures var fonts := TtfFonts(names);
      var c := NatToString(|fonts|);
      var at := |SectionHeading| + |fontsPath| + |CountPrefix|;
      && HasAt(FontSection(fontsPath, fonts), at, c)
      && HasAt(FontSection(fontsPath, fonts), at + |c|, CountSuffix)
      && DecimalValue(c) == |fonts| == |Bullets(SortLex(fonts))|
  {
    var fonts := TtfFonts(names);
    var c := NatToString(|fonts|);
    var p := SectionHeading + fontsPath + CountPrefix;
    assert FontSection(fontsPath, fonts) == p + c + (CountSuffix + FontList(fonts));
    InfixAt(p, c, CountSuffix + FontList(fonts));
    InfixAt(p + c, CountSuffix, FontList(fonts));
    DecimalRoundTrip(|fonts|);
    assert |SortLex(fonts)| == |multiset(SortLex(fonts))| == |multiset(fonts)| == |fonts|;
  }

  /** Example: of `b.ttf`, `a.ttf` and `c.otf` the two `.ttf` names
      are kept, in listing order ... */
  lemma {:induction false} ExampleKept()
    ensures TtfFonts(["b.ttf", "a.ttf", "c.otf"]) == ["b.ttf", "a.ttf"]
  {
    assert EndsWith("b.ttf", FontSuffix) && EndsWith("a.ttf", FontSuffix) && !EndsWith("c.otf", FontSuffix);
    assert ["b.ttf", "a.ttf", "c.otf"][1..] == ["a.ttf", "c.otf"];
    assert ["a.ttf", "c.otf"][1..] == ["c.otf"];
  }

  /** ... and listed in sorted order. */
  lemma {:induction false} ExampleList()
    ensures FontList(["b.ttf", "a.ttf"]) == "- a.ttf\n- b.ttf"
  {
    ExampleSorted();
    var lines := Bullets(["a.ttf", "b.ttf"]);
    assert lines[0] == "- a.ttf" && lines[1] == "- b.ttf";
    assert lines == ["- a.ttf", "- b.ttf"];
  }

  lemma {:induction false} ExampleSorted()
    ensures SortLex(["b.ttf", "a.ttf"]) == ["a.ttf", "b.ttf"]
  {
    assert LexLe("a.ttf", "b.ttf");
    assert multiset(["b.ttf", "a.ttf"]) == multiset(["a.ttf", "b.ttf"]);
    SortedUnique(SortLex(["b.ttf", "a.ttf"]), ["a.ttf", "b.ttf"]);
  }

  /** A name ending in `.TTF` is not kept: the comparison is case-sensitive. */
  lemma {:induction false} UpperCaseNotKept()
    ensures TtfFonts(["A.TTF"]) == []
  {
    assert !EndsWith("A.TTF", FontSuffix);
  }
}
