/** Which subsections of a datum text reach the syntax tree. The promise would be all of them. */
module DatumSubsections {
  import opened Results
  import opened Texts
  import opened DatumAsts

  /** What a line is to the structure of the text. `Text` stands for all lines that open nothing. */
  datatype Kind = Text | SectionHeading | TomlHeader | Subheading

  function KindOf(space: char -> bool, inCode: bool, line: string): Kind {
    if IsFence(space, line) || inCode then Text
    else if IsTomlHeader(space, line) then TomlHeader
    else if StartsWith(line, "## ") then SectionHeading
    else if StartsWith(line, "### ") then Subheading
    else Text
  }

  /** The kinds of the lines, given whether the first of them is inside a fence. */
  function Kinds(space: char -> bool, inCode: bool, lines: seq<string>): (kinds: seq<Kind>)
    ensures |kinds| == |lines|
    decreases |lines|
  {
    if lines == [] then []
    else
      var after := if IsFence(space, lines[0]) then !inCode else inCode;
      [KindOf(space, inCode, lines[0])] + Kinds(space, after, lines[1..])
  }

  ghost predicate InSection(kinds: seq<Kind>, i: nat)
    requires i <= |kinds|
  {
    exists j :: 0 <= j < i && (kinds[j] == SectionHeading || kinds[j] == TomlHeader)
  }

  /** The first structural line from line `i` on is a `[name]` header. */
  ghost predicate TomlComesNext(kinds: seq<Kind>, i: nat)
    requires i <= |kinds|
  {
    exists j :: i <= j < |kinds| && kinds[j] == TomlHeader && forall k | i <= k < j :: kinds[k] == Text
  }

  /** Line `i` is a subheading that meets both conditions. */
  ghost predicate IsKept(kinds: seq<Kind>, i: nat)
    requires i < |kinds|
  {
    kinds[i] == Subheading && InSection(kinds, i) && !TomlComesNext(kinds, i + 1)
  }

  /** The titles of the kept subheadings from line `i` on. */
  ghost function KeptTitles(kinds: seq<Kind>, lines: seq<string>, i: nat): seq<string>
    requires i <= |kinds| == |lines|
    decreases |kinds| - i
  {
    if i == |kinds| then []
    else (if IsKept(kinds, i) then [DropMarkers(lines[i], "### ")] else []) + KeptTitles(kinds, lines, i + 1)
  }

  function Titles(sections: seq<Section>): seq<string> {
    seq(|sections|, i requires 0 <= i < |sections| => sections[i].heading)
  }

  /** The titles of the subsections in the tree. */
  function SubTitles(sections: seq<Section>): seq<string> {
    if sections == [] then []
    else SubTitles(sections[..|sections| - 1]) + Titles(sections[|sections| - 1].subsections)
  }

  // ---------------------------------------------------------------------------------------------
  // The state of the parser, as far as subsections go
  // ---------------------------------------------------------------------------------------------

  /** The subsections that nothing can drop any more. */
  function Settled(st: State): seq<string> {
    SubTitles(st.sections) + match st.section case Some(s) => Titles(s.subsections) case None => []
  }

  /** The open subsection, when there is a section for it. */
  function Pending(st: State): seq<string> {
    if st.section.Some? && st.sub.Some? then [st.sub.value.heading] else []
  }

  lemma SettledByFinish(st: State)
    ensures SubTitles(Finish(st).sections) == Settled(st) + Pending(st)
  {
    if st.section.Some? {
      var s := CloseSub(st).section.value;
      assert Finish(st).sections == st.sections + [s];
      assert Titles(s.subsections) == Titles(st.section.value.subsections) + Pending(st);
    }
  }

  /** What a line of this kind does to the settled and the pending titles. */
  predicate Turns(kind: Kind, line: string, inSection: bool, settled: seq<string>, pending: seq<string>,
                  settled': seq<string>, pending': seq<string>)
  {
    match kind
    case Text => settled' == settled && pending' == pending
    case TomlHeader => settled' == settled && pending' == []
    case SectionHeading => settled' == settled + pending && pending' == []
    case Subheading =>
      && settled' == settled + pending
      && pending' == if inSection then [DropMarkers(line, "### ")] else []
  }

  lemma BodyTurnsNothing(st: State, line: string)
    ensures var after := AppendBody(st, line);
            && after.inCode == st.inCode && (after.section.Some? <==> st.section.Some?)
            && Settled(after) == Settled(st) && Pending(after) == Pending(st)
  {
  }

  lemma SettledByClosing(st: State)
    ensures SubTitles(CloseSection(st).sections) == Settled(st)
  {
    if st.section.Some? {
      assert CloseSection(st).sections == st.sections + [st.section.value];
    }
  }

  lemma ClosedSub(st: State)
    ensures Settled(CloseSub(st)) == Settled(st) + Pending(st)
  {
    SettledByFinish(st);
    SettledByClosing(CloseSub(st));
  }

  lemma StepTurns(space: char -> bool, st: State, line: string)
    ensures var after, kind := Step(space, st, line), KindOf(space, st.inCode, line);
            && after.inCode == (if IsFence(space, line) then !st.inCode else st.inCode)
            && (after.section.Some? <==> st.section.Some? || kind == SectionHeading || kind == TomlHeader)
            && Turns(kind, line, st.section.Some?, Settled(st), Pending(st), Settled(after), Pending(after))
  {
    match KindOf(space, st.inCode, line)
    case Text =>
      BodyTurnsNothing(st, line);
      BodyTurnsNothing(st.(inCode := !st.inCode), line);
    case TomlHeader =>
      SettledByClosing(st);
    case SectionHeading =>
      SettledByFinish(st);
    case Subheading =>
      ClosedSub(st);
  }

  lemma NextLine(kinds: seq<Kind>, i: nat)
    requires i < |kinds|
    ensures TomlComesNext(kinds, i) <==> kinds[i] == TomlHeader || (kinds[i] == Text && TomlComesNext(kinds, i + 1))
    ensures InSection(kinds, i + 1) <==> InSection(kinds, i) || kinds[i] == SectionHeading || kinds[i] == TomlHeader
  {
    if TomlComesNext(kinds, i) {
      var j :| i <= j < |kinds| && kinds[j] == TomlHeader && forall k | i <= k < j :: kinds[k] == Text;
      assert j > i ==> kinds[i] == Text;
    }
  }

  lemma Regroup(settled: seq<string>, pending: seq<string>, own: seq<string>, rest: seq<string>)
    ensures settled + pending + own + rest == settled + pending + (own + rest)
    ensures settled + pending + [] == settled + pending && [] + rest == rest
  {
  }

  /** Before and after a line, the titles settled, pending and yet to come are the same in all. */
  lemma TurnsKeep(kinds: seq<Kind>, lines: seq<string>, i: nat, settled: seq<string>, pending: seq<string>,
                  settled': seq<string>, pending': seq<string>)
    requires i < |kinds| == |lines|
    requires Turns(kinds[i], lines[i], InSection(kinds, i), settled, pending, settled', pending')
    ensures settled' + (if TomlComesNext(kinds, i + 1) then [] else pending') + KeptTitles(kinds, lines, i + 1)
         == settled + (if TomlComesNext(kinds, i) then [] else pending) + KeptTitles(kinds, lines, i)
  {
    NextLine(kinds, i);
    var own := if IsKept(kinds, i) then [DropMarkers(lines[i], "### ")] else [];
    var rest := KeptTitles(kinds, lines, i + 1);
    assert KeptTitles(kinds, lines, i) == own + rest;
    Regroup(settled, pending, own, rest);
  }

  /** The rest of the text settles the pending subsection and adds those of its own that are kept. */
  lemma {:induction false} RunKeeps(space: char -> bool, st: State, lines: seq<string>, kinds: seq<Kind>, i: nat)
    requires i <= |kinds| == |lines|
    requires kinds[i..] == Kinds(space, st.inCode, lines[i..])
    requires st.section.Some? <==> InSection(kinds, i)
    ensures SubTitles(Finish(Run(space, st, lines[i..])).sections)
         == Settled(st) + (if TomlComesNext(kinds, i) then [] else Pending(st)) + KeptTitles(kinds, lines, i)
    decreases |lines| - i
  {
    if i == |lines| {
      SettledByFinish(st);
    } else {
      var next := Step(space, st, lines[i]);
      assert lines[i..][0] == lines[i] && lines[i..][1..] == lines[i + 1..];
      assert kinds[i..][0] == kinds[i] && kinds[i..][1..] == kinds[i + 1..];
      StepTurns(space, st, lines[i]);
      NextLine(kinds, i);
      RunKeeps(space, next, lines, kinds, i + 1);
      TurnsKeep(kinds, lines, i, Settled(st), Pending(st), Settled(next), Pending(next));
    }
  }

  // ---------------------------------------------------------------------------------------------
  // The theorems
  // ---------------------------------------------------------------------------------------------

  /** The subsections in the tree of a text are the kept subheadings, in order. */
  lemma SubsectionsExactly(space: char -> bool, content: string)
    requires Parse(space, content).Ok?
    ensures SubTitles(Parse(space, content).value.sections)
         == KeptTitles(Kinds(space, false, Lines(content)), Lines(content), 0)
  {
    var lines := Lines(content);
    assert lines[0..] == lines;
    RunKeeps(space, START, lines, Kinds(space, false, lines), 0);
  }

  function CountSubheadings(kinds: seq<Kind>, i: nat): nat
    requires i <= |kinds|
    decreases |kinds| - i
  {
    if i == |kinds| then 0 else (if kinds[i] == Subheading then 1 else 0) + CountSubheadings(kinds, i + 1)
  }

  lemma {:induction false} KeptCount(kinds: seq<Kind>, lines: seq<string>, i: nat)
    requires i <= |kinds| == |lines|
    ensures |KeptTitles(kinds, lines, i)| <= CountSubheadings(kinds, i)
    ensures |KeptTitles(kinds, lines, i)| == CountSubheadings(kinds, i)
       <==> forall j | i <= j < |kinds| && kinds[j] == Subheading :: IsKept(kinds, j)
    decreases |kinds| - i
  {
    if i < |kinds| {
      KeptCount(kinds, lines, i + 1);
    }
  }

  /** No subsection is lost iff each subheading follows a section header and is not followed by a `[name]` header. */
  lemma NothingLostExactly(space: char -> bool, content: string)
    requires Parse(space, content).Ok?
    ensures var kinds := Kinds(space, false, Lines(content));
            && |SubTitles(Parse(space, content).value.sections)| <= CountSubheadings(kinds, 0)
            && (|SubTitles(Parse(space, content).value.sections)| == CountSubheadings(kinds, 0)
                <==> forall i | 0 <= i < |kinds| && kinds[i] == Subheading ::
                       InSection(kinds, i) && !TomlComesNext(kinds, i + 1))
  {
    var kinds := Kinds(space, false, Lines(content));
    SubsectionsExactly(space, content);
    KeptCount(kinds, Lines(content), 0);
    assert forall i | 0 <= i < |kinds| && kinds[i] == Subheading ::
        IsKept(kinds, i) <==> InSection(kinds, i) && !TomlComesNext(kinds, i + 1);
  }

  // ---------------------------------------------------------------------------------------------
  // Texts that lose a subsection
  // ---------------------------------------------------------------------------------------------

  /** No character of the markup counts as blank. */
  predicate PlainMarkup(space: char -> bool) { !space('#') && !space('[') && !space(']') }

  lemma HeadingSteps(space: char -> bool, st: State, title: string)
    requires PlainMarkup(space) && !st.inCode
    requires title != [] && title[0] != '#'
    ensures Step(space, st, "# " + title) == st
    ensures Step(space, st, "## " + title) == Finish(st).(section := Some(Section(2, title, "", [])))
    ensures Step(space, st, "### " + title) == CloseSub(st).(sub := Some(Section(3, title, "", [])))
  {
    HeadingLine(space, "# ", title);
    HeadingLine(space, "## ", title);
    HeadingLine(space, "### ", title);
  }

  lemma RunStep(space: char -> bool, st: State, line: string, rest: seq<string>)
    ensures Run(space, st, [line] + rest) == Run(space, Step(space, st, line), rest)
  {
    assert ([line] + rest)[1..] == rest;
  }

  lemma RunTwo(space: char -> bool, st: State, a: string, b: string)
    ensures Run(space, st, [a, b]) == Step(space, Step(space, st, a), b)
  {
    assert [a] + [b] == [a, b] && [b] + [] == [b];
    RunStep(space, st, a, [b]);
    RunStep(space, Step(space, st, a), b, []);
  }

  /** The titles of the subsections in the tree of a text, if it has one. */
  function TreeTitles(space: char -> bool, content: string): Option<seq<string>> {
    match Parse(space, content)
    case Ok(ast) => Some(SubTitles(ast.sections))
    case Err(_) => None
  }

  /** A title for the examples: not empty, on one line, without a marker. */
  predicate IsTitle(s: string) { s != [] && s[0] != '#' && IsLine(s) }

  lemma TitlesOfRun(space: char -> bool, content: string, title: string, rest: seq<string>)
    requires PlainMarkup(space) && IsTitle(title)
    requires content != [] && content[0] == '#' && Lines(content) == ["# " + title] + rest
    ensures TreeTitles(space, content) == Some(Settled(Run(space, START, rest)) + Pending(Run(space, START, rest)))
  {
    NotBlank(space, content);
    HeadingLine(space, "# ", title);
    HeadingSteps(space, START, title);
    RunStep(space, START, "# " + title, rest);
    SettledByFinish(Run(space, START, rest));
  }

  /** The text of a title and further lines has the subsections that the parser has when it has read them. */
  lemma TitlesOfLines(space: char -> bool, title: string, rest: seq<string>)
    requires PlainMarkup(space) && IsTitle(title)
    requires forall l | l in rest :: IsLine(l)
    ensures TreeTitles(space, Unlines(["# " + title] + rest))
         == Some(Settled(Run(space, START, rest)) + Pending(Run(space, START, rest)))
  {
    var lines := ["# " + title] + rest;
    LinesOfUnlines(lines);
    assert Unlines(lines)[0] == lines[0][0];
    TitlesOfRun(space, Unlines(lines), title, rest);
  }

  function WithSub(s: string, u: string): State {
    State([], [], Some(Section(2, s, "", [])), Some(Section(3, u, "", [])), false)
  }

  lemma RunToSub(space: char -> bool, s: string, u: string, last: string)
    requires PlainMarkup(space) && IsTitle(s) && IsTitle(u)
    ensures Run(space, START, ["## " + s, "### " + u, last]) == Step(space, WithSub(s, u), last)
  {
    var headed := START.(section := Some(Section(2, s, "", [])));
    HeadingSteps(space, START, s);
    HeadingSteps(space, headed, u);
    RunStep(space, START, "## " + s, ["### " + u, last]);
    RunTwo(space, headed, "### " + u, last);
    assert ["## " + s] + ["### " + u, last] == ["## " + s, "### " + u, last];
  }

  lemma TitlesAfterSub(space: char -> bool, s: string, u: string, last: string)
    ensures var done := Step(space, WithSub(s, u), last);
            && (KindOf(space, false, last) == TomlHeader ==> Settled(done) + Pending(done) == [])
            && (KindOf(space, false, last) == SectionHeading ==> Settled(done) + Pending(done) == [u])
  {
    StepTurns(space, WithSub(s, u), last);
    assert Settled(WithSub(s, u)) == [] && Pending(WithSub(s, u)) == [u];
  }

  lemma MarkedLines(title: string)
    requires IsTitle(title)
    ensures IsLine("## " + title) && IsLine("### " + title)
  {
  }

  /** After a title, a section and a subsection, a `[name]` header drops the subsection, a heading keeps it. */
  lemma TomlHeaderDropsSubsection(space: char -> bool, t: string, s: string, u: string, last: string)
    requires PlainMarkup(space) && IsTitle(t) && IsTitle(s) && IsTitle(u) && IsLine(last)
    ensures var titles := TreeTitles(space, Unlines(["# " + t] + ["## " + s, "### " + u, last]));
            && (KindOf(space, false, last) == TomlHeader ==> titles == Some([]))
            && (KindOf(space, false, last) == SectionHeading ==> titles == Some([u]))
  {
    var rest := ["## " + s, "### " + u, last];
    RunToSub(space, s, u, last);
    TitlesAfterSub(space, s, u, last);
    MarkedLines(s);
    MarkedLines(u);
    assert forall l | l in rest :: l == rest[0] || l == rest[1] || l == rest[2];
    TitlesOfLines(space, t, rest);
  }

  /** `[v]` is such a header: the text "# t", "## s", "### u", "[v]" loses its subsection. */
  lemma BracketsAreHeader(space: char -> bool)
    requires PlainMarkup(space)
    ensures KindOf(space, false, "[v]") == TomlHeader && IsLine("[v]")
  {
    assert TrimStart(space, "[v]") == "[v]" && TrimEnd(space, "[v]") == "[v]";
  }

  lemma RunLone(space: char -> bool, u: string, last: string)
    requires PlainMarkup(space) && IsTitle(u)
    ensures Run(space, START, ["### " + u, last]) == Step(space, START.(sub := Some(Section(3, u, "", []))), last)
  {
    HeadingSteps(space, START, u);
    RunTwo(space, START, "### " + u, last);
  }

  /** A subsection before the first section is lost, whatever opens the section. */
  lemma SubsectionWithoutSectionIsLost(space: char -> bool, t: string, u: string, last: string)
    requires PlainMarkup(space) && IsTitle(t) && IsTitle(u) && IsLine(last)
    requires KindOf(space, false, last) == SectionHeading || KindOf(space, false, last) == TomlHeader
    ensures TreeTitles(space, Unlines(["# " + t] + ["### " + u, last])) == Some([])
  {
    TitlesOfLines(space, t, ["### " + u, last]);
    RunLone(space, u, last);
    StepTurns(space, START.(sub := Some(Section(3, u, "", []))), last);
  }
}
