/** The datum section parser, and printing, which it undoes. */
module DatumAsts {
  import opened Results
  import opened Texts
  import opened LetterCases

  datatype Section = Section(level: nat, heading: string, body: string, subsections: seq<Section>)

  datatype DatumAst = DatumAst(h1: string, preamble: string, sections: seq<Section>, lineCount: nat)

  datatype DatumError = Empty | NoH1Header

  // ---------------------------------------------------------------------------------------------
  // Lines
  // ---------------------------------------------------------------------------------------------

  /** A line that was ended by a line feed, without the carriage return before it. */
  function DropCr(line: string): string {
    if line != [] && line[|line| - 1] == '\r' then line[..|line| - 1] else line
  }

  /** The lines of a text; `current` is the part of the line already read. */
  function LinesFrom(current: string, rest: string): seq<string>
    decreases |rest|
  {
    if rest == [] then (if current == [] then [] else [current])
    else if rest[0] == '\n' then [DropCr(current)] + LinesFrom([], rest[1..])
    else LinesFrom(current + [rest[0]], rest[1..])
  }

  function Lines(content: string): seq<string> { LinesFrom([], content) }

  /** Every line ended by a line feed. */
  function Unlines(lines: seq<string>): string {
    if lines == [] then [] else lines[0] + "\n" + Unlines(lines[1..])
  }

  /** A line that survives being written and read: no line feed, no carriage return at its end. */
  predicate IsLine(line: string) {
    '\n' !in line && (line == [] || line[|line| - 1] != '\r')
  }

  lemma {:induction false} ReadLine(current: string, line: string, rest: string)
    requires '\n' !in line
    ensures LinesFrom(current, line + "\n" + rest) == [DropCr(current + line)] + LinesFrom([], rest)
    decreases |line|
  {
    var text := line + "\n" + rest;
    if line == [] {
      assert text[0] == '\n' && text[1..] == rest && current + line == current;
    } else {
      assert text[0] == line[0] && text[1..] == line[1..] + "\n" + rest;
      assert current + [line[0]] + line[1..] == current + line;
      ReadLine(current + [line[0]], line[1..], rest);
    }
  }

  lemma {:induction false} LinesOfUnlines(lines: seq<string>)
    requires forall l | l in lines :: IsLine(l)
    ensures Lines(Unlines(lines)) == lines
  {
    if lines != [] {
      assert IsLine(lines[0]);
      ReadLine([], lines[0], Unlines(lines[1..]));
      assert [] + lines[0] == lines[0];
      LinesOfUnlines(lines[1..]);
    }
  }

  // ---------------------------------------------------------------------------------------------
  // One pass over the lines
  // ---------------------------------------------------------------------------------------------

  datatype State = State(
    preamble: string,
    sections: seq<Section>,
    section: Option<Section>,
    sub: Option<Section>,
    inCode: bool)

  const START := State([], [], None, None, false)

  /** Without the marker, however often it is repeated. */
  function DropMarkers(line: string, marker: string): string
    requires marker != []
    decreases |line|
  {
    if StartsWith(line, marker) then DropMarkers(line[|marker|..], marker) else line
  }

  function Is(c: char): char -> bool { (x: char) => x == c }

  function DropAround(line: string, c: char): string { Trim(Is(c), line) }

  predicate IsFence(space: char -> bool, line: string) { StartsWith(TrimStart(space, line), "```") }

  /** A line such as `[name]`, which opens a section like a second-level heading does. */
  predicate IsTomlHeader(space: char -> bool, line: string) {
    var trimmed := Trim(space, line);
    StartsWith(trimmed, "[") && trimmed[|trimmed| - 1] == ']' && !StartsWith(trimmed, "[//")
  }

  /** Three backticks at position `i`, after nothing but blanks. */
  predicate TicksAt(space: char -> bool, line: string, i: nat) {
    && i + 2 < |line| && line[i] == '`' && line[i + 1] == '`' && line[i + 2] == '`'
    && forall k | 0 <= k < i :: space(line[k])
  }

  /** A fence is three backticks after blanks. */
  lemma FenceExactly(space: char -> bool, line: string)
    requires !space('`')
    ensures IsFence(space, line)
       <==> exists i: nat :: TicksAt(space, line, i)
  {
    var i := TrimStartExactly(space, line);
    var rest := line[i..];
    if |rest| >= 3 {
      assert rest[..3] == [rest[0], rest[1], rest[2]];
    }
    if TicksAt(space, line, i) {
      assert rest[..3] == "```";
    }
    if k: nat :| TicksAt(space, line, k) {
      assert k == i;
    }
  }

  /** A header in brackets begins and ends with them, blanks aside, and is not a comment line `[//...]`. */
  lemma TomlHeaderExactly(space: char -> bool, line: string, t: string)
    requires t == Trim(space, line)
    ensures IsTomlHeader(space, line)
       <==> |t| > 0 && t[0] == '[' && t[|t| - 1] == ']' && !(|t| > 2 && t[1] == '/' && t[2] == '/')
  {
    if |t| > 2 {
      assert t[..3] == [t[0], t[1], t[2]];
    }
  }

  function AppendLine(body: string, line: string): string {
    if body == [] then line else body + "\n" + line
  }

  function AppendBody(st: State, line: string): State {
    match st.sub
    case Some(s) => st.(sub := Some(s.(body := AppendLine(s.body, line))))
    case None =>
      match st.section
      case Some(s) => st.(section := Some(s.(body := AppendLine(s.body, line))))
      case None => st.(preamble := AppendLine(st.preamble, line))
  }

  /** An open subsection joins the open section; without one it is lost. */
  function CloseSub(st: State): State {
    var section :=
      match (st.section, st.sub)
      case (Some(s), Some(sub)) => Some(s.(subsections := s.subsections + [sub]))
      case _ => st.section;
    st.(section := section, sub := None)
  }

  function CloseSection(st: State): State {
    match st.section
    case Some(s) => st.(sections := st.sections + [s], section := None)
    case None => st
  }

  function Step(space: char -> bool, st: State, line: string): State {
    if IsFence(space, line) then AppendBody(st.(inCode := !st.inCode), line)
    else if st.inCode then AppendBody(st, line)
    else if IsTomlHeader(space, line) then
      var name := DropAround(DropAround(Trim(space, line), '['), ']');
      CloseSection(st).(sub := None, section := Some(Section(2, name, [], [])))
    else if StartsWith(line, "## ") then
      CloseSection(CloseSub(st)).(section := Some(Section(2, DropMarkers(line, "## "), [], [])))
    else if StartsWith(line, "### ") then
      CloseSub(st).(sub := Some(Section(3, DropMarkers(line, "### "), [], [])))
    else if StartsWith(line, "# ") then st
    else AppendBody(st, line)
  }

  function Run(space: char -> bool, st: State, lines: seq<string>): State
    decreases |lines|
  {
    if lines == [] then st else Run(space, Step(space, st, lines[0]), lines[1..])
  }

  function Finish(st: State): State { CloseSection(CloseSub(st)) }

  function FirstH1(lines: seq<string>): Option<string> {
    if lines == [] then None
    else if StartsWith(lines[0], "# ") && !StartsWith(lines[0], "##") then Some(lines[0])
    else FirstH1(lines[1..])
  }

  function Parse(space: char -> bool, content: string): Result<DatumAst, DatumError> {
    if Trim(space, content) == [] then Err(Empty)
    else
      match FirstH1(Lines(content))
      case None => Err(NoH1Header)
      case Some(line) =>
        var done := Finish(Run(space, START, Lines(content)));
        Ok(DatumAst(DropMarkers(line, "# "), done.preamble, done.sections, |Lines(content)|))
  }

  lemma BracketsDropped(name: string)
    requires name != [] ==> name[0] != '[' && name[0] != ']' && name[|name| - 1] != ']'
    ensures DropAround(DropAround("[" + name + "]", '['), ']') == name
  {
    var line := "[" + name + "]";
    var i, j := TrimExactly(Is('['), line);
    assert line[0] == '[' && line[1] == (if name == [] then ']' else name[0]) && line[|line| - 1] == ']';
    assert !Is('[')(line[1]) && !Is('[')(line[|line| - 1]);
    assert i == 1 && j == |line|;
    assert DropAround(line, '[') == line[1..|line|] == name + "]";
    var k, l := TrimExactly(Is(']'), name + "]");
    if name != [] {
      assert (name + "]")[0] == name[0] && (name + "]")[|name| - 1] == name[|name| - 1] && (name + "]")[|name|] == ']';
      assert !Is(']')(name[0]) && !Is(']')(name[|name| - 1]);
      assert k == 0 && l == |name|;
      assert (name + "]")[..|name|] == name;
    } else {
      assert (name + "]")[0] == ']' && Is(']')(']');
      assert k == l;
    }
    assert DropAround(name + "]", ']') == (name + "]")[k..l] == name;
  }

  /** A bracketed header outside a fence opens a section of that name, and drops a pending subsection. */
  lemma HeaderOpens(space: char -> bool, st: State, line: string, name: string)
    requires !st.inCode && !IsFence(space, line) && Trim(space, line) == "[" + name + "]"
    requires name != [] ==> name[0] != '[' && name[0] != ']' && name[|name| - 1] != ']'
    requires |name| > 1 ==> name[0] != '/' || name[1] != '/'
    ensures var after := Step(space, st, line);
            && after.section == Some(Section(2, name, [], [])) && after.sub.None? && !after.inCode
            && after.preamble == st.preamble
            && after.sections == st.sections + if st.section.Some? then [st.section.value] else []
  {
    var t := "[" + name + "]";
    BracketsDropped(name);
    TomlHeaderExactly(space, line, t);
  }

  /** The title is the first line that begins with a hash and a blank. */
  lemma {:induction false} TitleExactly(lines: seq<string>)
    ensures forall i | 0 <= i < |lines| && StartsWith(lines[i], "# ")
                    && forall j | 0 <= j < i :: !StartsWith(lines[j], "# ") ::
              FirstH1(lines) == Some(lines[i])
    ensures (forall i | 0 <= i < |lines| :: !StartsWith(lines[i], "# ")) ==> FirstH1(lines) == None
  {
    if lines != [] {
      TitleExactly(lines[1..]);
      if StartsWith(lines[0], "# ") {
        assert lines[0][1] == ' ';
      }
      assert forall j | 0 < j < |lines| :: lines[j] == lines[1..][j - 1];
    }
  }

  lemma {:induction false} FirstTitle(lines: seq<string>) returns (i: nat)
    requires exists line :: line in lines && StartsWith(line, "# ")
    ensures i < |lines| && StartsWith(lines[i], "# ") && forall j | 0 <= j < i :: !StartsWith(lines[j], "# ")
  {
    if StartsWith(lines[0], "# ") {
      i := 0;
    } else {
      i := FirstTitle(lines[1..]);
      assert forall j | 0 < j <= i :: lines[j] == lines[1..][j - 1];
      i := i + 1;
    }
  }

  /** Parsing fails on a text of blanks only and, otherwise, on one without a title line. */
  lemma ParseFailsExactly(space: char -> bool, content: string)
    ensures Parse(space, content) == Err(Empty) <==> forall k | 0 <= k < |content| :: space(content[k])
    ensures Parse(space, content) == Err(NoH1Header)
       <==> && (exists k :: 0 <= k < |content| && !space(content[k]))
            && forall line | line in Lines(content) :: !StartsWith(line, "# ")
  {
    var i, j := TrimExactly(space, content);
    TitleExactly(Lines(content));
    if line :| line in Lines(content) && StartsWith(line, "# ") {
      var k := FirstTitle(Lines(content));
    }
  }

  /** The body of the loop over lines. */
  method ParseLine(space: char -> bool, line: string, before: State) returns (st: State)
    ensures st == Step(space, before, line)
  {
    st := before;
    if IsFence(space, line) {
      st := AppendBody(st.(inCode := !st.inCode), line);
      return;
    }
    if st.inCode {
      st := AppendBody(st, line);
      return;
    }
    if IsTomlHeader(space, line) {
      if st.section.Some? {
        st := st.(sections := st.sections + [st.section.value]);
      }
      var name := DropAround(DropAround(Trim(space, line), '['), ']');
      st := st.(sub := None, section := Some(Section(2, name, [], [])));
      return;
    }
    if StartsWith(line, "## ") {
      st := CloseSub(st);
      if st.section.Some? {
        st := st.(sections := st.sections + [st.section.value]);
      }
      st := st.(section := Some(Section(2, DropMarkers(line, "## "), [], [])));
      return;
    }
    if StartsWith(line, "### ") {
      st := CloseSub(st).(sub := Some(Section(3, DropMarkers(line, "### "), [], [])));
      return;
    }
    if !StartsWith(line, "# ") {
      st := AppendBody(st, line);
    }
  }

  method ParseDatum(space: char -> bool, content: string) returns (r: Result<DatumAst, DatumError>)
    ensures r == Parse(space, content)
  {
    if Trim(space, content) == [] {
      return Err(Empty);
    }
    var lines := Lines(content);
    var h1Line := FirstH1(lines);
    if h1Line.None? {
      return Err(NoH1Header);
    }
    var preamble, sections := [], [];
    var section, sub: Option<Section> := None, None;
    var inCode := false;
    for i := 0 to |lines|
      invariant Run(space, State(preamble, sections, section, sub, inCode), lines[i..]) == Run(space, START, lines)
    {
      assert lines[i..][1..] == lines[i + 1..];
      var next := ParseLine(space, lines[i], State(preamble, sections, section, sub, inCode));
      preamble, sections, section, sub, inCode := next.preamble, next.sections, next.section, next.sub, next.inCode;
    }
    var done := Finish(State(preamble, sections, section, sub, inCode));
    r := Ok(DatumAst(DropMarkers(h1Line.value, "# "), done.preamble, done.sections, |lines|));
  }

  // ---------------------------------------------------------------------------------------------
  // Canonical documents and how they are printed
  // ---------------------------------------------------------------------------------------------

  datatype SubDoc = SubDoc(heading: string, body: seq<string>)

  datatype SectionDoc = SectionDoc(heading: string, body: seq<string>, subs: seq<SubDoc>)

  datatype Doc = Doc(h1: string, preamble: seq<string>, sections: seq<SectionDoc>)

  function PrintSubs(subs: seq<SubDoc>): seq<string> {
    if subs == [] then [] else ["### " + subs[0].heading] + subs[0].body + PrintSubs(subs[1..])
  }

  function PrintSections(sections: seq<SectionDoc>): seq<string> {
    if sections == [] then []
    else ["## " + sections[0].heading] + sections[0].body + PrintSubs(sections[0].subs) + PrintSections(sections[1..])
  }

  function Print(doc: Doc): seq<string> {
    ["# " + doc.h1] + doc.preamble + PrintSections(doc.sections)
  }

  /** Lines with line feeds between them. */
  function Join(lines: seq<string>): string {
    if lines == [] then []
    else if |lines| == 1 then lines[0]
    else Join(lines[..|lines| - 1]) + "\n" + lines[|lines| - 1]
  }

  function SubsAst(subs: seq<SubDoc>): seq<Section> {
    if subs == [] then [] else [Section(3, subs[0].heading, Join(subs[0].body), [])] + SubsAst(subs[1..])
  }

  function SectionsAst(sections: seq<SectionDoc>): seq<Section> {
    if sections == [] then []
    else
      [Section(2, sections[0].heading, Join(sections[0].body), SubsAst(sections[0].subs))] + SectionsAst(sections[1..])
  }

  /** What a document is as a syntax tree. */
  function Ast(doc: Doc): DatumAst {
    DatumAst(doc.h1, Join(doc.preamble), SectionsAst(doc.sections), |Print(doc)|)
  }

  /** Nothing but text: neither a heading nor a section header. */
  predicate IsText(space: char -> bool, line: string) {
    !IsTomlHeader(space, line) && !StartsWith(line, "## ") && !StartsWith(line, "### ") && !StartsWith(line, "# ")
  }

  /** Outside fences only text, and the last fence is closed. */
  predicate Fenced(space: char -> bool, lines: seq<string>, inCode: bool) {
    if lines == [] then !inCode
    else if IsFence(space, lines[0]) then Fenced(space, lines[1..], !inCode)
    else (inCode || IsText(space, lines[0])) && Fenced(space, lines[1..], inCode)
  }

  predicate IsBody(space: char -> bool, lines: seq<string>) {
    (lines == [] || lines[0] != []) && Fenced(space, lines, false)
  }

  predicate IsSubDoc(space: char -> bool, sub: SubDoc) {
    !StartsWith(sub.heading, "### ") && IsBody(space, sub.body)
  }

  predicate IsSectionDoc(space: char -> bool, section: SectionDoc) {
    && !StartsWith(section.heading, "## ")
    && IsBody(space, section.body)
    && forall sub | sub in section.subs :: IsSubDoc(space, sub)
  }

  predicate Canonical(space: char -> bool, doc: Doc) {
    && !StartsWith(doc.h1, "# ")
    && IsBody(space, doc.preamble)
    && (forall section | section in doc.sections :: IsSectionDoc(space, section))
    && (forall line | line in Print(doc) :: IsLine(line))
  }

  // ---------------------------------------------------------------------------------------------
  // Parsing undoes printing
  // ---------------------------------------------------------------------------------------------

  lemma {:induction false} RunAppend(space: char -> bool, st: State, a: seq<string>, b: seq<string>)
    ensures Run(space, st, a + b) == Run(space, Run(space, st, a), b)
    decreases |a|
  {
    if a == [] {
      assert a + b == b;
    } else {
      assert (a + b)[0] == a[0] && (a + b)[1..] == a[1..] + b;
      RunAppend(space, Step(space, st, a[0]), a[1..], b);
    }
  }

  function AppendAll(st: State, lines: seq<string>): State
    decreases |lines|
  {
    if lines == [] then st else AppendAll(AppendBody(st, lines[0]), lines[1..])
  }

  lemma {:induction false} CodeFlagApart(st: State, flag: bool, lines: seq<string>)
    ensures AppendAll(st.(inCode := flag), lines).(inCode := false) == AppendAll(st, lines).(inCode := false)
    decreases |lines|
  {
    if lines != [] {
      assert AppendBody(st.(inCode := flag), lines[0]) == AppendBody(st, lines[0]).(inCode := flag);
      CodeFlagApart(AppendBody(st, lines[0]), flag, lines[1..]);
    }
  }

  /** A body goes, line for line, where body lines go. */
  lemma {:induction false} RunBody(space: char -> bool, st: State, lines: seq<string>)
    requires Fenced(space, lines, st.inCode)
    ensures Run(space, st, lines) == AppendAll(st, lines).(inCode := false)
    decreases |lines|
  {
    if lines != [] {
      var flag := if IsFence(space, lines[0]) then !st.inCode else st.inCode;
      RunBody(space, AppendBody(st, lines[0]).(inCode := flag), lines[1..]);
      CodeFlagApart(AppendBody(st, lines[0]), flag, lines[1..]);
    }
  }

  function Appended(body: string, lines: seq<string>): string
    decreases |lines|
  {
    if lines == [] then body else Appended(AppendLine(body, lines[0]), lines[1..])
  }

  /** Appending lines to an empty body joins them, because the first is not empty. */
  lemma {:induction false} AppendedJoins(front: seq<string>, lines: seq<string>)
    requires front == [] || front[0] != []
    requires front == [] && lines != [] ==> lines[0] != []
    ensures Appended(Join(front), lines) == Join(front + lines)
    decreases |lines|
  {
    if lines == [] {
      assert front + lines == front;
    } else {
      var longer := front + [lines[0]];
      assert longer + lines[1..] == front + lines;
      assert Appended(Join(front), lines) == Appended(Join(longer), lines[1..]);
      AppendedJoins(longer, lines[1..]);
    }
  }

  lemma {:induction false} AppendAllSub(st: State, lines: seq<string>)
    requires st.sub.Some?
    ensures AppendAll(st, lines) == st.(sub := Some(st.sub.value.(body := Appended(st.sub.value.body, lines))))
    decreases |lines|
  {
    if lines != [] {
      AppendAllSub(AppendBody(st, lines[0]), lines[1..]);
    }
  }

  lemma {:induction false} AppendAllSection(st: State, lines: seq<string>)
    requires st.sub.None? && st.section.Some?
    ensures AppendAll(st, lines)
         == st.(section := Some(st.section.value.(body := Appended(st.section.value.body, lines))))
    decreases |lines|
  {
    if lines != [] {
      AppendAllSection(AppendBody(st, lines[0]), lines[1..]);
    }
  }

  lemma {:induction false} AppendAllPreamble(st: State, lines: seq<string>)
    requires st.sub.None? && st.section.None?
    ensures AppendAll(st, lines) == st.(preamble := Appended(st.preamble, lines))
    decreases |lines|
  {
    if lines != [] {
      AppendAllPreamble(AppendBody(st, lines[0]), lines[1..]);
    }
  }

  lemma BodyJoined(lines: seq<string>)
    requires lines == [] || lines[0] != []
    ensures Appended([], lines) == Join(lines)
  {
    AppendedJoins([], lines);
    assert [] + lines == lines;
  }

  lemma {:induction false} HeadingTrimmed(space: char -> bool, line: string)
    requires line != [] && line[0] == '#' && !space('#')
    ensures TrimEnd(space, line) != [] && TrimEnd(space, line)[0] == '#'
  {
    if space(line[|line| - 1]) {
      HeadingTrimmed(space, line[..|line| - 1]);
    }
  }

  /** A printed heading is what it says: not a fence, not a section header, with one marker to drop. */
  lemma HeadingLine(space: char -> bool, marker: string, heading: string)
    requires !space('#')
    requires marker == "# " || marker == "## " || marker == "### "
    requires !StartsWith(heading, marker)
    ensures var line := marker + heading;
            && !IsFence(space, line) && !IsTomlHeader(space, line)
            && StartsWith(line, marker) && DropMarkers(line, marker) == heading
            && (marker == "# " ==> !StartsWith(line, "##") && !StartsWith(line, "## ") && !StartsWith(line, "### "))
            && (marker == "### " ==> !StartsWith(line, "## "))
  {
    var line := marker + heading;
    assert line[0] == '#';
    assert TrimStart(space, line) == line;
    HeadingTrimmed(space, line);
    assert line[|marker|..] == heading;
    assert marker == "# " ==> line[1] == ' ';
    assert marker == "### " ==> line[2] == '#';
  }

  lemma RunSub(space: char -> bool, st: State, sub: SubDoc)
    requires !space('#') && IsSubDoc(space, sub) && !st.inCode
    ensures Run(space, st, ["### " + sub.heading] + sub.body)
         == CloseSub(st).(sub := Some(Section(3, sub.heading, Join(sub.body), [])))
  {
    HeadingLine(space, "### ", sub.heading);
    var begun := CloseSub(st).(sub := Some(Section(3, sub.heading, [], [])));
    RunBody(space, begun, sub.body);
    AppendAllSub(begun, sub.body);
    BodyJoined(sub.body);
  }

  function WithSubs(st: State, subs: seq<Section>): State
    requires st.section.Some?
  {
    st.(section := Some(st.section.value.(subsections := st.section.value.subsections + subs)))
  }

  lemma AddSubsInTurn(st: State, here: Section, rest: seq<Section>)
    requires st.section.Some?
    ensures WithSubs(CloseSub(CloseSub(st).(sub := Some(here))), rest) == WithSubs(CloseSub(st), [here] + rest)
  {
    var already := CloseSub(st).section.value.subsections;
    assert already + [here] + rest == already + ([here] + rest);
  }

  /** Printed subsections all end up, in order, in the open section. */
  lemma {:induction false} RunSubs(space: char -> bool, st: State, subs: seq<SubDoc>)
    requires !space('#') && !st.inCode && st.section.Some?
    requires forall sub | sub in subs :: IsSubDoc(space, sub)
    ensures CloseSub(Run(space, st, PrintSubs(subs))) == WithSubs(CloseSub(st), SubsAst(subs))
    decreases |subs|
  {
    if subs == [] {
      assert CloseSub(st).section.value.subsections + [] == CloseSub(st).section.value.subsections;
    } else {
      var first := ["### " + subs[0].heading] + subs[0].body;
      var here := Section(3, subs[0].heading, Join(subs[0].body), []);
      var next := CloseSub(st).(sub := Some(here));
      assert PrintSubs(subs) == first + PrintSubs(subs[1..]);
      RunAppend(space, st, first, PrintSubs(subs[1..]));
      RunSub(space, st, subs[0]);
      RunSubs(space, next, subs[1..]);
      AddSubsInTurn(st, here, SubsAst(subs[1..]));
    }
  }

  lemma RunHeadingAndBody(space: char -> bool, st: State, section: SectionDoc)
    requires !space('#') && IsSectionDoc(space, section) && !st.inCode
    ensures Run(space, st, ["## " + section.heading] + section.body)
         == Finish(st).(section := Some(Section(2, section.heading, Join(section.body), [])))
  {
    HeadingLine(space, "## ", section.heading);
    var begun := Finish(st).(section := Some(Section(2, section.heading, [], [])));
    RunBody(space, begun, section.body);
    AppendAllSection(begun, section.body);
    BodyJoined(section.body);
  }

  lemma RunSection(space: char -> bool, st: State, section: SectionDoc)
    requires !space('#') && IsSectionDoc(space, section) && !st.inCode
    ensures var after := Run(space, st, ["## " + section.heading] + section.body + PrintSubs(section.subs));
            && !after.inCode
            && Finish(after) == Finish(st).(sections := Finish(st).sections
                 + [Section(2, section.heading, Join(section.body), SubsAst(section.subs))])
  {
    var headed := ["## " + section.heading] + section.body;
    var begun := Run(space, st, headed);
    RunAppend(space, st, headed, PrintSubs(section.subs));
    RunHeadingAndBody(space, st, section);
    RunSubs(space, begun, section.subs);
    assert [] + SubsAst(section.subs) == SubsAst(section.subs);
    var after := Run(space, begun, PrintSubs(section.subs));
    assert CloseSub(after).inCode == after.inCode;
  }

  lemma Regroup<T>(a: seq<T>, x: T, b: seq<T>)
    ensures a + [x] + b == a + ([x] + b)
  {
  }

  /** Printed sections all end up, in order, behind what was there. */
  lemma {:induction false} RunSections(space: char -> bool, st: State, sections: seq<SectionDoc>)
    requires !space('#') && !st.inCode
    requires forall section | section in sections :: IsSectionDoc(space, section)
    ensures Finish(Run(space, st, PrintSections(sections)))
         == Finish(st).(sections := Finish(st).sections + SectionsAst(sections))
    decreases |sections|
  {
    if sections == [] {
      assert Finish(st).sections + [] == Finish(st).sections;
    } else {
      var first := ["## " + sections[0].heading] + sections[0].body + PrintSubs(sections[0].subs);
      var here := Section(2, sections[0].heading, Join(sections[0].body), SubsAst(sections[0].subs));
      assert PrintSections(sections) == first + PrintSections(sections[1..]);
      RunAppend(space, st, first, PrintSections(sections[1..]));
      RunSection(space, st, sections[0]);
      RunSections(space, Run(space, st, first), sections[1..]);
      Regroup(Finish(st).sections, here, SectionsAst(sections[1..]));
    }
  }

  lemma RunPreamble(space: char -> bool, doc: Doc)
    requires !space('#') && Canonical(space, doc)
    ensures Run(space, START, ["# " + doc.h1] + doc.preamble) == START.(preamble := Join(doc.preamble))
  {
    HeadingLine(space, "# ", doc.h1);
    RunBody(space, START, doc.preamble);
    AppendAllPreamble(START, doc.preamble);
    BodyJoined(doc.preamble);
  }

  lemma NotBlank(space: char -> bool, content: string)
    requires content != [] && content[0] == '#' && !space('#')
    ensures Trim(space, content) != []
  {
    assert TrimStart(space, content) == content;
    HeadingTrimmed(space, content);
  }

  /** Parsing the printed text of a canonical document gives back the document. */
  lemma ParseUndoesPrint(space: char -> bool, doc: Doc)
    requires !space('#') && Canonical(space, doc)
    ensures Parse(space, Unlines(Print(doc))) == Ok(Ast(doc))
  {
    var lines := Print(doc);
    var content := Unlines(lines);
    LinesOfUnlines(lines);
    HeadingLine(space, "# ", doc.h1);
    assert lines[0] == "# " + doc.h1;
    assert content[0] == '#';
    NotBlank(space, content);
    var head := ["# " + doc.h1] + doc.preamble;
    RunAppend(space, START, head, PrintSections(doc.sections));
    RunPreamble(space, doc);
    RunSections(space, START.(preamble := Join(doc.preamble)), doc.sections);
    assert [] + SectionsAst(doc.sections) == SectionsAst(doc.sections);
  }
}
