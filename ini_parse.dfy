/** The line parser `IniIO.ReadFile` as a function over a snapshot: one
    pass over the lines with a "current section" cursor. It follows the
    code: a line is not trimmed before the comment and header tests, and a
    header's name is the trimmed text after the leading `[`, which keeps
    the closing `]`. */
module IniParse {
  import opened Wrappers
  import opened Lists
  import opened Text
  import opened Snapshot

  /** What one line is, to the parser. */
  datatype LineKind =
    | Skipped                           // empty, or its first character is `;`
    | Header(name: string)              // starts with `[` and ends with `]`
    | Malformed                         // anything else without `=`
    | Pair(key: string, value: string)  // split at the first `=`

  function Classify(line: string): (r: LineKind)
    ensures r.Skipped? <==> line == [] || line[0] == ';'
    ensures r.Header? <==> line != [] && line[0] == '[' && line[|line| - 1] == ']'
    ensures r.Header? ==> IsTrimmed(r.name)
    ensures r.Malformed? ==> '=' !in line
    ensures r.Pair? ==> '=' in line && IsTrimmed(r.key) && IsTrimmed(r.value) && '=' !in r.key
  {
    if StartsWith(line, ';') || line == [] then Skipped
    else if StartsWith(line, '[') && EndsWith(line, ']') then Header(Trim(line[1..]))
    else
      var found := FirstIndex(line, '=');
      if found.None? then Malformed
      else
        var before := line[..found.value];
        assert '=' !in before by {
          forall k | 0 <= k < |before| ensures before[k] != '=' {
            assert before[k] == line[k];
          }
        }
        TrimOmits(before, '=');
        Pair(Trim(before), Trim(line[found.value + 1..]))
  }

  /** The `section` variable of the loop: global scope, or the section at a
      position of the document's section list. */
  datatype Cursor = Global | InSection(index: nat)

  datatype ParseState = ParseState(doc: DocView, cursor: Cursor)

  predicate CursorOk(st: ParseState) {
    st.cursor.InSection? ==> st.cursor.index < |st.doc.sections|
  }

  /** One iteration of the loop. */
  function ParseLine(st: ParseState, line: string): (r: ParseState)
    requires CursorOk(st)
    ensures CursorOk(r)
  {
    match Classify(line)
    case Skipped => st
    case Malformed => st
    case Header(name) =>
      var (sections, i) := CreateSectionIn(st.doc.sections, name);
      CreateSectionInFacts(st.doc.sections, name);
      ParseState(st.doc.(sections := sections), InSection(i))
    case Pair(key, value) =>
      match st.cursor
      case Global => st.(doc := st.doc.(globals := AddEntry(st.doc.globals, key, Some(value), "")))
      case InSection(i) => st.(doc := st.doc.(sections := AddToSection(st.doc.sections, i, key, Some(value), "")))
  }

  /** The loop over all lines. */
  function ParseLines(st: ParseState, lines: seq<string>): (r: ParseState)
    requires CursorOk(st)
    ensures CursorOk(r)
    decreases |lines|
  {
    if lines == [] then st else ParseLine(ParseLines(st, lines[..|lines| - 1]), lines[|lines| - 1])
  }

  /** `ReadFile` on a document, starting in global scope: the sections it
      had keep their places and names, the globals never shrink, and no
      lines change nothing. */
  function ReadLines(doc: DocView, lines: seq<string>): (r: DocView)
    ensures Grows(doc, r)
    ensures lines == [] ==> r == doc
  {
    ParseLinesGrows(ParseState(doc, Global), lines);
    ParseLines(ParseState(doc, Global), lines).doc
  }

  /** Parsing only adds: the global fields and the sections there were stay
      at their positions under their keys and names, and new ones go at the
      end. */
  predicate Grows(before: DocView, after: DocView) {
    && |before.globals| <= |after.globals|
    && KeysOf(after.globals)[..|before.globals|] == KeysOf(before.globals)
    && |before.sections| <= |after.sections|
    && NamesOf(after.sections)[..|before.sections|] == NamesOf(before.sections)
  }

  lemma GrowsTransitive(a: DocView, b: DocView, c: DocView)
    requires Grows(a, b) && Grows(b, c)
    ensures Grows(a, c)
  {
    assert NamesOf(c.sections)[..|a.sections|] == NamesOf(c.sections)[..|b.sections|][..|a.sections|];
  }

  /** One line only adds to the document, and only a header line moves the
      cursor, to the section it names. */
  lemma ParseLineGrows(st: ParseState, line: string)
    requires CursorOk(st)
    ensures Grows(st.doc, ParseLine(st, line).doc)
    ensures !Classify(line).Header? ==> ParseLine(st, line).cursor == st.cursor
    ensures Classify(line).Header? ==>
              var r := ParseLine(st, line);
              r.cursor.InSection? && r.doc.sections[r.cursor.index].name == Classify(line).name
  {
    var kind := Classify(line);
    var r := ParseLine(st, line);
    if kind.Header? {
      CreateSectionInFacts(st.doc.sections, kind.name);
      var ss := st.doc.sections;
      assert NamesOf(r.doc.sections)[..|ss|] == NamesOf(r.doc.sections[..|ss|]);
    } else if kind.Pair? && st.cursor.InSection? {
      AddEntryKeys(st.doc.sections[st.cursor.index].fields, kind.key, Some(kind.value), "");
      assert NamesOf(r.doc.sections) == NamesOf(st.doc.sections);
    } else if kind.Pair? {
      AddEntryKeys(st.doc.globals, kind.key, Some(kind.value), "");
    }
  }

  /** Parsing any lines only adds to the document. */
  lemma {:induction false} ParseLinesGrows(st: ParseState, lines: seq<string>)
    requires CursorOk(st)
    ensures Grows(st.doc, ParseLines(st, lines).doc)
    decreases |lines|
  {
    if lines != [] {
      var mid := ParseLines(st, lines[..|lines| - 1]);
      ParseLinesGrows(st, lines[..|lines| - 1]);
      ParseLineGrows(mid, lines[|lines| - 1]);
      GrowsTransitive(st.doc, mid.doc, ParseLines(st, lines).doc);
    }
  }

  /** Parsing text read line by line, as `File.ReadAllLines` splits it. */
  function ReadText(text: string): DocView {
    ReadLines(EmptyDoc, SplitLines(text))
  }

  /** An empty line and a line whose very first character is `;` change
      nothing; a line with `;` after leading whitespace is not a comment. */
  lemma CommentsAndBlanksSkipped(st: ParseState, line: string)
    requires CursorOk(st)
    ensures (line == [] || line[0] == ';') ==> ParseLine(st, line) == st
    ensures line != [] && IsWhitespace(line[0]) ==> Classify(line) != Skipped
  {
  }

  /** A header line makes its trimmed text after `[` (closing `]` included)
      the current section, creating it only when no section has that name. */
  lemma HeaderSelectsSection(st: ParseState, line: string)
    requires CursorOk(st)
    requires line != [] && line[0] == '[' && line[|line| - 1] == ']'
    ensures var name := Trim(line[1..]);
            var r := ParseLine(st, line);
            && r.cursor.InSection?
            && r.doc.sections[r.cursor.index].name == name
            && r.doc.globals == st.doc.globals
            && (name in NamesOf(st.doc.sections) ==> r.doc == st.doc)
            && (name !in NamesOf(st.doc.sections) ==> r.doc.sections == st.doc.sections + [SectionView(name, [])])
  {
    CreateSectionInFacts(st.doc.sections, Trim(line[1..]));
  }

  /** A line with no `=` that is not a header changes nothing. */
  lemma LineWithoutEqualsDropped(st: ParseState, line: string)
    requires CursorOk(st)
    requires '=' !in line
    requires !(line != [] && line[0] == '[' && line[|line| - 1] == ']')
    ensures ParseLine(st, line) == st
  {
  }

  /** Otherwise the key is the trimmed text before the first `=` and the
      value the trimmed rest of the line, further `=` signs included; the
      pair goes to the global list before any header and to the current
      section after one. */
  lemma PairLineAddsField(st: ParseState, line: string, i: nat)
    requires CursorOk(st)
    requires line != [] && line[0] != ';'
    requires !(line[0] == '[' && line[|line| - 1] == ']')
    requires i < |line| && line[i] == '=' && '=' !in line[..i]
    ensures var key, value := Trim(line[..i]), Trim(line[i + 1..]);
            var r := ParseLine(st, line);
            && r.cursor == st.cursor
            && (st.cursor.Global? ==>
                 r.doc == st.doc.(globals := AddEntry(st.doc.globals, key, Some(value), "")))
            && (st.cursor.InSection? ==>
                 r.doc == st.doc.(sections := AddToSection(st.doc.sections, st.cursor.index, key, Some(value), "")))
  {
    FirstIndexIs(line, '=', i);
    assert Classify(line) == Pair(Trim(line[..i]), Trim(line[i + 1..]));
  }

  /** A line that is neither skipped nor a header and has its first `=` at
      `i` is the pair of the trimmed text on either side. */
  lemma ClassifyPair(line: string, i: nat)
    requires !(StartsWith(line, ';') || line == []) && !(StartsWith(line, '[') && EndsWith(line, ']'))
    requires FirstIndex(line, '=') == Some(i)
    ensures Classify(line) == Pair(Trim(line[..i]), Trim(line[i + 1..]))
  {
  }

  /** The effect of a pair line, by cursor. */
  lemma PairStep(st: ParseState, line: string, key: string, value: string)
    requires CursorOk(st) && Classify(line) == Pair(key, value)
    ensures st.cursor.Global? ==>
              ParseLine(st, line) == st.(doc := st.doc.(globals := AddEntry(st.doc.globals, key, Some(value), "")))
    ensures st.cursor.InSection? ==>
              ParseLine(st, line) == st.(doc := st.doc.(sections := AddToSection(st.doc.sections, st.cursor.index, key, Some(value), "")))
  {
  }

  /** A header line keeps the document well formed. */
  lemma HeaderKeepsWellFormed(doc: DocView, name: string)
    requires WellFormed(doc)
    ensures WellFormed(doc.(sections := CreateSectionIn(doc.sections, name).0))
  {
    CreateSectionInFacts(doc.sections, name);
    var ss := CreateSectionIn(doc.sections, name).0;
    assert forall j :: 0 <= j < |ss| ==> j < |doc.sections| || ss[j].fields == [];
  }

  /** A pair line in a section keeps the document well formed. */
  lemma SectionPairKeepsWellFormed(doc: DocView, i: nat, key: string, value: string)
    requires WellFormed(doc) && i < |doc.sections|
    ensures WellFormed(doc.(sections := AddToSection(doc.sections, i, key, Some(value), "")))
  {
    var ss := doc.sections;
    AddEntryKeepsKeysUnique(ss[i].fields, key, Some(value), "");
    assert NamesOf(AddToSection(ss, i, key, Some(value), "")) == NamesOf(ss);
  }

  /** One line keeps the document well formed. */
  lemma ParseLineKeepsWellFormed(st: ParseState, line: string)
    requires CursorOk(st) && WellFormed(st.doc)
    ensures WellFormed(ParseLine(st, line).doc)
  {
    var kind := Classify(line);
    if kind.Header? {
      HeaderKeepsWellFormed(st.doc, kind.name);
    } else if kind.Pair? {
      if st.cursor.Global? {
        AddEntryKeepsKeysUnique(st.doc.globals, kind.key, Some(kind.value), "");
      } else {
        SectionPairKeepsWellFormed(st.doc, st.cursor.index, kind.key, kind.value);
      }
    }
  }

  /** Parsing keeps every invariant of a well-formed document: keys stay
      unique in each scope, section names stay unique. */
  lemma {:induction false} ParseLinesKeepsWellFormed(st: ParseState, lines: seq<string>)
    requires CursorOk(st) && WellFormed(st.doc)
    ensures WellFormed(ParseLines(st, lines).doc)
    decreases |lines|
  {
    if lines != [] {
      ParseLinesKeepsWellFormed(st, lines[..|lines| - 1]);
      ParseLineKeepsWellFormed(ParseLines(st, lines[..|lines| - 1]), lines[|lines| - 1]);
    }
  }

  lemma {:induction false} ParseLinesAppend(st: ParseState, a: seq<string>, b: seq<string>)
    requires CursorOk(st)
    ensures ParseLines(st, a + b) == ParseLines(ParseLines(st, a), b)
    decreases |b|
  {
    if b == [] {
      assert a + b == a;
    } else {
      assert (a + b)[..|a + b| - 1] == a + b[..|b| - 1];
      ParseLinesAppend(st, a, b[..|b| - 1]);
    }
  }

  /** Concrete lines, one by one. */
  lemma SampleComment()
    ensures Classify("; comment") == Skipped && Classify("") == Skipped
  {
  }

  lemma SampleHeader()
    ensures Classify("[S]") == Header("S]")
  {
    var line := "[S]";
    assert line[1..] == "S]";
    assert StartsWith(line, '[') && EndsWith(line, ']') && !StartsWith(line, ';');
    TrimmedIsFixed("S]");
  }

  lemma SamplePair()
    ensures Classify("k=v") == Pair("k", "v")
  {
    var line := "k=v";
    assert line[..1] == "k" && line[2..] == "v";
    assert !StartsWith(line, '[') && !StartsWith(line, ';');
    FirstIndexIs(line, '=', 1);
    TrimmedIsFixed("k");
    TrimmedIsFixed("v");
  }

  lemma SampleMalformed()
    ensures Classify("nouequalsline") == Malformed
  {
    var line := "nouequalsline";
    assert forall c :: c in line ==> c != '=';
    assert !StartsWith(line, '[') && !StartsWith(line, ';');
  }

  lemma ParseLinesSnoc(st: ParseState, lines: seq<string>, line: string)
    requires CursorOk(st)
    ensures ParseLines(st, lines + [line]) == ParseLine(ParseLines(st, lines), line)
  {
    assert (lines + [line])[..|lines|] == lines;
  }

  lemma ParseTwoLines(st: ParseState, a: string, b: string)
    requires CursorOk(st)
    ensures ParseLines(st, [a, b]) == ParseLine(ParseLine(st, a), b)
  {
    ParseLinesSnoc(st, [], a);
    assert [] + [a] == [a];
    ParseLinesSnoc(st, [a], b);
    assert [a] + [b] == [a, b];
  }

  /** The header line of the samples, on an empty document. */
  lemma SampleHeaderStep()
    ensures ParseLine(ParseState(EmptyDoc, Global), "[S]")
         == ParseState(DocView([], [SectionView("S]", [])]), InSection(0))
  {
    SampleHeader();
    assert NamesOf([]) == [];
  }

  /** The sample pair `k=v` lands in an empty global list or in an empty
      section 0. */
  lemma SamplePairStep(st: ParseState, line: string)
    requires CursorOk(st) && Classify(line) == Pair("k", "v")
    requires st.cursor.Global? ==> st.doc.globals == []
    requires st.cursor.InSection? ==> st.doc.sections == [SectionView("S]", [])] && st.cursor.index == 0
    ensures st.cursor.Global? ==> ParseLine(st, line).doc == st.doc.(globals := [Entry("k", "v", "")])
    ensures st.cursor.InSection? ==> ParseLine(st, line).doc == st.doc.(sections := [SectionView("S]", [Entry("k", "v", "")])])
  {
    assert KeysOf([]) == [];
    assert AddEntry([], "k", Some("v"), "") == [Entry("k", "v", "")];
  }

  /** A comment, a blank line, a header and a pair give one section, named
      `S]` because the closing bracket is kept, with the one field `k` = `v`,
      and no global fields. */
  lemma CommentBlankHeaderSample()
    ensures ReadLines(EmptyDoc, ["; comment", "", "[S]", "k=v"])
         == DocView([], [SectionView("S]", [Entry("k", "v", "")])])
  {
    var s0 := ParseState(EmptyDoc, Global);
    assert ["; comment", "", "[S]", "k=v"] == ["; comment", ""] + ["[S]", "k=v"];
    ParseLinesAppend(s0, ["; comment", ""], ["[S]", "k=v"]);
    ParseTwoLines(s0, "; comment", "");
    SampleComment();
    assert ParseLines(s0, ["; comment", ""]) == s0;
    ParseTwoLines(s0, "[S]", "k=v");
    SampleHeaderStep();
    SamplePair();
    SamplePairStep(ParseState(DocView([], [SectionView("S]", [])]), InSection(0)), "k=v");
  }

  /** A line without `=` produces nothing; the next pair still lands. */
  lemma MalformedLineSample()
    ensures ReadLines(EmptyDoc, ["nouequalsline", "k=v"]) == DocView([Entry("k", "v", "")], [])
  {
    var s0 := ParseState(EmptyDoc, Global);
    ParseTwoLines(s0, "nouequalsline", "k=v");
    SampleMalformed();
    assert ParseLine(s0, "nouequalsline") == s0;
    SamplePair();
    SamplePairStep(s0, "k=v");
  }
}
