/** What reading back the serializer's text gives. For a document with only
    global fields whose keys and values are plain, reading the rendered text
    gives the same fields, in the order they were written. Sections do not
    come back: a header `[S]` reads back as the section `S]`. */
module IniRoundTrip {
  import opened Wrappers
  import opened Lists
  import opened Text
  import opened Snapshot
  import opened IniExportOptions
  import opened IniRender
  import opened IniParse

  /** A key the parser reads back as written: non-empty, no whitespace at
      its ends, no line feed or carriage return (either ends a line for
      `File.ReadAllLines`), no `=`, and not starting with `;` or `[`, nor
      with U+FEFF, which `File.ReadAllLines` drops as a byte-order mark at
      the start of a file. */
  predicate PlainKey(k: string) {
    && k != [] && IsTrimmed(k) && NoNewline(k) && '\r' !in k && '=' !in k
    && k[0] != ';' && k[0] != '[' && k[0] != '\U{FEFF}'
  }

  /** A value the parser reads back as written: no whitespace at its ends,
      no line feed and no carriage return. */
  predicate PlainValue(v: string) {
    IsTrimmed(v) && NoNewline(v) && '\r' !in v
  }

  predicate PlainEntry(e: Entry) {
    PlainKey(e.key) && PlainValue(e.raw)
  }

  /** The fields as the parser creates them: key and raw value, no default. */
  function AsParsed(es: seq<Entry>): (r: seq<Entry>)
    ensures |r| == |es| && forall i :: 0 <= i < |es| ==> r[i] == Entry(es[i].key, es[i].raw, "")
  {
    seq(|es|, i requires 0 <= i < |es| => Entry(es[i].key, es[i].raw, ""))
  }

  /** A plain key followed by whitespace trims back to the key. */
  lemma TrimKeyThenWhitespace(k: string, a: string)
    requires PlainKey(k) && AllWhitespace(a)
    ensures Trim(k + a) == k
  {
    assert (k + a)[0] == k[0];
    TrimEndSkipsWhitespace(k, a);
  }

  /** A line `k`, whitespace, `=`, then anything, splits at that `=`. */
  lemma ClassifyAtFirstEquals(k: string, a: string, rest: string)
    requires PlainKey(k) && AllWhitespace(a)
    ensures Classify(k + a + "=" + rest) == Pair(k, Trim(rest))
  {
    var line := k + a + "=" + rest;
    var i := |k| + |a|;
    assert line[0] == k[0];
    assert line[i] == '=';
    forall j | 0 <= j < i ensures line[j] != '=' {
      if j < |k| {
        assert line[j] == k[j];
      } else {
        assert line[j] == a[j - |k|];
      }
    }
    FirstIndexIs(line, '=', i);
    assert line[..i] == k + a;
    assert line[i + 1..] == rest;
    TrimKeyThenWhitespace(k, a);
  }

  /** The separator is `=` with the same padding on either side: one space
      or nothing. */
  lemma SeparatorShape(options: ExportOptions)
    ensures var pad := if HasFlag(options, KeyValueWhitespace) then " " else "";
            Separator(options) == pad + "=" + pad
  {
  }

  /** A padded `key=value` line ends where its value ends, or in the `=`
      and its padding when the value is empty. */
  lemma TrimEndPaddedLine(k: string, pad: string, v: string)
    requires AllWhitespace(pad) && IsTrimmed(v)
    ensures v != [] ==> TrimEnd(k + pad + "=" + pad + v) == k + pad + "=" + pad + v
    ensures v == [] ==> TrimEnd(k + pad + "=" + pad + v) == k + pad + "=" + ""
  {
    var head := k + pad + "=";
    assert head + pad + v == head + (pad + v);
    if v == [] {
      assert head + pad + v == head + pad;
      TrimEndSkipsWhitespace(head, pad);
      assert head[|head| - 1] == '=';
      assert head + "" == head;
    } else {
      var line := head + (pad + v);
      assert line[|line| - 1] == v[|v| - 1];
    }
  }

  /** A padded `key=value` line of a plain key and a trimmed value reads
      back as that pair, and so does the line with its trailing whitespace
      removed. */
  lemma ClassifyPaddedLine(k: string, pad: string, v: string)
    requires PlainKey(k) && AllWhitespace(pad) && IsTrimmed(v)
    ensures Classify(k + pad + "=" + pad + v) == Pair(k, v)
    ensures Classify(TrimEnd(k + pad + "=" + pad + v)) == Pair(k, v)
  {
    assert k + pad + "=" + pad + v == k + pad + "=" + (pad + v);
    ClassifyAtFirstEquals(k, pad, pad + v);
    TrimAfterWhitespace(pad, v);
    TrimEndPaddedLine(k, pad, v);
    if v == [] {
      ClassifyAtFirstEquals(k, pad, "");
    }
  }

  /** A field line reads back as its key and value, and so does the same
      line with its trailing whitespace trimmed off. */
  lemma ClassifyFieldLine(e: Entry, options: ExportOptions)
    requires PlainEntry(e)
    ensures Classify(FieldLine(e, Separator(options))) == Pair(e.key, e.raw)
    ensures Classify(TrimEnd(FieldLine(e, Separator(options)))) == Pair(e.key, e.raw)
  {
    var pad := if HasFlag(options, KeyValueWhitespace) then " " else "";
    SeparatorShape(options);
    assert AllWhitespace(pad);
    assert FieldLine(e, Separator(options)) == e.key + pad + "=" + pad + e.raw;
    ClassifyPaddedLine(e.key, pad, e.raw);
  }

  /** A pair line read in global scope adds its pair to the globals. */
  lemma ParseGlobalPair(st: ParseState, line: string, key: string, value: string)
    requires st.cursor == Global && Classify(line) == Pair(key, value)
    ensures ParseLine(st, line) == st.(doc := st.doc.(globals := AddEntry(st.doc.globals, key, Some(value), "")))
  {
  }

  /** A new key is appended as it was read, with an empty default. */
  lemma AddNewEntry(es: seq<Entry>, key: string, value: string)
    requires key !in KeysOf(es)
    ensures AddEntry(es, key, Some(value), "") == es + [Entry(key, value, "")]
  {
  }

  /** Dropping the last entry of a list with unique keys keeps them unique,
      and the dropped key is not among those read before it. */
  lemma UniqueKeysFront(es: seq<Entry>)
    requires es != [] && NoDuplicates(KeysOf(es))
    ensures NoDuplicates(KeysOf(es[..|es| - 1]))
    ensures es[|es| - 1].key !in KeysOf(AsParsed(es[..|es| - 1]))
  {
    var n := |es| - 1;
    assert forall i :: 0 <= i < n ==> KeysOf(es[..n])[i] == KeysOf(es)[i];
    assert forall i :: 0 <= i < n ==> KeysOf(AsParsed(es[..n]))[i] == KeysOf(es)[i];
  }

  /** Reading the parsed entries plus one more. */
  lemma AsParsedSnoc(es: seq<Entry>)
    requires es != []
    ensures AsParsed(es[..|es| - 1]) + [Entry(es[|es| - 1].key, es[|es| - 1].raw, "")] == AsParsed(es)
  {
  }

  /** Pair lines with distinct keys, read in global scope, append one field
      each, in order. */
  lemma {:induction false} ParsePairLines(lines: seq<string>, es: seq<Entry>)
    requires |lines| == |es| && NoDuplicates(KeysOf(es))
    requires forall i :: 0 <= i < |es| ==> Classify(lines[i]) == Pair(es[i].key, es[i].raw)
    ensures ParseLines(ParseState(EmptyDoc, Global), lines) == ParseState(DocView(AsParsed(es), []), Global)
    decreases |lines|
  {
    if lines == [] {
      assert AsParsed(es) == [];
    } else {
      var n := |lines| - 1;
      var front := es[..n];
      UniqueKeysFront(es);
      ParsePairLines(lines[..n], front);
      var before := AsParsed(front);
      var st := ParseState(DocView(before, []), Global);
      assert ParseLines(ParseState(EmptyDoc, Global), lines) == ParseLine(st, lines[n]);
      ParseGlobalPair(st, lines[n], es[n].key, es[n].raw);
      AddNewEntry(before, es[n].key, es[n].raw);
      AsParsedSnoc(es);
    }
  }

  /** Lines of plain fields contain no newline. */
  lemma FieldLinesHaveNoNewline(es: seq<Entry>, sep: string)
    requires forall e :: e in es ==> PlainEntry(e)
    requires NoNewline(sep)
    ensures forall i :: 0 <= i < |es| ==> NoNewline(FieldLines(es, sep)[i])
  {
    forall i | 0 <= i < |es| ensures NoNewline(FieldLines(es, sep)[i]) {
      assert es[i] in es;
    }
  }

  /** Text ending in a blank line or nothing, whose first line starts
      with a non-whitespace character and whose last line before the blank
      has one somewhere, trims to the lines with only the last one
      right-trimmed. */
  lemma TrimmedText(ls: seq<string>, blank: seq<string>)
    requires ls != [] && ls[0] != [] && !IsWhitespace(ls[0][0])
    requires !AllWhitespace(ls[|ls| - 1])
    requires blank == [] || blank == [""]
    ensures Trim(Unlines(ls + blank)) == Unlines(ls[..|ls| - 1]) + TrimEnd(ls[|ls| - 1])
  {
    var init, last := ls[..|ls| - 1], ls[|ls| - 1];
    var tail := NewLine + Unlines(blank);
    assert AllWhitespace(tail) by {
      if blank == [""] {
        assert Unlines(blank) == "" + NewLine + Unlines([]);
      }
    }
    assert ls + blank == init + ([last] + blank);
    UnlinesAppend(init, [last] + blank);
    assert Unlines([last] + blank) == last + tail;
    var text := Unlines(init) + last + tail;
    assert Unlines(ls + blank) == text;
    assert text[0] == ls[0][0] by {
      assert Unlines(ls + blank) == ls[0] + NewLine + Unlines((ls + blank)[1..]);
    }
    assert TrimStart(text) == text;
    TrimEndSkipsWhitespace(Unlines(init) + last, tail);
    TrimEndStopsInSuffix(Unlines(init), last);
  }

  /** Without sections only the global block is written. */
  lemma GlobalsOnlyLines(doc: DocView, options: ExportOptions)
    requires doc.sections == []
    ensures RenderLines(doc, options) == GlobalLines(doc.globals, options)
  {
    SectionOrderFacts(doc.sections, options);
    assert SectionOrder(doc.sections, options) == [] by {
      assert |multiset(SectionOrder(doc.sections, options))| == 0;
    }
  }

  /** The text of a document with global fields only, once trimmed, is the
      field lines with the last one right-trimmed. */
  lemma RenderedGlobals(doc: DocView, options: ExportOptions)
    requires doc.sections == []
    requires forall e :: e in doc.globals ==> PlainEntry(e)
    ensures var es := FieldOrder(doc.globals, options);
            var ls := FieldLines(es, Separator(options));
            && (es == [] ==> Render(doc, options) == "")
            && (es != [] ==>
                  Render(doc, options) == Unlines(ls[..|ls| - 1]) + TrimEnd(ls[|ls| - 1]))
  {
    var es := FieldOrder(doc.globals, options);
    var ls := FieldLines(es, Separator(options));
    FieldOrderFacts(doc.globals, options);
    GlobalsOnlyLines(doc, options);
    var blank := if HasFlag(options, NewLineAfterSection) && |Unlines(ls)| != 0 then [""] else [];
    assert RenderLines(doc, options) == ls + blank;
    if es != [] {
      var first, last := es[0], es[|es| - 1];
      assert first in doc.globals && last in doc.globals;
      assert ls[0] == first.key + Separator(options) + first.raw;
      assert ls[0][0] == first.key[0];
      assert ls[|ls| - 1][0] == last.key[0];
      TrimmedText(ls, blank);
    } else {
      assert RenderLines(doc, options) == [];
    }
  }

  /** The field lines with the last one right-trimmed, as their text
      splits back into lines. */
  function ReadBackOf(es: seq<Entry>, options: ExportOptions): (r: seq<string>)
    requires es != []
    ensures |r| == |es|
  {
    var ls := FieldLines(es, Separator(options));
    ls[..|ls| - 1] + [TrimEnd(ls[|ls| - 1])]
  }

  /** Each of those lines reads back as its field's key and value. */
  lemma ReadBackClassified(es: seq<Entry>, options: ExportOptions)
    requires es != [] && forall e :: e in es ==> PlainEntry(e)
    ensures forall i :: 0 <= i < |es| ==> Classify(ReadBackOf(es, options)[i]) == Pair(es[i].key, es[i].raw)
  {
    var r := ReadBackOf(es, options);
    var ls := FieldLines(es, Separator(options));
    forall i | 0 <= i < |es| ensures Classify(r[i]) == Pair(es[i].key, es[i].raw) {
      assert es[i] in es;
      ClassifyFieldLine(es[i], options);
      if i < |es| - 1 {
        assert r[i] == ls[i] == FieldLine(es[i], Separator(options));
      } else {
        assert r[i] == TrimEnd(FieldLine(es[i], Separator(options)));
      }
    }
  }

  /** Their text splits back into exactly those lines. */
  lemma ReadBackSplits(es: seq<Entry>, options: ExportOptions)
    requires es != [] && forall e :: e in es ==> PlainEntry(e)
    ensures var ls := FieldLines(es, Separator(options));
            SplitLines(Unlines(ls[..|ls| - 1]) + TrimEnd(ls[|ls| - 1])) == ReadBackOf(es, options)
  {
    var sep := Separator(options);
    var ls := FieldLines(es, sep);
    var n := |ls| - 1;
    var lastLine := TrimEnd(ls[n]);
    FieldLinesHaveNoNewline(es, sep);
    assert NoNewline(lastLine) by {
      assert NoNewline(ls[n]);
      assert lastLine == ls[n][..|lastLine|];
    }
    assert es[n] in es;
    assert lastLine != [] by {
      assert ls[n][0] == es[n].key[0];
      assert !AllWhitespace(ls[n]);
    }
    SplitUnlines(ls[..n], lastLine);
  }

  /** The fields of a plain document stay plain in the order they are
      written. */
  lemma FieldOrderPlain(doc: DocView, options: ExportOptions)
    requires forall e :: e in doc.globals ==> PlainEntry(e)
    ensures forall e :: e in FieldOrder(doc.globals, options) ==> PlainEntry(e)
  {
    FieldOrderFacts(doc.globals, options);
  }

  /** The lines the rendered text of a global-only document splits into:
      one per field, each read back as that field's key and value. */
  lemma ReadBackLines(doc: DocView, options: ExportOptions) returns (lines: seq<string>)
    requires doc.sections == []
    requires forall e :: e in doc.globals ==> PlainEntry(e)
    ensures var es := FieldOrder(doc.globals, options);
            && SplitLines(Render(doc, options)) == lines
            && |lines| == |es|
            && forall i :: 0 <= i < |es| ==> Classify(lines[i]) == Pair(es[i].key, es[i].raw)
  {
    var es := FieldOrder(doc.globals, options);
    FieldOrderPlain(doc, options);
    RenderedGlobals(doc, options);
    if es == [] {
      lines := [];
      assert Render(doc, options) == "";
      assert SplitLines("") == [];
    } else {
      lines := ReadBackOf(es, options);
      ReadBackSplits(es, options);
      ReadBackClassified(es, options);
    }
  }

  /** The order fields are written in never repeats a key of a list whose
      keys are unique. */
  lemma FieldOrderKeysUnique(es: seq<Entry>, options: ExportOptions)
    requires NoDuplicates(KeysOf(es))
    ensures NoDuplicates(KeysOf(FieldOrder(es, options)))
  {
    FieldOrderFacts(es, options);
    if HasFlag(options, AlphabeticalFields) {
      var sorted := FieldOrder(es, options);
      AscendingHasUniqueKeys(sorted, EntryKey);
      assert KeysBy(sorted, EntryKey) == KeysOf(sorted);
    }
  }

  /** Reading back the text of a document with global fields only, plain
      keys and values and no repeated key, gives those fields (with empty
      defaults) in the order they were written: insertion order unless
      `AlphabeticalFields` is set. */
  lemma GlobalRoundTrip(doc: DocView, options: ExportOptions)
    requires doc.sections == []
    requires forall e :: e in doc.globals ==> PlainEntry(e)
    requires NoDuplicates(KeysOf(doc.globals))
    ensures ReadText(Render(doc, options)) == DocView(AsParsed(FieldOrder(doc.globals, options)), [])
    ensures !HasFlag(options, AlphabeticalFields) ==> ReadText(Render(doc, options)) == DocView(AsParsed(doc.globals), [])
  {
    var es := FieldOrder(doc.globals, options);
    var lines := ReadBackLines(doc, options);
    FieldOrderKeysUnique(doc.globals, options);
    ParsePairLines(lines, es);
    FieldOrderFacts(doc.globals, options);
  }

  /** A header written for a trimmed name reads back as that name with the
      closing bracket still attached. */
  lemma HeaderKeepsClosingBracket(name: string)
    requires IsTrimmed(name)
    ensures Classify("[" + name + "]") == Header(name + "]")
  {
    var line := "[" + name + "]";
    assert line[1..] == name + "]";
    var closed := name + "]";
    assert closed[|closed| - 1] == ']';
    assert name != [] ==> closed[0] == name[0];
    TrimmedIsFixed(closed);
  }
}
