/** The serializer `IniIO.ExportToText` as a function of a document snapshot
    and the export options, with the key and name comparers and the
    `SortedSet` the alphabetical options sort through. */
module IniRender {
  import opened Text
  import opened Lists
  import opened Snapshot
  import opened IniExportOptions

  /** `IniFieldKeyComparer.Compare`: fields ordered by key. */
  function CompareFieldKeys(x: Entry, y: Entry): (r: int)
    ensures r == 0 <==> x.key == y.key
    ensures r < 0 <==> OrdinalLess(x.key, y.key)
    ensures r > 0 <==> OrdinalLess(y.key, x.key)
  {
    CompareOrdinal(x.key, y.key)
  }

  /** `IniSectionComparer.Compare`: sections ordered by name. */
  function CompareSections(x: SectionView, y: SectionView): (r: int)
    ensures r == 0 <==> x.name == y.name
    ensures r < 0 <==> OrdinalLess(x.name, y.name)
    ensures r > 0 <==> OrdinalLess(y.name, x.name)
  {
    CompareOrdinal(x.name, y.name)
  }

  function EntryKey(e: Entry): string { e.key }

  function SectionName(s: SectionView): string { s.name }

  function KeysBy<T>(s: seq<T>, key: T -> string): (r: seq<string>)
    ensures |r| == |s| && forall i :: 0 <= i < |s| ==> r[i] == key(s[i])
  {
    seq(|s|, i requires 0 <= i < |s| => key(s[i]))
  }

  predicate StrictlyAscending<T>(s: seq<T>, key: T -> string) {
    forall i, j :: 0 <= i < j < |s| ==> OrdinalLess(key(s[i]), key(s[j]))
  }

  /** One insertion step of the set the `SortedSet<T>` constructor builds,
      on its in-order sequence: `x` goes before the first element that sorts
      after it, and is not added when an element comparing equal to it is
      already present. */
  function InsertByKey<T>(s: seq<T>, x: T, key: T -> string): (r: seq<T>)
    ensures |s| <= |r| <= |s| + 1 && r != []
  {
    if s == [] then [x]
    else
      var c := CompareOrdinal(key(x), key(s[0]));
      if c == 0 then s
      else if c < 0 then [x] + s
      else [s[0]] + InsertByKey(s[1..], x, key)
  }

  /** The in-order contents of a `SortedSet<T>` built from `xs`: one
      element per key, in ascending key order. It is computed here by
      ordered insertion, which keeps the first element of each key; the .NET
      constructor sorts a copy and then drops adjacent equal elements, so
      which element of a repeated key survives is not modelled. When the
      keys are unique, as the library keeps them, the contents agree. */
  function SortedByKey<T>(xs: seq<T>, key: T -> string): (r: seq<T>)
    ensures |r| <= |xs|
    ensures xs != [] ==> r != []
  {
    if xs == [] then [] else InsertByKey(SortedByKey(xs[..|xs| - 1], key), xs[|xs| - 1], key)
  }

  /** Inserting adds nothing but `x`, and loses nothing. */
  lemma {:induction false} InsertByKeyElements<T>(s: seq<T>, x: T, key: T -> string)
    ensures forall y :: y in InsertByKey(s, x, key) ==> y in s || y == x
    ensures forall y :: y in s ==> y in InsertByKey(s, x, key)
  {
    if s != [] {
      var c := CompareOrdinal(key(x), key(s[0]));
      assert s == [s[0]] + s[1..];
      if c > 0 {
        InsertByKeyElements(s[1..], x, key);
      }
    }
  }

  /** Every element of a strictly ascending `s` after the first sorts after
      the first. */
  lemma AscendingHead<T>(s: seq<T>, key: T -> string)
    requires s != [] && StrictlyAscending(s, key)
    ensures forall y :: y in s[1..] ==> OrdinalLess(key(s[0]), key(y))
  {
    forall y | y in s[1..] ensures OrdinalLess(key(s[0]), key(y)) {
      var m :| 0 <= m < |s[1..]| && s[1..][m] == y;
      assert s[m + 1] == y;
    }
  }

  /** Inserting into a strictly ascending sequence keeps it strictly
      ascending. */
  lemma {:induction false} InsertByKeyAscending<T>(s: seq<T>, x: T, key: T -> string)
    requires StrictlyAscending(s, key)
    ensures StrictlyAscending(InsertByKey(s, x, key), key)
  {
    if s != [] {
      var c := CompareOrdinal(key(x), key(s[0]));
      if c < 0 {
        forall j | 0 <= j < |s| ensures OrdinalLess(key(x), key(s[j])) {
          if j > 0 {
            OrdinalLessTransitive(key(x), key(s[0]), key(s[j]));
          }
        }
      } else if c > 0 {
        var rest := InsertByKey(s[1..], x, key);
        InsertByKeyAscending(s[1..], x, key);
        InsertByKeyElements(s[1..], x, key);
        AscendingHead(s, key);
        forall j | 0 <= j < |rest| ensures OrdinalLess(key(s[0]), key(rest[j])) {
          assert rest[j] in rest;
        }
      }
    }
  }

  /** An element whose key is already present leaves the set as it was. */
  lemma {:induction false} InsertByKeyPresent<T>(s: seq<T>, x: T, key: T -> string)
    requires StrictlyAscending(s, key) && key(x) in KeysBy(s, key)
    ensures InsertByKey(s, x, key) == s
  {
    if key(x) != key(s[0]) {
      PresentKeyAfterHead(s, x, key);
      AscendingTail(s, key, key(x));
      InsertByKeyPresent(s[1..], x, key);
      InsertAfterHead(s, x, key);
      assert s == [s[0]] + s[1..];
    }
  }

  /** A present key other than the first sorts after the first. */
  lemma PresentKeyAfterHead<T>(s: seq<T>, x: T, key: T -> string)
    requires StrictlyAscending(s, key) && key(x) in KeysBy(s, key) && key(x) != key(s[0])
    ensures OrdinalLess(key(s[0]), key(x))
  {
    var m :| 0 <= m < |s| && KeysBy(s, key)[m] == key(x);
    assert m != 0;
  }

  /** An element sorting after the first is inserted into the tail. */
  lemma InsertAfterHead<T>(s: seq<T>, x: T, key: T -> string)
    requires s != [] && OrdinalLess(key(s[0]), key(x))
    ensures InsertByKey(s, x, key) == [s[0]] + InsertByKey(s[1..], x, key)
  {
    assert CompareOrdinal(key(x), key(s[0])) > 0;
  }

  /** The tail of a strictly ascending sequence is strictly ascending, and
      holds every key of the sequence but the first. */
  lemma AscendingTail<T>(s: seq<T>, key: T -> string, k: string)
    requires s != [] && StrictlyAscending(s, key)
    ensures StrictlyAscending(s[1..], key)
    ensures k in KeysBy(s, key) && k != key(s[0]) ==> k in KeysBy(s[1..], key)
  {
    assert KeysBy(s[1..], key) == KeysBy(s, key)[1..];
  }

  /** An element whose key is new is added exactly once. */
  lemma {:induction false} InsertByKeyAbsent<T>(s: seq<T>, x: T, key: T -> string)
    requires key(x) !in KeysBy(s, key)
    ensures multiset(InsertByKey(s, x, key)) == multiset(s) + multiset{x}
  {
    if s != [] {
      assert KeysBy(s, key)[0] == key(s[0]);
      if CompareOrdinal(key(x), key(s[0])) > 0 {
        assert KeysBy(s[1..], key) == KeysBy(s, key)[1..];
        InsertByKeyAbsent(s[1..], x, key);
        assert s == [s[0]] + s[1..];
      }
    }
  }

  /** The sorted set holds elements of `xs` only, in strictly ascending key
      order. */
  lemma {:induction false} SortedByKeyFacts<T>(xs: seq<T>, key: T -> string)
    ensures StrictlyAscending(SortedByKey(xs, key), key)
    ensures forall y :: y in SortedByKey(xs, key) ==> y in xs
  {
    if xs != [] {
      var init := xs[..|xs| - 1];
      var last := xs[|xs| - 1];
      SortedByKeyFacts(init, key);
      InsertByKeyAscending(SortedByKey(init, key), last, key);
      InsertByKeyElements(SortedByKey(init, key), last, key);
      assert xs == init + [last];
    }
  }

  /** A key absent from `xs` is absent from any sequence of elements of `xs`. */
  lemma KeyAbsentFromElements<T>(xs: seq<T>, ys: seq<T>, key: T -> string, k: string)
    requires k !in KeysBy(xs, key)
    requires forall y :: y in ys ==> y in xs
    ensures k !in KeysBy(ys, key)
  {
    forall i | 0 <= i < |ys| ensures key(ys[i]) != k {
      assert ys[i] in ys;
      var m :| 0 <= m < |xs| && xs[m] == ys[i];
      assert KeysBy(xs, key)[m] == key(ys[i]);
    }
  }

  /** Unique keys stay unique without the last element, which holds a key
      none of the others has. */
  lemma KeysByFront<T>(xs: seq<T>, key: T -> string)
    requires xs != [] && NoDuplicates(KeysBy(xs, key))
    ensures NoDuplicates(KeysBy(xs[..|xs| - 1], key))
    ensures key(xs[|xs| - 1]) !in KeysBy(xs[..|xs| - 1], key)
  {
    assert KeysBy(xs[..|xs| - 1], key) == KeysBy(xs, key)[..|xs| - 1];
  }

  /** When the keys of `xs` are unique, the sorted set is a permutation of
      `xs`. */
  lemma {:induction false} SortedByKeyPermutation<T>(xs: seq<T>, key: T -> string)
    requires NoDuplicates(KeysBy(xs, key))
    ensures multiset(SortedByKey(xs, key)) == multiset(xs)
  {
    if xs != [] {
      var init := xs[..|xs| - 1];
      var last := xs[|xs| - 1];
      var sorted := SortedByKey(init, key);
      KeysByFront(xs, key);
      SortedByKeyPermutation(init, key);
      SortedByKeyFacts(init, key);
      KeyAbsentFromElements(init, sorted, key, key(last));
      InsertByKeyAbsent(sorted, last, key);
      assert multiset(xs) == multiset(init) + multiset{last} by {
        assert xs == init + [last];
      }
    }
  }

  /** Strictly ascending keys are unique keys. */
  lemma AscendingHasUniqueKeys<T>(s: seq<T>, key: T -> string)
    requires StrictlyAscending(s, key)
    ensures NoDuplicates(KeysBy(s, key))
  {
    forall i, j | 0 <= i < j < |s| ensures key(s[i]) != key(s[j]) {
      OrdinalLessIrreflexive(key(s[i]));
    }
  }

  /** `keyValueSeparator`: `" = "` with `KeyValueWhitespace`, else `"="`. */
  function Separator(options: ExportOptions): (r: string)
    ensures r == " = " <==> HasFlag(options, KeyValueWhitespace)
    ensures r == "=" <==> !HasFlag(options, KeyValueWhitespace)
  {
    if HasFlag(options, KeyValueWhitespace) then " = " else "="
  }

  /** One field line, `{Key}{separator}{Get()}`. */
  function FieldLine(e: Entry, sep: string): (r: string)
    ensures |r| == |e.key| + |sep| + |e.raw|
  {
    e.key + sep + e.raw
  }

  function FieldLines(es: seq<Entry>, sep: string): (r: seq<string>)
    ensures |r| == |es| && forall i :: 0 <= i < |es| ==> r[i] == FieldLine(es[i], sep)
  {
    seq(|es|, i requires 0 <= i < |es| => FieldLine(es[i], sep))
  }

  /** The order a field list is written in. */
  function FieldOrder(es: seq<Entry>, options: ExportOptions): seq<Entry> {
    if HasFlag(options, AlphabeticalFields) then SortedByKey(es, EntryKey) else es
  }

  /** The order the sections are written in. */
  function SectionOrder(ss: seq<SectionView>, options: ExportOptions): seq<SectionView> {
    if HasFlag(options, AlphabeticalSections) then SortedByKey(ss, SectionName) else ss
  }

  /** The global block: its field lines, then a blank line when
      `NewLineAfterSection` is set and something was already written. */
  function GlobalLines(globals: seq<Entry>, options: ExportOptions): (r: seq<string>)
    ensures var n := |FieldOrder(globals, options)|;
            && n <= |r| <= n + 1
            && r[..n] == FieldLines(FieldOrder(globals, options), Separator(options))
            && (|r| == n + 1 <==> HasFlag(options, NewLineAfterSection) && n != 0)
            && (|r| == n + 1 ==> r[n] == "")
  {
    var lines := FieldLines(FieldOrder(globals, options), Separator(options));
    lines + (if HasFlag(options, NewLineAfterSection) && |Unlines(lines)| != 0 then [""] else [])
  }

  /** One section: `[name]`, its field lines, and a blank line when
      `NewLineAfterSection` is set. */
  function SectionLines(s: SectionView, options: ExportOptions): (r: seq<string>)
    ensures var n := |FieldOrder(s.fields, options)|;
            && |r| == 1 + n + (if HasFlag(options, NewLineAfterSection) then 1 else 0)
            && r[0] == "[" + s.name + "]"
            && r[1..n + 1] == FieldLines(FieldOrder(s.fields, options), Separator(options))
            && (HasFlag(options, NewLineAfterSection) ==> r[n + 1] == "")
  {
    ["[" + s.name + "]"]
    + FieldLines(FieldOrder(s.fields, options), Separator(options))
    + (if HasFlag(options, NewLineAfterSection) then [""] else [])
  }

  function SectionsLines(ss: seq<SectionView>, options: ExportOptions): seq<string> {
    if ss == [] then [] else SectionsLines(ss[..|ss| - 1], options) + SectionLines(ss[|ss| - 1], options)
  }

  function RenderLines(doc: DocView, options: ExportOptions): seq<string> {
    GlobalLines(doc.globals, options) + SectionsLines(SectionOrder(doc.sections, options), options)
  }

  /** `IniIO.ExportToText`: the lines, each followed by a newline, with the
      whole text trimmed. The result has no whitespace at either end. */
  function Render(doc: DocView, options: ExportOptions): (r: string)
    ensures IsTrimmed(r)
  {
    Trim(Unlines(RenderLines(doc, options)))
  }

  /** Fields are written in insertion order without `AlphabeticalFields`;
      with it, in strictly ascending key order, and then still every field
      of a list with unique keys exactly once. */
  lemma FieldOrderFacts(es: seq<Entry>, options: ExportOptions)
    ensures !HasFlag(options, AlphabeticalFields) ==> FieldOrder(es, options) == es
    ensures HasFlag(options, AlphabeticalFields) ==> StrictlyAscending(FieldOrder(es, options), EntryKey)
    ensures NoDuplicates(KeysOf(es)) ==> multiset(FieldOrder(es, options)) == multiset(es)
    ensures forall e :: e in FieldOrder(es, options) ==> e in es
  {
    SortedByKeyFacts(es, EntryKey);
    assert KeysBy(es, EntryKey) == KeysOf(es);
    if NoDuplicates(KeysOf(es)) {
      SortedByKeyPermutation(es, EntryKey);
    }
  }

  /** Sections are written in insertion order without
      `AlphabeticalSections`; with it, in strictly ascending name order, and
      then still every section of a document with unique names exactly
      once. */
  lemma SectionOrderFacts(ss: seq<SectionView>, options: ExportOptions)
    ensures !HasFlag(options, AlphabeticalSections) ==> SectionOrder(ss, options) == ss
    ensures HasFlag(options, AlphabeticalSections) ==> StrictlyAscending(SectionOrder(ss, options), SectionName)
    ensures NoDuplicates(NamesOf(ss)) ==> multiset(SectionOrder(ss, options)) == multiset(ss)
  {
    SortedByKeyFacts(ss, SectionName);
    assert KeysBy(ss, SectionName) == NamesOf(ss);
    if NoDuplicates(NamesOf(ss)) {
      SortedByKeyPermutation(ss, SectionName);
    }
  }

  /** Under `Default` every field line is `key = value`, a blank line ends
      each block, and sections and fields keep insertion order. */
  lemma DefaultRendering(doc: DocView)
    ensures Separator(Default) == " = "
    ensures FieldOrder(doc.globals, Default) == doc.globals
    ensures SectionOrder(doc.sections, Default) == doc.sections
    ensures forall s :: SectionLines(s, Default) == ["[" + s.name + "]"] + FieldLines(s.fields, " = ") + [""]
  {
    DefaultOptions();
  }

  /** `AppendLine(l)` extends the text by `l` and a newline. */
  lemma UnlinesSnoc(ls: seq<string>, l: string)
    ensures Unlines(ls + [l]) == Unlines(ls) + l + NewLine
  {
    UnlinesAppend(ls, [l]);
    assert Unlines([l]) == l + NewLine + Unlines([]);
  }

  lemma FieldLinesSnoc(es: seq<Entry>, k: nat, sep: string)
    requires k < |es|
    ensures FieldLines(es[..k + 1], sep) == FieldLines(es[..k], sep) + [FieldLine(es[k], sep)]
  {
  }

  lemma SectionsLinesSnoc(ss: seq<SectionView>, k: nat, options: ExportOptions)
    requires k < |ss|
    ensures SectionsLines(ss[..k + 1], options) == SectionsLines(ss[..k], options) + SectionLines(ss[k], options)
  {
    assert ss[..k + 1][..k] == ss[..k];
  }
}
