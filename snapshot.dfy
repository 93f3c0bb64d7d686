/** A value snapshot of an INI document: what the serializer reads and what
    the parser writes. Each entry keeps the three strings of an `IniField`
    (key, raw value, default value); sections keep their name and fields.
    The functions here are the list operations of `IniFile` and `IniSection`
    stated on values; the classes in module EasySharpIni are proved to
    perform them. */
module Snapshot {
  import opened Wrappers
  import opened Lists

  datatype Entry = Entry(key: string, raw: string, defaultValue: string)

  datatype SectionView = SectionView(name: string, fields: seq<Entry>)

  datatype DocView = DocView(globals: seq<Entry>, sections: seq<SectionView>)

  const EmptyDoc: DocView := DocView([], [])

  function KeysOf(es: seq<Entry>): (r: seq<string>)
    ensures |r| == |es| && forall i :: 0 <= i < |es| ==> r[i] == es[i].key
  {
    seq(|es|, i requires 0 <= i < |es| => es[i].key)
  }

  function NamesOf(ss: seq<SectionView>): (r: seq<string>)
    ensures |r| == |ss| && forall i :: 0 <= i < |ss| ==> r[i] == ss[i].name
  {
    seq(|ss|, i requires 0 <= i < |ss| => ss[i].name)
  }

  /** Keys unique in every scope and section names unique: the invariants
      the document keeps. */
  predicate WellFormed(doc: DocView) {
    && NoDuplicates(KeysOf(doc.globals))
    && NoDuplicates(NamesOf(doc.sections))
    && forall i :: 0 <= i < |doc.sections| ==> NoDuplicates(KeysOf(doc.sections[i].fields))
  }

  /** The first entry with `key`, as the library's linear scans find it. */
  function Lookup(es: seq<Entry>, key: string): (r: Option<Entry>)
    ensures r.None? <==> key !in KeysOf(es)
    ensures r.Some? ==> r.value in es && r.value.key == key
  {
    var found := FirstIndex(KeysOf(es), key);
    if found.Some? then Some(es[found.value]) else None
  }

  /** The `IniField` constructor's resolution: the raw value is `value`
      when one is given, otherwise the default. */
  function NewEntry(key: string, value: Option<string>, defaultValue: string): (r: Entry)
    ensures r.key == key && r.defaultValue == defaultValue
    ensures value.Some? ==> r.raw == value.value
    ensures value.None? ==> r.raw == defaultValue
  {
    Entry(key, value.GetOr(defaultValue), defaultValue)
  }

  /** The default a re-added field gets: the incoming one unless it is
      empty, in which case the previous one survives. */
  function MergedDefault(previous: string, incoming: string): (r: string)
    ensures r == incoming || r == previous
    ensures incoming != "" ==> r == incoming
    ensures r == "" <==> incoming == "" && previous == ""
  {
    if incoming == "" then previous else incoming
  }

  /** `AddField(key, value, defaultValue)` on a field list: replace the
      first field with `key` at its own position, or append a new one. */
  function AddEntry(es: seq<Entry>, key: string, value: Option<string>, defaultValue: string): (r: seq<Entry>)
    ensures |es| <= |r| <= |es| + 1
  {
    var found := FirstIndex(KeysOf(es), key);
    if found.Some? then
      var i := found.value;
      es[i := NewEntry(key, value, MergedDefault(es[i].defaultValue, defaultValue))]
    else
      es + [NewEntry(key, value, defaultValue)]
  }

  /** The field list after `GetField(key, defaultValue)`: unchanged on a
      hit; on a miss, `AddField(key, null, defaultValue)`. */
  function GetEntry(es: seq<Entry>, key: string, defaultValue: string): (r: seq<Entry>)
    ensures |es| <= |r| <= |es| + 1
  {
    if key in KeysOf(es) then es else AddEntry(es, key, None, defaultValue)
  }

  /** Adding a key keeps the list's keys in order and appends the key only
      when it is new. */
  lemma AddEntryKeys(es: seq<Entry>, key: string, value: Option<string>, defaultValue: string)
    ensures KeysOf(AddEntry(es, key, value, defaultValue))
         == if key in KeysOf(es) then KeysOf(es) else KeysOf(es) + [key]
  {
    var r := AddEntry(es, key, value, defaultValue);
    if key in KeysOf(es) {
      assert KeysOf(r) == KeysOf(es);
    } else {
      assert KeysOf(r) == KeysOf(es) + [key];
    }
  }

  /** After `AddField`, the field for `key` holds `value`, or, when no value
      is given, the merged default; every other key looks up as before. */
  lemma AddEntryLookup(es: seq<Entry>, key: string, value: Option<string>, defaultValue: string, other: string)
    ensures var merged := match Lookup(es, key)
                          case Some(e) => MergedDefault(e.defaultValue, defaultValue)
                          case None => defaultValue;
            Lookup(AddEntry(es, key, value, defaultValue), key) == Some(NewEntry(key, value, merged))
    ensures other != key ==> Lookup(AddEntry(es, key, value, defaultValue), other) == Lookup(es, other)
  {
    var r := AddEntry(es, key, value, defaultValue);
    AddEntryKeys(es, key, value, defaultValue);
    var found := FirstIndex(KeysOf(es), key);
    var i := if found.Some? then found.value else |es|;
    FirstIndexIs(KeysOf(r), key, i);
    if other != key && other in KeysOf(es) {
      var j := FirstIndex(KeysOf(es), other).value;
      FirstIndexIs(KeysOf(r), other, j);
    }
  }

  /** `AddField` never creates a second field with the same key. */
  lemma AddEntryKeepsKeysUnique(es: seq<Entry>, key: string, value: Option<string>, defaultValue: string)
    requires NoDuplicates(KeysOf(es))
    ensures NoDuplicates(KeysOf(AddEntry(es, key, value, defaultValue)))
  {
    AddEntryKeys(es, key, value, defaultValue);
  }

  /** `GetField` returns the existing field on a hit, or a new field whose
      raw value and default are both `defaultValue`, and the list then holds
      exactly one field with that key more than before on a miss. */
  lemma GetEntryFacts(es: seq<Entry>, key: string, defaultValue: string)
    ensures Lookup(GetEntry(es, key, defaultValue), key)
         == Some(if key in KeysOf(es) then Lookup(es, key).value else Entry(key, defaultValue, defaultValue))
    ensures GetEntry(es, key, defaultValue) == if key in KeysOf(es) then es else es + [Entry(key, defaultValue, defaultValue)]
    ensures NoDuplicates(KeysOf(es)) ==> NoDuplicates(KeysOf(GetEntry(es, key, defaultValue)))
  {
    if key !in KeysOf(es) {
      AddEntryLookup(es, key, None, defaultValue, key);
      AddEntryKeys(es, key, None, defaultValue);
    }
  }

  /** Re-adding a key without a value throws its raw value away: the field
      is rebuilt from the merged default alone. */
  lemma ReAddWithoutValueResetsRaw(es: seq<Entry>, key: string, defaultValue: string)
    requires key in KeysOf(es)
    ensures var e := Lookup(AddEntry(es, key, None, defaultValue), key);
            e.Some? && e.value.raw == MergedDefault(Lookup(es, key).value.defaultValue, defaultValue)
  {
    AddEntryLookup(es, key, None, defaultValue, key);
  }

  /** One call of the field API of a scope. */
  datatype FieldCall =
    | AddCall(key: string, value: Option<string>, defaultValue: string)
    | GetCall(key: string, defaultValue: string)

  function ApplyCall(es: seq<Entry>, c: FieldCall): seq<Entry> {
    match c
    case AddCall(k, v, d) => AddEntry(es, k, v, d)
    case GetCall(k, d) => GetEntry(es, k, d)
  }

  /** The field list after the calls, in order. */
  function ApplyCalls(es: seq<Entry>, cs: seq<FieldCall>): seq<Entry>
    decreases |cs|
  {
    if cs == [] then es else ApplyCall(ApplyCalls(es, cs[..|cs| - 1]), cs[|cs| - 1])
  }

  /** One call adds its key to the key set and no other key. */
  lemma ApplyCallKeys(es: seq<Entry>, c: FieldCall, k: string)
    ensures k in KeysOf(ApplyCall(es, c)) <==> k in KeysOf(es) || k == c.key
  {
    match c
    case AddCall(key, v, d) => AddEntryKeys(es, key, v, d);
    case GetCall(key, d) =>
      if key !in KeysOf(es) {
        AddEntryKeys(es, key, None, d);
      }
  }

  /** The keys present after a sequence of `AddField`/`GetField` calls are
      the ones present before together with every key a call named. */
  lemma {:induction false} ApplyCallsKeys(es: seq<Entry>, cs: seq<FieldCall>, k: string)
    ensures k in KeysOf(ApplyCalls(es, cs)) <==> k in KeysOf(es) || exists i :: 0 <= i < |cs| && cs[i].key == k
    decreases |cs|
  {
    if cs != [] {
      var init := cs[..|cs| - 1];
      ApplyCallsKeys(es, init, k);
      ApplyCallKeys(ApplyCalls(es, init), cs[|cs| - 1], k);
      if exists i :: 0 <= i < |init| && init[i].key == k {
        var i :| 0 <= i < |init| && init[i].key == k;
        assert cs[i].key == k;
      }
      if exists i :: 0 <= i < |cs| && cs[i].key == k {
        var i :| 0 <= i < |cs| && cs[i].key == k;
        if i < |init| {
          assert init[i].key == k;
        }
      }
    }
  }

  /** After any sequence of `AddField`/`GetField` calls there is exactly one
      field per key named by a call or present before: keys stay unique, and
      no such key is missing. */
  lemma {:induction false} ApplyCallsKeepKeysUnique(es: seq<Entry>, cs: seq<FieldCall>)
    requires NoDuplicates(KeysOf(es))
    ensures NoDuplicates(KeysOf(ApplyCalls(es, cs)))
    ensures forall k :: k in KeysOf(ApplyCalls(es, cs)) <==> k in KeysOf(es) || exists i :: 0 <= i < |cs| && cs[i].key == k
    decreases |cs|
  {
    forall k {
      ApplyCallsKeys(es, cs, k);
    }
    if cs != [] {
      var before := ApplyCalls(es, cs[..|cs| - 1]);
      ApplyCallsKeepKeysUnique(es, cs[..|cs| - 1]);
      match cs[|cs| - 1] {
        case AddCall(k, v, d) => AddEntryKeepsKeysUnique(before, k, v, d);
        case GetCall(k, d) => GetEntryFacts(before, k, d);
      }
    }
  }

  /** Calls about other keys, and `GetField` calls on a key that is
      already present, do not change what `key` looks up to. */
  lemma {:induction false} ApplyCallsOtherKeys(es: seq<Entry>, cs: seq<FieldCall>, key: string)
    requires forall i :: 0 <= i < |cs| ==> cs[i].key != key || (cs[i].GetCall? && key in KeysOf(es))
    ensures Lookup(ApplyCalls(es, cs), key) == Lookup(es, key)
    decreases |cs|
  {
    if cs != [] {
      var before := ApplyCalls(es, cs[..|cs| - 1]);
      ApplyCallsOtherKeys(es, cs[..|cs| - 1], key);
      match cs[|cs| - 1]
      case AddCall(k, v, d) => AddEntryLookup(before, k, v, d, key);
      case GetCall(k, d) =>
        if k !in KeysOf(before) {
          AddEntryLookup(before, k, None, d, key);
        }
    }
  }

  lemma {:induction false} ApplyCallsAppend(es: seq<Entry>, cs: seq<FieldCall>, ds: seq<FieldCall>)
    ensures ApplyCalls(es, cs + ds) == ApplyCalls(ApplyCalls(es, cs), ds)
    decreases |ds|
  {
    if ds == [] {
      assert cs + ds == cs;
    } else {
      assert (cs + ds)[..|cs + ds| - 1] == cs + ds[..|ds| - 1];
      ApplyCallsAppend(es, cs, ds[..|ds| - 1]);
    }
  }

  /** A key's raw value is the value of the last `AddField` call on the
      key, when that call gives an explicit value; later `GetField` calls on
      the key do not change it. */
  lemma LastExplicitValueWins(es: seq<Entry>, before: seq<FieldCall>, key: string, value: string,
                              defaultValue: string, after: seq<FieldCall>)
    requires forall i :: 0 <= i < |after| ==> after[i].key != key || after[i].GetCall?
    ensures var e := Lookup(ApplyCalls(es, before + [AddCall(key, Some(value), defaultValue)] + after), key);
            e.Some? && e.value.raw == value
  {
    var cs := before + [AddCall(key, Some(value), defaultValue)];
    ApplyCallsAppend(es, cs, after);
    assert cs[..|cs| - 1] == before;
    AddEntryLookup(ApplyCalls(es, before), key, Some(value), defaultValue, key);
    ApplyCallsOtherKeys(ApplyCalls(es, cs), after, key);
  }

  /** `CreateSection(name)` on a section list: the first section named
      `name` and the unchanged list, or a new empty section appended at the
      end. Returns the new list and the position of the section. */
  function CreateSectionIn(ss: seq<SectionView>, name: string): (r: (seq<SectionView>, nat))
    ensures r.1 < |r.0| && r.0[r.1].name == name
  {
    var found := FirstIndex(NamesOf(ss), name);
    if found.Some? then (ss, found.value) else (ss + [SectionView(name, [])], |ss|)
  }

  /** The position returned names a section called `name`; at most one
      section is added, so a second call with the same name changes
      nothing; names stay unique. */
  lemma CreateSectionInFacts(ss: seq<SectionView>, name: string)
    ensures var (ss', i) := CreateSectionIn(ss, name);
            && i < |ss'| && ss'[i].name == name
            && ss'[..|ss|] == ss && |ss'| <= |ss| + 1
            && (name in NamesOf(ss) <==> ss' == ss)
            && CreateSectionIn(ss', name) == (ss', i)
            && (NoDuplicates(NamesOf(ss)) ==> NoDuplicates(NamesOf(ss')))
  {
    var (ss', i) := CreateSectionIn(ss, name);
    if name !in NamesOf(ss) {
      assert NamesOf(ss') == NamesOf(ss) + [name];
      FirstIndexIs(NamesOf(ss'), name, |ss|);
    }
  }

  /** `AddField` on the section at position `i`. */
  function AddToSection(ss: seq<SectionView>, i: nat, key: string, value: Option<string>, defaultValue: string): seq<SectionView>
    requires i < |ss|
  {
    ss[i := ss[i].(fields := AddEntry(ss[i].fields, key, value, defaultValue))]
  }
}
