/** The object model of the library: `IniFile`, `IniSection` and
    `IniField` as classes whose methods update their lists in place, and the
    static `IniIO` routines that read lines into an `IniFile` and write one
    out as text. Every class has a value view (module Snapshot); each method
    is proved to have, on that view, the effect of the list function that
    specifies it, so what is proved about those functions holds of the
    objects. */
module EasySharpIni {
  import opened Wrappers
  import opened Lists
  import opened Snapshot
  import opened Converters
  import opened Text
  import opened IniExportOptions
  import IniRender
  import IniParse

  /** One `key=value` field. The key and default are fixed at construction;
      the raw value changes through `Set`. */
  class IniField {
    const key: string
    const defaultValue: string
    const file: IniFile
    const section: IniSection?
    var rawValue: string

    /** The field as a value. */
    function AsEntry(): Entry
      reads this
    {
      Entry(key, rawValue, defaultValue)
    }

    /** `new IniField(key, file, value, defaultValue)` without a section:
        the raw value is `value`, or the default when no value is given. */
    constructor (key: string, file: IniFile, value: Option<string>, defaultValue: string)
      ensures AsEntry() == NewEntry(key, value, defaultValue)
      ensures this.file == file && section == null
    {
      this.key := key;
      this.defaultValue := defaultValue;
      this.file := file;
      this.section := null;
      match value
      case None => rawValue := defaultValue;
      case Some(v) => rawValue := v;
    }

    /** The same with the section the field belongs to. */
    constructor InSection(key: string, file: IniFile, value: Option<string>, defaultValue: string, section: IniSection?)
      ensures AsEntry() == NewEntry(key, value, defaultValue)
      ensures this.file == file && this.section == section
    {
      this.key := key;
      this.defaultValue := defaultValue;
      this.file := file;
      this.section := section;
      match value
      case None => rawValue := defaultValue;
      case Some(v) => rawValue := v;
    }

    /** `Get()`: the raw string. */
    method Get() returns (r: string)
      ensures r == AsEntry().raw
    {
      r := rawValue;
    }

    /** `Set(value)`: replaces the raw string and nothing else. */
    method Set(value: string)
      modifies this
      ensures AsEntry() == old(AsEntry()).(raw := value)
    {
      rawValue := value;
    }

    /** `Get<T>(converter)`: the parsed raw value, or the converter's
        default when the raw value does not parse. */
    method GetAs<T>(converter: Converter<T>) returns (r: T)
      ensures converter.parse(rawValue).Some? ==> r == converter.parse(rawValue).value
      ensures converter.parse(rawValue).None? ==> r == converter.defaultValue
    {
      var parsed := converter.parse(rawValue);
      if parsed.None? {
        return converter.defaultValue;
      }
      r := parsed.value;
    }

    /** `Set<T>(value, converter)`: stores the converter's text for
        `value`; reading it back with `GetAs` gives `value` whenever the
        converter parses its own output back. */
    method SetAs<T>(value: T, converter: Converter<T>)
      modifies this
      ensures AsEntry() == old(AsEntry()).(raw := converter.format(value))
      ensures converter.parse(converter.format(value)) == Some(value) ==> converter.ParseOrDefault(rawValue) == value
    {
      rawValue := converter.format(value);
    }

    /** `ToString()`: the same as `Get()`. */
    method ToString() returns (r: string)
      ensures r == AsEntry().raw
    {
      r := Get();
    }
  }

  /** `new IniField(key, file, value, defaultValue, section)` with a
      section name: a non-empty name looks the section up in `file`,
      creating it there when it is missing, and the field remembers it; the
      field is not added to any list. */
  method NewFieldInSection(key: string, file: IniFile, value: Option<string>, defaultValue: string, sectionName: string)
    returns (field: IniField)
    modifies file
    ensures fresh(field) && field.AsEntry() == NewEntry(key, value, defaultValue) && field.file == file
    ensures file.fields == old(file.fields) && file.path == old(file.path)
    ensures sectionName == "" ==> field.section == null && file.sections == old(file.sections)
    ensures sectionName != "" ==>
              && field.section != null
              && SectionFound(old(file.sections), file.sections, sectionName, field.section)
              && file.View() == DocView(old(FieldsView(file.fields)), CreateSectionIn(old(SectionsView(file.sections)), sectionName).0)
  {
    var found: IniSection? := null;
    if sectionName != "" {
      found := file.GetSection(sectionName);
    }
    field := new IniField.InSection(key, file, value, defaultValue, found);
  }

  /** The keys of a field list, in order. Keys never change, so this reads
      nothing. */
  function FieldKeys(fs: seq<IniField>): (r: seq<string>)
    ensures |r| == |fs| && forall i :: 0 <= i < |fs| ==> r[i] == fs[i].key
  {
    seq(|fs|, i requires 0 <= i < |fs| => fs[i].key)
  }

  /** A field list as values. */
  function FieldsView(fs: seq<IniField>): (r: seq<Entry>)
    reads fs
    ensures |r| == |fs| && forall i :: 0 <= i < |fs| ==> r[i] == fs[i].AsEntry()
  {
    seq(|fs|, i requires 0 <= i < |fs| reads fs => fs[i].AsEntry())
  }

  lemma FieldsViewKeys(fs: seq<IniField>)
    ensures KeysOf(FieldsView(fs)) == FieldKeys(fs)
  {
  }

  /** `AddField` put `field` where the first field with `key` was, or at
      the end when there was none. */
  predicate FieldPlaced(before: seq<IniField>, after: seq<IniField>, key: string, field: IniField) {
    var found := FirstIndex(FieldKeys(before), key);
    if found.Some? then after == before[found.value := field] else after == before + [field]
  }

  /** The linear scan for the first field with `key`. */
  method FindField(fs: seq<IniField>, key: string) returns (r: Option<nat>)
    ensures r == FirstIndex(FieldKeys(fs), key)
  {
    var i := 0;
    while i < |fs|
      invariant 0 <= i <= |fs|
      invariant forall j :: 0 <= j < i ==> fs[j].key != key
    {
      if fs[i].key == key {
        FirstIndexIs(FieldKeys(fs), key, i);
        return Some(i);
      }
      i := i + 1;
    }
    r := None;
  }

  lemma FieldsViewConcat(a: seq<IniField>, b: seq<IniField>)
    ensures FieldsView(a + b) == FieldsView(a) + FieldsView(b)
  {
  }

  lemma FieldsViewSlices(fs: seq<IniField>, i: nat)
    requires i <= |fs|
    ensures FieldsView(fs[..i]) == FieldsView(fs)[..i]
    ensures FieldsView(fs[i..]) == FieldsView(fs)[i..]
  {
  }

  lemma FieldsViewUpdate(fs: seq<IniField>, i: nat, field: IniField)
    requires i < |fs|
    ensures FieldsView(fs[i := field]) == FieldsView(fs)[i := field.AsEntry()]
  {
  }

  /** The body `IniFile.AddField` and `IniSection.AddField` share: a new
      field replaces the first field with the same key in place (keeping the
      old default when the new one is empty), or is appended. */
  method AddFieldTo(fs: seq<IniField>, file: IniFile, key: string, value: Option<string>, defaultValue: string)
    returns (after: seq<IniField>, field: IniField)
    ensures fresh(field) && field.key == key && field.file == file && field.section == null
    ensures FieldPlaced(fs, after, key, field)
    ensures FieldsView(after) == AddEntry(FieldsView(fs), key, value, defaultValue)
    ensures NoDuplicates(FieldKeys(fs)) ==> NoDuplicates(FieldKeys(after))
  {
    ghost var view := FieldsView(fs);
    FieldsViewKeys(fs);
    AddEntryKeys(view, key, value, defaultValue);
    var found := FindField(fs, key);
    if found.Some? {
      var i := found.value;
      field := new IniField(key, file, value, MergedDefault(fs[i].defaultValue, defaultValue));
      after := fs[i := field];
      FieldsViewUpdate(fs, i, field);
      assert FieldKeys(after) == FieldKeys(fs);
    } else {
      field := new IniField(key, file, value, defaultValue);
      after := fs + [field];
      FieldsViewConcat(fs, [field]);
      assert FieldKeys(after) == FieldKeys(fs) + [key];
    }
    FieldsViewKeys(after);
  }

  /** Removing the element at `i` keeps the others in order. */
  lemma RemovedAt<T>(xs: seq<T>, x: T) returns (i: nat)
    requires x in xs
    ensures FirstIndex(xs, x) == Some(i)
    ensures i < |xs| && RemoveFirst(xs, x) == xs[..i] + xs[i + 1..]
    ensures forall k :: 0 <= k < |xs| - 1 ==> RemoveFirst(xs, x)[k] == xs[if k < i then k else k + 1]
  {
    i := FirstIndex(xs, x).value;
    var r := RemoveFirst(xs, x);
    assert r == xs[..i] + xs[i + 1..];
    forall k | 0 <= k < |xs| - 1 ensures r[k] == xs[if k < i then k else k + 1] {
      if k < i {
        assert r[k] == xs[..i][k];
      } else {
        assert r[k] == xs[i + 1..][k - i];
      }
    }
  }

  lemma FieldsViewWithout(fs: seq<IniField>, i: nat)
    requires i < |fs|
    ensures FieldsView(fs[..i] + fs[i + 1..]) == FieldsView(fs)[..i] + FieldsView(fs)[i + 1..]
  {
    FieldsViewConcat(fs[..i], fs[i + 1..]);
    FieldsViewSlices(fs, i);
    FieldsViewSlices(fs, i + 1);
  }

  /** Removing a field object drops its entry and keeps the others in
      order. */
  lemma RemoveFieldView(fs: seq<IniField>, field: IniField)
    ensures field !in fs ==> RemoveFirst(fs, field) == fs
    ensures field in fs ==> var i := FirstIndex(fs, field).value;
              FieldsView(RemoveFirst(fs, field)) == FieldsView(fs)[..i] + FieldsView(fs)[i + 1..]
  {
    if field in fs {
      var i := RemovedAt(fs, field);
      FieldsViewWithout(fs, i);
    }
  }

  /** Removing a field keeps keys unique. */
  lemma RemoveFieldKeys(fs: seq<IniField>, field: IniField)
    requires NoDuplicates(FieldKeys(fs))
    ensures NoDuplicates(FieldKeys(RemoveFirst(fs, field)))
  {
    if field in fs {
      var i := RemovedAt(fs, field);
    }
  }

  /** A section: a name and an ordered list of fields. */
  class IniSection {
    const name: string
    const file: IniFile
    var fields: seq<IniField>

    /** The section as a value. */
    function AsView(): SectionView
      reads this, fields
    {
      SectionView(name, FieldsView(fields))
    }

    /** No two fields share a key. */
    predicate Valid()
      reads this
    {
      NoDuplicates(FieldKeys(fields))
    }

    constructor (name: string, file: IniFile)
      ensures this.name == name && this.file == file && fields == []
      ensures AsView() == SectionView(name, []) && Valid()
    {
      this.name := name;
      this.file := file;
      fields := [];
    }

    /** `AddField(key, value, defaultValue)`: see `AddFieldTo`. */
    method AddField(key: string, value: Option<string>, defaultValue: string) returns (field: IniField)
      modifies this
      ensures fresh(field) && field.key == key && field.file == file
      ensures FieldPlaced(old(fields), fields, key, field)
      ensures AsView() == old(AsView()).(fields := AddEntry(old(AsView()).fields, key, value, defaultValue))
      ensures old(Valid()) ==> Valid()
    {
      fields, field := AddFieldTo(fields, file, key, value, defaultValue);
    }

    /** `GetField(key, defaultValue)`: the first field with `key`, or a new
        one holding `defaultValue` added at the end. */
    method GetField(key: string, defaultValue: string) returns (field: IniField)
      modifies this
      ensures field.key == key && field in fields
      ensures AsView() == old(AsView()).(fields := GetEntry(old(AsView()).fields, key, defaultValue))
      ensures key in FieldKeys(old(fields)) ==> fields == old(fields) && field == fields[FirstIndex(FieldKeys(fields), key).value]
      ensures key !in FieldKeys(old(fields)) ==> fresh(field) && fields == old(fields) + [field]
      ensures old(Valid()) ==> Valid()
    {
      var found := FindField(fields, key);
      match found
      case Some(i) =>
        field := fields[i];
      case None =>
        field := AddField(key, None, defaultValue);
    }

    /** `RemoveField(field)`: drops the first occurrence of that field
        object; a no-op when it is not in the list. */
    method RemoveField(field: IniField)
      modifies this
      ensures fields == RemoveFirst(old(fields), field)
      ensures field in old(fields) ==> var i := FirstIndex(old(fields), field).value;
                AsView().fields == old(AsView().fields)[..i] + old(AsView().fields)[i + 1..]
      ensures old(Valid()) ==> Valid()
    {
      RemoveFieldView(fields, field);
      if Valid() {
        RemoveFieldKeys(fields, field);
      }
      fields := RemoveFirst(fields, field);
    }
  }

  /** The names of a section list, in order. Names never change. */
  function SectionNames(ss: seq<IniSection>): (r: seq<string>)
    ensures |r| == |ss| && forall i :: 0 <= i < |ss| ==> r[i] == ss[i].name
  {
    seq(|ss|, i requires 0 <= i < |ss| => ss[i].name)
  }

  /** Every field object of every section of the list. */
  function SectionsFoot(ss: seq<IniSection>): set<object>
    reads ss
  {
    set s, f | s in ss && f in s.fields :: f
  }

  /** A section list as values. */
  function SectionsView(ss: seq<IniSection>): (r: seq<SectionView>)
    reads ss, SectionsFoot(ss)
    ensures |r| == |ss| && forall i :: 0 <= i < |ss| ==> r[i] == ss[i].AsView()
  {
    seq(|ss|, i requires 0 <= i < |ss| reads ss, SectionsFoot(ss) =>
      assert forall f :: f in ss[i].fields ==> f in SectionsFoot(ss);
      ss[i].AsView())
  }

  lemma SectionsViewNames(ss: seq<IniSection>)
    ensures NamesOf(SectionsView(ss)) == SectionNames(ss)
  {
  }

  /** `CreateSection`/`GetSection` returned the first section called
      `name`, leaving the list alone, or appended the section it returned
      when no section had that name. */
  predicate SectionFound(before: seq<IniSection>, after: seq<IniSection>, name: string, r: IniSection) {
    var found := FirstIndex(SectionNames(before), name);
    if found.Some? then after == before && r == before[found.value] else after == before + [r]
  }

  /** The linear scan for the first section called `name`. */
  method FindSection(ss: seq<IniSection>, name: string) returns (r: Option<nat>)
    ensures r == FirstIndex(SectionNames(ss), name)
  {
    var i := 0;
    while i < |ss|
      invariant 0 <= i <= |ss|
      invariant forall j :: 0 <= j < i ==> ss[j].name != name
    {
      if ss[i].name == name {
        FirstIndexIs(SectionNames(ss), name, i);
        return Some(i);
      }
      i := i + 1;
    }
    r := None;
  }

  /** Sections with distinct names are distinct objects. */
  lemma NamesSeparateSections(ss: seq<IniSection>)
    requires NoDuplicates(SectionNames(ss))
    ensures NoDuplicates(ss)
  {
    forall i, j | 0 <= i < j < |ss| ensures ss[i] != ss[j] {
      assert SectionNames(ss)[i] != SectionNames(ss)[j];
    }
  }

  lemma SectionsViewConcat(a: seq<IniSection>, b: seq<IniSection>)
    ensures SectionsView(a + b) == SectionsView(a) + SectionsView(b)
  {
  }

  lemma SectionsViewSlice(ss: seq<IniSection>, i: nat, j: nat)
    requires i <= j <= |ss|
    ensures SectionsView(ss[i..j]) == SectionsView(ss)[i..j]
  {
    var a := SectionsView(ss[i..j]);
    var b := SectionsView(ss)[i..j];
    forall k | 0 <= k < |a| ensures a[k] == b[k] {
      assert ss[i..j][k] == ss[i + k];
    }
  }

  lemma {:induction false} SectionsViewWithout(ss: seq<IniSection>, i: nat)
    requires i < |ss|
    ensures SectionsView(ss[..i] + ss[i + 1..]) == SectionsView(ss)[..i] + SectionsView(ss)[i + 1..]
  {
    var r := ss[..i] + ss[i + 1..];
    var v := SectionsView(ss);
    var w := SectionsView(r);
    var u := v[..i] + v[i + 1..];
    assert |w| == |u|;
    forall k | 0 <= k < |w| ensures w[k] == u[k] {
      if k < i {
        assert r[k] == ss[k] && u[k] == v[k];
      } else {
        assert r[k] == ss[k + 1] && u[k] == v[k + 1];
      }
    }
  }

  /** Removing a section object drops its view and keeps the others in
      order. */
  lemma RemoveSectionView(ss: seq<IniSection>, section: IniSection)
    ensures section !in ss ==> RemoveFirst(ss, section) == ss
    ensures section in ss ==> var i := FirstIndex(ss, section).value;
              SectionsView(RemoveFirst(ss, section)) == SectionsView(ss)[..i] + SectionsView(ss)[i + 1..]
  {
    if section in ss {
      var i := RemovedAt(ss, section);
      SectionsViewWithout(ss, i);
    }
  }

  /** Removing a section keeps names unique. */
  lemma RemoveSectionNames(ss: seq<IniSection>, section: IniSection)
    requires NoDuplicates(SectionNames(ss))
    ensures NoDuplicates(SectionNames(RemoveFirst(ss, section)))
  {
    if section in ss {
      var i := RemovedAt(ss, section);
    }
  }

  /** Keys are unique within every section of the list. */
  predicate SectionsValid(ss: seq<IniSection>)
    reads ss
  {
    forall i :: 0 <= i < |ss| ==> ss[i].Valid()
  }

  /** Appending a valid section keeps every section valid. */
  lemma AppendSectionValid(ss: seq<IniSection>, r: IniSection)
    requires SectionsValid(ss) && r.Valid()
    ensures SectionsValid(ss + [r])
  {
  }

  /** The section views only change when a section or one of its fields
      does. */
  twostate lemma SectionsViewStable(ss: seq<IniSection>)
    requires unchanged(ss) && unchanged(old(SectionsFoot(ss)))
    ensures SectionsView(ss) == old(SectionsView(ss))
  {
  }

  /** Appending a valid section with a new name to a valid file, and
      touching nothing else, leaves the file valid. */
  twostate lemma AppendSectionKeepsValid(file: IniFile, new r: IniSection)
    requires old(file.Valid()) && r.Valid() && r.name !in SectionNames(old(file.sections))
    requires file.fields == old(file.fields) && file.sections == old(file.sections) + [r]
    requires unchanged(old(file.sections))
    ensures file.Valid()
  {
    AppendSectionNames(old(file.sections), r);
    AppendSectionValid(old(file.sections), r);
  }

  /** Removing a section keeps every remaining section valid. */
  lemma RemoveSectionValid(ss: seq<IniSection>, section: IniSection)
    requires SectionsValid(ss)
    ensures SectionsValid(RemoveFirst(ss, section))
  {
    if section in ss {
      var i := RemovedAt(ss, section);
    }
  }

  /** What `CreateSection` does to the section list, on values: a found
      section leaves the view alone, an appended empty section called `name`
      is the one `CreateSectionIn` appends. */
  lemma SectionFoundView(before: seq<IniSection>, after: seq<IniSection>, name: string, r: IniSection)
    requires SectionFound(before, after, name, r)
    requires name !in SectionNames(before) ==> r.AsView() == SectionView(name, [])
    ensures SectionsView(after) == CreateSectionIn(SectionsView(before), name).0
  {
    SectionsViewNames(before);
    if name !in SectionNames(before) {
      SectionsViewConcat(before, [r]);
    }
  }

  /** Appending a section with a new name keeps the names unique. */
  lemma AppendSectionNames(ss: seq<IniSection>, r: IniSection)
    requires NoDuplicates(SectionNames(ss)) && r.name !in SectionNames(ss)
    ensures NoDuplicates(SectionNames(ss + [r]))
  {
    assert SectionNames(ss + [r]) == SectionNames(ss) + [r.name];
  }

  /** An INI document: a path, the global fields and the sections. */
  class IniFile {
    var path: string
    var sections: seq<IniSection>
    var fields: seq<IniField>

    /** The document as a value: what the serializer writes. */
    function View(): DocView
      reads this, fields, sections, SectionsFoot(sections)
    {
      DocView(FieldsView(fields), SectionsView(sections))
    }

    /** Global keys unique, section names unique, keys unique in every
        section: the shape the library's methods keep. */
    predicate Valid()
      reads this, sections
    {
      && NoDuplicates(FieldKeys(fields))
      && NoDuplicates(SectionNames(sections))
      && SectionsValid(sections)
    }

    /** A valid file's view is well formed and its sections are distinct
        objects. */
    lemma ValidIsWellFormed()
      requires Valid()
      ensures WellFormed(View()) && NoDuplicates(sections)
    {
      NamesSeparateSections(sections);
      var v := View();
      forall i | 0 <= i < |v.sections| ensures NoDuplicates(KeysOf(v.sections[i].fields)) {
        assert sections[i] in sections;
      }
    }

    /** `new IniFile(path)`: an empty document. */
    constructor (path: string)
      ensures this.path == path && sections == [] && fields == []
      ensures View() == EmptyDoc && Valid()
    {
      this.path := path;
      sections := [];
      fields := [];
    }

    /** `Parse()`: reads the file at `path` on `disk` into this document
        (see `ParseFile`) and returns it. */
    method Parse(disk: map<string, string>) returns (r: IniFile)
      modifies this, sections
      ensures r == this && path == old(path)
      ensures path !in disk ==> unchanged(this) && unchanged(sections)
      ensures path in disk && NoDuplicates(old(sections)) ==>
                View() == IniParse.ReadLines(old(View()), SplitLines(disk[path]))
    {
      r := ParseFile(this, disk);
    }

    /** `Write(options, pathOverride)`: the rendered document is stored
        under `pathOverride` when it is not empty, else under `path`; the
        path is the same afterwards, and so is the document. */
    method Write(options: ExportOptions, pathOverride: string, disk: map<string, string>)
      returns (written: map<string, string>)
      modifies this
      ensures path == old(path) && fields == old(fields) && sections == old(sections)
      ensures written == disk[(if pathOverride == "" then path else pathOverride) := IniRender.Render(old(View()), options)]
    {
      var oldPath := path;
      if pathOverride != "" {
        path := pathOverride;
      }
      ViewStable(this);
      written := WriteFile(this, options, disk);
      path := oldPath;
    }

    /** `ToString()`: the document rendered with the default options. */
    method ToString() returns (r: string)
      ensures r == IniRender.Render(old(View()), Default)
    {
      r := ExportToText(this, Default);
    }

    /** `CreateSection(name, section)`: the first section called `name`
        when there is one; otherwise `section` (or, when none is given, a new
        empty section called `name`) appended and returned. The given
        section is appended as it is, whatever its name. */
    method CreateSection(name: string, section: IniSection?) returns (r: IniSection)
      modifies this
      ensures fields == old(fields) && path == old(path)
      ensures SectionFound(old(sections), sections, name, r)
      ensures name !in SectionNames(old(sections)) && section != null ==> r == section
      ensures name !in SectionNames(old(sections)) && section == null ==>
                fresh(r) && r.name == name && r.fields == [] && r.file == this
      ensures section == null ==> View() == DocView(old(FieldsView(fields)), CreateSectionIn(old(SectionsView(sections)), name).0)
      ensures section == null || (section.name == name && section.Valid()) ==> old(Valid()) ==> Valid()
    {
      var found := FindSection(sections, name);
      if found.Some? {
        r := sections[found.value];
        SectionsViewNames(sections);
        return;
      }
      if section == null {
        r := new IniSection(name, this);
      } else {
        r := section;
      }
      sections := sections + [r];
      if old(Valid()) && r.name == name && r.Valid() {
        AppendSectionKeepsValid(this, r);
      }
      if section == null {
        SectionFoundView(old(sections), sections, name, r);
        SectionsViewStable(old(sections));
      }
    }

    /** `GetSection(name)`: the first section called `name`, created empty
        at the end when there is none. */
    method GetSection(name: string) returns (r: IniSection)
      modifies this
      ensures fields == old(fields) && path == old(path)
      ensures r.name == name
      ensures SectionFound(old(sections), sections, name, r)
      ensures name !in SectionNames(old(sections)) ==> fresh(r) && r.fields == [] && r.file == this
      ensures View() == DocView(old(FieldsView(fields)), CreateSectionIn(old(SectionsView(sections)), name).0)
      ensures old(Valid()) ==> Valid()
    {
      var found := FindSection(sections, name);
      if found.Some? {
        return sections[found.value];
      }
      r := CreateSection(name, null);
    }

    /** `RemoveSection(section)`: drops the first occurrence of that
        section object; a no-op when it is not in the list. */
    method RemoveSection(section: IniSection)
      modifies this
      ensures fields == old(fields) && path == old(path)
      ensures sections == RemoveFirst(old(sections), section)
      ensures section in old(sections) ==> var i := FirstIndex(old(sections), section).value;
                View().sections == old(View().sections)[..i] + old(View().sections)[i + 1..]
      ensures old(Valid()) ==> Valid() && section !in sections
    {
      RemoveSectionView(sections, section);
      if Valid() {
        RemoveSectionNames(sections, section);
        RemoveSectionValid(sections, section);
        NamesSeparateSections(sections);
        RemoveFirstDistinct(sections, section);
      }
      sections := RemoveFirst(sections, section);
    }

    /** `AddField(key, value, defaultValue)` on the globals: see
        `AddFieldTo`. */
    method AddField(key: string, value: Option<string>, defaultValue: string) returns (field: IniField)
      modifies this
      ensures fresh(field) && field.key == key && field.file == this
      ensures sections == old(sections) && path == old(path)
      ensures FieldPlaced(old(fields), fields, key, field)
      ensures View() == DocView(AddEntry(old(FieldsView(fields)), key, value, defaultValue), old(SectionsView(sections)))
      ensures old(Valid()) ==> Valid()
    {
      fields, field := AddFieldTo(fields, this, key, value, defaultValue);
    }

    /** `GetField(key, defaultValue)` on the globals: the first field with
        `key`, or a new one holding `defaultValue` added at the end. */
    method GetField(key: string, defaultValue: string) returns (field: IniField)
      modifies this
      ensures field.key == key && field in fields
      ensures sections == old(sections) && path == old(path)
      ensures View() == DocView(GetEntry(old(FieldsView(fields)), key, defaultValue), old(SectionsView(sections)))
      ensures key in FieldKeys(old(fields)) ==> fields == old(fields) && field == fields[FirstIndex(FieldKeys(fields), key).value]
      ensures key !in FieldKeys(old(fields)) ==> fresh(field) && fields == old(fields) + [field]
      ensures old(Valid()) ==> Valid()
    {
      var found := FindField(fields, key);
      match found
      case Some(i) =>
        field := fields[i];
      case None =>
        field := AddField(key, None, defaultValue);
    }

    /** `RemoveField(field)` on the globals: drops the first occurrence of
        that field object. */
    method RemoveField(field: IniField)
      modifies this
      ensures sections == old(sections) && path == old(path)
      ensures fields == RemoveFirst(old(fields), field)
      ensures field in old(fields) ==> var i := FirstIndex(old(fields), field).value;
                View().globals == old(View().globals)[..i] + old(View().globals)[i + 1..]
      ensures old(Valid()) ==> Valid()
    {
      RemoveFieldView(fields, field);
      if Valid() {
        RemoveFieldKeys(fields, field);
      }
      fields := RemoveFirst(fields, field);
    }
  }

  /** A file's view depends on its lists and the objects in them, not on
      its path. */
  twostate lemma ViewStable(file: IniFile)
    requires file.fields == old(file.fields) && file.sections == old(file.sections)
    requires unchanged(file.fields) && unchanged(file.sections) && unchanged(old(SectionsFoot(file.sections)))
    ensures file.View() == old(file.View())
  {
    SectionsViewStable(file.sections);
  }

  /** The position `CreateSectionIn` reports holds the section
      `CreateSection` returned. */
  lemma SectionFoundIndex(vs: seq<SectionView>, before: seq<IniSection>, after: seq<IniSection>, name: string, r: IniSection)
    requires NamesOf(vs) == SectionNames(before)
    requires SectionFound(before, after, name, r)
    ensures CreateSectionIn(vs, name).1 < |after| && after[CreateSectionIn(vs, name).1] == r
  {
  }

  /** The file's view is `doc`, and no section object is listed twice. */
  predicate Mirrors(file: IniFile, doc: DocView)
    reads file, file.fields, file.sections, SectionsFoot(file.sections)
  {
    NoDuplicates(file.sections) && file.View() == doc
  }

  /** Where the loop of `ReadFile` stands against the parser function: the
      file mirrors the parse state's document, and the `section` variable
      is the section the cursor points at (none in global scope). */
  predicate Tracks(file: IniFile, section: IniSection?, st: IniParse.ParseState)
    reads file, file.fields, file.sections, SectionsFoot(file.sections)
  {
    && Mirrors(file, st.doc)
    && (if st.cursor.Global? then section == null
        else st.cursor.index < |file.sections| && file.sections[st.cursor.index] == section)
  }

  /** The header branch of the loop: `CreateSection` on the trimmed text
      after the `[`, which becomes the current section. */
  method ReadHeaderLine(file: IniFile, line: string, ghost st: IniParse.ParseState) returns (next: IniSection)
    requires IniParse.CursorOk(st)
    requires StartsWith(line, '[') && EndsWith(line, ']')
    modifies file
    ensures file.path == old(file.path) && next in file.sections
    ensures forall s :: s in file.sections ==> s in old(file.sections) || fresh(s)
    ensures old(Mirrors(file, st.doc)) ==> Tracks(file, next, IniParse.ParseLine(st, line))
  {
    var sectionText := Trim(line[1..]);
    ghost var created := CreateSectionIn(st.doc.sections, sectionText);
    assert IniParse.Classify(line) == IniParse.Header(sectionText);
    assert IniParse.ParseLine(st, line) == IniParse.ParseState(st.doc.(sections := created.0), IniParse.InSection(created.1));
    ghost var vs := SectionsView(file.sections);
    SectionsViewNames(file.sections);
    next := file.CreateSection(sectionText, null);
    SectionFoundIndex(vs, old(file.sections), file.sections, sectionText, next);
  }

  /** The pair branch of the loop in global scope: `file.AddField(key, value)`. */
  method ReadGlobalPair(file: IniFile, key: string, value: string, ghost doc: DocView)
    modifies file
    ensures file.path == old(file.path) && file.sections == old(file.sections)
    ensures old(Mirrors(file, doc)) ==>
              Mirrors(file, doc.(globals := AddEntry(doc.globals, key, Some(value), "")))
  {
    var added := file.AddField(key, Some(value), "");
  }

  /** The pair branch of the loop inside section `i`:
      `section.AddField(key, value)`. */
  method ReadSectionPair(file: IniFile, section: IniSection, ghost i: nat, key: string, value: string, ghost doc: DocView)
    requires i < |file.sections| && file.sections[i] == section
    modifies section
    ensures old(Mirrors(file, doc)) && i < |doc.sections| ==>
              Mirrors(file, doc.(sections := AddToSection(doc.sections, i, key, Some(value), "")))
  {
    var added := section.AddField(key, Some(value), "");
  }

  /** The pair branch of the loop: the trimmed text before the first `=`
      is the key, the trimmed rest the value; the pair goes to the current
      section, or to the globals when there is none. */
  method ReadPairLine(file: IniFile, section: IniSection?, line: string, equalsIndex: nat, ghost st: IniParse.ParseState)
    requires IniParse.CursorOk(st)
    requires section != null ==> section in file.sections
    requires !(StartsWith(line, ';') || line == []) && !(StartsWith(line, '[') && EndsWith(line, ']'))
    requires FirstIndex(line, '=') == Some(equalsIndex)
    modifies file, section
    ensures file.path == old(file.path) && file.sections == old(file.sections)
    ensures old(Tracks(file, section, st)) ==> Tracks(file, section, IniParse.ParseLine(st, line))
  {
    var key := Trim(line[..equalsIndex]);
    var value := Trim(line[equalsIndex + 1..]);
    IniParse.ClassifyPair(line, equalsIndex);
    IniParse.PairStep(st, line, key, value);
    if section == null {
      ReadGlobalPair(file, key, value, st.doc);
    } else {
      ghost var i := if st.cursor.InSection? && st.cursor.index < |file.sections| && file.sections[st.cursor.index] == section
                     then st.cursor.index else FirstIndex(file.sections, section).value;
      ReadSectionPair(file, section, i, key, value, st.doc);
    }
  }

  /** One pass of the loop in `IniIO.ReadFile`: a comment or empty line is
      skipped; `[...]` selects (creating it when missing) the section named
      by the trimmed text after the `[`; a line with `=` adds the trimmed
      key and value to the selected section or to the globals; any other
      line is skipped. */
  method ReadLine(file: IniFile, section: IniSection?, line: string, ghost st: IniParse.ParseState)
    returns (next: IniSection?)
    requires IniParse.CursorOk(st)
    requires section != null ==> section in file.sections
    modifies file, section
    ensures file.path == old(file.path)
    ensures next != null ==> next in file.sections
    ensures forall s :: s in file.sections ==> s in old(file.sections) || fresh(s)
    ensures old(Tracks(file, section, st)) ==> Tracks(file, next, IniParse.ParseLine(st, line))
  {
    if StartsWith(line, ';') || line == [] {
      return section;
    }
    if StartsWith(line, '[') && EndsWith(line, ']') {
      next := ReadHeaderLine(file, line, st);
      return;
    }
    var equalsIndex := FirstIndex(line, '=');
    if equalsIndex.None? {
      return section;
    }
    ReadPairLine(file, section, line, equalsIndex.value, st);
    next := section;
  }

  /** `IniIO.ReadFile`: the lines go through the loop in order, starting in
      global scope, and the same file is returned. Its document becomes
      what the parser function makes of the lines, whenever no section
      object was listed twice to begin with. */
  method ReadFile(file: IniFile, lines: seq<string>) returns (r: IniFile)
    modifies file, file.sections
    ensures r == file && file.path == old(file.path)
    ensures NoDuplicates(old(file.sections)) ==> file.View() == IniParse.ReadLines(old(file.View()), lines)
  {
    ghost var start := IniParse.ParseState(file.View(), IniParse.Global);
    ghost var st := start;
    var section: IniSection? := null;
    for k := 0 to |lines|
      invariant file.path == old(file.path)
      invariant section != null ==> section in file.sections
      invariant forall s :: s in file.sections ==> s in old(file.sections) || fresh(s)
      invariant IniParse.CursorOk(st)
      invariant st == IniParse.ParseLines(start, lines[..k])
      invariant NoDuplicates(old(file.sections)) ==> Tracks(file, section, st)
    {
      section := ReadLine(file, section, lines[k], st);
      IniParse.ParseLinesSnoc(start, lines[..k], lines[k]);
      assert lines[..k + 1] == lines[..k] + [lines[k]];
      st := IniParse.ParseLine(st, lines[k]);
    }
    assert lines[..|lines|] == lines;
    return file;
  }

  /** `IniIO.Parse`: a file missing from `disk` is returned untouched;
      otherwise its text, split into lines, is read into it. */
  method ParseFile(file: IniFile, disk: map<string, string>) returns (r: IniFile)
    modifies file, file.sections
    ensures r == file && file.path == old(file.path)
    ensures file.path !in disk ==> unchanged(file) && unchanged(file.sections)
    ensures file.path in disk && NoDuplicates(old(file.sections)) ==>
              file.View() == IniParse.ReadLines(old(file.View()), SplitLines(disk[file.path]))
  {
    if file.path !in disk {
      return file;
    }
    r := ReadFile(file, SplitLines(disk[file.path]));
  }

  /** `output.AppendLine(line)` keeps the text equal to the lines written
      so far, one line more. */
  lemma AppendLineText(output: string, written: seq<string>, line: string)
    requires output == Unlines(written)
    ensures output + line + NewLine == Unlines(written + [line])
  {
    IniRender.UnlinesSnoc(written, line);
  }

  /** Appends `key{separator}value` and a newline for each entry. */
  method AppendFieldLines(output: string, ghost written: seq<string>, es: seq<Entry>, separator: string)
    returns (out: string)
    requires output == Unlines(written)
    ensures out == Unlines(written + IniRender.FieldLines(es, separator))
  {
    out := output;
    assert written + IniRender.FieldLines(es[..0], separator) == written;
    for k := 0 to |es|
      invariant out == Unlines(written + IniRender.FieldLines(es[..k], separator))
    {
      ghost var before := written + IniRender.FieldLines(es[..k], separator);
      AppendLineText(out, before, es[k].key + separator + es[k].raw);
      out := out + (es[k].key + separator + es[k].raw) + NewLine;
      IniRender.FieldLinesSnoc(es, k, separator);
      AppendAssoc(written, IniRender.FieldLines(es[..k], separator), [IniRender.FieldLine(es[k], separator)]);
    }
    assert es[..|es|] == es;
  }

  /** The global block of `IniIO.ExportToText`: the fields in write order,
      then a blank line when `NewLineAfterSection` is set and something was
      written. */
  method ExportGlobals(globals: seq<Entry>, options: ExportOptions) returns (output: string)
    ensures output == Unlines(IniRender.GlobalLines(globals, options))
  {
    var separator := if HasFlag(options, KeyValueWhitespace) then " = " else "=";
    var fields := if HasFlag(options, AlphabeticalFields) then IniRender.SortedByKey(globals, IniRender.EntryKey) else globals;
    ghost var lines := IniRender.FieldLines(fields, separator);
    output := AppendFieldLines("", [], fields, separator);
    assert [] + lines == lines;
    if HasFlag(options, NewLineAfterSection) && |output| != 0 {
      AppendLineText(output, lines, "");
      output := output + "" + NewLine;
    } else {
      assert lines + [] == lines;
    }
  }

  /** One section of `IniIO.ExportToText`: `[name]`, its fields in write
      order, then a blank line when `NewLineAfterSection` is set. */
  method ExportSection(output: string, ghost written: seq<string>, section: SectionView, options: ExportOptions)
    returns (out: string)
    requires output == Unlines(written)
    ensures out == Unlines(written + IniRender.SectionLines(section, options))
  {
    var separator := if HasFlag(options, KeyValueWhitespace) then " = " else "=";
    var fields := if HasFlag(options, AlphabeticalFields) then IniRender.SortedByKey(section.fields, IniRender.EntryKey) else section.fields;
    var header := "[" + section.name + "]";
    ghost var lines := IniRender.FieldLines(fields, separator);
    AppendLineText(output, written, header);
    out := AppendFieldLines(output + header + NewLine, written + [header], fields, separator);
    ghost var body := [header] + lines;
    AppendAssoc(written, [header], lines);
    if HasFlag(options, NewLineAfterSection) {
      AppendLineText(out, written + body, "");
      out := out + "" + NewLine;
      AppendAssoc(written, body, [""]);
      assert IniRender.SectionLines(section, options) == body + [""];
    } else {
      assert IniRender.SectionLines(section, options) == body;
    }
  }

  /** The body of `IniIO.ExportToText` on the document it reads: the
      global block, then every section in write order, the whole text
      trimmed at the end. */
  method ExportDocument(doc: DocView, options: ExportOptions) returns (text: string)
    ensures text == IniRender.Render(doc, options)
  {
    var output := ExportGlobals(doc.globals, options);
    var sections := if HasFlag(options, AlphabeticalSections) then IniRender.SortedByKey(doc.sections, IniRender.SectionName) else doc.sections;
    ghost var head := IniRender.GlobalLines(doc.globals, options);
    assert head + IniRender.SectionsLines(sections[..0], options) == head;
    for k := 0 to |sections|
      invariant output == Unlines(head + IniRender.SectionsLines(sections[..k], options))
    {
      output := ExportSection(output, head + IniRender.SectionsLines(sections[..k], options), sections[k], options);
      IniRender.SectionsLinesSnoc(sections, k, options);
      AppendAssoc(head, IniRender.SectionsLines(sections[..k], options), IniRender.SectionLines(sections[k], options));
    }
    assert sections[..|sections|] == sections;
    assert IniRender.RenderLines(doc, options) == head + IniRender.SectionsLines(sections, options);
    text := Trim(output);
  }

  /** `IniIO.ExportToText`: the rendering of the document the file holds
      when it is called; nothing is changed. */
  method ExportToText(file: IniFile, options: ExportOptions) returns (text: string)
    ensures text == IniRender.Render(old(file.View()), options)
  {
    text := ExportDocument(file.View(), options);
  }

  /** `IniIO.Write`: the rendered text stored under the file's path. */
  method WriteFile(file: IniFile, options: ExportOptions, disk: map<string, string>)
    returns (written: map<string, string>)
    ensures written == disk[file.path := IniRender.Render(old(file.View()), options)]
  {
    var text := ExportToText(file, options);
    written := disk[file.path := text];
  }
}
