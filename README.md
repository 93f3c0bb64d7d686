# EasySharpIni in Dafny

A model of the core of EasySharpIni, a small C# library for INI files, with
proofs about it. The core has three parts:

- **The document model.** `IniFile`, `IniSection` and `IniField` are Dafny
  classes whose methods update their lists in place, as the C# methods do.
  A file holds a path, an ordered list of global fields and an ordered list of
  sections. A section holds a name and an ordered list of fields. A field holds
  a key, a default value and a raw string value.
- **The parser.** `IniIO.ReadFile` makes one pass over the lines of a file,
  with a cursor that points at the current section.
- **The serializer.** `IniIO.ExportToText` renders a document as text under
  the `IniExportOptions` flags.

Each class has a value view, defined in module `Snapshot`. Every method is
proved to act on that view as a function over lists, so the lemmas about those
functions hold of the objects. The files are:

- `lists.dfy`, `text.dfy`, `wrappers.dfy`: sequence helpers, .NET `Trim`
  over a whitespace predicate, line splitting and joining, and an ordinal
  string order.
- `snapshot.dfy`: the document as values, and the field and section list
  operations on values.
- `ini_export_options.dfy`: the `[Flags]` enum as `bv32` constants and
  `HasFlag`.
- `converters.dfy`: `IConverter<T>` as a record of a parse function, a
  default value and a format function.
- `ini_parse.dfy`: `ReadFile` as a function (`ParseLine`, `ParseLines`).
- `ini_render.dfy`: `ExportToText` as a function (`Render`), with the two
  comparers and the `SortedSet` they sort through.
- `ini_roundtrip.dfy`: what reading back rendered text gives.
- `ini_model.dfy`: the classes and the `IniIO` routines as methods with loops.
  Each is proved against the functions above.

The disk is a parameter: a `map<string, string>` from path to file text.
`File.Exists` is membership in that map. `File.ReadAllLines` splits the text
at line feeds. `File.WriteAllText` updates the map at the path.

Where the code and its documentation differ, the model follows the code:

- A line is not trimmed before the `;` and `[`/`]` tests, so a comment with
  leading spaces is not a comment.
- A header's name is `line.Substring(1, line.Length - 1).Trim()`, which keeps
  the closing bracket: `[S]` names the section `S]`. As a result, rendering a
  document with sections and parsing the text back does not give the same
  document. `IniRoundTrip.HeaderKeepsClosingBracket` states this. The round
  trip is proved only for documents with global fields alone
  (`IniRoundTrip.GlobalRoundTrip`).
- `AddField` on an existing key with no value rebuilds the field from the
  merged default. The old raw value is discarded, so the raw value of a key is
  not always the last value given for it. `Snapshot.ReAddWithoutValueResetsRaw`
  states this. `Snapshot.LastExplicitValueWins` states when the last explicit
  value does survive.
- `CreateSection(name, section)` appends a given `section` object as it is,
  even when its name is not `name`.

## Model

| member | source | states |
|---|---|---|
| EasySharpIni.IniField.constructor | EasySharpIni/Models/IniField.cs:34-47 | The key and default are the given ones. The raw value is `value`, or the default when `value` is null. The field belongs to no section. |
| EasySharpIni.IniField.InSection | EasySharpIni/Models/IniField.cs:34-47 | The same raw/default resolution, for a field that remembers a section. |
| EasySharpIni.NewFieldInSection | EasySharpIni/Models/IniField.cs:40-41 | An empty section name leaves the file alone. A non-empty one runs `GetSection` on the file: the first section with that name is found, or an empty one is appended. The field remembers that section, and the file's globals and path do not change. |
| EasySharpIni.IniField.Get | EasySharpIni/Models/IniField.cs:53-56 | Returns the raw value. |
| EasySharpIni.IniField.GetAs | EasySharpIni/Models/IniField.cs:64-71 | Returns the converter's parse of the raw value when parsing succeeds, and the converter's default value otherwise. |
| EasySharpIni.IniField.Set | EasySharpIni/Models/IniField.cs:77-80 | The raw value becomes `value`. The key and default do not change. |
| EasySharpIni.IniField.SetAs | EasySharpIni/Models/IniField.cs:88-91 | The raw value becomes exactly the converter's text for `value`; nothing else changes. When the converter parses its own text back, `GetAs` then returns `value`. |
| EasySharpIni.IniField.ToString | EasySharpIni/Models/IniField.cs:98-101 | Returns the raw value, the same as `Get`. |
| EasySharpIni.IniSection.constructor | EasySharpIni/Models/IniSection.cs:14-18 | The name is the given one and is a constant. The field list is empty. |
| EasySharpIni.FindField | EasySharpIni/Models/IniSection.cs:22-27 | The linear scan returns the position of the first field with the key, or none when no field has it. |
| EasySharpIni.AddFieldTo | EasySharpIni/Models/IniSection.cs:20-33 | A field with the key already present is replaced at the same index; otherwise the new field is appended. The list view changes as `AddEntry` says. Unique keys stay unique. |
| EasySharpIni.IniSection.AddField | EasySharpIni/Models/IniSection.cs:20-33 | Replaces the field with that key in place, keeping the old default when the new one is empty, or appends a new one. The view changes as `AddEntry` says. Keys stay unique. |
| EasySharpIni.IniSection.GetField | EasySharpIni/Models/IniSection.cs:35-44 | On a hit, returns the first field with the key and changes nothing. On a miss, appends and returns a new field whose raw value and default are `defaultValue`. Keys stay unique. |
| EasySharpIni.IniSection.RemoveField | EasySharpIni/Models/IniSection.cs:46-49 | Removes the first occurrence of that field object. Does nothing when it is absent. Keeps the other fields in order, and keys stay unique. |
| EasySharpIni.IniFile.constructor | EasySharpIni/IniFile.cs:32-35 | The path is the given one. The document is empty and valid. |
| EasySharpIni.IniFile.ValidIsWellFormed | EasySharpIni/IniFile.cs:99-192 | A file whose keys and section names are unique has a well-formed view, and no section object appears twice. |
| EasySharpIni.FindSection | EasySharpIni/IniFile.cs:101-109 | The linear scan returns the position of the first section with the name, or none. |
| EasySharpIni.IniFile.CreateSection | EasySharpIni/IniFile.cs:99-116 | The first section named `name` is returned and the list is unchanged. If there is none: the given `section` object is appended and returned whatever its name; with no object, a new empty section called `name` is. The globals and path do not change. Validity is kept unless a misnamed or invalid section is passed in. |
| EasySharpIni.IniFile.GetSection | EasySharpIni/IniFile.cs:124-133 | Never fails. Returns the section named `name`, creating an empty one at the end if none exists. The view changes as `CreateSectionIn` says. Validity is kept. |
| EasySharpIni.IniFile.RemoveSection | EasySharpIni/IniFile.cs:139-142 | Removes the first occurrence of that section object. Does nothing when it is absent. Keeps the other sections in order. In a valid file the section is gone afterwards. |
| EasySharpIni.IniFile.AddField | EasySharpIni/IniFile.cs:152-165 | The global counterpart of `IniSection.AddField`: replace in place or append. The sections and path do not change. Global keys stay unique. |
| EasySharpIni.IniFile.GetField | EasySharpIni/IniFile.cs:174-183 | On a hit, returns the existing global field and changes nothing. On a miss, appends a field whose raw value and default are `defaultValue`. |
| EasySharpIni.IniFile.RemoveField | EasySharpIni/IniFile.cs:189-192 | Removes the first occurrence of that global field object. Does nothing when it is absent. Keeps the others in order. |
| EasySharpIni.IniFile.Parse | EasySharpIni/IniFile.cs:41-44 | Returns the same file, with the same path. The document becomes what the parser function makes of the file's lines on disk. A missing file changes nothing. |
| EasySharpIni.IniFile.Write | EasySharpIni/IniFile.cs:62-72 | The rendered document is stored under `pathOverride` when it is not empty, and otherwise under the path. Afterwards the path is its old value, and the document is unchanged. |
| EasySharpIni.IniFile.ToString | EasySharpIni/IniFile.cs:198-201 | Returns the document rendered with `Default`. |
| EasySharpIni.ParseFile | EasySharpIni/IniIO.cs:13-19 | A path missing from the disk leaves the file untouched. Otherwise the file's lines are read in, as `ReadFile` states. |
| EasySharpIni.ReadFile | EasySharpIni/IniIO.cs:43-77 | The loop leaves the file's document equal to `IniParse.ReadLines` of the old document and the lines. It starts in global scope, and returns the same file with the same path. |
| EasySharpIni.ReadLine | EasySharpIni/IniIO.cs:47-73 | One iteration keeps the file and the section cursor in step with `IniParse.ParseLine`. |
| EasySharpIni.ReadHeaderLine | EasySharpIni/IniIO.cs:53-58 | A header calls `CreateSection` on the trimmed text after `[`. The section it returns becomes the cursor, as `ParseLine` says. |
| EasySharpIni.ReadPairLine | EasySharpIni/IniIO.cs:61-72 | Adds the trimmed key before the first `=` and the trimmed rest. They go to the current section, or to the globals when there is none, as `ParseLine` says. |
| EasySharpIni.ReadGlobalPair | EasySharpIni/IniIO.cs:68-70 | `file.AddField(key, value)` adds the pair to the globals of the mirrored document. |
| EasySharpIni.ReadSectionPair | EasySharpIni/IniIO.cs:72 | `section.AddField(key, value)` adds the pair to that section of the mirrored document. |
| EasySharpIni.AppendFieldLines | EasySharpIni/IniIO.cs:99-102 | The loop appends one `key + separator + value` line and a newline per field, in list order. |
| EasySharpIni.ExportGlobals | EasySharpIni/IniIO.cs:82-106 | The global block is the field lines in write order, plus a blank line when `NewLineAfterSection` is set and something was written. |
| EasySharpIni.ExportSection | EasySharpIni/IniIO.cs:139-160 | A section block is `[name]`, the field lines in write order, then a blank line when `NewLineAfterSection` is set. |
| EasySharpIni.ExportDocument | EasySharpIni/IniIO.cs:79-164 | The loops produce exactly `IniRender.Render` of the document. |
| EasySharpIni.ExportToText | EasySharpIni/IniIO.cs:79-164 | Returns `IniRender.Render` of the file's document, and changes nothing. |
| EasySharpIni.WriteFile | EasySharpIni/IniIO.cs:31-34 | The disk afterwards holds the rendered document at the file's path, and is otherwise unchanged. |
| Snapshot.NewEntry | EasySharpIni/Models/IniField.cs:34-47 | A new field has the given key and default. Its raw value is `value` when one is given, and the default otherwise. |
| Snapshot.MergedDefault | EasySharpIni/IniFile.cs:158 | The default of a replaced field is the incoming default unless that is empty, in which case the previous one is kept. The result is empty only when both are. |
| Snapshot.AddEntry | EasySharpIni/IniFile.cs:152-165 | `AddField` on the list view grows the list by at most one field. |
| Snapshot.GetEntry | EasySharpIni/IniFile.cs:174-183 | `GetField` on the list view grows the list by at most one field. |
| Snapshot.CreateSectionIn | EasySharpIni/IniFile.cs:99-116 | The returned position is inside the new list and holds a section with the requested name. |
| Lists.RemoveFirst | EasySharpIni/IniFile.cs:139-142 | `List.Remove` of an absent element leaves the list as it is. Otherwise the list loses exactly one element, and it gains none. |
| Snapshot.AddEntryKeys | EasySharpIni/IniFile.cs:152-165 | `AddField` keeps the key list, and appends the key only when it is new. |
| Snapshot.AddEntryLookup | EasySharpIni/IniFile.cs:152-165 | After `AddField`, the key holds `value`, or the merged default when `value` is null. The merged default is the new default unless it is empty, in which case the old one survives. Every other key looks up as before. |
| Snapshot.AddEntryKeepsKeysUnique | EasySharpIni/IniFile.cs:152-165 | `AddField` never creates a second field with the same key. |
| Snapshot.GetEntryFacts | EasySharpIni/IniFile.cs:174-183 | On a hit, `GetField` finds the existing entry and leaves the list unchanged. On a miss, it appends `(key, defaultValue, defaultValue)`. Keys stay unique. |
| Snapshot.ReAddWithoutValueResetsRaw | EasySharpIni/IniFile.cs:154-159 | Re-adding a key with a null value sets its raw value to the merged default, and discards the old raw value. |
| Snapshot.ApplyCallsKeepKeysUnique | EasySharpIni/IniFile.cs:152-183 | Keys stay unique across any sequence of `AddField`/`GetField` calls, and afterwards there is exactly one field for each key that was present before or named by a call, and for no other key. |
| Snapshot.ApplyCallsKeys | EasySharpIni/IniFile.cs:152-183 | A key is present after a sequence of `AddField`/`GetField` calls exactly when it was present before or some call names it. |
| Snapshot.ApplyCallsOtherKeys | EasySharpIni/IniFile.cs:152-183 | Calls on other keys do not change what a key looks up to. Neither do `GetField` calls on the key itself once it is present. |
| Snapshot.LastExplicitValueWins | EasySharpIni/IniFile.cs:152-183 | After `AddField(key, value)` with a non-null value, followed by any calls on other keys and any `GetField` calls on the key, the key's raw value is `value`. |
| Snapshot.CreateSectionInFacts | EasySharpIni/IniFile.cs:99-116 | The returned position holds a section with that name. At most one section is appended, so a second call changes nothing. Names stay unique. |
| IniParse.Classify | EasySharpIni/IniIO.cs:48-66 | A line is skipped exactly when it is empty or starts with `;`. It is a header exactly when it is not skipped, starts with `[` and ends with `]`; the name is trimmed. A line classed as malformed holds no `=`. A pair comes from a line with `=`; its key and value are trimmed, and the key holds no `=`. |
| IniParse.ParseLineGrows | EasySharpIni/IniIO.cs:46-73 | One line never removes a global field or a section: each earlier global keeps its key and each earlier section its name, at the same position. Only a header moves the cursor, and then to a section with the header's name. |
| IniParse.ParseLinesGrows | EasySharpIni/IniIO.cs:46-74 | The same holds for any number of lines. |
| IniParse.ReadLines | EasySharpIni/IniIO.cs:43-77 | Reading lines into a document only adds to it: the earlier globals stay at their positions with their keys, and the earlier sections with their names. No lines leave the document as it was. |
| IniParse.CommentsAndBlanksSkipped | EasySharpIni/IniIO.cs:49-50 | An empty line, or one whose first character is `;`, changes nothing. A line with leading whitespace is never skipped as a comment. |
| IniParse.HeaderSelectsSection | EasySharpIni/IniIO.cs:53-58 | A `[...]` line makes the section named by the trimmed text after `[` current, closing `]` included. It is created only when missing, and the globals do not change. |
| IniParse.LineWithoutEqualsDropped | EasySharpIni/IniIO.cs:61-63 | A non-header line without `=` changes nothing. |
| IniParse.PairLineAddsField | EasySharpIni/IniIO.cs:65-72 | The key is the trimmed text before the first `=`. The value is the trimmed rest, further `=` included. The pair goes to the globals before any header and to the current section after one; the cursor stays. |
| IniParse.ParseLinesKeepsWellFormed | EasySharpIni/IniIO.cs:43-77 | Parsing keeps keys unique in every scope and section names unique. |
| IniParse.ParseLinesAppend | EasySharpIni/IniIO.cs:46-74 | Parsing two blocks of lines is parsing the first block, then the second from where the first left off. |
| IniParse.CommentBlankHeaderSample | EasySharpIni/IniIO.cs:43-77 | `; comment`, a blank line, `[S]` and `k=v` give one section named `S]` holding `k` = `v`, and no globals. |
| IniParse.MalformedLineSample | EasySharpIni/IniIO.cs:61-63 | A line without `=` adds nothing. A later `k=v` still lands in the globals. |
| IniRender.CompareFieldKeys | EasySharpIni/IniIO.cs:167-175 | Zero exactly when the keys are equal. Negative exactly when the first key sorts first, positive exactly when it sorts after. |
| IniRender.CompareSections | EasySharpIni/IniIO.cs:177-185 | The same for section names. |
| Text.CompareOrdinal | EasySharpIni/IniIO.cs:173 | The ordinal comparison that stands in for `CompareTo` is a total order: zero exactly on equal strings, and the sign follows `OrdinalLess`. |
| Text.OrdinalLessTransitive | EasySharpIni/IniIO.cs:173 | The order used by the comparers is transitive. |
| IniRender.InsertByKey | EasySharpIni/IniIO.cs:90 | One insertion step of the set the `SortedSet` constructor builds: the set grows by at most one element, and is not empty afterwards. |
| IniRender.SortedByKey | EasySharpIni/IniIO.cs:90 | The `SortedSet` built from a list has at most as many elements as the list, and is empty only when the list is. |
| IniRender.Separator | EasySharpIni/IniIO.cs:82 | The separator is `" = "` exactly when `KeyValueWhitespace` is set, and `"="` exactly when it is not. |
| IniRender.FieldLine | EasySharpIni/IniIO.cs:94 | A field line is as long as the key, the separator and the raw value together. |
| IniRender.GlobalLines | EasySharpIni/IniIO.cs:87-106 | The global block is one line per field in write order. It is followed by one blank line exactly when `NewLineAfterSection` is set and at least one field was written. |
| IniRender.SectionLines | EasySharpIni/IniIO.cs:139-160 | A section block is the `[name]` line, then one line per field in write order, then a blank line exactly when `NewLineAfterSection` is set. |
| IniRender.InsertByKeyPresent | EasySharpIni/IniIO.cs:90 | In the `SortedSet` constructor, inserting an element whose key is already in the set leaves the set as it was. |
| IniRender.SortedByKeyFacts | EasySharpIni/IniIO.cs:88-96 | The `SortedSet` holds elements of the list only, in strictly ascending key order. |
| IniRender.SortedByKeyPermutation | EasySharpIni/IniIO.cs:88-96 | When the keys are unique, the `SortedSet` is a permutation of the list, so no field is lost. |
| IniRender.FieldOrderFacts | EasySharpIni/IniIO.cs:88-103 | Without `AlphabeticalFields`, fields are written in insertion order. With it, they are written in ascending key order, and every field of a list with unique keys appears exactly once. |
| IniRender.SectionOrderFacts | EasySharpIni/IniIO.cs:109-139 | Without `AlphabeticalSections`, sections are written in insertion order. With it, they are written in ascending name order, each exactly once when names are unique. |
| IniRender.Render | EasySharpIni/IniIO.cs:163 | The exported text has no whitespace at either end. |
| IniRender.DefaultRendering | EasySharpIni/IniIO.cs:82-105 | Under `Default`: the separator is `" = "`, sections and fields keep insertion order, and every section ends with a blank line. |
| IniExportOptions.OptionsAreIndependent | EasySharpIni/IniExportOptions.cs:3-21 | The four options are distinct single bits. Setting or clearing one leaves `HasFlag` of every other unchanged. |
| IniExportOptions.DefaultOptions | EasySharpIni/IniExportOptions.cs:22 | `Default` is the bitwise or of `KeyValueWhitespace` and `NewLineAfterSection` (3). It holds neither alphabetical flag. |
| Text.Trim | EasySharpIni/IniIO.cs:65-66 | The result has no whitespace at either end and is no longer than the input. It is empty exactly when the input is all whitespace. |
| Text.SplitLines | EasySharpIni/IniIO.cs:18 | No line that `File.ReadAllLines` returns contains a line feed. |
| Text.SplitUnlines | EasySharpIni/IniIO.cs:18 | Splitting text written line by line, as `File.ReadAllLines` does, gives the lines back. |
| IniRoundTrip.RenderedGlobals | EasySharpIni/IniIO.cs:99-163 | For a document with only plain global fields, the text is the field lines with the last one right-trimmed. |
| IniRoundTrip.ReadBackLines | EasySharpIni/IniIO.cs:46-66 | That text splits into one line per field, and each line classifies as that field's key and value. |
| IniRoundTrip.GlobalRoundTrip | EasySharpIni/IniIO.cs:43-164 | Reading back the text of a global-only document gives its fields, in the order written and with empty defaults. The document needs unique keys, keys without `=` that do not start with `;` or `[`, keys and values without surrounding whitespace, no line feed or carriage return in any key or value, and no key starting with U+FEFF. Without `AlphabeticalFields` that order is insertion order. |
| IniRoundTrip.HeaderKeepsClosingBracket | EasySharpIni/IniIO.cs:55 | A written header `[name]` reads back as the section `name]`, so documents with sections do not round-trip. |

## Left out

- File-system access: the disk is a map parameter. `File.Exists`,
  `File.ReadAllLines` and `File.WriteAllText` become map membership, a
  line-feed split and a map update. The byte-order mark handling of the
  UTF-8 encoding is not modelled: `File.ReadAllLines` drops a leading
  U+FEFF, so `IniRoundTrip.PlainKey` excludes keys that start with it.
- EasySharpIni.IniFile.Write: exceptions from the file system are not
  modelled; the disk map always accepts the write. In C# a throwing
  `File.WriteAllText` leaves `Path` set to `pathOverride`, because there is
  no `try`/`finally` around the call.
- EasySharpIni.ParseFile: a throwing `File.ReadAllLines` (for example, the
  file vanishes after `File.Exists`) is not modelled. The same applies to
  `IniFile.Parse`.
- IniParse.Classify: `StartsWith(";")`, `StartsWith("[")` and `EndsWith("]")`
  are modelled as ordinal tests of the first and last character. .NET's
  string overloads compare under the current culture and ignore zero-weight
  characters, so a line such as `U+00AD;x` counts as a comment there and
  not here.
- IniExportOptions.HasFlag: its contract is stated through
  `OptionsAreIndependent` and `DefaultOptions`, not on the function itself.
- The async variants `ParseAsync`, `WriteAsync` (in `IniFile` and `IniIO`):
  they do the same as the synchronous ones, plus concurrency.
- Carriage returns: `File.ReadAllLines` also splits at `\r\n` and `\r`, and
  `AppendLine` writes `Environment.NewLine`. The model uses `\n` only.
- `string.CompareTo` is culture-sensitive. The comparers use ordinal
  (code point) order instead, a fixed total order.
- Comparer calls with a null argument return 0. That branch is not modelled,
  since the lists never hold null.
- Null strings: `string.IsNullOrEmpty` becomes a test for `""`. A missing
  `value` is `Option.None`.
- `SortedSet` is modelled by its in-order contents, built by ordered
  insertion that drops an element whose key compares equal. Its tree is not
  modelled.
- PrimitiveConverters.cs: the .NET `TryParse` and number formatting it
  wraps are not modelled. A converter is a parameter made of a parse
  function, a default value and a format function. `GetDefaultName` is not
  used by the core.
- The implicit conversion of an `IniField` to `string` is not modelled: it
  only calls `ToString`.
- The benchmark project and the example console program are not part of
  this model.
- The single C# `IniField` constructor with an optional section name is
  modelled as `IniField.constructor` (no section) and `IniField.InSection`.
  `NewFieldInSection` performs the `GetSection` side effect first.
- EasySharpIni.ReadFile: its statement about the resulting document assumes
  that no section object is listed twice in the file. `CreateSection` with an
  explicit section object can break that, and then a pair line would change
  two list positions at once. The same applies to `ParseFile` and
  `IniFile.Parse`.
- EasySharpIni.IniFile.Parse: the statement about the resulting document
  assumes that no section object is listed twice in the file, as for
  `ReadFile`.
- EasySharpIni.ParseFile: the statement about the resulting document
  assumes that no section object is listed twice in the file, as for
  `ReadFile`.
- EasySharpIni.IniFile.CreateSection: the new document view is stated only
  when no section object is passed in. A passed-in object may already hold
  fields or appear elsewhere.
- EasySharpIni.ExportToText: stated through the document as it was on
  entry. It changes nothing, so that is also the document on exit. The same
  applies to `WriteFile`, `IniFile.Write` and `IniFile.ToString`.
- IniRoundTrip.GlobalRoundTrip: proved for documents with global fields only,
  since a header reads back with its closing bracket attached. The defaults
  are not written out, so they come back empty.
