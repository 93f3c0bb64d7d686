/** The `[Flags]` enum `IniExportOptions`: four single-bit options over the
    enum's 32-bit underlying integer, tested with `Enum.HasFlag`. */
module IniExportOptions {

  type ExportOptions = bv32

  /** Write `key = value` instead of `key=value`. */
  const KeyValueWhitespace: ExportOptions := 1
  /** Write a blank line after each section (and after the global block). */
  const NewLineAfterSection: ExportOptions := 2
  /** Write the sections in name order. */
  const AlphabeticalSections: ExportOptions := 4
  /** Write the fields of every scope in key order. */
  const AlphabeticalFields: ExportOptions := 8

  const Default: ExportOptions := KeyValueWhitespace | NewLineAfterSection

  /** `Enum.HasFlag`: every bit of `flag` is set in `options`. */
  predicate HasFlag(options: ExportOptions, flag: ExportOptions) {
    options & flag == flag
  }

  predicate IsOption(flag: ExportOptions) {
    flag == KeyValueWhitespace || flag == NewLineAfterSection
    || flag == AlphabeticalSections || flag == AlphabeticalFields
  }

  /** The four options are distinct single bits, so setting one of them
      never sets or clears another: each is tested independently. */
  lemma OptionsAreIndependent(options: ExportOptions, f: ExportOptions, g: ExportOptions)
    requires IsOption(f) && IsOption(g)
    ensures f & g == (if f == g then f else 0)
    ensures HasFlag(options | f, g) <==> (f == g || HasFlag(options, g))
    ensures HasFlag(options & !f, g) <==> (f != g && HasFlag(options, g))
  {
  }

  /** `Default` is exactly the whitespace separator and the blank lines, and
      keeps insertion order for both sections and fields. */
  lemma DefaultOptions()
    ensures Default == 3
    ensures HasFlag(Default, KeyValueWhitespace) && HasFlag(Default, NewLineAfterSection)
    ensures !HasFlag(Default, AlphabeticalSections) && !HasFlag(Default, AlphabeticalFields)
  {
  }
}
