/** String helpers standing in for the .NET members the library calls:
    `Trim`, `char.IsWhiteSpace`, `IndexOf(char)`, `StringBuilder.AppendLine`
    followed by `File.ReadAllLines`, and the ordering behind
    `string.CompareTo`. `StartsWith(";")`, `StartsWith("[")` and
    `EndsWith("]")` are modelled as ordinal tests of the first or last
    character; the .NET string overloads compare under the current culture,
    which ignores zero-weight characters such as a soft hyphen. */
module Text {
  import opened Wrappers
  import opened Lists

  /** The newline `AppendLine` writes; fixed to a line feed in this model. */
  const NewLine: string := "\n"

  /** The characters `char.IsWhiteSpace` accepts: the Unicode space
      separators, the line and paragraph separators, U+0009 to U+000D,
      U+0085 and U+00A0. */
  predicate IsWhitespace(c: char) {
    c == ' ' || ('\t' <= c <= '\r') || c == '\U{85}' || c == '\U{A0}' || c == '\U{1680}'
    || ('\U{2000}' <= c <= '\U{200A}') || c == '\U{2028}' || c == '\U{2029}'
    || c == '\U{202F}' || c == '\U{205F}' || c == '\U{3000}'
  }

  predicate AllWhitespace(s: string) {
    forall i :: 0 <= i < |s| ==> IsWhitespace(s[i])
  }

  /** Neither end of `s` is whitespace: `Trim` leaves it as it is. */
  predicate IsTrimmed(s: string) {
    s == [] || (!IsWhitespace(s[0]) && !IsWhitespace(s[|s| - 1]))
  }

  predicate StartsWith(s: string, c: char) {
    s != [] && s[0] == c
  }

  predicate EndsWith(s: string, c: char) {
    s != [] && s[|s| - 1] == c
  }

  /** Where the run of whitespace starting at `from` ends. */
  function LeadingEnd(s: string, from: nat): (r: nat)
    requires from <= |s|
    ensures from <= r <= |s|
    ensures forall j :: from <= j < r ==> IsWhitespace(s[j])
    ensures r < |s| ==> !IsWhitespace(s[r])
    decreases |s| - from
  {
    if from < |s| && IsWhitespace(s[from]) then LeadingEnd(s, from + 1) else from
  }

  /** Where the run of whitespace ending at `upTo` starts. */
  function TrailingStart(s: string, upTo: nat): (r: nat)
    requires upTo <= |s|
    ensures r <= upTo
    ensures forall j :: r <= j < upTo ==> IsWhitespace(s[j])
    ensures 0 < r ==> !IsWhitespace(s[r - 1])
    decreases upTo
  {
    if 0 < upTo && IsWhitespace(s[upTo - 1]) then TrailingStart(s, upTo - 1) else upTo
  }

  /** The ensures of `LeadingEnd` pin its result down. */
  lemma LeadingEndIs(s: string, from: nat, n: nat)
    requires from <= n <= |s|
    requires forall j :: from <= j < n ==> IsWhitespace(s[j])
    requires n < |s| ==> !IsWhitespace(s[n])
    ensures LeadingEnd(s, from) == n
  {
  }

  /** The ensures of `TrailingStart` pin its result down. */
  lemma TrailingStartIs(s: string, upTo: nat, n: nat)
    requires n <= upTo <= |s|
    requires forall j :: n <= j < upTo ==> IsWhitespace(s[j])
    requires 0 < n ==> !IsWhitespace(s[n - 1])
    ensures TrailingStart(s, upTo) == n
  {
  }

  /** `s` with its leading whitespace removed. */
  function TrimStart(s: string): (r: string)
    ensures |r| <= |s| && r == s[|s| - |r|..]
    ensures AllWhitespace(s[..|s| - |r|])
    ensures r == [] || !IsWhitespace(r[0])
  {
    s[LeadingEnd(s, 0)..]
  }

  /** `s` with its trailing whitespace removed. */
  function TrimEnd(s: string): (r: string)
    ensures |r| <= |s| && r == s[..|r|]
    ensures AllWhitespace(s[|r|..])
    ensures r == [] || !IsWhitespace(r[|r| - 1])
  {
    s[..TrailingStart(s, |s|)]
  }

  /** `string.Trim()`: whitespace removed from both ends. The result is a
      slice of `s`, is trimmed, and is empty exactly when `s` is all
      whitespace. */
  function Trim(s: string): (r: string)
    ensures IsTrimmed(r)
    ensures |r| <= |s|
    ensures r == [] <==> AllWhitespace(s)
  {
    var a := LeadingEnd(s, 0);
    var t := s[a..];
    var r := TrimEnd(t);
    assert r == [] <==> AllWhitespace(s) by {
      if a < |s| {
        assert t[0] == s[a];
        assert !IsWhitespace(s[a]);
      } else {
        assert t == [];
      }
    }
    r
  }

  lemma AllWhitespaceConcat(a: string, b: string)
    ensures AllWhitespace(a + b) <==> AllWhitespace(a) && AllWhitespace(b)
  {
    assert forall i :: 0 <= i < |a| ==> a[i] == (a + b)[i];
    assert forall i :: 0 <= i < |b| ==> b[i] == (a + b)[|a| + i];
  }

  /** The slice `Trim` returns starts where the leading whitespace ends. */
  lemma TrimIsSlice(s: string)
    ensures var a := |s| - |TrimStart(s)|;
            a + |Trim(s)| <= |s| && Trim(s) == s[a..a + |Trim(s)|]
            && AllWhitespace(s[..a]) && AllWhitespace(s[a + |Trim(s)|..])
  {
    var t := TrimStart(s);
    var a := |s| - |t|;
    var r := Trim(s);
    assert r == TrimEnd(t);
    assert s[a + |r|..] == t[|r|..];
  }
  /** Trimming adds no character: one absent from `s` is absent from the
      result. */
  lemma TrimOmits(s: string, c: char)
    requires c !in s
    ensures c !in Trim(s)
  {
    TrimIsSlice(s);
    var a := |s| - |TrimStart(s)|;
    forall k | 0 <= k < |Trim(s)| ensures Trim(s)[k] != c {
      assert Trim(s)[k] == s[a + k];
    }
  }


  /** A string that is already trimmed is its own `Trim`. */
  lemma TrimmedIsFixed(s: string)
    requires IsTrimmed(s)
    ensures Trim(s) == s
  {
    LeadingEndIs(s, 0, 0);
    TrailingStartIs(s, |s|, |s|);
    assert s[0..] == s;
  }

  /** Leading whitespace does not change what `TrimStart` returns. */
  lemma TrimStartSkipsWhitespace(a: string, v: string)
    requires AllWhitespace(a)
    ensures TrimStart(a + v) == TrimStart(v)
  {
    var n := LeadingEnd(v, 0);
    var s := a + v;
    forall j | 0 <= j < |a| + n ensures IsWhitespace(s[j]) {
      if j < |a| {
        assert s[j] == a[j];
      } else {
        assert s[j] == v[j - |a|];
      }
    }
    if |a| + n < |s| {
      assert s[|a| + n] == v[n];
    }
    LeadingEndIs(s, 0, |a| + n);
    assert s[|a| + n..] == v[n..];
  }

  /** Trailing whitespace does not change what `TrimEnd` returns. */
  lemma TrimEndSkipsWhitespace(x: string, y: string)
    requires AllWhitespace(y)
    ensures TrimEnd(x + y) == TrimEnd(x)
  {
    var n := TrailingStart(x, |x|);
    var s := x + y;
    forall j | n <= j < |s| ensures IsWhitespace(s[j]) {
      if j < |x| {
        assert s[j] == x[j];
      } else {
        assert s[j] == y[j - |x|];
      }
    }
    if 0 < n {
      assert s[n - 1] == x[n - 1];
    }
    TrailingStartIs(s, |s|, n);
    assert s[..n] == x[..n];
  }

  /** When `y` has a non-whitespace character, `TrimEnd` never reaches `x`. */
  lemma TrimEndStopsInSuffix(x: string, y: string)
    requires !AllWhitespace(y)
    ensures TrimEnd(x + y) == x + TrimEnd(y)
  {
    var m := TrailingStart(y, |y|);
    assert 0 < m;
    var s := x + y;
    var n := |x| + m;
    forall j | n <= j < |s| ensures IsWhitespace(s[j]) {
      assert s[j] == y[j - |x|];
    }
    assert s[n - 1] == y[m - 1];
    TrailingStartIs(s, |s|, n);
    assert s[..n] == x + y[..m];
  }

  /** Whitespace followed by a trimmed string trims to that string. */
  lemma TrimAfterWhitespace(b: string, v: string)
    requires AllWhitespace(b) && IsTrimmed(v)
    ensures Trim(b + v) == v
  {
    TrimStartSkipsWhitespace(b, v);
    TrimmedIsFixed(v);
  }

  /** The text `AppendLine` builds: every line followed by a newline. */
  function Unlines(ls: seq<string>): (r: string)
    ensures |r| >= |ls|
  {
    if ls == [] then "" else ls[0] + NewLine + Unlines(ls[1..])
  }

  lemma {:induction false} UnlinesAppend(a: seq<string>, b: seq<string>)
    ensures Unlines(a + b) == Unlines(a) + Unlines(b)
  {
    if a != [] {
      assert (a + b)[1..] == a[1..] + b;
      UnlinesAppend(a[1..], b);
    } else {
      assert a + b == b;
    }
  }

  predicate NoNewline(s: string) {
    '\n' !in s
  }

  /** `File.ReadAllLines` for line-feed terminated text: the text split at
      each newline, where a newline at the very end does not open another,
      empty, line. */
  function SplitLines(s: string): (r: seq<string>)
    ensures forall i :: 0 <= i < |r| ==> NoNewline(r[i])
    decreases |s|
  {
    if s == [] then []
    else
      var found := FirstIndex(s, '\n');
      if found.None? then [s]
      else [s[..found.value]] + SplitLines(s[found.value + 1..])
  }

  /** A line without newlines, then a newline: the first line of the split. */
  lemma SplitFirstLine(l: string, rest: string)
    requires NoNewline(l)
    ensures SplitLines(l + NewLine + rest) == [l] + SplitLines(rest)
  {
    var s := l + NewLine + rest;
    assert s[|l|] == '\n';
    assert forall j :: 0 <= j < |l| ==> s[j] == l[j];
    FirstIndexIs(s, '\n', |l|);
    assert s[..|l|] == l;
    assert s[|l| + 1..] == rest;
  }

  /** Splitting text built by `Unlines`, possibly followed by an unterminated
      last line, gives the lines back. */
  lemma {:induction false} SplitUnlines(ls: seq<string>, x: string)
    requires forall i :: 0 <= i < |ls| ==> NoNewline(ls[i])
    requires NoNewline(x)
    ensures SplitLines(Unlines(ls) + x) == ls + (if x == [] then [] else [x])
  {
    if ls == [] {
      assert Unlines(ls) + x == x;
    } else {
      assert Unlines(ls) + x == ls[0] + NewLine + (Unlines(ls[1..]) + x);
      SplitFirstLine(ls[0], Unlines(ls[1..]) + x);
      SplitUnlines(ls[1..], x);
      assert ls == [ls[0]] + ls[1..];
    }
  }

  /** Ordinal (code point by code point) lexicographic order on strings, the
      fixed total order that stands in for `string.CompareTo`. */
  predicate OrdinalLess(a: string, b: string)
    decreases |a|
  {
    if a == [] then b != []
    else b != [] && (a[0] < b[0] || (a[0] == b[0] && OrdinalLess(a[1..], b[1..])))
  }

  lemma {:induction false} OrdinalLessIrreflexive(a: string)
    ensures !OrdinalLess(a, a)
  {
    if a != [] {
      OrdinalLessIrreflexive(a[1..]);
    }
  }

  lemma {:induction false} OrdinalLessAsymmetric(a: string, b: string)
    requires OrdinalLess(a, b)
    ensures !OrdinalLess(b, a)
  {
    if a != [] && b != [] && a[0] == b[0] {
      OrdinalLessAsymmetric(a[1..], b[1..]);
    }
  }

  lemma {:induction false} OrdinalLessTransitive(a: string, b: string, c: string)
    requires OrdinalLess(a, b) && OrdinalLess(b, c)
    ensures OrdinalLess(a, c)
  {
    if a != [] && a[0] == b[0] && b[0] == c[0] {
      OrdinalLessTransitive(a[1..], b[1..], c[1..]);
    }
  }

  lemma {:induction false} OrdinalLessTotal(a: string, b: string)
    requires a != b
    ensures OrdinalLess(a, b) || OrdinalLess(b, a)
  {
    if a != [] && b != [] && a[0] == b[0] {
      assert a == [a[0]] + a[1..] && b == [b[0]] + b[1..];
      OrdinalLessTotal(a[1..], b[1..]);
    }
  }

  /** `string.CompareTo` as an ordinal comparison: negative, zero or
      positive as `a` sorts before, equal to, or after `b`. */
  function CompareOrdinal(a: string, b: string): (r: int)
    ensures r == 0 <==> a == b
    ensures r < 0 <==> OrdinalLess(a, b)
    ensures r > 0 <==> OrdinalLess(b, a)
  {
    OrdinalLessIrreflexive(a);
    if OrdinalLess(a, b) then
      OrdinalLessAsymmetric(a, b);
      -1
    else if a == b then 0
    else
      OrdinalLessTotal(a, b);
      1
  }
}
