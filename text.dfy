/**
 * The .NET string primitives the services rely on: `char.IsWhiteSpace`,
 * `string.IsNullOrWhiteSpace`, `string.Trim`, `ToLowerInvariant` (restricted to
 * ASCII letters) and the ordinal ordering used to sort SKUs.
 */
module Text {
  import opened Wrappers

  /** The characters for which `char.IsWhiteSpace` holds (Unicode Zs, Zl, Zp and the C0/C1 controls it names). */
  predicate IsWhiteSpace(c: char) {
    c == ' ' || ('\t' <= c <= '\r') || c == '\U{85}' || c == '\U{A0}' || c == '\U{1680}'
    || ('\U{2000}' <= c <= '\U{200A}') || c == '\U{2028}' || c == '\U{2029}'
    || c == '\U{202F}' || c == '\U{205F}' || c == '\U{3000}'
  }

  /** True when every character is white space; in particular for the empty string. */
  predicate AllWhiteSpace(s: string) {
    forall i | 0 <= i < |s| :: IsWhiteSpace(s[i])
  }

  /** `string.IsNullOrWhiteSpace`, with `None` standing for null. */
  predicate IsNullOrWhiteSpace(s: Option<string>) {
    s.None? || AllWhiteSpace(s.value)
  }

  /** The fallback rule used for every optional text field: a blank value is replaced by `fallback`. */
  function OrDefault(s: Option<string>, fallback: string): (r: string)
    ensures IsNullOrWhiteSpace(s) ==> r == fallback
    ensures !IsNullOrWhiteSpace(s) ==> Some(r) == s && !AllWhiteSpace(r)
  {
    if IsNullOrWhiteSpace(s) then fallback else s.value
  }

  predicate IsUpper(c: char) {
    'A' <= c <= 'Z'
  }

  /** The letters `ToLowerInvariant` folds, restricted to ASCII. */
  function LowerChar(c: char): char {
    if IsUpper(c) then (c as int + 32) as char else c
  }

  /** `ToLowerInvariant` over ASCII letters. */
  function Lower(s: string): string {
    seq(|s|, i requires 0 <= i < |s| => LowerChar(s[i]))
  }

  /** A canonical (lower-case) identifier holds no upper-case letter. */
  predicate NoUpper(s: string) {
    forall i | 0 <= i < |s| :: !IsUpper(s[i])
  }

  /** Lower-casing keeps the length, removes every upper-case letter and touches no other character. */
  lemma LowerIsCanonical(s: string)
    ensures |Lower(s)| == |s|
    ensures NoUpper(Lower(s))
    ensures forall i | 0 <= i < |s| && !IsUpper(s[i]) :: Lower(s)[i] == s[i]
  {
  }

  /** A string is its own lower-case form exactly when it has no upper-case letter. */
  lemma LowerFixedPoint(s: string)
    ensures Lower(s) == s <==> NoUpper(s)
  {
    if Lower(s) == s {
      forall i | 0 <= i < |s| ensures !IsUpper(s[i]) {
        assert Lower(s)[i] == s[i];
      }
    }
  }

  /** Normalisation is idempotent. */
  lemma LowerIdempotent(s: string)
    ensures Lower(Lower(s)) == Lower(s)
  {
    LowerIsCanonical(s);
    LowerFixedPoint(Lower(s));
  }

  /** Two strings that differ only in the case of ASCII letters normalise to the same key. */
  predicate SameIgnoringCase(a: string, b: string) {
    Lower(a) == Lower(b)
  }

  /** `TrimStart`: drops the white space at the front. */
  function TrimStart(s: string): (r: string)
    ensures |r| <= |s| && r == s[|s| - |r|..]
    ensures AllWhiteSpace(s[..|s| - |r|])
    ensures r == [] || !IsWhiteSpace(r[0])
  {
    if |s| == 0 || !IsWhiteSpace(s[0]) then s
    else
      var r := TrimStart(s[1..]);
      assert s[..|s| - |r|] == [s[0]] + s[1..][..|s| - 1 - |r|];
      r
  }

  /** `TrimEnd`: drops the white space at the back. */
  function TrimEnd(s: string): (r: string)
    ensures |r| <= |s| && r == s[..|r|]
    ensures AllWhiteSpace(s[|r|..])
    ensures r == [] || !IsWhiteSpace(r[|r| - 1])
  {
    if |s| == 0 || !IsWhiteSpace(s[|s| - 1]) then s
    else
      var r := TrimEnd(s[..|s| - 1]);
      assert s[|r|..] == s[..|s| - 1][|r|..] + [s[|s| - 1]];
      r
  }

  /** `string.Trim`: white space removed at both ends. */
  function Trim(s: string): string {
    TrimEnd(TrimStart(s))
  }

  /** Trimming only cuts: the result is the slice of `s` that starts where `TrimStart` stopped. */
  lemma TrimIsSlice(s: string)
    ensures var k := |s| - |TrimStart(s)|; k + |Trim(s)| <= |s| && Trim(s) == s[k..k + |Trim(s)|]
  {
    var a := TrimStart(s);
    var t := TrimEnd(a);
    var k := |s| - |a|;
    assert a == s[k..];
    assert t == a[..|t|];
  }

  /** Trimming yields the empty string exactly for blank input; otherwise the result starts and
      ends with a character that is not white space. */
  lemma TrimEmptyIffBlank(s: string)
    ensures Trim(s) == [] <==> AllWhiteSpace(s)
    ensures Trim(s) != [] ==> !IsWhiteSpace(Trim(s)[0]) && !IsWhiteSpace(Trim(s)[|Trim(s)| - 1])
  {
    var a := TrimStart(s);
    var t := TrimEnd(a);
    var k := |s| - |a|;
    assert a == s[k..];
    if t == [] {
      assert a[|t|..] == a;
      assert a == [];
      assert s[..k] == s;
    } else {
      assert t == a[..|t|];
      assert t[0] == a[0];
      assert t[0] == s[k];
    }
  }

  /** Ordinal (code-point) lexicographic order on strings. */
  predicate LexLe(a: string, b: string)
    decreases |a|
  {
    |a| == 0 || (|b| > 0 && (a[0] < b[0] || (a[0] == b[0] && LexLe(a[1..], b[1..]))))
  }

  lemma {:induction false} LexLeTotal(a: string, b: string)
    ensures LexLe(a, b) || LexLe(b, a)
    decreases |a|
  {
    if |a| > 0 && |b| > 0 && a[0] == b[0] {
      LexLeTotal(a[1..], b[1..]);
    }
  }

  lemma {:induction false} LexLeTransitive(a: string, b: string, c: string)
    requires LexLe(a, b) && LexLe(b, c)
    ensures LexLe(a, c)
    decreases |a|
  {
    if |a| > 0 && a[0] == b[0] && b[0] == c[0] {
      LexLeTransitive(a[1..], b[1..], c[1..]);
    }
  }
}
