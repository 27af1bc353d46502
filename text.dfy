/**
 * The .NET string, character and number helpers the core relies on, restricted to ASCII:
 * `char.IsLetter`, `char.IsDigit`, `char.IsWhiteSpace`, `string.IsNullOrWhiteSpace`,
 * `Trim`, `IndexOf`, ordinal case-insensitive comparison, `int.TryParse` on a digit
 * string, and the decimal rendering of `{i}` / `{i:D3}` / `yyyy` in format strings.
 */
module Text {
  import opened Nullable

  /** `int.MaxValue`. */
  const MaxInt32: int := 0x7FFF_FFFF

  predicate IsLetter(c: char) {
    'A' <= c <= 'Z' || 'a' <= c <= 'z'
  }

  predicate IsDigit(c: char) {
    '0' <= c <= '9'
  }

  predicate IsWhiteSpace(c: char) {
    c == ' ' || c == '\t' || c == '\n' || c == '\U{000B}' || c == '\U{000C}' || c == '\r'
  }

  /** `string.IsNullOrWhiteSpace`; a null string is modelled as the empty one. */
  predicate IsBlank(s: string) {
    forall i | 0 <= i < |s| :: IsWhiteSpace(s[i])
  }

  predicate AllDigits(s: string) {
    forall i | 0 <= i < |s| :: IsDigit(s[i])
  }

  // ---------------------------------------------------------------------------
  // Ordinal case-insensitive comparison (StringComparison.OrdinalIgnoreCase)

  function ToUpper(c: char): (u: char)
    ensures IsLetter(c) <==> IsLetter(u)
    ensures !('a' <= c <= 'z') ==> u == c
  {
    if 'a' <= c <= 'z' then (c as int - 32) as char else c
  }

  /** Equal up to the case of ASCII letters, character by character. */
  predicate EqualsIgnoreCase(a: string, b: string) {
    |a| == |b| && (|a| == 0 || (ToUpper(a[0]) == ToUpper(b[0]) && EqualsIgnoreCase(a[1..], b[1..])))
  }

  /** Every string equals itself ignoring case. */
  lemma {:induction false} EqualsIgnoreCaseReflexive(s: string)
    ensures EqualsIgnoreCase(s, s)
  {
    if |s| > 0 {
      EqualsIgnoreCaseReflexive(s[1..]);
    }
  }

  /** Ignoring case, two strings are equal exactly when their upper-cased characters are. */
  lemma {:induction false} EqualsIgnoreCaseIff(a: string, b: string)
    ensures EqualsIgnoreCase(a, b) <==> |a| == |b| && forall i | 0 <= i < |a| :: ToUpper(a[i]) == ToUpper(b[i])
  {
    if |a| > 0 && |a| == |b| {
      EqualsIgnoreCaseIff(a[1..], b[1..]);
      assert forall i | 1 <= i < |a| :: a[1..][i - 1] == a[i] && b[1..][i - 1] == b[i];
    }
  }

  /** `s.StartsWith(prefix, StringComparison.OrdinalIgnoreCase)`. */
  predicate StartsWithIgnoreCase(s: string, prefix: string) {
    |prefix| <= |s| && EqualsIgnoreCase(s[..|prefix|], prefix)
  }

  // ---------------------------------------------------------------------------
  // Searching

  /** `s.IndexOf(c)`: the first position of `c`, or -1. */
  function IndexOf(s: string, c: char): (k: int)
    ensures -1 <= k < |s|
    ensures k >= 0 ==> s[k] == c && c !in s[..k]
    ensures k < 0 <==> c !in s
  {
    if |s| == 0 then -1
    else if s[0] == c then 0
    else
      var k := IndexOf(s[1..], c);
      assert s == [s[0]] + s[1..];
      if k < 0 then -1
      else
        assert s[..k + 1] == [s[0]] + s[1..][..k];
        k + 1
  }

  /** `s.LastIndexOf(c)`: the last position of `c`, or -1. */
  function LastIndexOf(s: string, c: char): (k: int)
    ensures -1 <= k < |s|
  {
    if |s| == 0 then -1
    else if s[|s| - 1] == c then |s| - 1
    else LastIndexOf(s[..|s| - 1], c)
  }

  /** `LastIndexOf` finds the last occurrence, and -1 exactly when there is none. */
  lemma {:induction false} LastIndexOfFacts(s: string, c: char)
    ensures var k := LastIndexOf(s, c);
      && (k >= 0 ==> s[k] == c && c !in s[k + 1..])
      && (k < 0 <==> c !in s)
  {
    if |s| > 0 && s[|s| - 1] != c {
      var p := s[..|s| - 1];
      LastIndexOfFacts(p, c);
      assert s == p + [s[|s| - 1]];
      var k := LastIndexOf(p, c);
      if k >= 0 {
        assert s[k + 1..] == p[k + 1..] + [s[|s| - 1]];
      }
    }
  }

  /** A position holding `c` with no `c` after it is the last position of `c`. */
  lemma LastIndexOfIs(s: string, c: char, k: nat)
    requires k < |s| && s[k] == c && c !in s[k + 1..]
    ensures LastIndexOf(s, c) == k
  {
    LastIndexOfFacts(s, c);
    var l := LastIndexOf(s, c);
    assert c in s by { assert s[k] == c; }
  }

  // ---------------------------------------------------------------------------
  // Trimming

  function TrimStart(s: string): (r: string)
    ensures |r| <= |s| && r == s[|s| - |r|..]
    ensures IsBlank(s[..|s| - |r|])
    ensures r == [] || !IsWhiteSpace(r[0])
  {
    if |s| > 0 && IsWhiteSpace(s[0]) then
      var r := TrimStart(s[1..]);
      var n := |s| - |r|;
      assert s[n..] == s[1..][n - 1..];
      BlankAfterBlank(s, n);
      r
    else s
  }

  /** A white-space character followed by a blank text is blank. */
  lemma BlankAfterBlank(s: string, n: nat)
    requires 0 < n <= |s| && IsWhiteSpace(s[0]) && IsBlank(s[1..][..n - 1])
    ensures IsBlank(s[..n])
  {
    forall i | 0 <= i < n ensures IsWhiteSpace(s[..n][i]) {
      if i > 0 {
        assert s[..n][i] == s[1..][..n - 1][i - 1];
      }
    }
  }

  /** A blank text followed by a white-space character is blank. */
  lemma BlankBeforeBlank(s: string, n: nat)
    requires n < |s| && IsWhiteSpace(s[|s| - 1]) && IsBlank(s[..|s| - 1][n..])
    ensures IsBlank(s[n..])
  {
    forall i | n <= i < |s| ensures IsWhiteSpace(s[i]) {
      if i < |s| - 1 {
        assert s[i] == s[..|s| - 1][n..][i - n];
      }
    }
  }

  function TrimEnd(s: string): (r: string)
    ensures |r| <= |s| && r == s[..|r|]
    ensures IsBlank(s[|r|..])
    ensures r == [] || !IsWhiteSpace(r[|r| - 1])
  {
    if |s| > 0 && IsWhiteSpace(s[|s| - 1]) then
      var r := TrimEnd(s[..|s| - 1]);
      BlankBeforeBlank(s, |r|);
      r
    else s
  }

  /** `s.Trim()`: `s` without its leading and trailing white space. */
  function Trim(s: string): (r: string)
    ensures |r| <= |s|
    ensures r == [] || (!IsWhiteSpace(r[0]) && !IsWhiteSpace(r[|r| - 1]))
  {
    TrimEnd(TrimStart(s))
  }

  /** Trimming keeps exactly the middle of `s` between two white-space runs. */
  lemma TrimIsInfix(s: string)
    ensures exists a, b :: 0 <= a <= b <= |s| && Trim(s) == s[a..b] && IsBlank(s[..a]) && IsBlank(s[b..])
  {
    var t := TrimStart(s);
    var r := TrimEnd(t);
    var a, b := BlankBetween(s, t, r);
    assert Trim(s) == s[a..b];
  }

  /** A suffix `t` of `s` after blanks, then a prefix `r` of `t` before blanks: `r` is a slice of `s` between blanks. */
  lemma BlankBetween(s: string, t: string, r: string) returns (a: nat, b: nat)
    requires |t| <= |s| && t == s[|s| - |t|..] && IsBlank(s[..|s| - |t|])
    requires |r| <= |t| && r == t[..|r|] && IsBlank(t[|r|..])
    ensures a <= b <= |s| && r == s[a..b] && IsBlank(s[..a]) && IsBlank(s[b..])
  {
    a := |s| - |t|;
    b := a + |r|;
    assert t[|r|..] == s[b..];
  }

  // ---------------------------------------------------------------------------
  // Digits and decimal numbers

  /** `new string(s.Where(char.IsDigit).ToArray())`. */
  function Digits(s: string): (r: string)
    ensures AllDigits(r) && |r| <= |s|
    ensures AllDigits(s) ==> r == s
    ensures forall c :: c in r <==> c in s && IsDigit(c)
  {
    if |s| == 0 then ""
    else
      assert s == [s[0]] + s[1..];
      (if IsDigit(s[0]) then [s[0]] else "") + Digits(s[1..])
  }

  /** `Where` works piece by piece: the digits of a concatenation are the digits of each part, in order. */
  lemma {:induction false} DigitsConcat(a: string, b: string)
    ensures Digits(a + b) == Digits(a) + Digits(b)
  {
    if |a| > 0 {
      assert (a + b)[1..] == a[1..] + b;
      assert (a + b)[0] == a[0];
      DigitsConcat(a[1..], b);
    } else {
      assert a + b == b;
    }
  }

  /** A single character is kept exactly when it is a digit. */
  lemma DigitsOne(c: char)
    ensures Digits([c]) == if IsDigit(c) then [c] else []
  {
    assert [c][1..] == [];
  }

  function DigitValue(c: char): nat
    requires IsDigit(c)
  {
    c as int - '0' as int
  }

  function DigitChar(d: nat): (c: char)
    requires d < 10
    ensures IsDigit(c) && DigitValue(c) == d
  {
    ('0' as int + d) as char
  }

  /** The value of a string of decimal digits (leading zeros allowed, no bound). */
  function DecimalValue(s: string): nat
    requires AllDigits(s)
  {
    if |s| == 0 then 0 else DecimalValue(s[..|s| - 1]) * 10 + DigitValue(s[|s| - 1])
  }

  /** `int.TryParse` applied to a string of digits: fails on the empty string and on overflow. */
  function TryParseInt32(s: string): (r: Option<int>)
    requires AllDigits(s)
    ensures r.Some? <==> |s| > 0 && DecimalValue(s) <= MaxInt32
    ensures r.Some? ==> 0 <= r.value <= MaxInt32 && r.value == DecimalValue(s)
  {
    if |s| > 0 && DecimalValue(s) <= MaxInt32 then Some(DecimalValue(s)) else None
  }

  /** The shortest decimal rendering of `n` (`n.ToString()` for `n >= 0`). */
  function NatToDecimal(n: nat): (r: string)
    ensures AllDigits(r) && |r| >= 1
    ensures |r| > 1 ==> r[0] != '0'
  {
    if n < 10 then [DigitChar(n)] else NatToDecimal(n / 10) + [DigitChar(n % 10)]
  }

  function Pow10(w: nat): (p: nat)
    ensures p >= 1
  {
    if w == 0 then 1 else 10 * Pow10(w - 1)
  }

  function Zeros(k: nat): (z: string)
    ensures |z| == k && AllDigits(z)
  {
    seq(k, _ => '0')
  }

  /** `n.ToString("D" + width)`: the decimal rendering left-padded with zeros to `width`. */
  function ZeroPad(n: nat, width: nat): (r: string)
    ensures AllDigits(r)
    ensures |r| >= width && |r| >= |NatToDecimal(n)|
    ensures r[|r| - |NatToDecimal(n)|..] == NatToDecimal(n)
    ensures IsBlank(r) == false
  {
    var d := NatToDecimal(n);
    var r := if |d| < width then Zeros(width - |d|) + d else d;
    assert !IsWhiteSpace(r[0]);
    r
  }

  lemma {:induction false} DecimalRoundTrip(n: nat)
    ensures DecimalValue(NatToDecimal(n)) == n
  {
    if n >= 10 {
      var s := NatToDecimal(n);
      assert s[..|s| - 1] == NatToDecimal(n / 10);
      DecimalRoundTrip(n / 10);
    }
  }

  /** Distinct numbers have distinct renderings. */
  lemma NatToDecimalInjective(m: nat, n: nat)
    requires NatToDecimal(m) == NatToDecimal(n)
    ensures m == n
  {
    DecimalRoundTrip(m);
    DecimalRoundTrip(n);
  }

  lemma {:induction false} LeadingZerosValue(k: nat, s: string)
    requires AllDigits(s)
    ensures DecimalValue(Zeros(k) + s) == DecimalValue(s)
    decreases |s|, k
  {
    if |s| == 0 {
      assert Zeros(k) + s == Zeros(k);
      if k > 0 {
        assert Zeros(k)[..k - 1] == Zeros(k - 1);
        LeadingZerosValue(k - 1, s);
        assert Zeros(k - 1) + s == Zeros(k - 1);
      }
    } else {
      var t := Zeros(k) + s;
      assert t[..|t| - 1] == Zeros(k) + s[..|s| - 1];
      LeadingZerosValue(k, s[..|s| - 1]);
    }
  }

  /** A zero-padded rendering reads back as the number it renders. */
  lemma ZeroPadRoundTrip(n: nat, width: nat)
    ensures DecimalValue(ZeroPad(n, width)) == n
  {
    DecimalRoundTrip(n);
    var d := NatToDecimal(n);
    var z := ZeroPad(n, width);
    if |d| < width {
      assert z == Zeros(width - |d|) + d;
      PaddedValue(z, width - |d|, d);
    } else {
      assert z == d;
    }
  }

  lemma PaddedValue(z: string, k: nat, d: string)
    requires AllDigits(d) && z == Zeros(k) + d
    ensures AllDigits(z) && DecimalValue(z) == DecimalValue(d)
  {
    LeadingZerosValue(k, d);
  }

  lemma {:induction false} DecimalLength(n: nat, w: nat)
    requires 1 <= w && n < Pow10(w)
    ensures |NatToDecimal(n)| <= w
  {
    if n >= 10 {
      assert n / 10 < Pow10(w - 1);
      DecimalLength(n / 10, w - 1);
    }
  }

  /** A number below `10^width` is rendered in exactly `width` characters. */
  lemma ZeroPadWidth(n: nat, width: nat)
    requires 1 <= width && n < Pow10(width)
    ensures |ZeroPad(n, width)| == width
  {
    DecimalLength(n, width);
  }

  // ---------------------------------------------------------------------------
  // Splitting and joining on one separator character

  /** `s.Split(sep)`: the pieces between the occurrences of `sep`, in order. */
  function Split(s: string, sep: char): (parts: seq<string>)
    ensures |parts| >= 1
    ensures |parts| > 1 <==> sep in s
    decreases |s|
  {
    var k := IndexOf(s, sep);
    if k < 0 then [s] else [s[..k]] + Split(s[k + 1..], sep)
  }

  /** No piece of a split contains the separator. */
  lemma {:induction false} SplitPieces(s: string, sep: char)
    ensures forall i | 0 <= i < |Split(s, sep)| :: sep !in Split(s, sep)[i]
    decreases |s|
  {
    var k := IndexOf(s, sep);
    if k >= 0 {
      SplitPieces(s[k + 1..], sep);
    }
  }

  /** `string.Join(sep, parts)`. */
  function Join(parts: seq<string>, sep: char): string {
    if |parts| == 0 then ""
    else if |parts| == 1 then parts[0]
    else parts[0] + [sep] + Join(parts[1..], sep)
  }

  /** The second piece of a split is the text between the first and the second `sep`. */
  lemma SplitSecond(s: string, sep: char)
    requires sep in s
    ensures var rest := s[IndexOf(s, sep) + 1..];
      Split(s, sep)[1] == if sep in rest then rest[..IndexOf(rest, sep)] else rest
  {
  }

  lemma {:induction false} SplitThenJoin(s: string, sep: char)
    ensures Join(Split(s, sep), sep) == s
    decreases |s|
  {
    var k := IndexOf(s, sep);
    if k >= 0 {
      SplitThenJoin(s[k + 1..], sep);
      assert s == s[..k] + [sep] + s[k + 1..];
    }
  }

  lemma {:induction false} JoinThenSplit(parts: seq<string>, sep: char)
    requires |parts| >= 1
    requires forall i | 0 <= i < |parts| :: sep !in parts[i]
    ensures Split(Join(parts, sep), sep) == parts
  {
    if |parts| > 1 {
      var rest := Join(parts[1..], sep);
      SplitAtFirst(parts[0], sep, rest);
      JoinThenSplit(parts[1..], sep);
    } else {
      assert sep !in parts[0];
    }
  }

  /** Splitting a piece free of `sep`, then `sep`, then the rest: the piece, then the pieces of the rest. */
  lemma SplitAtFirst(p: string, sep: char, rest: string)
    requires sep !in p
    ensures Split(p + [sep] + rest, sep) == [p] + Split(rest, sep)
  {
    var s := p + [sep] + rest;
    assert s[|p|] == sep && s[..|p|] == p;
    IndexOfIs(s, sep, |p|);
    assert s[|p| + 1..] == rest;
  }

  /** `IndexOf` finds the first occurrence. */
  lemma IndexOfIs(s: string, c: char, k: nat)
    requires k < |s| && s[k] == c && c !in s[..k]
    ensures IndexOf(s, c) == k
  {
  }
}
