/**
  ASCII stand-ins for the Python string operations the portal relies on:
  `str.isspace`, `str.isalnum`, `str.isdigit`, `str.lower`, `str.strip`,
  `str.replace(c, '')`, `str.split(maxsplit=1)`, `str(n)`, the `{n:0Wd}`
  format and the ordering `sorted()` uses on strings.
*/
module Text {

  // ---------------------------------------------------------------------------
  // Characters
  // ---------------------------------------------------------------------------

  /** `str.isspace()` on ASCII: space, the controls 0x09-0x0D and the separators 0x1C-0x1F. */
  predicate IsSpace(c: char) {
    c == ' ' || ('\t' <= c <= '\r') || ((28 as char) <= c <= (31 as char))
  }

  predicate IsDigit(c: char) { '0' <= c <= '9' }

  predicate IsAlnum(c: char) { IsDigit(c) || ('a' <= c <= 'z') || ('A' <= c <= 'Z') }

  function LowerChar(c: char): char {
    if 'A' <= c <= 'Z' then (c as int + 32) as char else c
  }

  predicate AllDigits(s: string) {
    forall i :: 0 <= i < |s| ==> IsDigit(s[i])
  }

  predicate AllSpace(s: string) {
    forall i :: 0 <= i < |s| ==> IsSpace(s[i])
  }

  // ---------------------------------------------------------------------------
  // Case, filtering and replacement
  // ---------------------------------------------------------------------------

  /** `s.lower()` restricted to ASCII. */
  function Lower(s: string): (r: string)
    ensures |r| == |s|
    ensures forall i :: 0 <= i < |s| ==> r[i] == LowerChar(s[i])
  {
    seq(|s|, i requires 0 <= i < |s| => LowerChar(s[i]))
  }

  lemma LowerConcat(a: string, b: string)
    ensures Lower(a + b) == Lower(a) + Lower(b)
  {
    assert |Lower(a + b)| == |Lower(a) + Lower(b)|;
    forall i | 0 <= i < |a + b|
      ensures Lower(a + b)[i] == (Lower(a) + Lower(b))[i]
    {
      if i < |a| { assert (a + b)[i] == a[i]; } else { assert (a + b)[i] == b[i - |a|]; }
    }
  }

  /** `''.join(c for c in s if c.isalnum())`. */
  function KeepAlnum(s: string): string {
    if s == [] then [] else (if IsAlnum(s[0]) then [s[0]] else []) + KeepAlnum(s[1..])
  }

  lemma {:induction false} KeepAlnumConcat(a: string, b: string)
    ensures KeepAlnum(a + b) == KeepAlnum(a) + KeepAlnum(b)
  {
    if a != [] {
      assert (a + b)[1..] == a[1..] + b;
      KeepAlnumConcat(a[1..], b);
    } else {
      assert a + b == b;
    }
  }

  /** White space is left alone by `lower()` and dropped by the alphanumeric filter. */
  lemma {:induction false} KeepAlnumOfSpaces(s: string)
    requires AllSpace(s)
    ensures KeepAlnum(Lower(s)) == []
  {
    if s != [] {
      assert Lower(s)[1..] == Lower(s[1..]);
      KeepAlnumOfSpaces(s[1..]);
    }
  }

  /** Every character `KeepAlnum` keeps is alphanumeric. */
  lemma {:induction false} KeepAlnumIsAlnum(s: string)
    ensures forall i :: 0 <= i < |KeepAlnum(s)| ==> IsAlnum(KeepAlnum(s)[i])
  {
    if s != [] { KeepAlnumIsAlnum(s[1..]); }
  }

  /** `s.replace(c, '')`. */
  function RemoveChar(s: string, c: char): (r: string)
    ensures c !in r
    ensures forall x :: x in r ==> x in s
  {
    if s == [] then [] else (if s[0] == c then [] else [s[0]]) + RemoveChar(s[1..], c)
  }

  // ---------------------------------------------------------------------------
  // Stripping and splitting
  // ---------------------------------------------------------------------------

  /** Length of the leading run of white space. */
  function LeadingSpace(s: string): (k: nat)
    ensures k <= |s| && AllSpace(s[..k]) && (k == |s| || !IsSpace(s[k]))
  {
    if s != [] && IsSpace(s[0]) then
      var k := 1 + LeadingSpace(s[1..]);
      assert forall i :: 1 <= i < k ==> s[..k][i] == s[1..][..k - 1][i - 1];
      k
    else 0
  }

  /** Length of `s` without its trailing run of white space. */
  function WithoutTrailingSpace(s: string): (k: nat)
    ensures k <= |s| && AllSpace(s[k..]) && (k == 0 || !IsSpace(s[k - 1]))
  {
    if s != [] && IsSpace(s[|s| - 1]) then
      var k := WithoutTrailingSpace(s[..|s| - 1]);
      assert forall i :: 0 <= i < |s| - 1 - k ==> s[k..][i] == s[..|s| - 1][k..][i];
      k
    else |s|
  }

  /** `s.lstrip()`. */
  function TrimStart(s: string): string {
    if s != [] && IsSpace(s[0]) then TrimStart(s[1..]) else s
  }

  /** `s.rstrip()`. */
  function TrimEnd(s: string): string {
    if s != [] && IsSpace(s[|s| - 1]) then TrimEnd(s[..|s| - 1]) else s
  }

  /** `lstrip` drops exactly the leading run of white space. */
  lemma {:induction false} TrimStartDropsLeading(s: string)
    ensures TrimStart(s) == s[LeadingSpace(s)..]
  {
    if s != [] && IsSpace(s[0]) {
      TrimStartDropsLeading(s[1..]);
    }
  }

  /** `rstrip` drops exactly the trailing run of white space. */
  lemma {:induction false} TrimEndDropsTrailing(s: string)
    ensures TrimEnd(s) == s[..WithoutTrailingSpace(s)]
  {
    if s != [] && IsSpace(s[|s| - 1]) {
      TrimEndDropsTrailing(s[..|s| - 1]);
    }
  }

  /** `s.strip()`. */
  function Strip(s: string): string {
    TrimEnd(TrimStart(s))
  }

  /** `s.strip()` is empty exactly when `s` is made of white space only. */
  lemma StripEmptyIffSpace(s: string)
    ensures Strip(s) == [] <==> AllSpace(s)
  {
    var k := LeadingSpace(s);
    TrimStartDropsLeading(s);
    TrimEndDropsTrailing(s[k..]);
    if k == |s| {
      assert s == s[..k];
    } else {
      assert s[k..][0] == s[k];
      assert WithoutTrailingSpace(s[k..]) > 0;
    }
  }

  /** `s.strip()` is the middle of `s`: white space only around it, and none at its own ends. */
  lemma StripEdges(s: string)
    ensures Strip(s) == s[LeadingSpace(s)..][..WithoutTrailingSpace(s[LeadingSpace(s)..])]
    ensures Strip(s) != [] ==> !IsSpace(Strip(s)[0]) && !IsSpace(Strip(s)[|Strip(s)| - 1])
  {
    var k := LeadingSpace(s);
    TrimStartDropsLeading(s);
    TrimEndDropsTrailing(s[k..]);
    if Strip(s) != [] {
      assert Strip(s)[0] == s[k];
    }
  }

  /**
    `s.split(maxsplit=1)`: `None` when `s` holds no token (the source then fails
    on `name_parts[0]`); otherwise the first white-space delimited token and the
    remainder with its leading white space removed (trailing white space kept).
  */
  function SplitFirst(s: string): SplitResult {
    var t := TrimStart(s);
    if t == [] then NoToken else
      var n := TokenLength(t);
      Token(t[..n], TrimStart(t[n..]))
  }

  datatype SplitResult = NoToken | Token(first: string, rest: string)

  /** Length of the leading run of non-white-space characters. */
  function TokenLength(t: string): (n: nat)
    ensures n <= |t|
    ensures forall i :: 0 <= i < n ==> !IsSpace(t[i])
    ensures n == |t| || IsSpace(t[n])
  {
    if t == [] || IsSpace(t[0]) then 0 else 1 + TokenLength(t[1..])
  }

  /** `split()` finds no token exactly when the string is all white space. */
  lemma SplitFirstNoToken(s: string)
    ensures SplitFirst(s).NoToken? <==> AllSpace(s)
  {
    var k := LeadingSpace(s);
    TrimStartDropsLeading(s);
    if k == |s| { assert s == s[..k]; }
  }

  /**
    Joining the two pieces of `split(maxsplit=1)` loses only white space, so
    after lower-casing and keeping alphanumerics it is the same as the whole
    string.
  */
  lemma SplitFirstKeepAlnum(s: string)
    requires SplitFirst(s).Token?
    ensures KeepAlnum(Lower(SplitFirst(s).first + SplitFirst(s).rest)) == KeepAlnum(Lower(s))
  {
    var first, rest := SplitFirst(s).first, SplitFirst(s).rest;
    var lead, gap := SplitFirstPieces(s);
    KeepAlnumLowerConcat(lead, first + (gap + rest));
    KeepAlnumOfSpaces(lead);
    KeepAlnumLowerConcat(first, gap + rest);
    KeepAlnumLowerConcat(gap, rest);
    KeepAlnumOfSpaces(gap);
    KeepAlnumLowerConcat(first, rest);
  }

  /** The string is the two pieces with the white space they dropped put back. */
  lemma SplitFirstPieces(s: string) returns (lead: string, gap: string)
    requires SplitFirst(s).Token?
    ensures AllSpace(lead) && AllSpace(gap)
    ensures s == lead + (SplitFirst(s).first + (gap + SplitFirst(s).rest))
  {
    var k := LeadingSpace(s);
    var t := TrimStart(s);
    assert t == s[k..] by { TrimStartDropsLeading(s); }
    var n := TokenLength(t);
    var u := t[n..];
    var j := LeadingSpace(u);
    assert TrimStart(u) == u[j..] by { TrimStartDropsLeading(u); }
    lead, gap := s[..k], u[..j];
    assert u == gap + u[j..];
    assert t == t[..n] + u;
    assert s == lead + t;
  }

  lemma KeepAlnumLowerConcat(a: string, b: string)
    ensures KeepAlnum(Lower(a + b)) == KeepAlnum(Lower(a)) + KeepAlnum(Lower(b))
  {
    LowerConcat(a, b);
    KeepAlnumConcat(Lower(a), Lower(b));
  }

  // ---------------------------------------------------------------------------
  // Decimal numerals
  // ---------------------------------------------------------------------------

  function DigitChar(d: nat): (c: char)
    requires d < 10
    ensures IsDigit(c)
  {
    ('0' as int + d) as char
  }

  /** `str(n)` for a natural number. */
  function NatToString(n: nat): string
    decreases n
  {
    if n < 10 then [DigitChar(n)] else NatToString(n / 10) + [DigitChar(n % 10)]
  }

  /** The value of a string of decimal digits, most significant first. */
  function DigitsValue(s: string): nat
    requires AllDigits(s)
  {
    if s == [] then 0 else DigitsValue(s[..|s| - 1]) * 10 + (s[|s| - 1] as int - '0' as int)
  }

  /** `str(n)` is a non-empty digit string whose value is `n`. */
  lemma {:induction false} NatToStringRoundTrip(n: nat)
    ensures AllDigits(NatToString(n)) && |NatToString(n)| >= 1
    ensures DigitsValue(NatToString(n)) == n
    decreases n
  {
    if n >= 10 {
      NatToStringRoundTrip(n / 10);
      var s := NatToString(n);
      assert s[..|s| - 1] == NatToString(n / 10);
    }
  }

  lemma NatToStringInjective(a: nat, b: nat)
    ensures NatToString(a) == NatToString(b) ==> a == b
  {
    NatToStringRoundTrip(a);
    NatToStringRoundTrip(b);
  }

  function Zeros(k: nat): (r: string)
    ensures |r| == k && AllDigits(r)
  {
    seq(k, _ => '0')
  }

  /** The `{n:0Wd}` format: `str(n)` left-padded with zeros to at least `width` characters. */
  function ZeroPad(n: nat, width: nat): string {
    var s := NatToString(n);
    if |s| < width then Zeros(width - |s|) + s else s
  }

  lemma {:induction false} LeadingZerosValue(k: nat, s: string)
    requires AllDigits(s)
    ensures AllDigits(Zeros(k) + s) && DigitsValue(Zeros(k) + s) == DigitsValue(s)
    decreases |s|, k
  {
    assert AllDigits(Zeros(k) + s);
    if s == [] {
      assert Zeros(k) + s == Zeros(k);
      if k > 0 {
        assert Zeros(k)[..k - 1] == Zeros(k - 1);
        LeadingZerosValue(k - 1, []);
        assert Zeros(k - 1) + [] == Zeros(k - 1);
      }
    } else {
      var z := Zeros(k) + s;
      assert z[..|z| - 1] == Zeros(k) + s[..|s| - 1];
      LeadingZerosValue(k, s[..|s| - 1]);
    }
  }

  /** The padded numeral has the requested width (or more) and still denotes `n`. */
  lemma ZeroPadSpec(n: nat, width: nat)
    ensures AllDigits(ZeroPad(n, width))
    ensures |ZeroPad(n, width)| == if |NatToString(n)| < width then width else |NatToString(n)|
    ensures DigitsValue(ZeroPad(n, width)) == n
  {
    NatToStringRoundTrip(n);
    var s := NatToString(n);
    if |s| < width { LeadingZerosValue(width - |s|, s); }
  }

  // ---------------------------------------------------------------------------
  // Ordering of strings (Python compares code point by code point)
  // ---------------------------------------------------------------------------

  predicate LexLess(a: string, b: string)
    decreases |a|
  {
    if a == [] then b != []
    else if b == [] then false
    else if a[0] != b[0] then a[0] < b[0]
    else LexLess(a[1..], b[1..])
  }

  lemma {:induction false} LexLessIrreflexive(a: string)
    ensures !LexLess(a, a)
    decreases |a|
  {
    if a != [] { LexLessIrreflexive(a[1..]); }
  }

  lemma {:induction false} LexLessTrichotomy(a: string, b: string)
    ensures a == b || LexLess(a, b) || LexLess(b, a)
    decreases |a|
  {
    if a != [] && b != [] && a[0] == b[0] {
      LexLessTrichotomy(a[1..], b[1..]);
      if a[1..] == b[1..] { assert a == [a[0]] + a[1..] && b == [b[0]] + b[1..]; }
    }
  }

  lemma {:induction false} LexLessAsymmetric(a: string, b: string)
    ensures !(LexLess(a, b) && LexLess(b, a))
    decreases |a|
  {
    if a != [] && b != [] && a[0] == b[0] { LexLessAsymmetric(a[1..], b[1..]); }
  }

  lemma {:induction false} LexLessTransitive(a: string, b: string, c: string)
    requires LexLess(a, b) && LexLess(b, c)
    ensures LexLess(a, c)
    decreases |a|
  {
    if a != [] && b != [] && c != [] && a[0] == b[0] && b[0] == c[0] {
      LexLessTransitive(a[1..], b[1..], c[1..]);
    }
  }

  /** `sep.join(parts)` */
  function Join(sep: string, parts: seq<string>): string {
    if |parts| == 0 then ""
    else if |parts| == 1 then parts[0]
    else parts[0] + sep + Join(sep, parts[1..])
  }
}
