/** The string and number primitives of .NET and of the browser that the
    services lean on: white space, trimming, ASCII lower-casing, prefix tests,
    ordinal string order, 32-bit integers, and the decimal formats "D<n>" and
    int.Parse / int.TryParse. */
module Text {
  import opened Outcomes

  // ---------------------------------------------------------------------------
  // 32-bit integers
  // ---------------------------------------------------------------------------

  const IntMin: int := -0x8000_0000
  const IntMax: int := 0x7FFF_FFFF

  predicate InInt32(n: int) {
    IntMin <= n <= IntMax
  }

  /** The value C#'s unchecked `int` arithmetic keeps of the mathematical `n`. */
  function Wrap32(n: int): (r: int)
    ensures InInt32(r)
  {
    (n - IntMin) % 0x1_0000_0000 + IntMin
  }

  /** Wrapping keeps `n` modulo 2^32, and keeps a value already in range. */
  lemma WrapCongruent(n: int)
    ensures (Wrap32(n) - n) % 0x1_0000_0000 == 0
    ensures InInt32(n) ==> Wrap32(n) == n
  {
  }

  // ---------------------------------------------------------------------------
  // White space and trimming
  // ---------------------------------------------------------------------------

  /** The characters `char.IsWhiteSpace` accepts: Unicode separators plus the
      C0 controls U+0009..U+000D and U+0085. */
  predicate IsWhiteSpace(c: char) {
    || c == ' '
    || '\t' <= c <= '\r'
    || c == '\U{0085}'
    || c == '\U{00A0}'
    || c == '\U{1680}'
    || '\U{2000}' <= c <= '\U{200A}'
    || c == '\U{2028}'
    || c == '\U{2029}'
    || c == '\U{202F}'
    || c == '\U{205F}'
    || c == '\U{3000}'
  }

  /** The white space `int.Parse` skips around a number (NumberStyles.Integer). */
  predicate IsParseSpace(c: char) {
    c == ' ' || '\t' <= c <= '\r'
  }

  /** Every character is white space (vacuously true of ""). */
  predicate IsBlank(s: string) {
    forall i :: 0 <= i < |s| ==> IsWhiteSpace(s[i])
  }

  /** `string.IsNullOrWhiteSpace`. */
  predicate IsNullOrWhiteSpace(s: Option<string>) {
    s.None? || IsBlank(s.value)
  }

  function TrimStartBy(s: string, ws: char -> bool): (r: string)
    ensures |r| <= |s| && r == s[|s| - |r|..]
    ensures forall i :: 0 <= i < |s| - |r| ==> ws(s[i])
    ensures r == [] || !ws(r[0])
  {
    if |s| > 0 && ws(s[0]) then
      var r := TrimStartBy(s[1..], ws);
      assert s[1..][|s| - 1 - |r|..] == s[|s| - |r|..];
      assert forall i :: 1 <= i < |s| - |r| ==> s[i] == s[1..][i - 1];
      r
    else s
  }

  function TrimEndBy(s: string, ws: char -> bool): (r: string)
    ensures |r| <= |s| && r == s[..|r|]
    ensures forall i :: |r| <= i < |s| ==> ws(s[i])
    ensures r == [] || !ws(r[|r| - 1])
  {
    if |s| > 0 && ws(s[|s| - 1]) then
      var r := TrimEndBy(s[..|s| - 1], ws);
      assert s[..|s| - 1][..|r|] == s[..|r|];
      assert forall i :: |r| <= i < |s| - 1 ==> s[i] == s[..|s| - 1][i];
      r
    else s
  }

  /** Drops the white space `ws` accepts from both ends. */
  function TrimBy(s: string, ws: char -> bool): string {
    TrimEndBy(TrimStartBy(s, ws), ws)
  }

  /** `string.Trim()`. */
  function Trim(s: string): string {
    TrimBy(s, IsWhiteSpace)
  }

  /** Trimming only shortens; it empties exactly the blank strings, and what it
      keeps starts and ends with a non-white-space character. */
  lemma TrimSpec(s: string)
    ensures |Trim(s)| <= |s|
    ensures Trim(s) == [] <==> IsBlank(s)
    ensures Trim(s) != [] ==> !IsWhiteSpace(Trim(s)[0]) && !IsWhiteSpace(Trim(s)[|Trim(s)| - 1])
  {
    var t := TrimStartBy(s, IsWhiteSpace);
    var r := TrimEndBy(t, IsWhiteSpace);
    var a := |s| - |t|;
    if r != [] {
      assert r[0] == t[0] == s[a];
    }
  }

  /** Trimming twice is trimming once. */
  lemma TrimIdempotent(s: string)
    ensures Trim(Trim(s)) == Trim(s)
  {
    var r := Trim(s);
    TrimSpec(s);
    if r != [] {
      assert TrimStartBy(r, IsWhiteSpace) == r;
      assert TrimEndBy(r, IsWhiteSpace) == r;
    }
  }

  // ---------------------------------------------------------------------------
  // UTF-16 length
  // ---------------------------------------------------------------------------

  /** A character outside the Basic Multilingual Plane, which UTF-16 writes
      as a surrogate pair. */
  predicate IsAstral(c: char) {
    c as int >= 0x1_0000
  }

  /** `string.Length` in .NET and `length` in JavaScript: the number of UTF-16
      code units, two for an astral character and one for any other. */
  function Utf16Length(s: string): (n: nat)
    ensures |s| <= n <= 2 * |s|
  {
    if |s| == 0 then 0 else (if IsAstral(s[0]) then 2 else 1) + Utf16Length(s[1..])
  }

  /** The units of two strings written one after the other add up. */
  lemma {:induction false} Utf16Concat(a: string, b: string)
    ensures Utf16Length(a + b) == Utf16Length(a) + Utf16Length(b)
    decreases |a|
  {
    if |a| > 0 {
      assert (a + b)[1..] == a[1..] + b;
      Utf16Concat(a[1..], b);
    } else {
      assert a + b == b;
    }
  }

  /** A string has one unit per character exactly when no character is
      astral; a single astral character takes two. */
  lemma {:induction false} Utf16LengthBmp(s: string)
    ensures Utf16Length(s) == |s| <==> forall i :: 0 <= i < |s| ==> !IsAstral(s[i])
    ensures Utf16Length(['\U{1F600}']) == 2
    decreases |s|
  {
    if |s| > 0 {
      Utf16LengthBmp(s[1..]);
      assert forall i :: 1 <= i < |s| ==> s[i] == s[1..][i - 1];
    }
    assert ['\U{1F600}'][1..] == [];
  }

  /** A substring has no more units than the whole string. */
  lemma Utf16Slice(s: string, i: int, j: int)
    requires 0 <= i <= j <= |s|
    ensures Utf16Length(s[i..j]) <= Utf16Length(s)
  {
    var tail := s[i..];
    assert tail == s[i..j] + s[j..];
    assert s == s[..i] + tail;
    Utf16Concat(s[..i], tail);
    Utf16Concat(s[i..j], s[j..]);
  }

  /** Trimming never adds units. */
  lemma TrimUtf16(s: string)
    ensures Utf16Length(Trim(s)) <= Utf16Length(s)
  {
    var t := TrimStartBy(s, IsWhiteSpace);
    var r := TrimEndBy(t, IsWhiteSpace);
    Utf16Slice(s, |s| - |t|, |s|);
    assert s[|s| - |t|..|s|] == t;
    Utf16Slice(t, 0, |r|);
    assert t[0..|r|] == r;
    assert Trim(s) == r;
  }

  // ---------------------------------------------------------------------------
  // Case and prefixes
  // ---------------------------------------------------------------------------

  function ToLowerChar(c: char): char {
    if 'A' <= c <= 'Z' then (c as int + 32) as char else c
  }

  /** `ToLower()` restricted to ASCII letters; every other character is kept. */
  function ToLower(s: string): (r: string)
    ensures |r| == |s|
  {
    seq(|s|, i requires 0 <= i < |s| => ToLowerChar(s[i]))
  }

  /** Ordinal `StartsWith`. */
  predicate StartsWith(s: string, prefix: string) {
    |prefix| <= |s| && s[..|prefix|] == prefix
  }

  // ---------------------------------------------------------------------------
  // Ordinal (character-code) string order
  // ---------------------------------------------------------------------------

  /** `a` sorts before or equal to `b` comparing character codes. */
  predicate LexLe(a: string, b: string)
    decreases |a|
  {
    |a| == 0 || (|b| > 0 && (a[0] < b[0] || (a[0] == b[0] && LexLe(a[1..], b[1..]))))
  }

  lemma {:induction false} LexLeTotal(a: string, b: string)
    ensures LexLe(a, b) || LexLe(b, a)
    decreases |a|
  {
    if |a| > 0 && |b| > 0 && a[0] == b[0] {
      LexLeTotal(a[1..], b[1..]);
    }
  }

  lemma {:induction false} LexLeTransitive(a: string, b: string, c: string)
    requires LexLe(a, b) && LexLe(b, c)
    ensures LexLe(a, c)
    decreases |a|
  {
    if |a| > 0 && a[0] == b[0] && b[0] == c[0] {
      LexLeTransitive(a[1..], b[1..], c[1..]);
    }
  }

  /** A shared prefix does not change the order. */
  lemma {:induction false} LexLeCommonPrefix(p: string, a: string, b: string)
    ensures LexLe(p + a, p + b) == LexLe(a, b)
    decreases |p|
  {
    if |p| > 0 {
      var pa, pb := p + a, p + b;
      assert |pa| > 0 && |pb| > 0 && pa[0] == pb[0];
      assert pa[1..] == p[1..] + a && pb[1..] == p[1..] + b;
      assert LexLe(pa, pb) == LexLe(pa[1..], pb[1..]);
      LexLeCommonPrefix(p[1..], a, b);
    } else {
      assert p + a == a && p + b == b;
    }
  }

  lemma {:induction false} LexLeAntisymmetric(a: string, b: string)
    requires LexLe(a, b) && LexLe(b, a)
    ensures a == b
    decreases |a|
  {
    if |a| > 0 {
      LexLeAntisymmetric(a[1..], b[1..]);
      assert a == [a[0]] + a[1..];
      assert b == [b[0]] + b[1..];
    }
  }

  // ---------------------------------------------------------------------------
  // Decimal digits
  // ---------------------------------------------------------------------------

  predicate IsDigit(c: char) {
    '0' <= c <= '9'
  }

  predicate AllDigits(s: string) {
    forall i :: 0 <= i < |s| ==> IsDigit(s[i])
  }

  function DigitChar(d: int): (c: char)
    requires 0 <= d < 10
    ensures IsDigit(c) && DigitValue(c) == d
  {
    ('0' as int + d) as char
  }

  function DigitValue(c: char): int
    requires IsDigit(c)
  {
    c as int - '0' as int
  }

  /** The shortest decimal rendering of a natural number. */
  function NatToString(n: nat): (r: string)
    ensures |r| >= 1 && AllDigits(r)
    decreases n
  {
    if n < 10 then [DigitChar(n)] else NatToString(n / 10) + [DigitChar(n % 10)]
  }

  /** The value of a string of decimal digits (leading zeros allowed). */
  function DigitsValue(s: string): nat
    requires AllDigits(s)
  {
    if |s| == 0 then 0 else DigitsValue(s[..|s| - 1]) * 10 + DigitValue(s[|s| - 1])
  }

  lemma {:induction false} NatToStringValue(n: nat)
    ensures DigitsValue(NatToString(n)) == n
    decreases n
  {
    if n >= 10 {
      var s := NatToString(n);
      assert s[..|s| - 1] == NatToString(n / 10);
      NatToStringValue(n / 10);
    }
  }

  /** `int.ToString()`. */
  function IntToString(n: int): string {
    if n < 0 then "-" + NatToString(-n) else NatToString(n)
  }

  /** Two digits, with a leading zero. */
  function TwoDigits(n: int): (r: string)
    requires 0 <= n < 100
    ensures |r| == 2 && AllDigits(r) && DigitsValue(r) == n
  {
    var r := [DigitChar(n / 10), DigitChar(n % 10)];
    assert r[..1] == [DigitChar(n / 10)] && r[..1][..0] == [];
    assert DigitsValue(r[..1]) == n / 10;
    r
  }

  function Zeros(k: nat): (r: string)
    ensures |r| == k && forall i :: 0 <= i < k ==> r[i] == '0'
  {
    seq(k, i => '0')
  }

  lemma {:induction false} ZerosPrefixValue(k: nat, s: string)
    requires AllDigits(s)
    ensures AllDigits(Zeros(k) + s)
    ensures DigitsValue(Zeros(k) + s) == DigitsValue(s)
    decreases |s|
  {
    var z := Zeros(k) + s;
    assert AllDigits(z);
    if |s| == 0 {
      assert z == Zeros(k);
      ZerosValue(k);
    } else {
      assert z[..|z| - 1] == Zeros(k) + s[..|s| - 1];
      ZerosPrefixValue(k, s[..|s| - 1]);
    }
  }

  lemma {:induction false} ZerosValue(k: nat)
    ensures DigitsValue(Zeros(k)) == 0
    decreases k
  {
    if k > 0 {
      assert Zeros(k)[..k - 1] == Zeros(k - 1);
      ZerosValue(k - 1);
    }
  }

  /** The digits of `n`, left-padded with zeros to at least `width` characters. */
  function PadDigits(n: nat, width: nat): (r: string)
    ensures AllDigits(r)
    ensures |r| >= width && |r| >= 1
    ensures DigitsValue(r) == n
  {
    var d := NatToString(n);
    NatToStringValue(n);
    if |d| < width then
      ZerosPrefixValue(width - |d|, d);
      Zeros(width - |d|) + d
    else d
  }

  function Pow10(k: nat): (r: nat)
    ensures r >= 1
  {
    if k == 0 then 1 else 10 * Pow10(k - 1)
  }

  lemma {:induction false} NatToStringLength(n: nat, k: nat)
    requires n < Pow10(k)
    ensures |NatToString(n)| <= k || (n < 10 && k == 0)
    decreases n
  {
    if n >= 10 {
      assert k > 0;
      NatToStringLength(n / 10, k - 1);
    }
  }

  /** A number below 10^width is written with exactly `width` digits. */
  lemma PadDigitsExactWidth(n: nat, width: nat)
    requires width >= 1 && n < Pow10(width)
    ensures |PadDigits(n, width)| == width
  {
    NatToStringLength(n, width);
  }

  /** `n.ToString("D<width>")`: a minus sign for negatives, then at least
      `width` digits. */
  function FormatD(n: int, width: nat): (r: string)
    ensures |r| >= 1
    ensures n >= 0 ==> AllDigits(r) && |r| >= width
    ensures n < 0 ==> r[0] == '-' && AllDigits(r[1..]) && |r| > width
  {
    if n < 0 then "-" + PadDigits(-n, width) else PadDigits(n, width)
  }

  // ---------------------------------------------------------------------------
  // int.Parse / int.TryParse
  // ---------------------------------------------------------------------------

  /** `int.TryParse(s, out v)` with the invariant culture: optional white space,
      an optional sign, one or more digits, optional white space, and a value
      that fits in 32 bits. `None` is the `false` outcome (and the exception
      `int.Parse` throws). */
  function ParseInt32(s: string): (r: Option<int>)
    ensures r.Some? ==> InInt32(r.value)
  {
    var t := TrimBy(s, IsParseSpace);
    if |t| == 0 then None
    else
      var body := if t[0] == '-' || t[0] == '+' then t[1..] else t;
      if |body| == 0 || !AllDigits(body) then None
      else
        var v: int := if t[0] == '-' then 0 - DigitsValue(body) as int else DigitsValue(body) as int;
        if InInt32(v) then Some(v) else None
  }

  /** Only a non-empty text parses. */
  lemma ParsedNonEmpty(s: string)
    requires ParseInt32(s).Some?
    ensures |s| > 0
  {
    var t := TrimStartBy(s, IsParseSpace);
    assert |TrimEndBy(t, IsParseSpace)| > 0;
  }

  /** Parsing reads back any 32-bit value written with "D<width>". */
  lemma ParseFormatD(n: int, width: nat)
    requires InInt32(n)
    ensures ParseInt32(FormatD(n, width)) == Some(n)
  {
    var s := FormatD(n, width);
    assert !IsParseSpace(s[0]) && !IsParseSpace(s[|s| - 1]);
    TrimByUntouched(s, IsParseSpace);
    if n < 0 {
      assert s[1..] == PadDigits(-n, width);
    }
  }

  /** Text that starts and ends outside `ws` is left as it is. */
  lemma TrimByUntouched(s: string, ws: char -> bool)
    requires |s| > 0 && !ws(s[0]) && !ws(s[|s| - 1])
    ensures TrimBy(s, ws) == s
  {
    assert TrimStartBy(s, ws) == s;
  }

  /** Parsing reads back any 32-bit value written with `ToString()`. */
  lemma ParseIntToString(n: int)
    requires InInt32(n)
    ensures ParseInt32(IntToString(n)) == Some(n)
  {
    NatToStringValue(if n < 0 then -n else n);
    assert IntToString(n) == FormatD(n, 0);
    ParseFormatD(n, 0);
  }
}
