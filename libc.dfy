/**
 * The parts of the C library that the mail filter's core leans on, stated
 * for the C locale: character classes, NUL-terminated strings, strtonum(3),
 * printf's "%d", and the conversion of an unsigned value into an `int`.
 *
 * C strings are modelled as Dafny strings whose characters are bytes
 * (code points 0 to 255); the terminating NUL is implicit at the end.
 */
module LibC {
  import opened Wrappers

  const INT_MAX: int := 0x7fff_ffff
  const UINT_MAX: int := 0xffff_ffff
  const INT64_MAX: int := 0x7fff_ffff_ffff_ffff

  /** isspace(3) in the C locale: space, tab, newline, vertical tab, form feed, carriage return. */
  predicate IsSpace(c: char) {
    c == ' ' || '\t' <= c <= '\r'
  }

  predicate IsDigit(c: char) {
    '0' <= c <= '9'
  }

  /** tolower(3) in the C locale. */
  function ToLower(c: char): (r: char)
    ensures 'A' <= c <= 'Z' ==> 'a' <= r <= 'z' && r as int == c as int + 32
    ensures !('A' <= c <= 'Z') ==> r == c
  {
    if 'A' <= c <= 'Z' then (c as int + 32) as char else c
  }

  /** Every character of s is a byte value. */
  predicate IsBytes(s: string) {
    forall i :: 0 <= i < |s| ==> s[i] as int < 256
  }

  /** The contents of a C string: no NUL before its end. */
  predicate NoNul(s: string) {
    forall i :: 0 <= i < |s| ==> s[i] != '\0'
  }

  /** The byte at index i of the NUL-terminated string s: every read at or past its end sees the NUL. */
  function At(s: string, i: int): char {
    if 0 <= i < |s| then s[i] else '\0'
  }

  /** What the string functions of C see of a buffer: the bytes before its first NUL. */
  function CStr(s: string): (r: string)
    ensures |r| <= |s| && r == s[..|r|]
    ensures forall i :: 0 <= i < |r| ==> r[i] != '\0'
    ensures |r| < |s| ==> s[|r|] == '\0'
  {
    if s == [] || s[0] == '\0' then "" else [s[0]] + CStr(s[1..])
  }

  lemma {:induction false} CStrOfNulTerminated(s: string, n: nat)
    requires n < |s| && s[n] == '\0' && forall i :: 0 <= i < n ==> s[i] != '\0'
    ensures CStr(s) == s[..n]
  {
  }

  lemma {:induction false} CStrNoNul(s: string)
    requires forall i :: 0 <= i < |s| ==> s[i] != '\0'
    ensures CStr(s) == s
  {
  }

  /** Scanning a buffer up to its first NUL: a non-NUL byte before the end of the C string is part of it. */
  lemma {:induction false} CStrInside(s: string, i: nat)
    requires i <= |CStr(s)| < |s| && s[i] != '\0'
    ensures i < |CStr(s)| && CStr(s)[i] == s[i]
  {
  }

  /** Scanning a buffer up to its first NUL: the scan stops exactly at the end of the C string. */
  lemma {:induction false} CStrEnd(s: string, i: nat)
    requires i <= |CStr(s)| < |s| && s[i] == '\0'
    ensures i == |CStr(s)| && CStr(s)[..i] == CStr(s)
  {
  }

  predicate AllDigits(d: string) {
    forall i :: 0 <= i < |d| ==> IsDigit(d[i])
  }

  /** The value of a string of decimal digits. */
  function DigitsValue(d: string): nat
    requires AllDigits(d)
  {
    if d == [] then 0 else DigitsValue(d[..|d| - 1]) * 10 + (d[|d| - 1] as int - '0' as int)
  }

  function Digit(n: nat): (c: char)
    requires n < 10
    ensures IsDigit(c) && c as int - '0' as int == n
  {
    ('0' as int + n) as char
  }

  /** printf("%d") of a non-negative number: its decimal digits without leading zeros. */
  function Decimal(n: nat): (r: string)
    ensures |r| >= 1 && AllDigits(r)
    ensures r[0] != '0' || n == 0
  {
    if n < 10 then [Digit(n)] else Decimal(n / 10) + [Digit(n % 10)]
  }

  lemma {:induction false} DecimalValue(n: nat)
    ensures DigitsValue(Decimal(n)) == n
  {
    if n >= 10 {
      DecimalValue(n / 10);
      var d := Decimal(n);
      assert d[..|d| - 1] == Decimal(n / 10);
    }
  }

  /** strtoll(3) skips the leading white space that isspace accepts. */
  function SkipSpaces(s: string): (r: string)
    ensures |r| <= |s|
  {
    if s != [] && IsSpace(s[0]) then SkipSpaces(s[1..]) else s
  }

  lemma {:induction false} SkipSpacesNone(s: string)
    requires s != [] && !IsSpace(s[0])
    ensures SkipSpaces(s) == s
  {
  }

  /**
   * strtonum(3) in base 10: optional leading white space, an optional sign,
   * at least one digit and nothing after them, and a value within [lo, hi].
   * Values beyond the range of long long are out of [lo, hi] for every
   * bound the callers pass, so strtoll's saturation is not written out.
   */
  function StrToNum(s: string, lo: int, hi: int): (r: Option<int>)
    ensures r.Some? ==> lo <= r.value <= hi
  {
    if lo > hi then None
    else
      var t := SkipSpaces(s);
      var signed := |t| > 0 && (t[0] == '+' || t[0] == '-');
      var d := if signed then t[1..] else t;
      if d == [] || !AllDigits(d) then None
      else
        var n: int := DigitsValue(d);
        var v := if signed && t[0] == '-' then -n else n;
        if lo <= v <= hi then Some(v) else None
  }

  /** strtonum parses back what "%d" printed. */
  lemma {:induction false} StrToNumDecimal(n: nat, lo: int, hi: int)
    requires lo <= n <= hi
    ensures StrToNum(Decimal(n), lo, hi) == Some(n)
  {
    var d := Decimal(n);
    assert '0' <= d[0] <= '9';
    SkipSpacesNone(d);
    DecimalValue(n);
    assert !(d[0] == '+' || d[0] == '-');
  }

  /** Storing an unsigned value up to UINT_MAX into an `int` wraps it modulo 2^32. */
  function ToInt(v: int): (r: int)
    requires 0 <= v <= UINT_MAX
    ensures -INT_MAX - 1 <= r <= INT_MAX
    ensures r >= 0 <==> v <= INT_MAX
    ensures v <= INT_MAX ==> r == v
  {
    if v > INT_MAX then v - 0x1_0000_0000 else v
  }

  /*
   * Bounded copies into a buffer: strlcpy(3), strlcat(3), strlen(3)
   */

  /**
   * What a buffer of `size` bytes holding the C string a holds after
   * strlcat of b: as much of b as fits before the last byte, which keeps
   * the NUL.
   */
  function Append(a: string, b: string, size: nat): (r: string)
    requires |a| < size
    ensures |r| == if |a| + |b| < size then |a| + |b| else size - 1
    ensures r == (a + b)[..|r|]
    ensures NoNul(a) && NoNul(b) ==> NoNul(r)
  {
    a + b[..if |a| + |b| < size then |b| else size - 1 - |a|]
  }

  /** Appending b and then c is appending b + c: the bound cuts the same bytes either way. */
  lemma {:induction false} AppendTwice(a: string, b: string, c: string, size: nat)
    requires |a| < size
    ensures Append(Append(a, b, size), c, size) == Append(a, b + c, size)
  {
    var ab := Append(a, b, size);
    var r := Append(ab, c, size);
    var q := Append(a, b + c, size);
    assert |r| == |q|;
    forall k | 0 <= k < |r|
      ensures r[k] == q[k]
    {
      assert r[k] == (ab + c)[k] && q[k] == (a + (b + c))[k];
      if k < |ab| {
        assert ab[k] == (a + b)[k];
      } else {
        assert |ab| == |a| + |b|;
      }
    }
  }

  /** Appending one byte: it is kept when there is room before the last byte of the buffer. */
  lemma {:induction false} AppendOne(a: string, x: char, size: nat)
    requires |a| < size
    ensures Append(a, [x], size) == if |a| + 1 < size then a + [x] else a
  {
  }

  lemma {:induction false} AppendNothing(a: string, size: nat)
    requires |a| < size
    ensures Append(a, [], size) == a
  {
    assert a + [] == a;
  }

  /** The buffer holds the C string text: its bytes, then a NUL. */
  ghost predicate HoldsCStr(buf: seq<char>, text: string) {
    NoNul(text) && |text| < |buf| && buf[..|text|] == text && buf[|text|] == '\0'
  }

  lemma {:induction false} HoldsCStrIs(buf: seq<char>, text: string)
    requires HoldsCStr(buf, text)
    ensures CStr(buf) == text
  {
    CStrOfNulTerminated(buf, |text|);
  }

  /** strlen(3) of a buffer holding a C string. */
  method Strlen(buf: array<char>, ghost text: string) returns (n: nat)
    requires HoldsCStr(buf[..], text)
    ensures n == |text|
  {
    n := 0;
    while buf[n] != '\0'
      invariant n <= |text| && buf[..n] == text[..n]
      decreases |text| - n
    {
      assert buf[n] == text[n];
      n := n + 1;
    }
  }

  /**
   * The copy loop shared by strlcpy and strlcat: the C string src written
   * from index at, where dst holds a, as far as the buffer has room, and
   * the NUL.
   */
  method CopyCStr(dst: array<char>, at: nat, src: seq<char>, ghost a: string)
    requires NoNul(a) && at == |a| < dst.Length && dst[..at] == a
    modifies dst
    ensures HoldsCStr(dst[..], Append(a, CStr(src), dst.Length))
    ensures dst[|Append(a, CStr(src), dst.Length)| + 1..] == old(dst[|Append(a, CStr(src), dst.Length)| + 1..])
  {
    var c := CStr(src);
    var j := 0;
    var n := at;
    while j < |src| && src[j] != '\0' && n < dst.Length - 1
      invariant j <= |c| && n == at + j && n < dst.Length
      invariant forall k :: 0 <= k < at ==> dst[k] == a[k]
      invariant forall k :: at <= k < n ==> dst[k] == c[k - at]
      invariant forall k :: n <= k < dst.Length ==> dst[k] == old(dst[k])
    {
      dst[n] := src[j];
      n := n + 1;
      j := j + 1;
    }
    ghost var r := Append(a, c, dst.Length);
    assert |r| == n;
    dst[n] := '\0';
    forall k | 0 <= k < n
      ensures dst[k] == r[k]
    {
      assert r[k] == (a + c)[k];
    }
    assert dst[..n] == r;
  }

  /** strlcpy(3) into the whole buffer. */
  method StrlCpy(dst: array<char>, src: seq<char>)
    requires 1 <= dst.Length
    modifies dst
    ensures HoldsCStr(dst[..], Append("", CStr(src), dst.Length))
  {
    CopyCStr(dst, 0, src, "");
  }

  /** strlcat(3) onto the C string the whole buffer holds. */
  method StrlCat(dst: array<char>, src: seq<char>, ghost a: string)
    requires HoldsCStr(dst[..], a)
    modifies dst
    ensures HoldsCStr(dst[..], Append(a, CStr(src), dst.Length))
  {
    var n := Strlen(dst, a);
    CopyCStr(dst, n, src, a);
  }
}
