/**
 * rfc2047_decode: the decoder of one encoded word of RFC 2047,
 * `=?charset?B|Q?encoded-text?=` (section 2 of RFC 2047 for the syntax,
 * section 4.1 for "B", section 4.2 for "Q").
 *
 * The word must open the string. It ends at the first `?=` (searched from
 * index 2) that is followed by the end of the string, a space, a CR or a
 * LF. The charset is looked up in a fixed table of 15 MIME names by a
 * case-insensitive prefix match that must be followed by '?'. "B" text is
 * decoded in place by b64_pton, "Q" text in place by the loop of
 * rfc2047.c. The decoded bytes are then handed to iconv, which is a
 * parameter here (`Converter`): given the target charset, the MIME name of
 * the source charset and the input bytes it yields the converted bytes, or
 * None when iconv_open or iconv fails. Output longer than the caller's
 * buffer is the E2BIG failure of iconv.
 */
module Rfc2047 {
  import opened Wrappers
  import opened LibC
  import opened Base64
  import opened Base64Encode

  /** The MIME names of the charset table (rfc2047.c), in table order. Its iconv column is never read: iconv_open gets the MIME name. */
  const MimeNames: seq<string> := [
    "us-ascii", "utf-8", "iso-8859-1", "iso-2022-jp", "gb2312", "ks_c_5601-1987",
    "windows-1250", "windows-1251", "windows-1252", "windows-1253", "windows-1254",
    "windows-1255", "windows-1256", "windows-1257", "windows-1258"]

  /** iconv_open plus iconv: (tocode, fromcode, input bytes) to the converted bytes, or None on failure. */
  type Converter = (string, string, string) -> Option<string>

  /*
   * Finding the end of the word
   */

  /** `?=` at index i, followed by the end of the string, a space, a CR or a LF. */
  predicate EndsWordAt(s: string, i: nat) {
    At(s, i) == '?' && At(s, i + 1) == '=' &&
    (At(s, i + 2) == '\0' || At(s, i + 2) == ' ' || At(s, i + 2) == '\r' || At(s, i + 2) == '\n')
  }

  /** The first index from i on where `?=` ends the word. */
  function FirstEnd(s: string, i: nat): (r: Option<nat>)
    ensures r.Some? ==> i <= r.value && r.value + 2 <= |s| && EndsWordAt(s, r.value)
    ensures forall k :: i <= k && (r.None? || k < r.value) ==> !EndsWordAt(s, k)
    decreases |s| - i
  {
    if i >= |s| then None
    else if EndsWordAt(s, i) then Some(i)
    else FirstEnd(s, i + 1)
  }

  /**
   * The index of the `?=` that ends the word opening s: the string must be
   * longer than 6 characters and start with `=?`.
   */
  function Terminator(s: string): (r: Option<nat>)
    ensures r.Some? ==> |s| > 6 && s[0] == '=' && s[1] == '?'
    ensures r.Some? ==> 2 <= r.value && r.value + 2 <= |s| && EndsWordAt(s, r.value)
    ensures r.Some? ==> forall k :: 2 <= k < r.value ==> !EndsWordAt(s, k)
    ensures r.None? && |s| > 6 && s[0] == '=' && s[1] == '?' ==> forall k :: 2 <= k ==> !EndsWordAt(s, k)
  {
    if |s| > 6 && s[0] == '=' && s[1] == '?' then FirstEnd(s, 2) else None
  }

  /** The scan of rfc2047.c for the `?=` that ends the word: -1 when there is none. */
  method ScanTerminator(s: string) returns (i: int)
    requires NoNul(s)
    ensures i == -1 <==> Terminator(s).None?
    ensures i != -1 ==> Terminator(s) == Some(i)
  {
    if !(|s| > 6 && s[0] == '=' && s[1] == '?') {
      return -1;
    }
    i := 2;
    while At(s, i) != '\0'
      invariant 2 <= i <= |s|
      invariant FirstEnd(s, i) == FirstEnd(s, 2)
      decreases |s| - i
    {
      if EndsWordAt(s, i) {
        break;
      }
      i := i + 1;
    }
    if At(s, i) == '\0' {
      return -1;
    }
  }

  /*
   * The charset table
   */

  /**
   * strncasecmp(s + at, name, strlen(name)) == 0 and s[at + strlen(name)] == '?':
   * the name, in any case, then '?'. Reads past the end of s see the NUL,
   * which no name holds, so a name never matches beyond the string.
   */
  predicate NameAt(s: string, at: nat, name: string) {
    (forall k :: 0 <= k < |name| ==> ToLower(At(s, at + k)) == ToLower(name[k])) &&
    At(s, at + |name|) == '?'
  }

  /** The first entry of the name column, from index i on, whose name is at index `at` of s. */
  function FindCharset(s: string, at: nat, names: seq<string>, i: nat): (r: Option<nat>)
    requires i <= |names|
    ensures r.Some? ==> i <= r.value < |names| && NameAt(s, at, names[r.value])
    ensures forall k :: i <= k < |names| && (r.None? || k < r.value) ==> !NameAt(s, at, names[k])
    decreases |names| - i
  {
    if i == |names| then None
    else if NameAt(s, at, names[i]) then Some(i)
    else FindCharset(s, at, names, i + 1)
  }

  /**
   * The static table of rfc2047.c. Its `mimelen` entries start at 0 and are
   * filled with the length of the name the first time the lookup reaches
   * them.
   */
  class CharsetTable {
    const mime: seq<string>
    var mimelen: seq<int>

    ghost predicate Valid()
      reads this
    {
      |mimelen| == |mime| &&
      forall i :: 0 <= i < |mimelen| ==> mimelen[i] == 0 || mimelen[i] == |mime[i]|
    }

    constructor ()
      ensures Valid() && mime == MimeNames
      ensures forall i :: 0 <= i < |mimelen| ==> mimelen[i] == 0
    {
      mime := MimeNames;
      mimelen := seq(|MimeNames|, _ => 0);
    }

    /**
     * The lookup loop: the index of the first entry whose name, in any case
     * and followed by '?', is at index `at` of s, or -1. Every entry the
     * loop reached has its length filled in; the others are untouched.
     */
    method Find(s: string, at: nat) returns (found: int)
      requires Valid()
      modifies this
      ensures Valid()
      ensures found == -1 <==> FindCharset(s, at, mime, 0).None?
      ensures found != -1 ==> FindCharset(s, at, mime, 0) == Some(found)
      ensures forall i :: 0 <= i < |mimelen| ==>
        mimelen[i] == if found == -1 || i <= found then |mime[i]| else old(mimelen[i])
    {
      var i := 0;
      while i < |mime|
        invariant 0 <= i <= |mime| && Valid()
        invariant FindCharset(s, at, mime, i) == FindCharset(s, at, mime, 0)
        invariant forall k :: 0 <= k < |mimelen| ==> mimelen[k] == if k < i then |mime[k]| else old(mimelen[k])
      {
        if mimelen[i] == 0 {
          mimelen := mimelen[i := |mime[i]|];
        }
        if NameAt(s, at, mime[i]) {
          return i;
        }
        i := i + 1;
      }
      return -1;
    }
  }

  /*
   * The word
   */

  predicate IsEncodingLetter(c: char) {
    c == 'B' || c == 'b' || c == 'Q' || c == 'q'
  }

  /** The encoding letter, upper-cased as toupper does for 'b' and 'q'. */
  function EncodingOf(c: char): (e: char)
    requires IsEncodingLetter(c)
    ensures e == 'B' || e == 'Q'
    ensures (e == 'B') <==> (c == 'B' || c == 'b')
  {
    if c == 'b' || c == 'B' then 'B' else 'Q'
  }

  /**
   * A recognised word: its charset (an index into the table), its encoding
   * ('B' or 'Q'), the index where its encoded text starts and the index of
   * the `?=` that ends it.
   */
  datatype Word = Word(charset: nat, enc: char, start: nat, term: nat)

  /**
   * The delimiters of the word, with the charset names of the table:
   * `=?`, the charset name and '?', the encoding letter and '?'.
   */
  function ParseWord(s: string, names: seq<string>): (r: Option<Word>)
    ensures r.Some? ==> r.value.charset < |names| && (r.value.enc == 'B' || r.value.enc == 'Q')
    ensures r.Some? ==> Terminator(s) == Some(r.value.term)
    ensures r.Some? ==> FindCharset(s, 2, names, 0) == Some(r.value.charset)
    ensures r.Some? ==> (var w := r.value;
      w.start == 2 + |names[w.charset]| + 3 && w.start <= |s| && s[w.start - 1] == '?' &&
      IsEncodingLetter(s[w.start - 2]) && EncodingOf(s[w.start - 2]) == w.enc)
  {
    match Terminator(s)
    case None => None
    case Some(term) =>
      match FindCharset(s, 2, names, 0)
      case None => None
      case Some(k) =>
        var e := 2 + |names[k]| + 1;
        var c := At(s, e);
        if IsEncodingLetter(c) && At(s, e + 1) == '?' then
          Some(Word(k, EncodingOf(c), e + 2, term))
        else None
  }

  /**
   * The encoded text of a word: from its start to the `?=`. When the `?=`
   * reuses the '?' after the encoding letter (`=?utf-8?Q?=`), the start is
   * one past the `?=` and the text is empty.
   */
  function Text(s: string, w: Word): (t: string)
    requires w.start <= |s| && w.term <= |s|
    ensures |t| <= |s| - w.start
    ensures w.start <= w.term ==> t == s[w.start..w.term]
  {
    if w.start <= w.term then s[w.start..w.term] else ""
  }

  /*
   * "Q" decoding
   */

  /** IS_XDIGIT of rfc2047.c: upper- and lower-case hexadecimal digits. */
  predicate IsXDigit(c: char) {
    '0' <= c <= '9' || 'a' <= c <= 'f' || 'A' <= c <= 'F'
  }

  /** XDIGIT of rfc2047.c: the value of a hexadecimal digit, -1 for any other character. */
  function XDigit(c: char): (v: int)
    ensures IsXDigit(c) <==> 0 <= v < 16
    ensures !IsXDigit(c) ==> v == -1
  {
    if '0' <= c <= '9' then c as int - '0' as int
    else if 'a' <= c <= 'f' then c as int - 'a' as int + 10
    else if 'A' <= c <= 'F' then c as int - 'A' as int + 10
    else -1
  }

  function Prepend(pre: string, r: Option<string>): (q: Option<string>)
    ensures q.Some? <==> r.Some?
    ensures q.Some? ==> q.value == pre + r.value
  {
    match r
    case None => None
    case Some(v) => Some(pre + v)
  }

  /**
   * The bytes that "Q" text stands for: `=XY` with two hexadecimal digits
   * is the byte 0xXY, '_' is a space, any other character stands for
   * itself, and an '=' without two hexadecimal digits after it fails the
   * word. Each character of the output uses at least one of the text.
   */
  function QDecode(t: string): (r: Option<string>)
    ensures r.Some? ==> |r.value| <= |t|
    decreases |t|
  {
    if t == [] then Some([])
    else if t[0] == '=' then
      if IsXDigit(At(t, 1)) && IsXDigit(At(t, 2)) then
        Prepend([(16 * XDigit(t[1]) + XDigit(t[2])) as char], QDecode(t[3..]))
      else None
    else Prepend([if t[0] == '_' then ' ' else t[0]], QDecode(t[1..]))
  }

  /** What the "Q" branch hands to iconv: the decoded bytes and the NUL written after them. */
  function QInput(t: string): (r: Option<string>)
    ensures r.Some? <==> QDecode(t).Some?
    ensures r.Some? ==> r.value == QDecode(t).value + ['\0'] && |r.value| <= |t| + 1
  {
    match QDecode(t)
    case None => None
    case Some(d) => Some(d + ['\0'])
  }

  lemma {:induction false} PrependNothing(r: Option<string>)
    ensures Prepend([], r) == r
  {
    if r.Some? {
      assert [] + r.value == r.value;
    }
  }

  lemma {:induction false} PrependStep(pre: string, b: char, r: Option<string>)
    ensures Prepend(pre, Prepend([b], r)) == Prepend(pre + [b], r)
  {
    if r.Some? {
      assert pre + ([b] + r.value) == pre + [b] + r.value;
    }
  }

  /** One pass of the "Q" loop, from read index i: the step of the specification it takes. */
  lemma {:induction false} QDecodeAt(t: string, i: nat)
    requires i < |t|
    ensures t[i] == '=' && IsXDigit(At(t, i + 1)) && IsXDigit(At(t, i + 2)) ==>
      i + 3 <= |t| &&
      QDecode(t[i..]) == Prepend([(16 * XDigit(t[i + 1]) + XDigit(t[i + 2])) as char], QDecode(t[i + 3..]))
    ensures t[i] == '=' && !(IsXDigit(At(t, i + 1)) && IsXDigit(At(t, i + 2))) ==> QDecode(t[i..]).None?
    ensures t[i] != '=' ==> QDecode(t[i..]) == Prepend([if t[i] == '_' then ' ' else t[i]], QDecode(t[i + 1..]))
  {
    var u := t[i..];
    assert At(u, 1) == At(t, i + 1) && At(u, 2) == At(t, i + 2);
    if t[i] == '=' && IsXDigit(At(t, i + 1)) && IsXDigit(At(t, i + 2)) {
      assert u[3..] == t[i + 3..];
    } else if t[i] != '=' {
      assert u[1..] == t[i + 1..];
    }
  }

  /** `(X << 4) | Y` for two hexadecimal digit values is the byte 16 * X + Y. */
  lemma HexByte(x: int, y: int)
    requires 0 <= x < 16 && 0 <= y < 16
    ensures BitOr(x * 16, y) == 16 * x + y
  {
    assert Pow2(4) == 16;
    BitOrDisjoint(x, y, 4);
  }

  /**
   * One pass of the "Q" loop at read index i and write index j (j <= i):
   * reads one character or one `=XY` escape and writes one byte at j, or
   * fails the word on an '=' without two hexadecimal digits after it.
   */
  method QStep(tmp: array<char>, len: nat, ghost t: string, i: nat, j: nat) returns (ok: bool, i': nat)
    requires tmp.Length == len + 1 && |t| == len && j <= i < len
    requires forall m :: i <= m < len ==> tmp[m] == t[m]
    requires tmp[len] == '\0'
    modifies tmp
    ensures !ok ==> QDecode(t[i..]).None? && unchanged(tmp)
    ensures ok ==> i < i' <= len && QDecode(t[i..]) == Prepend([tmp[j]], QDecode(t[i'..]))
    ensures ok ==> forall m :: 0 <= m < tmp.Length && m != j ==> tmp[m] == old(tmp[m])
  {
    QDecodeAt(t, i);
    assert At(t, i + 1) == tmp[i + 1];
    if tmp[i] == '=' {
      if IsXDigit(tmp[i + 1]) && IsXDigit(tmp[i + 2]) {
        assert At(t, i + 2) == tmp[i + 2];
        var x, y := XDigit(tmp[i + 1]), XDigit(tmp[i + 2]);
        HexByte(x, y);
        tmp[j] := BitOr(x * 16, y) as char;
        return true, i + 3;
      } else {
        return false, i;
      }
    } else {
      tmp[j] := if tmp[i] == '_' then ' ' else tmp[i];
      return true, i + 1;
    }
  }

  /** The loop of the "Q" branch over the text t, held in tmp with its NUL after it. */
  method QLoop(tmp: array<char>, len: nat, ghost t: string) returns (ok: bool, j: nat)
    requires tmp.Length == len + 1 && |t| == len && tmp[..len] == t && tmp[len] == '\0'
    modifies tmp
    ensures ok <==> QDecode(t).Some?
    ensures ok ==> j <= len && tmp[..j] == QDecode(t).value
  {
    var i := 0;
    j := 0;
    assert t[0..] == t && tmp[..0] == [];
    PrependNothing(QDecode(t));
    while i < len
      invariant 0 <= j <= i <= len
      invariant forall m :: i <= m < len ==> tmp[m] == t[m]
      invariant tmp[len] == '\0'
      invariant QDecode(t) == Prepend(tmp[..j], QDecode(t[i..]))
      decreases len - i
    {
      ghost var done := tmp[..j];
      var next;
      ok, next := QStep(tmp, len, t, i, j);
      if !ok {
        return;
      }
      PrependStep(done, tmp[j], QDecode(t[next..]));
      assert tmp[..j + 1] == done + [tmp[j]];
      i, j := next, j + 1;
    }
    assert t[len..] == [];
    assert tmp[..j] + [] == tmp[..j];
    return true, j;
  }

  /**
   * The "Q" branch: strndup of the text, the loop that rewrites it in place
   * with the write index j never ahead of the read index i, then the NUL at
   * j. The result is what iconv is given, or None when an '=' fails the
   * word.
   */
  method DecodeQ(s: string, start: nat, len: nat) returns (input: Option<string>)
    requires start + len <= |s| && NoNul(s)
    ensures input == QInput(s[start..start + len])
  {
    var tmp := new char[len + 1];
    forall m | 0 <= m < len {
      tmp[m] := s[start + m];
    }
    tmp[len] := '\0';
    var ok, j := QLoop(tmp, len, s[start..start + len]);
    if !ok {
      return None;
    }
    tmp[j] := '\0';
    input := Some(tmp[..j + 1]);
    assert tmp[..j + 1] == tmp[..j] + ['\0'];
  }

  /*
   * "B" decoding
   */

  /** tmpsz of the "B" branch: the text rounded up to whole groups of four, and a NUL. */
  function BufferSize(len: nat): (n: nat)
    ensures len < n && (n - 1) % 4 == 0 && n - 1 - len < 4
  {
    4 * ((len + 3) / 4) + 1
  }

  /**
   * How many '=' the padding loop writes once it is kept inside the
   * buffer: len % 4 of them from index len on, as far as the tmpsz bytes
   * reach (two when len % 4 is 3, where the loop as written takes three).
   */
  function PadCount(len: nat): (n: nat)
    ensures n <= len % 4 && len + n <= BufferSize(len)
    ensures n == len % 4 || len + n == BufferSize(len)
  {
    if len % 4 == 3 then 2 else len % 4
  }

  /**
   * The "B" buffer when b64_pton is called: the text, then the NUL that
   * `tmp[len] = '\0'` writes over the first '=' of the padding, the rest
   * of the padding, and the zeros of calloc.
   */
  function Padded(t: string): (b: string)
    ensures |b| == BufferSize(|t|)
    ensures forall m :: 0 <= m < |t| ==> b[m] == t[m]
    ensures b[|t|] == '\0'
  {
    seq(BufferSize(|t|), (m: int) =>
      if 0 <= m < |t| then t[m]
      else if m == |t| then '\0'
      else if m < |t| + PadCount(|t|) then '='
      else '\0')
  }

  /**
   * What the "B" branch hands to iconv: the whole buffer of tmpsz bytes,
   * which b64_pton has overwritten with the decoded bytes from its start,
   * and a NUL after them; None when b64_pton fails. b64_pton sees the text
   * only: the padding is cut off by the NUL.
   */
  function BInput(t: string): (r: Option<string>)
    requires NoNul(t)
    ensures r.Some? ==> |r.value| == BufferSize(|t|)
  {
    var b := Padded(t);
    match Decode(t, Some(|b|))
    case None => None
    case Some(d) => Some(d + ['\0'] + b[|d| + 1..])
  }

  /** The padding loop, its len % 4 writes of '=' stopped at the end of the buffer. */
  method RestorePadding(tmp: array<char>, len: nat)
    requires tmp.Length == BufferSize(len)
    modifies tmp
    ensures forall m :: 0 <= m < tmp.Length ==>
      tmp[m] == if len <= m < len + PadCount(len) then '=' else old(tmp[m])
  {
    var i := 0;
    while i < PadCount(len)
      invariant 0 <= i <= PadCount(len)
      invariant forall m :: 0 <= m < tmp.Length ==>
        tmp[m] == if len <= m < len + i then '=' else old(tmp[m])
    {
      tmp[len + i] := '=';
      i := i + 1;
    }
  }

  /** The indices that the padding loop of rfc2047.c writes: len % 4 of them from len on. */
  function PadWritesAsWritten(len: nat): (w: seq<nat>)
    ensures |w| == len % 4
    ensures forall i :: 0 <= i < |w| ==> w[i] == len + i
  {
    seq(len % 4, (i: int) requires 0 <= i => len + i)
  }

  /**
   * The padding loop as written stays inside the buffer of tmpsz bytes
   * exactly when the text length is not 3 modulo 4; otherwise its last
   * write is at tmpsz, one past the end.
   */
  lemma PaddingOverrun(len: nat)
    ensures (forall i :: 0 <= i < |PadWritesAsWritten(len)| ==> PadWritesAsWritten(len)[i] < BufferSize(len))
      <==> len % 4 != 3
    ensures len % 4 == 3 ==> PadWritesAsWritten(len)[2] == BufferSize(len)
  {
    if len % 4 == 3 {
      assert PadWritesAsWritten(len)[2] == len + 2;
    }
  }

  /** The corrected loop makes exactly the writes of the loop as written that fall inside the buffer. */
  lemma PadCountInside(len: nat)
    ensures PadCount(len) <= |PadWritesAsWritten(len)|
    ensures forall i :: 0 <= i < |PadWritesAsWritten(len)| ==>
      (PadWritesAsWritten(len)[i] < BufferSize(len) <==> i < PadCount(len))
  {
  }

  /** calloc of tmpsz bytes, memcpy of the text, the padding loop, and the NUL at the end of the text. */
  method PaddedBuffer(s: string, start: nat, len: nat) returns (tmp: array<char>)
    requires start + len <= |s|
    ensures fresh(tmp) && tmp[..] == Padded(s[start..start + len])
  {
    var tmpsz := 4 * ((len + 3) / 4) + 1;
    tmp := new char[tmpsz]((_: int) => '\0');
    forall m | 0 <= m < len {
      tmp[m] := s[start + m];
    }
    RestorePadding(tmp, len);
    tmp[len] := '\0';
  }

  /** The buffer after b64_pton wrote d from its start, and then the NUL after d: the rest is still b. */
  lemma {:induction false} DecodedInBuffer(b: string, d: string, mid: string)
    requires |mid| == |b| && |d| < |b| && mid[..|d|] == d
    requires forall m :: |d| <= m < |b| ==> mid[m] == b[m]
    ensures mid[|d| := '\0'] == d + ['\0'] + b[|d| + 1..]
  {
  }

  /** The "B" branch: the padded buffer, b64_pton in place, and the NUL after the decoded bytes. */
  method DecodeB(s: string, start: nat, len: nat) returns (input: Option<string>)
    requires start + len <= |s| && NoNul(s)
    ensures input == BInput(s[start..start + len])
  {
    ghost var t := s[start..start + len];
    var tmp := PaddedBuffer(s, start, len);
    ghost var b := tmp[..];
    CStrOfNulTerminated(b, len);
    assert b[..len] == t;
    var retsz := B64Pton(tmp, tmp, tmp.Length);
    if retsz == -1 {
      return None;
    }
    ghost var d := Decode(t, Some(|b|)).value;
    ghost var mid := tmp[..];
    DecodedInBuffer(b, d, mid);
    tmp[retsz] := '\0';
    assert tmp[..] == mid[retsz := '\0'];
    return Some(tmp[..]);
  }

  /*
   * The whole word
   */

  /** What the word hands to iconv: the "B" or the "Q" decoding of its text. */
  function WordInput(s: string, w: Word): (r: Option<string>)
    requires NoNul(s) && w.start <= |s| && w.term <= |s|
  {
    var t := Text(s, w);
    if w.enc == 'B' then BInput(t) else QInput(t)
  }

  /** A decoded word: how many characters of the string it took, and what iconv wrote. */
  datatype Decoded = Decoded(consumed: nat, output: string)

  /**
   * rfc2047_decode(s, tocode, decode, size) with the charset names of the
   * table: the word that opens s, decoded and converted to tocode. It takes
   * the characters up to and including the `?=` that ends it, and its
   * output fits the buffer.
   */
  function DecodeWord(s: string, names: seq<string>, tocode: string, size: nat, iconv: Converter): (r: Option<Decoded>)
    requires NoNul(s)
    ensures r.Some? ==> Terminator(s).Some? && r.value.consumed == Terminator(s).value + 2
    ensures r.Some? ==> (4 <= r.value.consumed <= |s| &&
      s[r.value.consumed - 2] == '?' && s[r.value.consumed - 1] == '=')
    ensures r.Some? ==> |r.value.output| <= size
  {
    match ParseWord(s, names)
    case None => None
    case Some(w) =>
      match WordInput(s, w)
      case None => None
      case Some(input) =>
        match iconv(tocode, names[w.charset], input)
        case None => None
        case Some(out) => if |out| > size then None else Some(Decoded(w.term + 2, out))
  }

  /** A buffer after out is written at its start: the rest keeps what it held. */
  function Overwrite(buf: string, out: string): (r: string)
    requires |out| <= |buf|
    ensures |r| == |buf| && r[..|out|] == out && r[|out|..] == buf[|out|..]
  {
    out + buf[|out|..]
  }

  /**
   * rfc2047_decode: -1 when the string does not open with a word that
   * decodes and converts into the buffer; otherwise the output is at the
   * start of the buffer and the result is the number of characters of the
   * word.
   */
  method Rfc2047Decode(table: CharsetTable, str: string, tocode: string, iconv: Converter,
                       decode: array<char>, decodeSize: nat) returns (r: int)
    requires table.Valid() && NoNul(str) && decodeSize <= decode.Length
    modifies table, decode
    ensures table.Valid()
    ensures var d := DecodeWord(str, table.mime, tocode, decodeSize, iconv);
      (r == -1 <==> d.None?) && (d.Some? ==> r == d.value.consumed)
    ensures var d := DecodeWord(str, table.mime, tocode, decodeSize, iconv);
      decode[..] == if d.Some? then Overwrite(old(decode[..]), d.value.output) else old(decode[..])
  {
    var term := ScanTerminator(str);
    if term == -1 {
      return -1;
    }
    var k := table.Find(str, 2);
    if k == -1 {
      return -1;
    }
    var p := 2 + table.mimelen[k] + 1;
    if !(IsEncodingLetter(At(str, p)) && At(str, p + 1) == '?') {
      return -1;
    }
    var enc := EncodingOf(At(str, p));
    p := p + 2;
    // term is p - 1 when the `?=` reuses the '?' after the letter: the text is then empty.
    var len := if term < p then 0 else term - p;
    ghost var w := Word(k, enc, p, term);
    assert ParseWord(str, table.mime) == Some(w);
    assert str[p..p + len] == Text(str, w);
    var input;
    if enc == 'B' {
      input := DecodeB(str, p, len);
    } else {
      input := DecodeQ(str, p, len);
    }
    if input.None? {
      return -1;
    }
    var out := iconv(tocode, table.mime[k], input.value);
    if out.None? || |out.value| > decodeSize {
      return -1;
    }
    forall m | 0 <= m < |out.value| {
      decode[m] := out.value[m];
    }
    assert decode[..] == Overwrite(old(decode[..]), out.value);
    return term + 2;
  }

  /*
   * Properties
   */

  /** The encoded word `=?name?B|Q?text?=`, followed by what comes after it in the header. */
  function EncodedWord(name: string, letter: char, e: string, rest: string): (s: string)
    ensures |s| == |name| + |e| + |rest| + 7
  {
    "=?" + name + ['?', letter, '?'] + e + "?=" + rest
  }

  /** s, character by character, is `=?name?letter?e?=` followed by rest. */
  predicate IsWord(s: string, name: string, letter: char, e: string, rest: string) {
    var n, t := |name|, |name| + |e| + 5;
    |s| == t + 2 + |rest| && s[0] == '=' && s[1] == '?' &&
    (forall m :: 0 <= m < n ==> s[2 + m] == name[m]) &&
    s[n + 2] == '?' && s[n + 3] == letter && s[n + 4] == '?' &&
    (forall m :: 0 <= m < |e| ==> s[n + 5 + m] == e[m]) &&
    s[t] == '?' && s[t + 1] == '=' &&
    (forall m :: 0 <= m < |rest| ==> s[t + 2 + m] == rest[m])
  }

  lemma {:induction false} EncodedWordIsWord(name: string, letter: char, e: string, rest: string)
    ensures IsWord(EncodedWord(name, letter, e, rest), name, letter, e, rest)
  {
  }

  /** Characters a table name is made of: lower-case letters, digits, '-' and '_'. */
  predicate NameChar(c: char) {
    'a' <= c <= 'z' || '0' <= c <= '9' || c == '-' || c == '_'
  }

  /** A charset column whose names are non-empty, made of name characters and pairwise different. */
  predicate WellFormedNames(names: seq<string>) {
    (forall j :: 0 <= j < |names| ==> names[j] != []) &&
    (forall j, m :: 0 <= j < |names| && 0 <= m < |names[j]| ==> NameChar(names[j][m])) &&
    (forall j, k :: 0 <= j < k < |names| ==> names[j] != names[k])
  }

  lemma NamesLow()
    ensures forall j, m :: 0 <= j < 6 && 0 <= m < |MimeNames[j]| ==> NameChar(MimeNames[j][m])
  {
  }

  lemma NamesMid()
    ensures forall j, m :: 6 <= j < 11 && 0 <= m < |MimeNames[j]| ==> NameChar(MimeNames[j][m])
  {
  }

  lemma NamesHigh()
    ensures forall j, m :: 11 <= j < 15 && 0 <= m < |MimeNames[j]| ==> NameChar(MimeNames[j][m])
  {
  }

  /** The table of rfc2047.c is well formed: no name is matched in place of another. */
  lemma {:induction false} MimeNamesWellFormed()
    ensures WellFormedNames(MimeNames)
  {
    NamesLow();
    NamesMid();
    NamesHigh();
  }

  /**
   * When the name of an entry of a well formed column is at index 2,
   * followed by '?', a different name does not match there: a shorter one
   * stops where the longer one has no '?', a longer one needs a '?' inside
   * itself, and one of the same length differs in a character that
   * tolower leaves alone.
   */
  lemma {:induction false} OtherNameFails(s: string, names: seq<string>, k: nat, j: nat)
    requires WellFormedNames(names) && k < |names| && j < |names| && names[j] != names[k]
    requires |s| > 2 + |names[k]| && s[2 + |names[k]|] == '?'
    requires forall m :: 0 <= m < |names[k]| ==> s[2 + m] == names[k][m]
    ensures !NameAt(s, 2, names[j])
  {
    var a, b := names[j], names[k];
    if |a| < |b| {
      assert At(s, 2 + |a|) == b[|a|] && NameChar(b[|a|]);
    } else if |a| > |b| {
      assert NameChar(a[|b|]) && ToLower(At(s, 2 + |b|)) != ToLower(a[|b|]);
    } else {
      var m :| 0 <= m < |a| && a[m] != b[m];
      assert NameChar(a[m]) && NameChar(b[m]) && ToLower(At(s, 2 + m)) != ToLower(a[m]);
    }
  }

  /** In a word that opens with the name of an entry of a well formed column, that entry is the one found. */
  lemma {:induction false} FindOwnName(s: string, names: seq<string>, k: nat)
    requires WellFormedNames(names) && k < |names|
    requires |s| > 2 + |names[k]| && s[2 + |names[k]|] == '?'
    requires forall m :: 0 <= m < |names[k]| ==> s[2 + m] == names[k][m]
    ensures FindCharset(s, 2, names, 0) == Some(k)
  {
    assert forall m :: 0 <= m < |names[k]| ==> NameChar(names[k][m]);
    assert NameAt(s, 2, names[k]);
    var r := FindCharset(s, 2, names, 0);
    if r.Some? && r.value < k {
      OtherNameFails(s, names, k, r.value);
    }
  }

  /** Text that cannot contain the end of a word: no '?', and no '=' at its head followed by what ends a word. */
  predicate PlainText(e: string) {
    (forall m :: 0 <= m < |e| ==> e[m] != '?') &&
    (e != [] && e[0] == '=' ==> |e| >= 2 && e[1] != ' ' && e[1] != '\r' && e[1] != '\n' && e[1] != '\0')
  }

  /** What may follow a word so that its `?=` ends it: nothing, a space, a CR or a LF. */
  predicate EndsAfter(rest: string) {
    rest == [] || rest[0] == ' ' || rest[0] == '\r' || rest[0] == '\n'
  }

  /** In a word whose name and text have no '?', the first `?=` that ends a word is the one after the text. */
  lemma {:induction false} WordTerminator(s: string, name: string, letter: char, e: string, rest: string)
    requires IsWord(s, name, letter, e, rest)
    requires forall m :: 0 <= m < |name| ==> NameChar(name[m])
    requires letter != '?' && letter != '=' && PlainText(e) && EndsAfter(rest)
    ensures Terminator(s) == Some(|name| + |e| + 5)
  {
    var n, t := |name|, |name| + |e| + 5;
    assert EndsWordAt(s, t);
    forall i | 2 <= i < t
      ensures !EndsWordAt(s, i)
    {
      if i < n + 2 {
        assert s[i] == name[i - 2] && NameChar(s[i]);
      } else if i == n + 4 && e != [] && e[0] == '=' {
        assert s[i + 2] == e[1];
      } else if n + 5 <= i {
        assert s[i] == e[i - n - 5];
      }
    }
  }

  /** A word made from a table name, an encoding letter and plain text is parsed back into them. */
  lemma {:induction false} ParseEncodedWord(s: string, names: seq<string>, k: nat, letter: char, e: string, rest: string)
    requires WellFormedNames(names) && k < |names| && (letter == 'B' || letter == 'Q')
    requires IsWord(s, names[k], letter, e, rest) && PlainText(e) && EndsAfter(rest)
    ensures ParseWord(s, names) == Some(Word(k, letter, |names[k]| + 5, |names[k]| + 5 + |e|))
    ensures Text(s, Word(k, letter, |names[k]| + 5, |names[k]| + 5 + |e|)) == e
  {
    var n := |names[k]|;
    assert forall m :: 0 <= m < n ==> NameChar(names[k][m]);
    WordTerminator(s, names[k], letter, e, rest);
    FindOwnName(s, names, k);
    assert s[n + 5..n + 5 + |e|] == e;
  }

  /** An uppercase hexadecimal digit. */
  function HexDigit(v: nat): (c: char)
    requires v < 16
    ensures IsXDigit(c) && XDigit(c) == v
  {
    if v < 10 then ('0' as int + v) as char else ('A' as int + v - 10) as char
  }

  /** Characters that "Q" text carries as themselves: printable ASCII other than '=', '?' and '_' (section 4.2 of RFC 2047). */
  predicate QLiteral(c: char) {
    '!' <= c <= '~' && c != '=' && c != '?' && c != '_'
  }

  /** The "Q" encoding of section 4.2 of RFC 2047: space as '_', literal characters as themselves, any other byte as `=XY`. */
  function QEncode(d: string): (e: string)
    requires IsBytes(d)
    ensures forall m :: 0 <= m < |e| ==> e[m] != '?' && e[m] != '\0'
    ensures e != [] && e[0] == '=' ==> |e| >= 3 && IsXDigit(e[1])
  {
    if d == [] then []
    else
      var c := d[0];
      (if c == ' ' then "_"
       else if QLiteral(c) then [c]
       else ['=', HexDigit(c as int / 16), HexDigit(c as int % 16)]) + QEncode(d[1..])
  }

  /** "Q" decoding gives back any byte string from its encoding. */
  lemma {:induction false} QRoundTrip(d: string)
    requires IsBytes(d)
    ensures QDecode(QEncode(d)) == Some(d)
  {
    if d != [] {
      var c, e := d[0], QEncode(d);
      QRoundTrip(d[1..]);
      if c != ' ' && !QLiteral(c) {
        var g := ['=', HexDigit(c as int / 16), HexDigit(c as int % 16)];
        assert e == g + QEncode(d[1..]);
        assert e[3..] == QEncode(d[1..]);
        assert At(e, 1) == g[1] && At(e, 2) == g[2];
        assert (16 * XDigit(e[1]) + XDigit(e[2])) as char == c;
      } else {
        assert e[1..] == QEncode(d[1..]);
      }
      assert [c] + d[1..] == d;
    }
  }

  /** The "B" encoding of any bytes has no '?', never opens with '=', and no NUL. */
  lemma {:induction false} EncodeShape(d: string)
    requires IsBytes(d)
    ensures forall m :: 0 <= m < |Encode(d)| ==> Encode(d)[m] != '?' && Encode(d)[m] != '\0'
    ensures Encode(d) != [] ==> Encode(d)[0] != '='
  {
    EncodeSymbols(d);
    assert forall m :: 0 <= m < |Encode(d)| ==> InTable(Encode(d)[m]);
  }

  /**
   * The "B" branch on text that is a multiple of four symbols long hands
   * iconv the bytes b64_pton decodes without a bound, then a NUL: the
   * buffer of tmpsz bytes is never too small. Text whose symbol count is
   * not a multiple of four fails, whatever padding was meant to restore.
   */
  lemma {:induction false} BDecodes(t: string)
    requires NoNul(t)
    ensures BInput(t).Some? <==> Decode(t, None).Some?
    ensures BInput(t).Some? ==> Decode(t, None).value + ['\0'] <= BInput(t).value
    ensures |Symbols(t)| % 4 != 0 ==> BInput(t).None?
  {
    var size := BufferSize(|t|);
    CapacityOnlyRejects(t, size);
    if Decode(t, None).Some? {
      CapacitySuffices(t, size);
      var d := Decode(t, None).value;
      var r := d + ['\0'] + Padded(t)[|d| + 1..];
      assert r[..|d| + 1] == d + ['\0'];
      assert d + ['\0'] <= r;
    }
  }

  /** The "B" branch decodes the encoding of any bytes back to them, followed by the NUL. */
  lemma {:induction false} BRoundTrip(d: string)
    requires IsBytes(d)
    ensures NoNul(Encode(d))
    ensures BInput(Encode(d)).Some? && d + ['\0'] <= BInput(Encode(d)).value
  {
    var e := Encode(d);
    EncodeShape(d);
    EncodeLength(d);
    RoundTrip(d, |d|);
    BDecodes(e);
  }

  /** The encoding of bytes by either letter is plain text, and the word built from it has no NUL. */
  lemma {:induction false} EncodingIsPlain(d: string, letter: char)
    requires IsBytes(d) && (letter == 'B' || letter == 'Q')
    ensures PlainText(EncodeAs(letter, d)) && NoNul(EncodeAs(letter, d))
  {
    if letter == 'B' {
      EncodeShape(d);
    }
  }

  /**
   * What a word carrying the bytes d hands iconv: for "B" the whole buffer
   * of tmpsz bytes, the bytes and a NUL first; for "Q" the bytes and a NUL.
   */
  function WordBytes(letter: char, d: string): (r: string)
    requires IsBytes(d)
    ensures d + ['\0'] <= r
  {
    if letter == 'B' then
      BRoundTrip(d);
      BInput(Encode(d)).value
    else
      d + ['\0']
  }

  /** The input a word hands iconv is tmpsz bytes long for "B", one more than the bytes for "Q". */
  lemma {:induction false} WordBytesLength(letter: char, d: string)
    requires IsBytes(d)
    ensures |WordBytes(letter, d)| == if letter == 'B' then BufferSize(|Encode(d)|) else |d| + 1
  {
    if letter == 'B' {
      BRoundTrip(d);
    }
  }

  /** A word whose text is the encoding of some bytes hands iconv those bytes and a NUL after them. */
  lemma {:induction false} EncodedInput(s: string, w: Word, d: string)
    requires NoNul(s) && w.start <= |s| && w.term <= |s| && IsBytes(d) && (w.enc == 'B' || w.enc == 'Q')
    requires Text(s, w) == EncodeAs(w.enc, d)
    ensures WordInput(s, w) == Some(WordBytes(w.enc, d))
  {
    var e := Text(s, w);
    if w.enc == 'B' {
      assert e == Encode(d);
      BRoundTrip(d);
    } else {
      assert e == QEncode(d);
      QRoundTrip(d);
    }
  }

  /** The result of a word whose text decoded: what iconv wrote, when it converted and fits the buffer. */
  function Converted(out: Option<string>, size: nat, consumed: nat): (r: Option<Decoded>)
    ensures r.Some? <==> out.Some? && |out.value| <= size
  {
    if out.Some? && |out.value| <= size then Some(Decoded(consumed, out.value)) else None
  }

  /** Once a word parses and its text decodes to the input of iconv, the result is what iconv converts into the buffer, if anything. */
  lemma {:induction false} DecodeParsedWord(s: string, names: seq<string>, w: Word, input: string,
                                            tocode: string, size: nat, iconv: Converter)
    requires NoNul(s) && ParseWord(s, names) == Some(w) && WordInput(s, w) == Some(input)
    ensures DecodeWord(s, names, tocode, size, iconv) == Converted(iconv(tocode, names[w.charset], input), size, w.term + 2)
  {
  }

  /** The text of a word that carries the bytes d in the encoding of the letter. */
  function EncodeAs(letter: char, d: string): (e: string)
    requires IsBytes(d)
  {
    if letter == 'B' then Encode(d) else QEncode(d)
  }

  /**
   * Decoding a "B" or "Q" word made from a table name and the encoding of
   * some bytes: the word parses into the table entry of that name, iconv
   * is handed the bytes and a NUL after them (for "B", the rest of the
   * buffer of tmpsz bytes after that), and what it converts into
   * the buffer is the result, which takes exactly the word, up to its `?=`.
   */
  lemma {:induction false} WordRoundTrip(names: seq<string>, k: nat, letter: char, d: string, rest: string, s: string,
                                         tocode: string, size: nat, iconv: Converter) returns (input: string)
    requires WellFormedNames(names) && k < |names| && IsBytes(d) && NoNul(rest) && EndsAfter(rest)
    requires letter == 'B' || letter == 'Q'
    requires IsWord(s, names[k], letter, EncodeAs(letter, d), rest)
    ensures NoNul(s) && input == WordBytes(letter, d) && d + ['\0'] <= input
    ensures DecodeWord(s, names, tocode, size, iconv) ==
      Converted(iconv(tocode, names[k], input), size, |s| - |rest|)
  {
    var e := EncodeAs(letter, d);
    var w := Word(k, letter, |names[k]| + 5, |names[k]| + 5 + |e|);
    EncodingIsPlain(d, letter);
    WordNoNul(s, names, k, letter, e, rest);
    ParseEncodedWord(s, names, k, letter, e, rest);
    EncodedInput(s, w, d);
    input := WordInput(s, w).value;
    DecodeParsedWord(s, names, w, input, tocode, size, iconv);
    assert w.charset == k && w.term + 2 == |s| - |rest|;
  }

  lemma {:induction false} WordNoNul(s: string, names: seq<string>, k: nat, letter: char, e: string, rest: string)
    requires WellFormedNames(names) && k < |names| && letter != '\0'
    requires IsWord(s, names[k], letter, e, rest) && NoNul(e) && NoNul(rest)
    ensures NoNul(s)
  {
    var n, t := |names[k]|, |names[k]| + |e| + 5;
    forall i | 0 <= i < |s|
      ensures s[i] != '\0'
    {
      if 2 <= i < n + 2 {
        assert NameChar(names[k][i - 2]);
      } else if n + 5 <= i < t {
        assert s[i] == e[i - n - 5];
      } else if t + 2 <= i {
        assert s[i] == rest[i - t - 2];
      }
    }
  }

  /** `len` of rfc2047.c once the delimiters are passed: the index of the `?=` minus the start of the text. */
  function TextLengthAsWritten(w: Word): int {
    w.term - w.start
  }

  /** tmpsz as rfc2047.c computes it from an int len, with C's division that truncates toward zero. */
  function BufferSizeAsWritten(len: int): int {
    var q := len + 3;
    4 * (if q >= 0 then q / 4 else -((-q) / 4)) + 1
  }

  /** The size_t that memcpy receives for an int length. */
  function SizeT(n: int): nat {
    n % 0x1_0000_0000_0000_0000
  }

  /**
   * In `=?utf-8?B?=` the `?=` reuses the '?' after the letter, so len is
   * -1 and the "B" branch calls memcpy with a size of 2^64 - 1 into a
   * buffer of one byte.
   */
  lemma OverlapAsWritten()
    ensures var s := "=?utf-8?B?=";
      var w := Word(1, 'B', 10, 9);
      ParseWord(s, MimeNames) == Some(w) &&
      TextLengthAsWritten(w) == -1 && BufferSizeAsWritten(-1) == 1 &&
      SizeT(TextLengthAsWritten(w)) == 0xffff_ffff_ffff_ffff
  {
    var s := "=?utf-8?B?=";
    assert !EndsWordAt(s, 2) && !EndsWordAt(s, 3) && !EndsWordAt(s, 4) && !EndsWordAt(s, 5);
    assert !EndsWordAt(s, 6) && !EndsWordAt(s, 7) && !EndsWordAt(s, 8) && EndsWordAt(s, 9);
    assert FirstEnd(s, 2) == Some(9);
    assert !NameAt(s, 2, MimeNames[0]) by {
      assert ToLower(At(s, 3)) != ToLower(MimeNames[0][1]);
    }
    var utf8 := MimeNames[1];
    assert utf8 == "utf-8" && |utf8| == 5;
    assert forall k :: 0 <= k < 5 ==> At(s, 2 + k) == utf8[k] && ToLower(At(s, 2 + k)) == ToLower(utf8[k]);
    assert NameAt(s, 2, utf8);
    assert FindCharset(s, 2, MimeNames, 1) == Some(1);
    assert FindCharset(s, 2, MimeNames, 0) == Some(1);
    assert Terminator(s) == Some(9);
    assert At(s, 8) == 'B' && At(s, 9) == '?';
  }

  /**
   * A word whose `?=` reuses the '?' after the letter has empty text, and
   * both branches hand iconv a lone NUL: the "Q" loop does not run, and
   * the "B" branch decodes nothing.
   */
  lemma {:induction false} OverlapDecodesEmpty(s: string, w: Word)
    requires NoNul(s) && w.start <= |s| && w.term <= |s| && w.term < w.start
    ensures Text(s, w) == "" && WordInput(s, w) == Some(['\0'])
  {
    assert Symbols("") == "" && Emitted("") == "" && !Overflows("", 1);
    assert Decode("", Some(1)) == Some("");
    var b := Padded("");
    assert |b| == 1 && b[1..] == [];
    assert Decode("", Some(|b|)) == Some("");
    assert BInput("") == Some("" + ['\0'] + b[1..]);
    assert "" + ['\0'] + b[1..] == ['\0'];
    assert BInput("") == Some(['\0']);
    assert QDecode("") == Some("");
    assert QInput("").Some? && QInput("").value == "" + ['\0'];
    assert "" + ['\0'] == ['\0'];
    assert Text(s, w) == "";
  }
}
