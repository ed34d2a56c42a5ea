/**
 * The helpers the mail filter applies to a header before it reaches the
 * Lua handler: the name in lower case (str_tolower), the test for values
 * to decode (need_decode), the white space before a value (skip_ws), and
 * the decoding of a value that may hold RFC 2047 encoded words
 * (decode_text).
 */
module HeaderText {
  import opened Wrappers
  import opened LibC
  import opened Base64Encode
  import Base64
  import opened Rfc2047

  /** sizeof(decoded): the buffer of decode_text that every word is decoded into. */
  const DecodedSize: nat := 128
  /** The charset every decoded word is converted to. */
  const ToCode: string := "UTF-8"

  /*
   * str_tolower
   */

  /** s with every letter in lower case. */
  function Lowered(s: string): (r: string)
    ensures |r| == |s| && forall i :: 0 <= i < |s| ==> r[i] == ToLower(s[i])
  {
    seq(|s|, i requires 0 <= i < |s| => ToLower(s[i]))
  }

  /**
   * What str_tolower leaves in a buffer of bufsiz bytes: the C string str
   * in lower case, cut to the bufsiz - 1 bytes that leave room for the NUL.
   */
  function LowerCopy(str: string, bufsiz: nat): (r: string)
    requires 1 <= bufsiz
    ensures |r| == if |CStr(str)| < bufsiz then |CStr(str)| else bufsiz - 1
    ensures NoNul(r) && forall i :: 0 <= i < |r| ==> r[i] == ToLower(str[i]) && !('A' <= r[i] <= 'Z')
  {
    var s := CStr(str);
    Lowered(s)[..if |s| < bufsiz then |s| else bufsiz - 1]
  }

  /**
   * str_tolower: the lower-case copy of str and its NUL at the start of
   * buf; the bytes after the NUL are not touched.
   */
  method StrToLower(str: string, buf: array<char>, bufsiz: nat)
    requires 1 <= bufsiz <= buf.Length
    modifies buf
    ensures HoldsCStr(buf[..], LowerCopy(str, bufsiz))
    ensures buf[|LowerCopy(str, bufsiz)| + 1..] == old(buf[|LowerCopy(str, bufsiz)| + 1..])
  {
    var i := 0;
    while At(str, i) != '\0' && i + 1 < bufsiz
      invariant i <= |CStr(str)| && i < bufsiz
      invariant forall k :: 0 <= k < i ==> buf[k] == ToLower(str[k])
      invariant buf[i..] == old(buf[i..])
      decreases bufsiz - i
    {
      buf[i] := ToLower(str[i]);
      i := i + 1;
    }
    buf[i] := '\0';
    assert buf[..i] == LowerCopy(str, bufsiz);
  }

  /** Header names that are equal but for case reach the handler as the same name. */
  lemma {:induction false} LowerCopyIgnoresCase(a: string, b: string, bufsiz: nat)
    requires 1 <= bufsiz && !CaseDiffers(a, b)
    ensures LowerCopy(a, bufsiz) == LowerCopy(b, bufsiz)
  {
    assert |CStr(a)| == |Lowered(CStr(a))| == |Lowered(CStr(b))| == |CStr(b)|;
  }

  /*
   * need_decode
   */

  /** strcasecmp(a, b) != 0: the C strings differ once both are in lower case. */
  predicate CaseDiffers(a: string, b: string) {
    Lowered(CStr(a)) != Lowered(CStr(b))
  }

  /**
   * need_decode: the name differs from "To", or from "Cc", or from "From",
   * or from "Subject", or from "Comment", ignoring case.
   */
  predicate NeedDecode(hdr: string) {
    CaseDiffers(hdr, "To") || CaseDiffers(hdr, "Cc") || CaseDiffers(hdr, "From") ||
    CaseDiffers(hdr, "Subject") || CaseDiffers(hdr, "Comment")
  }

  /** No name equals both "To" and "Cc": every header value is decoded. */
  lemma {:induction false} NeedDecodeAlways(hdr: string)
    ensures NeedDecode(hdr)
  {
    if !CaseDiffers(hdr, "To") {
      CStrNoNul("To");
      CStrNoNul("Cc");
      assert Lowered(CStr(hdr))[0] == Lowered("To")[0] == 't';
      assert Lowered("Cc")[0] == 'c';
    }
  }

  /*
   * skip_ws
   */

  /** The bytes skip_ws passes over: space, tab, LF and CR. */
  predicate IsWs(c: char) {
    c == ' ' || c == '\t' || c == '\n' || c == '\r'
  }

  /** skip_ws: the first index from i on whose byte is not one of IsWs. */
  function SkipWs(s: string, i: nat): (r: nat)
    requires i <= |s|
    ensures i <= r <= |s|
    ensures forall k :: i <= k < r ==> IsWs(s[k])
    ensures r == |s| || !IsWs(s[r])
    decreases |s| - i
  {
    if i < |s| && IsWs(s[i]) then SkipWs(s, i + 1) else i
  }

  /** The skip decode_text needs: past every isspace byte, the set at which its token copy stops. */
  function SkipSpace(s: string, i: nat): (r: nat)
    requires i <= |s|
    ensures i <= r <= |s|
    ensures forall k :: i <= k < r ==> IsSpace(s[k])
    ensures r == |s| || !IsSpace(s[r])
    decreases |s| - i
  {
    if i < |s| && IsSpace(s[i]) then SkipSpace(s, i + 1) else i
  }

  /** Without vertical tab and form feed the two skips agree. */
  lemma {:induction false} SkipWsAgrees(s: string, i: nat)
    requires i <= |s|
    requires forall k :: i <= k < |s| ==> s[k] != '\U{0B}' && s[k] != '\U{0C}'
    ensures SkipWs(s, i) == SkipSpace(s, i)
    decreases |s| - i
  {
    if i < |s| && IsWs(s[i]) {
      SkipWsAgrees(s, i + 1);
    }
  }

  /*
   * decode_text
   */

  /** The end of the token at p: the first isspace byte from p on, or the end. */
  function TokenEnd(s: string, p: nat): (e: nat)
    requires p <= |s|
    ensures p <= e <= |s|
    ensures forall k :: p <= k < e ==> !IsSpace(s[k])
    ensures e == |s| || IsSpace(s[e])
    decreases |s| - p
  {
    if p < |s| && !IsSpace(s[p]) then TokenEnd(s, p + 1) else p
  }

  /** A scan from p that stops at the first white space stops at the end of the token. */
  lemma {:induction false} TokenEndAt(s: string, p: nat, e: nat)
    requires p <= e <= |s| && e <= TokenEnd(s, p) && (e == |s| || IsSpace(s[e]))
    ensures e == TokenEnd(s, p)
  {
  }

  /** The space written after a token when input remains. */
  function Sep(s: string, e: nat): (r: string)
    ensures |r| <= 1 && NoNul(r)
  {
    if e < |s| then " " else ""
  }

  /**
   * The state of decode_text between passes of its loop: the index str
   * has reached, the C string in ret, and the contents of the decoded
   * buffer, which keeps what earlier words left in it.
   */
  datatype TextState = TextState(pos: nat, text: string, buf: string)

  /** ret has |str| + 1 bytes: its C string is never longer than str. */
  ghost predicate Fits(str: string, st: TextState) {
    st.pos <= |str| && NoNul(st.text) && |st.text| <= |str| && |st.buf| == DecodedSize
  }

  /**
   * One pass of the loop, with the skip of every isspace byte and the
   * token copy bounded by ret: a word that decodes is appended as strlcat
   * does it, with no separator; otherwise the token up to the next white
   * space is appended, and a space when input remains after it. Every
   * pass moves on.
   */
  function Step(names: seq<string>, iconv: Converter, str: string, st: TextState): (r: TextState)
    requires NoNul(str) && Fits(str, st) && st.pos < |str|
    ensures Fits(str, r) && st.pos < r.pos
  {
    var p := SkipSpace(str, st.pos);
    assert NoNul(str[p..]);
    match DecodeWord(str[p..], names, ToCode, DecodedSize, iconv)
    case Some(d) =>
      var buf := Overwrite(st.buf, d.output);
      TextState(p + d.consumed, Append(st.text, CStr(buf), |str| + 1), buf)
    case None =>
      var e := TokenEnd(str, p);
      TextState(e, Append(st.text, str[p..e] + Sep(str, e), |str| + 1), st.buf)
  }

  /** A pass at whose skip point a word decodes. */
  lemma {:induction false} StepWord(names: seq<string>, iconv: Converter, str: string, st: TextState, p: nat, d: Decoded)
    requires NoNul(str) && Fits(str, st) && st.pos < |str| && p == SkipSpace(str, st.pos) && NoNul(str[p..])
    requires DecodeWord(str[p..], names, ToCode, DecodedSize, iconv) == Some(d)
    ensures |d.output| <= DecodedSize
    ensures Step(names, iconv, str, st) == TextState(p + d.consumed,
      Append(st.text, CStr(Overwrite(st.buf, d.output)), |str| + 1), Overwrite(st.buf, d.output))
  {
  }

  /** A pass at whose skip point no word decodes. */
  lemma {:induction false} StepToken(names: seq<string>, iconv: Converter, str: string, st: TextState, p: nat, e: nat)
    requires NoNul(str) && Fits(str, st) && st.pos < |str| && p == SkipSpace(str, st.pos) && NoNul(str[p..])
    requires DecodeWord(str[p..], names, ToCode, DecodedSize, iconv).None? && e == TokenEnd(str, p)
    ensures Step(names, iconv, str, st) == TextState(e, Append(st.text, str[p..e] + Sep(str, e), |str| + 1), st.buf)
  {
  }

  /** The passes of the loop from st until str is used up. */
  function Run(names: seq<string>, iconv: Converter, str: string, st: TextState): (r: TextState)
    requires NoNul(str) && Fits(str, st)
    ensures Fits(str, r) && r.pos == |str|
    decreases |str| - st.pos
  {
    if st.pos < |str| then Run(names, iconv, str, Step(names, iconv, str, st)) else st
  }

  /** decode_text of str, with a decoded buffer that holds stack when the call starts. */
  function DecodedText(names: seq<string>, iconv: Converter, str: string, stack: string): (r: TextState)
    requires NoNul(str) && |stack| == DecodedSize
    ensures Fits(str, r) && r.pos == |str|
  {
    Run(names, iconv, str, TextState(0, "", stack))
  }

  /** The token copy one byte further: the byte is kept when there is room for it. */
  lemma {:induction false} AppendNext(text: string, str: string, p: nat, e: nat, size: nat)
    requires p <= e < |str| && |text| < size
    ensures Append(text, str[p..e + 1], size) ==
      if |Append(text, str[p..e], size)| + 1 < size then Append(text, str[p..e], size) + [str[e]]
      else Append(text, str[p..e], size)
  {
    AppendTwice(text, str[p..e], [str[e]], size);
    AppendOne(Append(text, str[p..e], size), str[e], size);
    assert str[p..e + 1] == str[p..e] + [str[e]];
  }

  /**
   * The copy loop of decode_text: the bytes of str from p up to the next
   * white space, written from ret[cp] on, where ret holds text; bytes
   * that would not fit before the last byte of ret are passed over.
   */
  method CopyBytes(ret: array<char>, cp: nat, str: string, p: nat, ghost text: string) returns (e: nat, c: nat)
    requires NoNul(str) && NoNul(text) && p <= |str| && cp == |text| < ret.Length
    requires forall k :: 0 <= k < cp ==> ret[k] == text[k]
    modifies ret
    ensures e == TokenEnd(str, p) && c == |Append(text, str[p..e], ret.Length)|
    ensures forall k :: 0 <= k < c ==> ret[k] == Append(text, str[p..e], ret.Length)[k]
  {
    c := cp;
    e := p;
    ghost var w := text;
    assert str[p..p] == [];
    AppendNothing(text, ret.Length);
    while e < |str| && !IsSpace(str[e])
      invariant p <= e <= TokenEnd(str, p)
      invariant w == Append(text, str[p..e], ret.Length) && c == |w|
      invariant forall k :: 0 <= k < c ==> ret[k] == w[k]
    {
      AppendNext(text, str, p, e, ret.Length);
      if c < ret.Length - 1 {
        ret[c] := str[e];
        c := c + 1;
      }
      w := Append(text, str[p..e + 1], ret.Length);
      e := e + 1;
    }
    TokenEndAt(str, p, e);
  }

  /**
   * The token copy of decode_text: the bytes up to the next white space
   * from p, then a space when input remains, then the NUL, written from
   * ret[cp] on, where ret holds text; bytes that would not fit before the
   * last byte of ret are passed over.
   */
  method CopyToken(ret: array<char>, cp: nat, str: string, p: nat, ghost text: string) returns (e: nat)
    requires NoNul(str) && NoNul(text) && p <= |str| && cp == |text| < ret.Length && ret[..cp] == text
    modifies ret
    ensures e == TokenEnd(str, p)
    ensures HoldsCStr(ret[..], Append(text, str[p..e] + Sep(str, e), ret.Length))
  {
    var c;
    e, c := CopyBytes(ret, cp, str, p, text);
    ghost var w := Append(text, str[p..e], ret.Length);
    AppendTwice(text, str[p..e], Sep(str, e), ret.Length);
    if e < |str| {
      AppendOne(w, ' ', ret.Length);
      if c < ret.Length - 1 {
        ret[c] := ' ';
        c := c + 1;
      }
      w := Append(w, " ", ret.Length);
    } else {
      AppendNothing(w, ret.Length);
    }
    ret[c] := '\0';
    assert ret[..c] == w;
  }

  /** The decoded word into ret: strlcpy on the first pass, strlcat after it. */
  method PutDecoded(ret: array<char>, src: seq<char>, i: int, ghost text: string)
    requires 1 <= ret.Length
    requires i == 0 ==> text == ""
    requires i != 0 ==> HoldsCStr(ret[..], text)
    modifies ret
    ensures HoldsCStr(ret[..], Append(text, CStr(src), ret.Length))
  {
    if i == 0 {
      StrlCpy(ret, src);
    } else {
      StrlCat(ret, src, text);
    }
  }

  /** The token into ret: from its start on the first pass, after its C string later. */
  method PutToken(ret: array<char>, str: string, p: nat, i: int, ghost text: string) returns (e: nat)
    requires NoNul(str) && NoNul(text) && p <= |str| && |text| < ret.Length
    requires i == 0 ==> text == ""
    requires i != 0 ==> HoldsCStr(ret[..], text)
    modifies ret
    ensures e == TokenEnd(str, p)
    ensures HoldsCStr(ret[..], Append(text, str[p..e] + Sep(str, e), ret.Length))
  {
    var cp := 0;
    if i != 0 {
      cp := Strlen(ret, text);
    }
    e := CopyToken(ret, cp, str, p, text);
  }

  /**
   * One pass of the loop of decode_text, pass number i: the white space is
   * skipped, then the word there is decoded and appended to ret, strlcpy
   * on the first pass and strlcat after it, or else the token is copied.
   */
  method DecodePass(table: CharsetTable, str: string, iconv: Converter, decoded: array<char>, ret: array<char>,
                    pos: nat, i: int, ghost st: TextState) returns (next: nat)
    requires table.Valid() && NoNul(str) && decoded.Length == DecodedSize && ret.Length == |str| + 1 && ret != decoded
    requires Fits(str, st) && st.pos == pos < |str| && st.buf == decoded[..]
    requires i == 0 ==> st.text == ""
    requires i != 0 ==> HoldsCStr(ret[..], st.text)
    modifies table, decoded, ret
    ensures table.Valid()
    ensures next == Step(table.mime, iconv, str, st).pos
    ensures decoded[..] == Step(table.mime, iconv, str, st).buf
    ensures HoldsCStr(ret[..], Step(table.mime, iconv, str, st).text)
  {
    var p := SkipSpace(str, pos);
    assert NoNul(str[p..]);
    ghost var w := DecodeWord(str[p..], table.mime, ToCode, DecodedSize, iconv);
    var sz := Rfc2047Decode(table, str[p..], ToCode, iconv, decoded, DecodedSize);
    if sz > 0 {
      next := WordPass(table.mime, iconv, str, decoded, ret, p, sz, i, st, w.value);
    } else {
      next := TokenPass(table.mime, iconv, str, ret, p, i, st);
    }
  }

  /** The rest of a pass at whose skip point a word has decoded into the decoded buffer. */
  method WordPass(ghost names: seq<string>, ghost iconv: Converter, str: string, decoded: array<char>, ret: array<char>,
                  p: nat, sz: int, i: int, ghost st: TextState, ghost d: Decoded) returns (next: nat)
    requires NoNul(str) && Fits(str, st) && st.pos < |str| && p == SkipSpace(str, st.pos) && NoNul(str[p..])
    requires DecodeWord(str[p..], names, ToCode, DecodedSize, iconv) == Some(d) && sz == d.consumed
    requires decoded[..] == Overwrite(st.buf, d.output) && ret.Length == |str| + 1 && ret != decoded
    requires i == 0 ==> st.text == ""
    requires i != 0 ==> HoldsCStr(ret[..], st.text)
    modifies ret
    ensures next == Step(names, iconv, str, st).pos
    ensures decoded[..] == Step(names, iconv, str, st).buf
    ensures HoldsCStr(ret[..], Step(names, iconv, str, st).text)
  {
    StepWord(names, iconv, str, st, p, d);
    next := p + sz;
    PutDecoded(ret, decoded[..], i, st.text);
  }

  /** The rest of a pass at whose skip point no word decodes. */
  method TokenPass(ghost names: seq<string>, ghost iconv: Converter, str: string, ret: array<char>,
                   p: nat, i: int, ghost st: TextState) returns (next: nat)
    requires NoNul(str) && Fits(str, st) && st.pos < |str| && p == SkipSpace(str, st.pos) && NoNul(str[p..])
    requires DecodeWord(str[p..], names, ToCode, DecodedSize, iconv).None? && ret.Length == |str| + 1
    requires i == 0 ==> st.text == ""
    requires i != 0 ==> HoldsCStr(ret[..], st.text)
    modifies ret
    ensures next == Step(names, iconv, str, st).pos
    ensures st.buf == Step(names, iconv, str, st).buf
    ensures HoldsCStr(ret[..], Step(names, iconv, str, st).text)
  {
    next := PutToken(ret, str, p, i, st.text);
    StepToken(names, iconv, str, st, p, next);
  }

  /**
   * decode_text: a copy of str in which every word that decodes is
   * replaced by its UTF-8 text and the other tokens are kept, each
   * followed by one space when input remains.
   */
  method DecodeText(table: CharsetTable, str: string, iconv: Converter, decoded: array<char>) returns (ret: array<char>)
    requires table.Valid() && NoNul(str) && decoded.Length == DecodedSize
    modifies table, decoded
    ensures table.Valid() && fresh(ret) && ret.Length == |str| + 1
    ensures HoldsCStr(ret[..], DecodedText(table.mime, iconv, str, old(decoded[..])).text)
    ensures decoded[..] == DecodedText(table.mime, iconv, str, old(decoded[..])).buf
  {
    ret := new char[|str| + 1]((k: int) => if 0 <= k < |str| then str[k] else '\0');
    var pos := 0;
    var i := 0;
    ghost var st := TextState(0, "", decoded[..]);
    while pos < |str|
      invariant table.Valid() && ret.Length == |str| + 1
      invariant Fits(str, st) && st.pos == pos && st.buf == decoded[..]
      invariant Run(table.mime, iconv, str, st) == DecodedText(table.mime, iconv, str, old(decoded[..]))
      invariant i == 0 ==> pos == 0 && st.text == "" && ret[..] == str + ['\0']
      invariant i != 0 ==> HoldsCStr(ret[..], st.text)
      decreases |str| - pos
    {
      ghost var after := Step(table.mime, iconv, str, st);
      pos := DecodePass(table, str, iconv, decoded, ret, pos, i, st);
      i := i + 1;
      st := after;
    }
  }

  /*
   * Properties of decode_text
   */

  /** s without its isspace bytes. */
  function NonSpace(s: string): (r: string)
    ensures |r| <= |s|
  {
    if s == [] then [] else (if IsSpace(s[0]) then [] else [s[0]]) + NonSpace(s[1..])
  }

  lemma {:induction false} NonSpaceAppend(a: string, b: string)
    ensures NonSpace(a + b) == NonSpace(a) + NonSpace(b)
  {
    if a != [] {
      var h := if IsSpace(a[0]) then [] else [a[0]];
      assert (a + b)[0] == a[0] && (a + b)[1..] == a[1..] + b;
      NonSpaceAppend(a[1..], b);
      assert NonSpace(a + b) == h + (NonSpace(a[1..]) + NonSpace(b));
      assert h + (NonSpace(a[1..]) + NonSpace(b)) == (h + NonSpace(a[1..])) + NonSpace(b);
    } else {
      assert a + b == b;
    }
  }

  lemma {:induction false} NonSpaceOfSpaces(s: string)
    requires forall k :: 0 <= k < |s| ==> IsSpace(s[k])
    ensures NonSpace(s) == []
  {
    if s != [] {
      NonSpaceOfSpaces(s[1..]);
    }
  }

  lemma {:induction false} NonSpaceOfToken(s: string)
    requires forall k :: 0 <= k < |s| ==> !IsSpace(s[k])
    ensures NonSpace(s) == s
  {
    if s != [] {
      NonSpaceOfToken(s[1..]);
      assert [s[0]] + s[1..] == s;
    }
  }

  /**
   * The reference for a value with no encoded word: the tokens of s from i
   * on, each followed by one space when input remains after it.
   */
  function Collapsed(s: string, i: nat): (r: string)
    requires i <= |s|
    ensures |r| + (if i < |s| && IsSpace(s[i]) then 1 else 0) <= |s| - i
    decreases |s| - i
  {
    var p := SkipSpace(s, i);
    if p == |s| then ""
    else
      var e := TokenEnd(s, p);
      s[p..e] + Sep(s, e) + Collapsed(s, e)
  }

  /** White space in normal form: single spaces only, none first. */
  predicate Normalized(r: string) {
    (forall k :: 0 <= k < |r| ==> r[k] == ' ' || !IsSpace(r[k])) &&
    (r != [] ==> r[0] != ' ') &&
    (forall k :: 0 <= k < |r| - 1 ==> r[k] != ' ' || r[k + 1] != ' ')
  }

  /** A token, then a space or nothing, then text in normal form that must be empty when no space separates it. */
  lemma {:induction false} NormalizedJoin(tok: string, sep: string, rest: string)
    requires tok != [] && forall k :: 0 <= k < |tok| ==> !IsSpace(tok[k])
    requires sep == [] || sep == " "
    requires sep == [] ==> rest == []
    requires Normalized(rest)
    ensures Normalized(tok + sep + rest)
  {
    var r := tok + sep + rest;
    forall k | 0 <= k < |r|
      ensures r[k] == ' ' || !IsSpace(r[k])
      ensures k < |r| - 1 ==> r[k] != ' ' || r[k + 1] != ' '
    {
      if k < |tok| {
        assert r[k] == tok[k];
      } else if k == |tok| && sep != [] {
        assert r[k] == ' ';
        if k < |r| - 1 {
          assert r[k + 1] == rest[0];
        }
      } else {
        assert r[k] == rest[k - |tok| - |sep|];
        if k < |r| - 1 {
          assert r[k + 1] == rest[k + 1 - |tok| - |sep|];
        }
      }
    }
    assert r[0] == tok[0];
  }

  /** The reference is in normal form. */
  lemma {:induction false} CollapsedNormalized(s: string, i: nat)
    requires i <= |s|
    ensures Normalized(Collapsed(s, i))
    decreases |s| - i
  {
    var p := SkipSpace(s, i);
    if p < |s| {
      var e := TokenEnd(s, p);
      CollapsedNormalized(s, e);
      CollapsedUnfold(s, i, p, e);
      NormalizedJoin(s[p..e], Sep(s, e), Collapsed(s, e));
    }
  }

  /** The white space skipped before a token is all that the skip drops. */
  lemma {:induction false} NonSpaceSkip(s: string, i: nat)
    requires i <= |s|
    ensures NonSpace(s[i..]) == NonSpace(s[SkipSpace(s, i)..])
  {
    var p := SkipSpace(s, i);
    NonSpaceOfSpaces(s[i..p]);
    assert s[i..] == s[i..p] + s[p..];
    NonSpaceAppend(s[i..p], s[p..]);
  }

  lemma {:induction false} NonSpaceToken(s: string, p: nat)
    requires p <= |s|
    ensures NonSpace(s[p..]) == s[p..TokenEnd(s, p)] + NonSpace(s[TokenEnd(s, p)..])
  {
    var e := TokenEnd(s, p);
    NonSpaceOfToken(s[p..e]);
    assert s[p..] == s[p..e] + s[e..];
    NonSpaceAppend(s[p..e], s[e..]);
  }

  /** The reference, one token at a time. */
  lemma {:induction false} CollapsedUnfold(s: string, i: nat, p: nat, e: nat)
    requires i <= |s| && p == SkipSpace(s, i) && p < |s| && e == TokenEnd(s, p)
    ensures Collapsed(s, i) == s[p..e] + Sep(s, e) + Collapsed(s, e)
  {
  }

  lemma {:induction false} CollapsedHead(s: string, i: nat, p: nat, e: nat)
    requires i <= |s| && p == SkipSpace(s, i) && p < |s| && e == TokenEnd(s, p)
    ensures NonSpace(Collapsed(s, i)) == s[p..e] + NonSpace(Collapsed(s, e))
  {
    var tok, sep, rest := s[p..e], Sep(s, e), Collapsed(s, e);
    CollapsedUnfold(s, i, p, e);
    Base64.AppendAssoc(tok, sep, rest);
    NonSpaceOfToken(tok);
    NonSpaceAppend(tok, sep + rest);
    NonSpaceSep(sep, rest);
  }

  lemma {:induction false} NonSpaceSep(sep: string, rest: string)
    requires sep == [] || sep == " "
    ensures NonSpace(sep + rest) == NonSpace(rest)
  {
    NonSpaceOfSpaces(sep);
    NonSpaceAppend(sep, rest);
  }

  /** The reference loses nothing but white space. */
  lemma {:induction false} CollapsedKeeps(s: string, i: nat)
    requires i <= |s|
    ensures NonSpace(Collapsed(s, i)) == NonSpace(s[i..])
    decreases |s| - i
  {
    var p := SkipSpace(s, i);
    NonSpaceSkip(s, i);
    if p < |s| {
      var e := TokenEnd(s, p);
      CollapsedKeeps(s, e);
      CollapsedHead(s, i, p, e);
      NonSpaceToken(s, p);
    } else {
      assert s[p..] == [];
    }
  }

  /** No byte of s is '=', so no word opens anywhere in it. */
  predicate Plain(s: string) {
    forall k :: 0 <= k < |s| ==> s[k] != '='
  }

  /** A pass over a value with no '=': the text it appends is the head of the reference. */
  lemma {:induction false} PlainStep(names: seq<string>, iconv: Converter, str: string, st: TextState)
    requires NoNul(str) && Plain(str) && Fits(str, st) && st.pos < |str|
    requires |st.text| + |Collapsed(str, st.pos)| <= |str|
    ensures Step(names, iconv, str, st).buf == st.buf
    ensures Step(names, iconv, str, st).text + Collapsed(str, Step(names, iconv, str, st).pos) ==
            st.text + Collapsed(str, st.pos)
  {
    var p := SkipSpace(str, st.pos);
    assert NoNul(str[p..]);
    assert p < |str| ==> str[p..][0] == str[p];
    assert DecodeWord(str[p..], names, ToCode, DecodedSize, iconv).None?;
    var e := TokenEnd(str, p);
    if p < |str| {
      var x := str[p..e] + Sep(str, e);
      CollapsedUnfold(str, st.pos, p, e);
      assert Append(st.text, x, |str| + 1) == st.text + x;
      Base64.AppendAssoc(st.text, x, Collapsed(str, e));
    }
  }

  lemma {:induction false} RunPlain(names: seq<string>, iconv: Converter, str: string, st: TextState)
    requires NoNul(str) && Plain(str) && Fits(str, st) && |st.text| + |Collapsed(str, st.pos)| <= |str|
    ensures Run(names, iconv, str, st) == TextState(|str|, st.text + Collapsed(str, st.pos), st.buf)
    decreases |str| - st.pos
  {
    if st.pos < |str| {
      var next := Step(names, iconv, str, st);
      PlainStep(names, iconv, str, st);
      RunPlain(names, iconv, str, next);
    } else {
      assert st.text + Collapsed(str, st.pos) == st.text;
    }
  }

  /**
   * A value with no '=' decodes to its tokens joined by single spaces,
   * with a space at the end when white space ends it; the decoded buffer
   * is not touched.
   */
  lemma {:induction false} PlainValue(names: seq<string>, iconv: Converter, str: string, stack: string)
    requires NoNul(str) && Plain(str) && |stack| == DecodedSize
    ensures DecodedText(names, iconv, str, stack) == TextState(|str|, Collapsed(str, 0), stack)
  {
    RunPlain(names, iconv, str, TextState(0, "", stack));
  }

  /**
   * A converter between identical charsets: it hands back its whole input,
   * the NUL and whatever bytes follow it included.
   */
  ghost predicate Copies(iconv: Converter, from: string) {
    forall x :: iconv(ToCode, from, x) == Some(x)
  }

  /** An encoding is never shorter than the bytes it carries. */
  lemma {:induction false} EncodeAsLonger(letter: char, d: string)
    requires IsBytes(d)
    ensures |d| <= |EncodeAs(letter, d)|
  {
    if letter == 'B' {
      EncodeLength(d);
      assert 3 * ((|d| + 2) / 3) >= |d|;
    } else {
      QEncodeLonger(d);
    }
  }

  lemma {:induction false} QEncodeLonger(d: string)
    requires IsBytes(d)
    ensures |d| <= |QEncode(d)|
  {
    if d != [] {
      QEncodeLonger(d[1..]);
    }
  }

  /** The decoded buffer after an output that opens with u and its NUL holds the C string u. */
  lemma {:induction false} BufHolds(stack: string, u: string, out: string)
    requires NoNul(u) && u + ['\0'] <= out && |out| <= |stack|
    ensures CStr(Overwrite(stack, out)) == u
  {
    var buf := Overwrite(stack, out);
    assert out[..|u|] == u && out[|u|] == '\0';
    assert buf[..|u|] == u && buf[|u|] == '\0';
    CStrOfNulTerminated(buf, |u|);
  }

  /**
   * A word carrying the bytes d, decoded with a converter that copies,
   * when what the word hands iconv fits the decoded buffer: the result is
   * that input unchanged, and the word up to its `?=` is taken.
   */
  lemma {:induction false} CopiedWord(names: seq<string>, iconv: Converter, s: string,
                                      k: nat, letter: char, d: string, rest: string)
    requires WellFormedNames(names) && k < |names| && Copies(iconv, names[k])
    requires IsBytes(d) && NoNul(d) && |WordBytes(letter, d)| <= DecodedSize && (letter == 'B' || letter == 'Q')
    requires NoNul(rest) && EndsAfter(rest) && IsWord(s, names[k], letter, EncodeAs(letter, d), rest)
    ensures NoNul(s)
    ensures DecodeWord(s, names, ToCode, DecodedSize, iconv) == Some(Decoded(|s| - |rest|, WordBytes(letter, d)))
  {
    var input := WordRoundTrip(names, k, letter, d, rest, s, ToCode, DecodedSize, iconv);
    assert iconv(ToCode, names[k], input) == Some(input);
  }

  /** The rest after a word inside a string with no NUL has no NUL. */
  lemma {:induction false} RestNoNul(s: string, name: string, letter: char, e: string, rest: string)
    requires NoNul(s) && IsWord(s, name, letter, e, rest)
    ensures NoNul(rest)
  {
    forall m | 0 <= m < |rest|
      ensures rest[m] != '\0'
    {
      assert s[|name| + |e| + 7 + m] == rest[m];
    }
  }

  /**
   * A pass that meets a word carrying the bytes d, after any white space:
   * it takes the word and appends d with no separator; the decoded buffer
   * holds what the word handed iconv, d and its NUL first.
   */
  lemma {:induction false} WordStep(names: seq<string>, iconv: Converter, str: string, st: TextState, p: nat,
                                    k: nat, letter: char, d: string, rest: string)
    requires NoNul(str) && Fits(str, st) && st.pos < |str| && p == SkipSpace(str, st.pos)
    requires WellFormedNames(names) && k < |names| && Copies(iconv, names[k])
    requires IsBytes(d) && NoNul(d) && |WordBytes(letter, d)| <= DecodedSize && (letter == 'B' || letter == 'Q')
    requires EndsAfter(rest) && IsWord(str[p..], names[k], letter, EncodeAs(letter, d), rest)
    ensures Step(names, iconv, str, st) ==
      TextState(|str| - |rest|, Append(st.text, d, |str| + 1), Overwrite(st.buf, WordBytes(letter, d)))
  {
    var s := str[p..];
    assert NoNul(s);
    RestNoNul(s, names[k], letter, EncodeAs(letter, d), rest);
    CopiedWord(names, iconv, s, k, letter, d, rest);
    BufHolds(st.buf, d, WordBytes(letter, d));
  }

  /** A word is longer than the bytes it carries. */
  lemma {:induction false} WordLonger(s: string, name: string, letter: char, d: string, rest: string)
    requires IsBytes(d) && IsWord(s, name, letter, EncodeAs(letter, d), rest)
    ensures |d| + |rest| + 7 <= |s|
  {
    EncodeAsLonger(letter, d);
  }

  /** The first pass over a value that opens with a word: the text becomes the bytes of the word. */
  lemma {:induction false} FirstWord(names: seq<string>, iconv: Converter, str: string, stack: string,
                                     k: nat, letter: char, d: string, rest: string)
    requires NoNul(str) && |stack| == DecodedSize && WellFormedNames(names) && k < |names| && Copies(iconv, names[k])
    requires IsBytes(d) && NoNul(d) && |WordBytes(letter, d)| <= DecodedSize && (letter == 'B' || letter == 'Q')
    requires IsWord(str, names[k], letter, EncodeAs(letter, d), rest) && EndsAfter(rest)
    ensures |d| + |rest| + 7 <= |str|
    ensures Step(names, iconv, str, TextState(0, "", stack)) ==
      TextState(|str| - |rest|, d, Overwrite(stack, WordBytes(letter, d)))
  {
    WordLonger(str, names[k], letter, d, rest);
    assert SkipSpace(str, 0) == 0 && str[0..] == str;
    WordStep(names, iconv, str, TextState(0, "", stack), 0, k, letter, d, rest);
    assert Append("", d, |str| + 1) == d;
  }

  /** A pass over a word that ends the value: the run ends with the bytes of the word appended. */
  lemma {:induction false} LastWord(names: seq<string>, iconv: Converter, str: string, st: TextState, p: nat,
                                    k: nat, letter: char, d: string)
    requires NoNul(str) && Fits(str, st) && st.pos < |str| && p == SkipSpace(str, st.pos)
    requires WellFormedNames(names) && k < |names| && Copies(iconv, names[k])
    requires IsBytes(d) && NoNul(d) && |WordBytes(letter, d)| <= DecodedSize && (letter == 'B' || letter == 'Q')
    requires IsWord(str[p..], names[k], letter, EncodeAs(letter, d), []) && |st.text| + |d| <= |str|
    ensures Run(names, iconv, str, st) == TextState(|str|, st.text + d, Overwrite(st.buf, WordBytes(letter, d)))
  {
    WordStep(names, iconv, str, st, p, k, letter, d, []);
    var next := TextState(|str|, st.text + d, Overwrite(st.buf, WordBytes(letter, d)));
    assert Append(st.text, d, |str| + 1) == st.text + d;
    assert Step(names, iconv, str, st) == next;
    assert Run(names, iconv, str, next) == next;
  }

  /**
   * Two words separated by white space, the second ending the value,
   * decode to their bytes joined with nothing between them.
   */
  lemma {:induction false} TwoWordsJoin(names: seq<string>, iconv: Converter, str: string, stack: string,
                                        k1: nat, l1: char, d1: string, rest1: string, k2: nat, l2: char, d2: string)
    requires NoNul(str) && |stack| == DecodedSize && WellFormedNames(names)
    requires k1 < |names| && k2 < |names| && Copies(iconv, names[k1]) && Copies(iconv, names[k2])
    requires IsBytes(d1) && NoNul(d1) && |WordBytes(l1, d1)| <= DecodedSize && (l1 == 'B' || l1 == 'Q')
    requires IsBytes(d2) && NoNul(d2) && |WordBytes(l2, d2)| <= DecodedSize && (l2 == 'B' || l2 == 'Q')
    requires IsWord(str, names[k1], l1, EncodeAs(l1, d1), rest1) && rest1 != [] && EndsAfter(rest1)
    requires IsWord(str[SkipSpace(str, |str| - |rest1|)..], names[k2], l2, EncodeAs(l2, d2), [])
    ensures DecodedText(names, iconv, str, stack).text == d1 + d2
  {
    var q := SkipSpace(str, |str| - |rest1|);
    var st1 := TextState(|str| - |rest1|, d1, Overwrite(stack, WordBytes(l1, d1)));
    assert Fits(str, st1) && st1.pos < |str| && |d1| + |rest1| + 7 <= |str| &&
      DecodedText(names, iconv, str, stack) == Run(names, iconv, str, st1) by {
      FirstWord(names, iconv, str, stack, k1, l1, d1, rest1);
      RunFromFirst(names, iconv, str, stack, st1);
    }
    assert |d2| + 7 <= |str| - q by {
      WordLonger(str[q..], names[k2], l2, d2, []);
    }
    LastWord(names, iconv, str, st1, q, k2, l2, d2);
  }

  /** decode_text runs on from wherever its first pass leaves it. */
  lemma {:induction false} RunFromFirst(names: seq<string>, iconv: Converter, str: string, stack: string, st: TextState)
    requires NoNul(str) && |stack| == DecodedSize && str != []
    requires Step(names, iconv, str, TextState(0, "", stack)) == st
    ensures Fits(str, st) && DecodedText(names, iconv, str, stack) == Run(names, iconv, str, st)
  {
  }

  /*
   * decode_text as written: skip_ws leaves '\v' and '\f' where the token
   * copy, which stops at every isspace byte, cannot take them.
   */

  /** strlcat as decode_text calls it: once ret holds retsiz - 1 bytes or more, it writes nothing. */
  function AppendAsWritten(a: string, b: string, size: nat): (r: string)
    ensures |a| < size ==> r == Append(a, b, size)
    ensures |a| >= size ==> r == a
  {
    if |a| < size then Append(a, b, size) else a
  }

  /** One pass of the loop as written: skip_ws, and a token copy with no bound. */
  function StepAsWritten(names: seq<string>, iconv: Converter, str: string, st: TextState): (r: TextState)
    requires NoNul(str) && st.pos < |str| && |st.buf| == DecodedSize
    ensures st.pos <= r.pos <= |str| && |r.buf| == DecodedSize
  {
    var p := SkipWs(str, st.pos);
    assert NoNul(str[p..]);
    match DecodeWord(str[p..], names, ToCode, DecodedSize, iconv)
    case Some(d) =>
      var buf := Overwrite(st.buf, d.output);
      TextState(p + d.consumed, AppendAsWritten(st.text, CStr(buf), |str| + 1), buf)
    case None =>
      var e := TokenEnd(str, p);
      TextState(e, st.text + str[p..e] + Sep(str, e), st.buf)
  }

  /** n passes of the loop as written, or fewer when str is used up. */
  function PassesAsWritten(names: seq<string>, iconv: Converter, str: string, st: TextState, n: nat): (r: TextState)
    requires NoNul(str) && st.pos <= |str| && |st.buf| == DecodedSize
    ensures r.pos <= |str| && |r.buf| == DecodedSize
    decreases n
  {
    if n == 0 || st.pos == |str| then st
    else PassesAsWritten(names, iconv, str, StepAsWritten(names, iconv, str, st), n - 1)
  }

  /**
   * Once str reaches a vertical tab or a form feed, the loop as written
   * stays there for good and appends a space on every pass: after n passes
   * ret holds n more bytes, whatever its size.
   */
  lemma {:induction false} StallAsWritten(names: seq<string>, iconv: Converter, str: string, st: TextState, n: nat)
    requires NoNul(str) && st.pos < |str| && |st.buf| == DecodedSize
    requires str[st.pos] == '\U{0B}' || str[st.pos] == '\U{0C}'
    ensures PassesAsWritten(names, iconv, str, st, n) == TextState(st.pos, st.text + seq(n, _ => ' '), st.buf)
    decreases n
  {
    if n > 0 {
      assert NoNul(str[st.pos..]) && str[st.pos..][0] == str[st.pos];
      var next := StepAsWritten(names, iconv, str, st);
      assert next == TextState(st.pos, st.text + " ", st.buf);
      StallAsWritten(names, iconv, str, next, n - 1);
      assert st.text + " " + seq(n - 1, _ => ' ') == st.text + seq(n, _ => ' ');
    }
  }

  /** No vertical tab or form feed in s from i on: the bytes where skip_ws and isspace differ. */
  predicate NoVtFf(s: string, i: nat) {
    forall k :: i <= k < |s| ==> s[k] != '\U{0B}' && s[k] != '\U{0C}'
  }

  /** The token copy of the pass from st, if the pass copies a token, fits in ret with its space. */
  ghost predicate TokenFits(names: seq<string>, iconv: Converter, str: string, st: TextState)
    requires NoNul(str) && Fits(str, st) && st.pos < |str|
  {
    var p := SkipSpace(str, st.pos);
    var e := TokenEnd(str, p);
    assert NoNul(str[p..]);
    DecodeWord(str[p..], names, ToCode, DecodedSize, iconv).None? ==> |st.text| + (e - p) + |Sep(str, e)| <= |str|
  }

  /**
   * Every token copy of the passes from st fits in ret: the token and
   * its space end before the last byte. A decoded word may be cut by
   * strlcat in either loop; a token copy is cut only by the bounded one.
   */
  ghost predicate TokensFit(names: seq<string>, iconv: Converter, str: string, st: TextState)
    requires NoNul(str) && Fits(str, st)
    decreases |str| - st.pos
  {
    st.pos < |str| ==> TokenFits(names, iconv, str, st) && TokensFit(names, iconv, str, Step(names, iconv, str, st))
  }

  /** Where the skips agree and the token fits, a pass as written is the bounded pass. */
  lemma {:induction false} PassAgrees(names: seq<string>, iconv: Converter, str: string, st: TextState)
    requires NoNul(str) && Fits(str, st) && st.pos < |str| && NoVtFf(str, st.pos)
    requires TokenFits(names, iconv, str, st)
    ensures StepAsWritten(names, iconv, str, st) == Step(names, iconv, str, st)
  {
    SkipWsAgrees(str, st.pos);
    var p := SkipSpace(str, st.pos);
    assert NoNul(str[p..]);
    if DecodeWord(str[p..], names, ToCode, DecodedSize, iconv).None? {
      var e := TokenEnd(str, p);
      var x := str[p..e] + Sep(str, e);
      assert Append(st.text, x, |str| + 1) == st.text + x;
      Base64.AppendAssoc(st.text, str[p..e], Sep(str, e));
      StepToken(names, iconv, str, st, p, e);
    } else {
      StepWord(names, iconv, str, st, p, DecodeWord(str[p..], names, ToCode, DecodedSize, iconv).value);
    }
  }

  /** Where the skips agree and every token copy fits, a pass as written is the bounded pass, and the copies after it fit. */
  lemma {:induction false} StepAgrees(names: seq<string>, iconv: Converter, str: string, st: TextState)
    requires NoNul(str) && Fits(str, st) && st.pos < |str| && NoVtFf(str, st.pos)
    requires TokensFit(names, iconv, str, st)
    ensures StepAsWritten(names, iconv, str, st) == Step(names, iconv, str, st)
    ensures TokensFit(names, iconv, str, Step(names, iconv, str, st))
  {
    PassAgrees(names, iconv, str, st);
  }

  /*
   * The two loops compared pass by pass: each loop is a function from
   * state to state, which leaves a state whose value is used up as it is,
   * and n passes of it are iterated. Comparing the iterations of the two
   * functions needs nothing of what a pass does.
   */

  /** n passes of a loop whose pass is f. */
  ghost function Iterate(f: TextState -> TextState, st: TextState, n: nat): (r: TextState)
    decreases n
  {
    if n == 0 then st else Iterate(f, f(st), n - 1)
  }

  lemma IterateNext(f: TextState -> TextState, st: TextState, n: nat)
    requires n > 0
    ensures Iterate(f, st, n) == Iterate(f, f(st), n - 1)
  {
  }

  /** Two loops whose passes agree on every good state, and keep it good, agree from a good state. */
  lemma {:induction false} IterateAlike(f: TextState -> TextState, g: TextState -> TextState,
                                        good: TextState -> bool, st: TextState, n: nat)
    requires forall s: TextState {:trigger good(s)} :: good(s) ==> f(s) == g(s)
    requires forall s: TextState {:trigger good(s)} :: good(s) ==> good(f(s))
    requires good(st)
    ensures Iterate(f, st, n) == Iterate(g, st, n)
    decreases n
  {
    if n > 0 {
      IterateAlike(f, g, good, f(st), n - 1);
    }
  }

  /** Passes of a loop from a state it leaves as it is. */
  lemma {:induction false} IterateStays(f: TextState -> TextState, st: TextState, n: nat)
    requires f(st) == st
    ensures Iterate(f, st, n) == st
    decreases n
  {
    if n > 0 {
      IterateStays(f, st, n - 1);
    }
  }

  /** The bounded pass as a function of the state. */
  ghost function BoundedPass(names: seq<string>, iconv: Converter, str: string): (f: TextState -> TextState)
    ensures forall st: TextState {:trigger f(st)} :: NoNul(str) && Fits(str, st) && st.pos < |str| ==> f(st) == Step(names, iconv, str, st)
  {
    (st: TextState) => if NoNul(str) && Fits(str, st) && st.pos < |str| then Step(names, iconv, str, st) else st
  }

  /** The pass as written as a function of the state. */
  ghost function PassAsWritten(names: seq<string>, iconv: Converter, str: string): (f: TextState -> TextState)
    ensures forall st: TextState {:trigger f(st)} :: NoNul(str) && st.pos < |str| && |st.buf| == DecodedSize ==> f(st) == StepAsWritten(names, iconv, str, st)
  {
    (st: TextState) => if NoNul(str) && st.pos < |str| && |st.buf| == DecodedSize then StepAsWritten(names, iconv, str, st) else st
  }

  /** The states from which both loops go on alike. */
  ghost function Alike(names: seq<string>, iconv: Converter, str: string): (good: TextState -> bool)
    ensures forall st: TextState {:trigger good(st)} ::
      good(st) == (NoNul(str) && Fits(str, st) && NoVtFf(str, 0) && TokensFit(names, iconv, str, st))
  {
    (st: TextState) => NoNul(str) && Fits(str, st) && NoVtFf(str, 0) && TokensFit(names, iconv, str, st)
  }

  /** A loop that runs to the end in passes of f ends where n of its passes do, for every n that is enough. */
  lemma {:induction false} IterateEnds(f: TextState -> TextState, run: TextState -> TextState,
                                       good: TextState -> bool, end: nat, st: TextState, n: nat)
    requires forall s: TextState {:trigger good(s)} :: good(s) && s.pos < end ==>
      run(s) == run(f(s)) && good(f(s)) && s.pos < f(s).pos
    requires forall s: TextState {:trigger good(s)} :: good(s) && end <= s.pos ==> run(s) == s && f(s) == s
    requires good(st) && end <= st.pos + n
    ensures run(st) == Iterate(f, st, n)
    decreases n
  {
    if st.pos < end {
      IterateEnds(f, run, good, end, f(st), n - 1);
    } else {
      IterateStays(f, st, n);
    }
  }

  /** The bounded loop run to the end from a state, or the state itself where the loop cannot start. */
  ghost function RunFrom(names: seq<string>, iconv: Converter, str: string): (run: TextState -> TextState)
    ensures forall st: TextState {:trigger run(st)} :: NoNul(str) && Fits(str, st) ==> run(st) == Run(names, iconv, str, st)
  {
    (st: TextState) => if NoNul(str) && Fits(str, st) then Run(names, iconv, str, st) else st
  }

  /** The states the bounded loop can start from. */
  ghost function Fitting(str: string): (good: TextState -> bool)
    ensures forall st: TextState {:trigger good(st)} :: good(st) == (NoNul(str) && Fits(str, st))
  {
    (st: TextState) => NoNul(str) && Fits(str, st)
  }

  /** A bounded pass keeps the state fitting, moves on, and leaves the end of the run where it is. */
  lemma RunPasses(names: seq<string>, iconv: Converter, str: string)
    ensures forall s: TextState {:trigger Fitting(str)(s)} :: Fitting(str)(s) && s.pos < |str| ==>
      RunFrom(names, iconv, str)(s) == RunFrom(names, iconv, str)(BoundedPass(names, iconv, str)(s)) &&
      Fitting(str)(BoundedPass(names, iconv, str)(s)) && s.pos < BoundedPass(names, iconv, str)(s).pos
    ensures forall s: TextState {:trigger Fitting(str)(s)} :: Fitting(str)(s) && |str| <= s.pos ==>
      RunFrom(names, iconv, str)(s) == s && BoundedPass(names, iconv, str)(s) == s
  {
    var good := Fitting(str);
    var f := BoundedPass(names, iconv, str);
    var run := RunFrom(names, iconv, str);
    forall s: TextState | good(s) && s.pos < |str|
      ensures run(s) == run(f(s)) && good(f(s)) && s.pos < f(s).pos
    {
      assert f(s) == Step(names, iconv, str, s);
    }
  }

  /** The bounded loop run to the end is n of its passes, for every n that is enough. */
  lemma {:induction false} RunIterates(names: seq<string>, iconv: Converter, str: string, st: TextState, n: nat)
    requires NoNul(str) && Fits(str, st) && |str| - st.pos <= n
    ensures Run(names, iconv, str, st) == Iterate(BoundedPass(names, iconv, str), st, n)
  {
    RunPasses(names, iconv, str);
    IterateEnds(BoundedPass(names, iconv, str), RunFrom(names, iconv, str), Fitting(str), |str|, st, n);
  }

  /** The first of n passes of the loop as written. */
  lemma {:induction false} PassesNext(names: seq<string>, iconv: Converter, str: string, st: TextState, n: nat)
    requires NoNul(str) && st.pos < |str| && |st.buf| == DecodedSize && 0 < n
    ensures PassAsWritten(names, iconv, str)(st).pos <= |str| && |PassAsWritten(names, iconv, str)(st).buf| == DecodedSize
    ensures PassesAsWritten(names, iconv, str, st, n) == PassesAsWritten(names, iconv, str, PassAsWritten(names, iconv, str)(st), n - 1)
  {
  }

  /** n passes of the loop as written are n of its passes. */
  lemma {:induction false} PassesIterate(names: seq<string>, iconv: Converter, str: string, st: TextState, n: nat)
    requires NoNul(str) && st.pos <= |str| && |st.buf| == DecodedSize
    ensures PassesAsWritten(names, iconv, str, st, n) == Iterate(PassAsWritten(names, iconv, str), st, n)
    decreases n
  {
    var f := PassAsWritten(names, iconv, str);
    if n > 0 {
      if st.pos < |str| {
        PassesNext(names, iconv, str, st, n);
        PassesIterate(names, iconv, str, f(st), n - 1);
        IterateNext(f, st, n);
      } else {
        PassEnds(names, iconv, str, st);
        IterateStays(f, st, n);
      }
    }
  }

  /** At the end of the value, a pass as written leaves the state alone. */
  lemma PassEnds(names: seq<string>, iconv: Converter, str: string, st: TextState)
    requires st.pos == |str|
    ensures PassAsWritten(names, iconv, str)(st) == st
  {
  }

  /** From a state where the skips agree and the token copies fit, the passes agree and go on from such a state. */
  lemma PassesAlike(names: seq<string>, iconv: Converter, str: string)
    ensures forall st: TextState {:trigger Alike(names, iconv, str)(st)} :: Alike(names, iconv, str)(st) ==>
      PassAsWritten(names, iconv, str)(st) == BoundedPass(names, iconv, str)(st)
    ensures forall st: TextState {:trigger Alike(names, iconv, str)(st)} :: Alike(names, iconv, str)(st) ==>
      Alike(names, iconv, str)(BoundedPass(names, iconv, str)(st))
  {
    var good := Alike(names, iconv, str);
    forall st: TextState | good(st)
      ensures PassAsWritten(names, iconv, str)(st) == BoundedPass(names, iconv, str)(st)
      ensures good(BoundedPass(names, iconv, str)(st))
    {
      if st.pos < |str| {
        StepAgrees(names, iconv, str, st);
      }
    }
  }

  /**
   * On a value with no vertical tab or form feed whose token copies fit
   * in ret, decode_text as written, run until the end of the value, gives
   * the text and the decoded buffer of the bounded model.
   */
  lemma AsWrittenAgrees(names: seq<string>, iconv: Converter, str: string, stack: string)
    requires NoNul(str) && |stack| == DecodedSize && NoVtFf(str, 0)
    requires TokensFit(names, iconv, str, TextState(0, "", stack))
    ensures PassesAsWritten(names, iconv, str, TextState(0, "", stack), |str|) == DecodedText(names, iconv, str, stack)
  {
    var st := TextState(0, "", stack);
    PassesAlike(names, iconv, str);
    IterateAlike(PassAsWritten(names, iconv, str), BoundedPass(names, iconv, str), Alike(names, iconv, str), st, |str|);
    PassesIterate(names, iconv, str, st, |str|);
    RunIterates(names, iconv, str, st, |str|);
  }

  /** In a value with no '=', every token copy fits: the text so far and the rest of the reference fit in |str| bytes. */
  lemma {:induction false} PlainTokensFit(names: seq<string>, iconv: Converter, str: string, st: TextState)
    requires NoNul(str) && Plain(str) && Fits(str, st)
    requires |st.text| + |Collapsed(str, st.pos)| <= |str|
    ensures TokensFit(names, iconv, str, st)
    decreases |str| - st.pos
  {
    if st.pos < |str| {
      var p := SkipSpace(str, st.pos);
      if p < |str| {
        CollapsedUnfold(str, st.pos, p, TokenEnd(str, p));
      }
      PlainStep(names, iconv, str, st);
      PlainTokensFit(names, iconv, str, Step(names, iconv, str, st));
    }
  }

  /** On a value with no '=' and no vertical tab or form feed, decode_text as written is the bounded model. */
  lemma PlainAsWritten(names: seq<string>, iconv: Converter, str: string, stack: string)
    requires NoNul(str) && |stack| == DecodedSize && NoVtFf(str, 0) && Plain(str)
    ensures PassesAsWritten(names, iconv, str, TextState(0, "", stack), |str|) == TextState(|str|, Collapsed(str, 0), stack)
  {
    PlainTokensFit(names, iconv, str, TextState(0, "", stack));
    AsWrittenAgrees(names, iconv, str, stack);
    PlainValue(names, iconv, str, stack);
  }

  /*
   * A decoded word can be longer than the encoded word it replaces: text
   * in ISO-8859-1 becomes up to twice as long in UTF-8. decode_text sizes
   * ret by str, and strlcat stops at that size, but the token copy of the
   * loop as written has no bound.
   */

  /** The UTF-8 form of ISO-8859-1 text: a byte below 0x80 is kept, any other becomes two bytes. */
  function Latin1ToUtf8(s: string): (r: string)
    ensures |s| <= |r| <= 2 * |s| && (NoNul(s) ==> NoNul(r))
  {
    if s == [] then []
    else
      var c := s[0] as int;
      (if c < 0x80 then [s[0]] else [(0xC0 + c / 64) as char, (0x80 + c % 64) as char]) + Latin1ToUtf8(s[1..])
  }

  /** Text with every byte at 0x80 or above doubles in length. */
  lemma {:induction false} Latin1Doubles(s: string)
    requires forall i :: 0 <= i < |s| ==> s[i] as int >= 0x80
    ensures |Latin1ToUtf8(s)| == 2 * |s|
  {
    if s != [] {
      Latin1Doubles(s[1..]);
    }
  }

  /** Converting byte by byte: the UTF-8 form of two pieces is the form of the first, then of the second. */
  lemma {:induction false} Latin1Concat(a: string, b: string)
    ensures Latin1ToUtf8(a + b) == Latin1ToUtf8(a) + Latin1ToUtf8(b)
  {
    if a == [] {
      assert a + b == b;
    } else {
      assert (a + b)[0] == a[0] && (a + b)[1..] == a[1..] + b;
      Latin1Concat(a[1..], b);
    }
  }

  /**
   * An iconv that converts ISO-8859-1 to UTF-8 and knows no other charset:
   * every byte it is handed is converted, the NUL and what follows it too.
   */
  function Latin1Iconv(tocode: string, from: string, x: string): (r: Option<string>)
    ensures r.Some? <==> from == "iso-8859-1"
  {
    if from == "iso-8859-1" then Some(Latin1ToUtf8(x)) else None
  }

  /** Latin1Iconv on an input that opens with d and a NUL: its output opens with the UTF-8 form of d and a NUL. */
  lemma {:induction false} Latin1Prefix(d: string, x: string)
    requires d + ['\0'] <= x
    ensures Latin1ToUtf8(d) + ['\0'] <= Latin1ToUtf8(x)
  {
    assert x == (d + ['\0']) + x[|d| + 1..];
    Latin1Concat(d + ['\0'], x[|d| + 1..]);
    Latin1Concat(d, ['\0']);
    assert Latin1ToUtf8(['\0']) == ['\0'];
  }

  /** No word decodes from a string too short to hold one. */
  lemma {:induction false} ShortNoWord(s: string, names: seq<string>, iconv: Converter)
    requires NoNul(s) && |s| <= 6
    ensures DecodeWord(s, names, ToCode, DecodedSize, iconv).None?
  {
  }

  /** A word followed by " x" ends in a space and an 'x'. */
  lemma {:induction false} WordThenX(str: string, name: string, e: string)
    requires IsWord(str, name, 'B', e, " x")
    ensures |str| >= 4 && str[0] == '=' && str[|str| - 2] == ' ' && str[|str| - 1] == 'x'
  {
    var t, rest := |name| + |e| + 5, " x";
    assert rest[0] == ' ' && rest[1] == 'x';
    assert str[t + 2] == rest[0];
    assert str[t + 3] == rest[1];
  }

  /** After a space, the lone 'x' at the end of str is a token, and no word. */
  lemma {:induction false} LastX(names: seq<string>, iconv: Converter, str: string)
    requires NoNul(str) && |str| >= 2 && str[|str| - 2] == ' ' && str[|str| - 1] == 'x'
    ensures SkipWs(str, |str| - 2) == |str| - 1 && SkipSpace(str, |str| - 2) == |str| - 1
    ensures DecodeWord(str[|str| - 1..], names, ToCode, DecodedSize, iconv).None?
    ensures TokenEnd(str, |str| - 1) == |str| && Sep(str, |str|) == ""
  {
    assert |str[|str| - 1..]| == 1;
  }

  /** The first pass over a word that decodes to u, as written: ret is filled up to its last byte. */
  lemma {:induction false} FirstPassAsWritten(names: seq<string>, iconv: Converter, str: string, stack: string,
                                              u: string, out: string)
    requires NoNul(str) && |str| >= 2 && str[0] == '=' && |stack| == DecodedSize
    requires NoNul(u) && u + ['\0'] <= out && |str| <= |u|
    requires DecodeWord(str, names, ToCode, DecodedSize, iconv) == Some(Decoded(|str| - 2, out))
    ensures StepAsWritten(names, iconv, str, TextState(0, "", stack)) ==
      TextState(|str| - 2, u[..|str|], Overwrite(stack, out))
  {
    assert str[0..] == str;
    BufHolds(stack, u, out);
    assert Append("", u, |str| + 1) == u[..|str|];
  }

  /** The same pass with the bound. */
  lemma {:induction false} FirstPass(names: seq<string>, iconv: Converter, str: string, stack: string,
                                     u: string, out: string)
    requires NoNul(str) && |str| >= 2 && str[0] == '=' && |stack| == DecodedSize
    requires NoNul(u) && u + ['\0'] <= out && |str| <= |u|
    requires DecodeWord(str, names, ToCode, DecodedSize, iconv) == Some(Decoded(|str| - 2, out))
    ensures Step(names, iconv, str, TextState(0, "", stack)) ==
      TextState(|str| - 2, u[..|str|], Overwrite(stack, out))
  {
    assert str[0..] == str;
    StepWord(names, iconv, str, TextState(0, "", stack), 0, Decoded(|str| - 2, out));
    BufHolds(stack, u, out);
    assert Append("", u, |str| + 1) == u[..|str|];
  }

  /** The pass over the final 'x', as written: it is appended whatever room is left. */
  lemma {:induction false} LastPassAsWritten(names: seq<string>, iconv: Converter, str: string, text: string, buf: string)
    requires NoNul(str) && |str| >= 2 && str[|str| - 2] == ' ' && str[|str| - 1] == 'x' && |buf| == DecodedSize
    ensures StepAsWritten(names, iconv, str, TextState(|str| - 2, text, buf)) == TextState(|str|, text + "x", buf)
  {
    LastX(names, iconv, str);
    assert str[|str| - 1..|str|] == "x";
  }

  /** The same pass with the bound, when ret is full: the 'x' is dropped. */
  lemma {:induction false} LastPass(names: seq<string>, iconv: Converter, str: string, text: string, buf: string)
    requires NoNul(str) && |str| >= 2 && str[|str| - 2] == ' ' && str[|str| - 1] == 'x' && |buf| == DecodedSize
    requires NoNul(text) && |text| == |str|
    ensures Step(names, iconv, str, TextState(|str| - 2, text, buf)) == TextState(|str|, text, buf)
  {
    LastX(names, iconv, str);
    StepToken(names, iconv, str, TextState(|str| - 2, text, buf), |str| - 1, |str|);
    assert Append(text, str[|str| - 1..|str|] + "", |str| + 1) == text;
  }

  /** The facts both runs over a word and " x" start from. */
  lemma {:induction false} XWord(names: seq<string>, iconv: Converter, str: string, k: nat, d: string, out: string)
    requires WellFormedNames(names) && k < |names| && IsBytes(d)
    requires iconv(ToCode, names[k], WordBytes('B', d)) == Some(out) && |out| <= DecodedSize
    requires IsWord(str, names[k], 'B', EncodeAs('B', d), " x")
    ensures NoNul(str) && |str| >= 4 && str[0] == '=' && str[|str| - 2] == ' ' && str[|str| - 1] == 'x'
    ensures DecodeWord(str, names, ToCode, DecodedSize, iconv) == Some(Decoded(|str| - 2, out))
  {
    var rest := " x";
    assert |rest| == 2 && NoNul(rest) && EndsAfter(rest);
    var input := WordRoundTrip(names, k, 'B', d, rest, str, ToCode, DecodedSize, iconv);
    WordThenX(str, names[k], EncodeAs('B', d));
    assert Decoded(|str| - |rest|, out) == Decoded(|str| - 2, out);
  }

  /**
   * The loop as written on a word whose UTF-8 text u is at least as long
   * as str, then " x": the first pass fills ret with |str| bytes of u, the
   * second copies 'x' after them, so the C string has |str| + 1 bytes and
   * its NUL lands at index |str| + 1, past the |str| + 1 bytes of ret.
   */
  lemma {:induction false} OverrunAsWritten(names: seq<string>, iconv: Converter, str: string, stack: string,
                                            k: nat, d: string, u: string, out: string)
    requires WellFormedNames(names) && k < |names| && IsBytes(d) && NoNul(u) && |stack| == DecodedSize
    requires iconv(ToCode, names[k], WordBytes('B', d)) == Some(out) && u + ['\0'] <= out && |out| <= DecodedSize
    requires |str| <= |u|
    requires IsWord(str, names[k], 'B', EncodeAs('B', d), " x")
    ensures NoNul(str)
    ensures var st := PassesAsWritten(names, iconv, str, TextState(0, "", stack), 2);
      st.pos == |str| && |st.text| == |str| + 1
  {
    XWord(names, iconv, str, k, d, out);
    FirstPassAsWritten(names, iconv, str, stack, u, out);
    var st1 := TextState(|str| - 2, u[..|str|], Overwrite(stack, out));
    LastPassAsWritten(names, iconv, str, st1.text, st1.buf);
    var st2 := TextState(|str|, u[..|str|] + "x", st1.buf);
    var st0 := TextState(0, "", stack);
    assert PassesAsWritten(names, iconv, str, st0, 2) == PassesAsWritten(names, iconv, str, st1, 1);
    assert PassesAsWritten(names, iconv, str, st1, 1) == PassesAsWritten(names, iconv, str, st2, 0);
  }

  /**
   * The same input with the copy bounded by ret: the result is the first
   * |str| bytes of u, and the token that does not fit is dropped.
   */
  lemma {:induction false} ExpansionBounded(names: seq<string>, iconv: Converter, str: string, stack: string,
                                            k: nat, d: string, u: string, out: string)
    requires WellFormedNames(names) && k < |names| && IsBytes(d) && NoNul(u) && |stack| == DecodedSize
    requires iconv(ToCode, names[k], WordBytes('B', d)) == Some(out) && u + ['\0'] <= out && |out| <= DecodedSize
    requires |str| <= |u|
    requires IsWord(str, names[k], 'B', EncodeAs('B', d), " x")
    ensures NoNul(str)
    ensures DecodedText(names, iconv, str, stack).text == u[..|str|]
  {
    XWord(names, iconv, str, k, d, out);
    FirstPass(names, iconv, str, stack, u, out);
    var st1 := TextState(|str| - 2, u[..|str|], Overwrite(stack, out));
    LastPass(names, iconv, str, st1.text, st1.buf);
    var st2 := TextState(|str|, u[..|str|], st1.buf);
    var st0 := TextState(0, "", stack);
    assert Run(names, iconv, str, st0) == Run(names, iconv, str, st1);
    assert Run(names, iconv, str, st1) == Run(names, iconv, str, st2);
  }

  /** Thirty bytes 0xE9 in ISO-8859-1, base64-encoded, then " x": 59 bytes whose word becomes 60 bytes of UTF-8. */
  lemma {:induction false} Latin1Input(d: string)
    requires |d| == 30 && forall i :: 0 <= i < |d| ==> d[i] == '\U{E9}'
    ensures IsBytes(d) && NoNul(d) && NoNul(Latin1ToUtf8(d)) && |Latin1ToUtf8(d)| == 60
    ensures |EncodedWord("iso-8859-1", 'B', Encode(d), " x")| == 59 && |WordBytes('B', d)| == 41
  {
    assert IsBytes(d) && NoNul(d);
    Latin1Doubles(d);
    EncodedLength(d);
    WordBytesLength('B', d);
  }

  lemma {:induction false} EncodedLength(d: string)
    requires |d| == 30 && IsBytes(d)
    ensures |Encode(d)| == 40
    ensures |EncodedWord("iso-8859-1", 'B', Encode(d), " x")| == 59
  {
    EncodeLength(d);
  }

  /**
   * The instance: str has 59 bytes and ret 60; the word hands iconv 41
   * bytes, the 30 of the text, a NUL and ten more, and their UTF-8 form
   * opens with 60 bytes before its NUL. As written the C string grows to 60 bytes and its NUL
   * is written at index 60; bounded, it keeps 59 bytes.
   */
  lemma {:induction false} Latin1Overrun(stack: string)
    requires |stack| == DecodedSize
    ensures var str := EncodedWord("iso-8859-1", 'B', Encode(seq(30, _ => '\U{E9}')), " x");
      && |str| == 59 && NoNul(str)
      && |PassesAsWritten(MimeNames, Latin1Iconv, str, TextState(0, "", stack), 2).text| == 60
      && |DecodedText(MimeNames, Latin1Iconv, str, stack).text| == 59
  {
    var d: string := seq(30, _ => '\U{E9}');
    Latin1Input(d);
    var str := EncodedWord("iso-8859-1", 'B', Encode(d), " x");
    EncodedWordIsWord("iso-8859-1", 'B', Encode(d), " x");
    var u := Latin1ToUtf8(d);
    var out := Latin1ToUtf8(WordBytes('B', d));
    Latin1Prefix(d, WordBytes('B', d));
    MimeNamesWellFormed();
    assert MimeNames[2] == "iso-8859-1";
    OverrunAsWritten(MimeNames, Latin1Iconv, str, stack, 2, d, u, out);
    ExpansionBounded(MimeNames, Latin1Iconv, str, stack, 2, d, u, out);
  }
}
