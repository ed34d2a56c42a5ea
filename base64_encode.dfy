/**
 * The Base64 encoding of section 4 of RFC 4648, as the reference against
 * which the decoder of b64_pton.c is checked: decoding the encoding of any
 * byte string gives that string back, with or without a destination bound
 * as long as the bound holds the result.
 */
module Base64Encode {
  import opened Wrappers
  import opened LibC
  import opened Base64

  /** The character of the alphabet for a six-bit value. */
  function Alphabet(v: nat): (c: char)
    requires v < 64
  {
    if v < 26 then ('A' as int + v) as char
    else if v < 52 then ('a' as int + v - 26) as char
    else if v < 62 then ('0' as int + v - 52) as char
    else if v == 62 then '+'
    else '/'
  }

  /** The character for v is a symbol of the table, other than the pad, whose value is v. */
  lemma AlphabetEntry(v: nat)
    requires v < 64
    ensures InTable(Alphabet(v)) && Alphabet(v) != '=' && !IsSpace(Alphabet(v))
    ensures TableEntry(Alphabet(v)) == v
  {
  }

  /**
   * The four symbols for the n bytes b0, b1, b2 (n from 1 to 3): the
   * missing bytes are passed as 0, which completes the last symbol with
   * zero bits, and the symbols beyond them are the pad '='.
   */
  function Quad(b0: nat, b1: nat, b2: nat, n: nat): (g: string)
    requires b0 < 256 && b1 < 256 && b2 < 256 && 1 <= n <= 3
    ensures |g| == 4
  {
    [Alphabet(b0 / 4), Alphabet(b0 % 4 * 16 + b1 / 16),
     if n >= 2 then Alphabet(b1 % 16 * 4 + b2 / 64) else '=',
     if n == 3 then Alphabet(b2 % 64) else '=']
  }

  /** Three bytes at a time become four symbols; a final one or two bytes become a padded group. */
  function Encode(d: string): (e: string)
    requires IsBytes(d)
    ensures |e| % 4 == 0
    decreases |d|
  {
    if d == [] then []
    else if |d| == 1 then Quad(d[0] as int, 0, 0, 1)
    else if |d| == 2 then Quad(d[0] as int, d[1] as int, 0, 2)
    else Quad(d[0] as int, d[1] as int, d[2] as int, 3) + Encode(d[3..])
  }

  /** Every started group of three bytes takes four symbols. */
  lemma {:induction false} EncodeLength(d: string)
    requires IsBytes(d)
    ensures |Encode(d)| == 4 * ((|d| + 2) / 3)
  {
    if |d| >= 3 {
      EncodeLength(d[3..]);
      assert (|d| + 2) / 3 == (|d[3..]| + 2) / 3 + 1;
    }
  }

  /** The encoding holds only symbols of the table and no white space. */
  lemma {:induction false} EncodeSymbols(d: string)
    requires IsBytes(d)
    ensures AllValid(Encode(d))
    ensures forall j :: 0 <= j < |Encode(d)| ==> !IsSpace(Encode(d)[j])
  {
    if |d| >= 3 {
      EncodeSymbols(d[3..]);
    }
  }

  /** Symbols drops nothing from a string without white space. */
  lemma {:induction false} SymbolsOfNoSpace(s: string)
    requires forall j :: 0 <= j < |s| ==> !IsSpace(s[j])
    ensures Symbols(s) == s
  {
    if s != [] {
      SymbolsOfNoSpace(s[..|s| - 1]);
    }
  }

  /** The four symbols of a group, emitted one after the other. */
  lemma {:induction false} EmittedGroup(g: string)
    requires |g| == 4
    ensures Emitted(g) == EmitAt(g, 0) + EmitAt(g, 1) + EmitAt(g, 2) + EmitAt(g, 3)
  {
    assert g[..3][..2][..1][..0] == [];
    assert g[..3][..2][..1] == g[..1] && g[..3][..2] == g[..2] && g[..4] == g;
    assert Emitted(g[..1]) == EmitAt(g[..1], 0) == EmitAt(g, 0);
    assert Emitted(g[..2]) == Emitted(g[..1]) + EmitAt(g[..2], 1);
    assert EmitAt(g[..2], 1) == EmitAt(g, 1);
    assert Emitted(g[..3]) == Emitted(g[..2]) + EmitAt(g[..3], 2);
    assert EmitAt(g[..3], 2) == EmitAt(g, 2);
  }

  /** The six-bit pieces of three bytes recombine into those bytes. */
  lemma {:induction false} GroupBytes(b0: nat, b1: nat, b2: nat)
    requires b0 < 256 && b1 < 256 && b2 < 256
    ensures Combine(1, b0 / 4, b0 % 4 * 16 + b1 / 16) == b0
    ensures Combine(2, b0 % 4 * 16 + b1 / 16, b1 % 16 * 4 + b2 / 64) == b1
    ensures Combine(3, b1 % 16 * 4 + b2 / 64, b2 % 64) == b2
  {
    var s1, s2 := b0 % 4 * 16 + b1 / 16, b1 % 16 * 4 + b2 / 64;
    DivMod(s1, 16, b0 % 4, b1 / 16);
    DivMod(b0, 256, 0, b0);
    DivMod(s2, 4, b1 % 16, b2 / 64);
    DivMod(s1 * 16 + s2 / 4, 256, b0 % 4, b1);
    DivMod(s2 * 64 + b2 % 64, 256, b1 % 16, b2);
  }

  /** A group emits the bytes it encodes. */
  lemma {:induction false} QuadEmits(b0: nat, b1: nat, b2: nat, n: nat)
    requires b0 < 256 && b1 < 256 && b2 < 256 && 1 <= n <= 3
    ensures Emitted(Quad(b0, b1, b2, n)) ==
      [b0 as char] + (if n >= 2 then [b1 as char] else []) + (if n == 3 then [b2 as char] else [])
  {
    var g := Quad(b0, b1, b2, n);
    AlphabetEntry(b0 / 4);
    AlphabetEntry(b0 % 4 * 16 + b1 / 16);
    AlphabetEntry(b1 % 16 * 4 + b2 / 64);
    AlphabetEntry(b2 % 64);
    EmittedGroup(g);
    GroupBytes(b0, b1, b2);
  }

  /**
   * A group never trips the bound check when the bound holds its n bytes:
   * its first two symbols come before any output, and each later symbol
   * that is checked adds a byte.
   */
  lemma {:induction false} QuadFits(b0: nat, b1: nat, b2: nat, n: nat, cap: nat)
    requires b0 < 256 && b1 < 256 && b2 < 256 && 1 <= n <= 3 && n <= cap
    ensures !Overflows(Quad(b0, b1, b2, n), cap)
  {
    var g := Quad(b0, b1, b2, n);
    assert g[..3][..2][..1][..0] == [];
    assert g[..3][..2][..1] == g[..1] && g[..3][..2] == g[..2] && g[..4] == g;
    assert EmitCount(g[..1]) == 0;
    assert EmitCount(g[..2]) == 1;
    assert !Overflows(g[..1], cap);
    assert !Overflows(g[..2], cap);
    assert EmitCount(g[..3]) == if n == 1 then 1 else 2;
    assert !Overflows(g[..3], cap);
  }

  lemma {:induction false} EmitCountAfterGroups(a: string, b: string, c: char)
    requires |a| % 4 == 0
    ensures EmitCount(a + (b + [c])) == EmitCount(a + b) + (if c != '=' && |b| % 4 != 0 then 1 else 0)
  {
    AppendAssoc(a, b, [c]);
    EmitCountStep(a + b, c);
    assert |a + b| % 4 == |b| % 4;
  }

  /** The count of emitted bytes adds up over whole groups. */
  lemma {:induction false} EmitCountAppend(a: string, b: string)
    requires |a| % 4 == 0
    ensures EmitCount(a + b) == EmitCount(a) + EmitCount(b)
  {
    if b == [] {
      assert a + b == a;
    } else {
      var b', c := b[..|b| - 1], b[|b| - 1];
      EmitCountAppend(a, b');
      EmitCountAfterGroups(a, b', c);
      EmitCountStep(b', c);
      SplitLast(b);
    }
  }

  lemma {:induction false} OverflowsAfterGroups(a: string, b: string, c: char, cap: nat)
    ensures Overflows(a + (b + [c]), cap) <==> Overflows(a + b, cap) || (c != '=' && EmitCount(a + b) >= cap)
  {
    AppendAssoc(a, b, [c]);
    OverflowsStepCount(a + b, c, cap);
  }

  /**
   * Once a whole number of groups has passed without tripping the bound,
   * the rest is checked against what is left of the bound.
   */
  lemma {:induction false} OverflowsAppend(a: string, b: string, cap: nat)
    requires |a| % 4 == 0 && !Overflows(a, cap) && EmitCount(a) <= cap
    ensures Overflows(a + b, cap) <==> Overflows(b, cap - EmitCount(a))
  {
    if b == [] {
      assert a + b == a;
    } else {
      var b', c := b[..|b| - 1], b[|b| - 1];
      OverflowsAppend(a, b', cap);
      EmitCountAppend(a, b');
      OverflowsAfterGroups(a, b', c, cap);
      OverflowsStepCount(b', c, cap - EmitCount(a));
      SplitLast(b);
    }
  }

  /** The group that encodes the first bytes of d (at most three) emits them. */
  lemma {:induction false} HeadEmits(d: string)
    requires IsBytes(d) && d != []
    ensures var n := if |d| < 3 then |d| else 3;
      Emitted(Quad(d[0] as int, if n >= 2 then d[1] as int else 0, if n == 3 then d[2] as int else 0, n)) == d[..n]
  {
    var n := if |d| < 3 then |d| else 3;
    var b0, b1, b2 := d[0] as int, if n >= 2 then d[1] as int else 0, if n == 3 then d[2] as int else 0;
    QuadEmits(b0, b1, b2, n);
    if n == 1 {
      assert d[..n] == [b0 as char];
    } else if n == 2 {
      assert d[..n] == [b0 as char, b1 as char];
    } else {
      assert d[..n] == [b0 as char, b1 as char, b2 as char];
    }
  }

  /** The encoding emits exactly the encoded bytes. */
  lemma {:induction false} EncodeEmits(d: string)
    requires IsBytes(d)
    ensures Emitted(Encode(d)) == d
    decreases |d|
  {
    if d != [] {
      HeadEmits(d);
      if |d| < 3 {
        assert d[..|d|] == d;
      } else {
        var g, e := Quad(d[0] as int, d[1] as int, d[2] as int, 3), Encode(d[3..]);
        assert Encode(d) == g + e;
        EncodeEmits(d[3..]);
        EmittedAppend(g, e);
        assert d[..3] + d[3..] == d;
      }
    }
  }

  /** The encoding never trips a bound that holds the encoded bytes. */
  lemma {:induction false} EncodeFits(d: string, cap: nat)
    requires IsBytes(d) && |d| <= cap
    ensures !Overflows(Encode(d), cap)
    decreases |d|
  {
    if d == [] {
    } else if |d| < 3 {
      var b0, b1 := d[0] as int, if |d| == 2 then d[1] as int else 0;
      QuadFits(b0, b1, 0, |d|, cap);
    } else {
      var b0, b1, b2, rest := d[0] as int, d[1] as int, d[2] as int, d[3..];
      var g, e := Quad(b0, b1, b2, 3), Encode(rest);
      assert Encode(d) == g + e;
      QuadEmits(b0, b1, b2, 3);
      EmitCountLength(g);
      QuadFits(b0, b1, b2, 3, cap);
      EncodeFits(rest, cap - 3);
      OverflowsAppend(g, e, cap);
    }
  }

  /** A string of whole groups of valid symbols decodes to what it emits, unless the bound trips. */
  lemma {:induction false} DecodeGroups(e: string, cap: Option<nat>)
    requires AllValid(e) && |e| % 4 == 0
    requires forall j :: 0 <= j < |e| ==> !IsSpace(e[j])
    requires cap.Some? ==> !Overflows(e, cap.value)
    ensures Decode(e, cap) == Some(Emitted(e))
  {
    SymbolsOfNoSpace(e);
  }

  /**
   * Decoding the encoding of any byte string gives it back, with a NULL
   * destination and with any destination of at least its size.
   */
  lemma {:induction false} RoundTrip(d: string, cap: nat)
    requires IsBytes(d) && |d| <= cap
    ensures Decode(Encode(d), None) == Some(d)
    ensures Decode(Encode(d), Some(cap)) == Some(d)
  {
    var e := Encode(d);
    EncodeSymbols(d);
    EncodeEmits(d);
    EncodeFits(d, cap);
    DecodeGroups(e, None);
    DecodeGroups(e, Some(cap));
  }
}
