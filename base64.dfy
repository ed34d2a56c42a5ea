/**
 * b64_pton: the Base64 decoder of b64_pton.c for the alphabet of section 4
 * of RFC 4648.
 *
 * The specification works symbol by symbol. White space is dropped
 * (`Symbols`); each remaining character is a symbol whose position in its
 * group of four is its index modulo 4. The symbol at position 1, 2 or 3
 * emits one byte made of its own value and the value of the symbol before
 * it (`Combine`), unless it is '='; '=' is worth 0 and is accepted at any
 * position. The method `B64Pton` keeps the 32-bit accumulator `val3` of the
 * C code and is proved to write exactly what the specification emits.
 *
 * `val3` is a `uint32_t`: it is kept as a natural number below 2^32, `|=`
 * is `BitOr`, `<<= 6` multiplies by 64 modulo 2^32, and the store of
 * `val3 >> n` into a `u_char` divides by 2^n and keeps the value modulo 256.
 */
module Base64 {
  import opened Wrappers
  import opened LibC

  /** The characters the decoding table accepts: the 64 of the alphabet and the pad '='. */
  predicate InTable(c: char) {
    'A' <= c <= 'Z' || 'a' <= c <= 'z' || '0' <= c <= '9' || c == '+' || c == '/' || c == '='
  }

  /** The value of a character in the decoding table; 0xff marks a character outside the alphabet. */
  function TableEntry(c: char): (v: nat)
    ensures InTable(c) <==> v != 0xff
    ensures v < 64 || v == 0xff
    ensures c == '=' ==> v == 0
  {
    if 'A' <= c <= 'Z' then c as int - 'A' as int
    else if 'a' <= c <= 'z' then c as int - 'a' as int + 26
    else if '0' <= c <= '9' then c as int - '0' as int + 52
    else if c == '+' then 62
    else if c == '/' then 63
    else if c == '=' then 0
    else 0xff
  }

  /** A byte as the character that holds it in a C buffer. */
  function ToChar(b: int): (c: char)
    requires 0 <= b < 256
    ensures c as int == b
  {
    b as char
  }

  /** C's `|` on unsigned values, bit by bit from the lowest. */
  function BitOr(a: nat, b: nat): nat
    decreases a + b
  {
    if a == 0 then b
    else if b == 0 then a
    else 2 * BitOr(a / 2, b / 2) + (if a % 2 == 1 || b % 2 == 1 then 1 else 0)
  }

  function Pow2(n: nat): (r: nat)
    ensures r >= 1
  {
    if n == 0 then 1 else 2 * Pow2(n - 1)
  }

  /** Or-ing a value below 2^n into a multiple of 2^n adds it. */
  lemma {:induction false} BitOrDisjoint(q: nat, b: nat, n: nat)
    requires b < Pow2(n)
    ensures BitOr(Pow2(n) * q, b) == Pow2(n) * q + b
  {
    var a := Pow2(n) * q;
    if n > 0 && a != 0 && b != 0 {
      var p := Pow2(n - 1) * q;
      assert a == 2 * p;
      BitOrDisjoint(q, b / 2, n - 1);
    }
  }

  /** `val3 <<= 6` on a `uint32_t`. */
  function ShiftLeft6(v: nat): (r: nat)
    ensures r <= UINT_MAX
  {
    v * 64 % (UINT_MAX + 1)
  }

  /** The symbols of s: its characters other than white space, in order. */
  function Symbols(s: string): (r: string)
    ensures |r| <= |s|
    ensures forall j :: 0 <= j < |r| ==> !IsSpace(r[j])
  {
    if s == [] then []
    else Symbols(s[..|s| - 1]) + (if IsSpace(s[|s| - 1]) then [] else [s[|s| - 1]])
  }

  predicate AllValid(syms: string) {
    forall j :: 0 <= j < |syms| ==> InTable(syms[j])
  }

  /**
   * The byte that the symbol at group position pos emits, given its own
   * six-bit value and its predecessor's: the low 6, 4 or 2 bits of prev
   * followed by the high 2, 4 or 6 bits of cur (section 4 of RFC 4648).
   */
  function Combine(pos: int, prev: nat, cur: nat): (b: nat)
    requires 1 <= pos <= 3
    ensures b < 256
  {
    if pos == 1 then (prev * 4 + cur / 16) % 256
    else if pos == 2 then (prev * 16 + cur / 4) % 256
    else (prev * 64 + cur) % 256
  }

  /** What the symbol at index j emits: nothing for '=' or at group position 0, otherwise one byte. */
  function EmitAt(syms: string, j: nat): (r: string)
    requires j < |syms|
    ensures |r| <= 1
    ensures |r| == 1 <==> syms[j] != '=' && j % 4 != 0
  {
    if syms[j] == '=' || j % 4 == 0 then []
    else [ToChar(Combine(j % 4, TableEntry(syms[j - 1]), TableEntry(syms[j])))]
  }

  /**
   * The bytes emitted by a sequence of symbols. The first symbol never
   * emits, so the output is shorter than the input: the write index stays
   * below the read index, which is what makes decoding in place safe.
   */
  function Emitted(syms: string): (r: string)
    ensures |r| <= |syms|
    ensures syms != [] ==> |r| < |syms|
  {
    if syms == [] then []
    else Emitted(syms[..|syms| - 1]) + EmitAt(syms, |syms| - 1)
  }

  /** How many bytes a sequence of symbols emits, counted without computing them. */
  function EmitCount(syms: string): nat {
    if syms == [] then 0
    else EmitCount(syms[..|syms| - 1]) + (if syms[|syms| - 1] != '=' && (|syms| - 1) % 4 != 0 then 1 else 0)
  }

  lemma {:induction false} EmitCountLength(syms: string)
    ensures |Emitted(syms)| == EmitCount(syms)
  {
    if syms != [] {
      EmitCountLength(syms[..|syms| - 1]);
    }
  }

  /**
   * The bound check fires on some symbol: a symbol other than '=' arrives
   * when the output already holds cap bytes.
   */
  predicate Overflows(syms: string, cap: nat) {
    syms != [] &&
    (Overflows(syms[..|syms| - 1], cap) ||
     (syms[|syms| - 1] != '=' && EmitCount(syms[..|syms| - 1]) >= cap))
  }

  /**
   * The outcome of b64_pton on the NUL-terminated string s. `cap` is the
   * size of the destination, or None when the destination is NULL and only
   * the length is wanted.
   */
  function Decode(s: string, cap: Option<nat>): (r: Option<string>)
    ensures r.Some? ==> |Symbols(s)| % 4 == 0 && AllValid(Symbols(s)) && |r.value| <= |s|
  {
    var syms := Symbols(s);
    if !AllValid(syms) then None
    else if cap.Some? && Overflows(syms, cap.value) then None
    else if |syms| % 4 != 0 then None
    else Some(Emitted(syms))
  }

  /** The value of the most recent symbol, which the accumulator holds in its bits 6 to 11. */
  function PrevValue(syms: string): nat {
    if syms == [] then 0 else TableEntry(syms[|syms| - 1])
  }

  /** The accumulator between two symbols: a `uint32_t` whose bits 0 to 5 are clear and bits 6 to 11 hold the previous symbol's value. */
  predicate AccHolds(val3: nat, syms: string) {
    val3 <= UINT_MAX && val3 % 64 == 0 && (val3 / 64) % 64 == PrevValue(syms)
  }

  /** The byte that `dst[k] = val3 >> n` stores at group position pos: n is 4, 2 or 0, truncated to a byte. */
  function StoredByte(v: nat, pos: int): (b: nat)
    requires 1 <= pos <= 3
    ensures b < 256
  {
    if pos == 1 then (v / 16) % 256
    else if pos == 2 then (v / 4) % 256
    else v % 256
  }

  lemma {:induction false} SymbolsStep(s: string, i: nat)
    requires i < |s|
    ensures Symbols(s[..i + 1]) == Symbols(s[..i]) + (if IsSpace(s[i]) then [] else [s[i]])
  {
    assert s[..i + 1][..i] == s[..i];
  }

  lemma {:induction false} EmittedStep(syms: string, c: char)
    ensures Emitted(syms + [c]) == Emitted(syms) + EmitAt(syms + [c], |syms|)
  {
    assert (syms + [c])[..|syms|] == syms;
  }

  lemma {:induction false} SymbolsAppend(a: string, b: string)
    ensures Symbols(a + b) == Symbols(a) + Symbols(b)
  {
    if b != [] {
      var b' := b[..|b| - 1];
      SymbolsAppend(a, b');
      assert (a + b)[..|a + b| - 1] == a + b';
    } else {
      assert a + b == a;
    }
  }

  lemma {:induction false} EmitCountStep(syms: string, c: char)
    ensures EmitCount(syms + [c]) == EmitCount(syms) + (if c != '=' && |syms| % 4 != 0 then 1 else 0)
  {
    assert (syms + [c])[..|syms|] == syms;
  }

  lemma {:induction false} OverflowsStepCount(syms: string, c: char, cap: nat)
    ensures Overflows(syms + [c], cap) <==> Overflows(syms, cap) || (c != '=' && EmitCount(syms) >= cap)
  {
    assert (syms + [c])[..|syms|] == syms;
  }

  lemma {:induction false} OverflowsStep(syms: string, c: char, cap: nat)
    ensures Overflows(syms + [c], cap) <==> Overflows(syms, cap) || (c != '=' && |Emitted(syms)| >= cap)
  {
    OverflowsStepCount(syms, c, cap);
    EmitCountLength(syms);
  }

  /** What one more symbol adds to the specification's output. */
  lemma {:induction false} EmitSpec(syms: string, c: char)
    ensures c == '=' || |syms| % 4 == 0 ==> Emitted(syms + [c]) == Emitted(syms)
    ensures c != '=' && |syms| % 4 != 0 ==>
      Emitted(syms + [c]) == Emitted(syms) + [ToChar(Combine(|syms| % 4, PrevValue(syms), TableEntry(c)))]
  {
    EmittedStep(syms, c);
    if c != '=' && |syms| % 4 != 0 {
      assert (syms + [c])[|syms| - 1] == syms[|syms| - 1];
    }
  }

  /** Euclidean division by the powers of two the decoder uses is determined by its quotient and remainder. */
  lemma {:induction false} DivMod(x: int, d: int, q: int, r: int)
    requires d == 4 || d == 16 || d == 64 || d == 256 || d == 0x400_0000 || d == UINT_MAX + 1
    requires x == d * q + r && 0 <= r < d
    ensures x / d == q && x % d == r
  {
    if d == 4 {
    } else if d == 16 {
    } else if d == 64 {
    } else if d == 256 {
    } else if d == 0x400_0000 {
    } else {
    }
  }

  /** A multiple of 64 or-ed with a value below 64 is their sum. */
  lemma {:induction false} BitOrLow(val3: nat, t: nat)
    requires val3 % 64 == 0 && t < 64
    ensures BitOr(val3, t) == val3 + t
  {
    assert Pow2(6) == 64;
    assert val3 == Pow2(6) * (val3 / 64);
    BitOrDisjoint(val3 / 64, t, 6);
  }

  /** The byte stored after `val3 |= t` is the byte the specification combines from prev and t. */
  lemma {:induction false} AccumulatorStore(val3: nat, prev: nat, t: nat, pos: int)
    requires t < 64 && prev < 64 && 1 <= pos <= 3
    requires val3 % 64 == 0 && (val3 / 64) % 64 == prev
    ensures StoredByte(BitOr(val3, t), pos) == Combine(pos, prev, t)
  {
    BitOrLow(val3, t);
    var r := val3 / 64 / 64;
    var v := val3 + t;
    assert v == 4096 * r + 64 * prev + t;
    if pos == 1 {
      var y := prev * 4 + t / 16;
      DivMod(v, 16, 256 * r + y, t % 16);
      DivMod(v / 16, 256, r, y);
      DivMod(y, 256, 0, y);
    } else if pos == 2 {
      var y, r4 := prev * 16 + t / 4, 4 * r;
      DivMod(v, 4, 256 * r4 + y, t % 4);
      DivMod(v / 4, 256, r4 + y / 256, y % 256);
    } else {
      var y := prev * 64 + t;
      DivMod(v, 256, 16 * r + y / 256, y % 256);
    }
  }

  /** Shifting left by six bits in 32 bits keeps the low 26 bits, moved up. */
  lemma {:induction false} ShiftKeepsLow(v: nat)
    ensures ShiftLeft6(v) == 64 * (v % 0x400_0000)
  {
    DivMod(v * 64, UINT_MAX + 1, v / 0x400_0000, 64 * (v % 0x400_0000));
  }

  /** The low six bits of a number are those of its low 26 bits. */
  lemma {:induction false} LowSixOfLow(v: nat)
    ensures (v % 0x400_0000) % 64 == v % 64
  {
    var m := v % 0x400_0000;
    DivMod(v, 64, 0x10_0000 * (v / 0x400_0000) + m / 64, m % 64);
  }

  /** After `val3 |= t; val3 <<= 6` the low six bits are clear and bits 6 to 11 hold t. */
  lemma {:induction false} AccumulatorShift(val3: nat, t: nat)
    requires t < 64 && val3 <= UINT_MAX && val3 % 64 == 0
    ensures ShiftLeft6(BitOr(val3, t)) % 64 == 0
    ensures (ShiftLeft6(BitOr(val3, t)) / 64) % 64 == t
  {
    BitOrLow(val3, t);
    var v := val3 + t;
    var m := v % 0x400_0000;
    ShiftKeepsLow(v);
    DivMod(64 * m, 64, m, 0);
    LowSixOfLow(v);
    DivMod(v, 64, val3 / 64, t);
  }

  /** A character that is white space can be inserted anywhere without changing the outcome. */
  lemma {:induction false} WhitespaceIgnored(a: string, c: char, b: string, cap: Option<nat>)
    requires IsSpace(c)
    ensures Decode(a + [c] + b, cap) == Decode(a + b, cap)
  {
    SymbolsAppend(a + [c], b);
    SymbolsAppend(a, [c]);
    SymbolsAppend(a, b);
    assert [c][..0] == [];
    assert Symbols([c]) == [];
    assert Symbols(a + [c] + b) == Symbols(a + b);
  }

  /** A character that is neither white space nor in the table makes the whole input fail. */
  lemma {:induction false} InvalidRejected(a: string, c: char, b: string, cap: Option<nat>)
    requires !IsSpace(c) && !InTable(c)
    ensures Decode(a + [c] + b, cap) == None
  {
    SymbolsAppend(a + [c], b);
    SymbolsAppend(a, [c]);
    assert [c][..0] == [];
    var syms := Symbols(a + [c] + b);
    assert syms[|Symbols(a)|] == c;
  }

  /** Output is produced group by group: what a whole number of groups emitted is not revisited. */
  /** The symbol at index j of t emits the same after a whole number of groups. */
  lemma {:induction false} EmitAtShift(a: string, t: string, j: nat)
    requires |a| % 4 == 0 && j < |t|
    ensures EmitAt(a + t, |a| + j) == EmitAt(t, j)
  {
    assert (a + t)[|a| + j] == t[j];
    assert (|a| + j) % 4 == j % 4;
    if j % 4 != 0 {
      assert (a + t)[|a| + j - 1] == t[j - 1];
    }
  }

  lemma {:induction false} SplitLast(b: string)
    requires b != []
    ensures b == b[..|b| - 1] + [b[|b| - 1]]
  {
  }

  lemma {:induction false} AppendAssoc(a: string, b: string, c: string)
    ensures a + (b + c) == (a + b) + c
  {
  }

  /** One more symbol after a whole number of groups emits what it emits after b alone. */
  lemma {:induction false} EmittedAfterGroups(a: string, b: string, c: char)
    requires |a| % 4 == 0
    ensures Emitted(a + (b + [c])) == Emitted(a + b) + EmitAt(b + [c], |b|)
  {
    AppendAssoc(a, b, [c]);
    EmittedStep(a + b, c);
    EmitAtShift(a, b + [c], |b|);
  }

  /** One more symbol after a whole number of groups emits as it would on its own. */
  lemma {:induction false} EmittedAppendStep(a: string, b: string, c: char)
    requires |a| % 4 == 0 && Emitted(a + b) == Emitted(a) + Emitted(b)
    ensures Emitted(a + (b + [c])) == Emitted(a) + Emitted(b + [c])
  {
    EmittedAfterGroups(a, b, c);
    EmittedStep(b, c);
    AppendAssoc(Emitted(a), Emitted(b), EmitAt(b + [c], |b|));
  }

  lemma {:induction false} EmittedAppend(a: string, b: string)
    requires |a| % 4 == 0
    ensures Emitted(a + b) == Emitted(a) + Emitted(b)
  {
    if b == [] {
      assert a + b == a;
    } else {
      EmittedAppend(a, b[..|b| - 1]);
      EmittedAppendStep(a, b[..|b| - 1], b[|b| - 1]);
      SplitLast(b);
    }
  }

  /**
   * A group of four symbols emits one byte for each of its last three
   * symbols that is not '=': "xxxx" gives 3 bytes, "xxx=" 2 and "xx==" 1.
   */
  lemma {:induction false} GroupOutput(syms: string, g: string)
    requires |syms| % 4 == 0 && |g| == 4
    ensures |Emitted(syms + g)| ==
      |Emitted(syms)| + (if g[1] != '=' then 1 else 0) + (if g[2] != '=' then 1 else 0) + (if g[3] != '=' then 1 else 0)
  {
    EmittedAppend(syms, g);
    assert g[..3][..2][..1][..0] == [];
    assert g[..3][..2][..1] == g[..1] && g[..3][..2] == g[..2] && g[..4] == g;
    assert |Emitted(g[..1])| == 0;
    assert |Emitted(g[..2])| == (if g[1] != '=' then 1 else 0);
    assert |Emitted(g[..3])| == |Emitted(g[..2])| + (if g[2] != '=' then 1 else 0);
  }

  /** Without an overflow the output fits the capacity. */
  lemma {:induction false} FitsWithoutOverflow(syms: string, cap: nat)
    requires !Overflows(syms, cap)
    ensures |Emitted(syms)| <= cap
  {
    if syms != [] {
      var syms' := syms[..|syms| - 1];
      EmitCountLength(syms);
      EmitCountLength(syms');
      FitsWithoutOverflow(syms', cap);
    }
  }

  /** An output that stays below the capacity never trips the bound check. */
  lemma {:induction false} NoOverflowBelow(syms: string, cap: nat)
    requires |Emitted(syms)| < cap
    ensures !Overflows(syms, cap)
  {
    if syms != [] {
      var syms' := syms[..|syms| - 1];
      EmitCountLength(syms);
      EmitCountLength(syms');
      NoOverflowBelow(syms', cap);
    }
  }

  /**
   * The destination size only ever turns a result into a failure, and a
   * result obtained with it fits in it.
   */
  lemma {:induction false} CapacityOnlyRejects(s: string, cap: nat)
    ensures Decode(s, Some(cap)).Some? ==>
      Decode(s, Some(cap)) == Decode(s, None) && |Decode(s, Some(cap)).value| <= cap
  {
    if Decode(s, Some(cap)).Some? {
      FitsWithoutOverflow(Symbols(s), cap);
    }
  }

  /** A destination larger than the decoded bytes never makes the decoding fail. */
  lemma {:induction false} CapacitySuffices(s: string, cap: nat)
    requires Decode(s, None).Some? && |Decode(s, None).value| < cap
    ensures Decode(s, Some(cap)) == Decode(s, None)
  {
    NoOverflowBelow(Symbols(s), cap);
  }

  /** The state of the decoding loop between two characters: j, the bytes stored so far, and val3. */
  datatype Scan = Scanning(j: nat, out: string, val3: nat) | Failed

  /** One pass of the loop body of b64_pton over the character c; Failed is a `return (-1)`. */
  function Step(st: Scan, c: char, cap: Option<nat>): Scan {
    if st.Failed? || IsSpace(c) then st
    else if TableEntry(c) == 0xff then Failed
    else if c != '=' && cap.Some? && |st.out| >= cap.value then Failed
    else
      var v := BitOr(st.val3, TableEntry(c));
      if c != '=' && st.j % 4 != 0 then
        Scanning(st.j + 1, st.out + [ToChar(StoredByte(v, st.j % 4))], ShiftLeft6(v))
      else Scanning(st.j + 1, st.out, ShiftLeft6(v))
  }

  /** The loop of b64_pton run over the characters of s. */
  function Run(s: string, cap: Option<nat>): Scan {
    if s == [] then Scanning(0, [], 0) else Step(Run(s[..|s| - 1], cap), s[|s| - 1], cap)
  }

  /** Run over the first i characters of s, counted from the front. */
  function RunTo(s: string, i: nat, cap: Option<nat>): Scan
    requires i <= |s|
  {
    if i == 0 then Scanning(0, [], 0) else Step(RunTo(s, i - 1, cap), s[i - 1], cap)
  }

  lemma {:induction false} RunToPrefix(s: string, i: nat, cap: Option<nat>)
    requires i <= |s|
    ensures RunTo(s, i, cap) == Run(s[..i], cap)
  {
    if i > 0 {
      RunToPrefix(s, i - 1, cap);
      RunStep(s, i - 1, cap);
    }
  }

  lemma {:induction false} RunStep(s: string, i: nat, cap: Option<nat>)
    requires i < |s|
    ensures Run(s[..i + 1], cap) == Step(Run(s[..i], cap), s[i], cap)
  {
    assert s[..i + 1][..i] == s[..i];
  }

  /** The symbols are rejected: one is outside the alphabet, or the bound check fires. */
  predicate Rejected(syms: string, cap: Option<nat>) {
    !AllValid(syms) || (cap.Some? && Overflows(syms, cap.value))
  }

  /**
   * A state of the loop agrees with the specification after the symbols
   * syms: it has failed exactly when they are rejected, and otherwise it
   * has counted them, stored what they emit, and holds the last one in val3.
   */
  predicate Agrees(st: Scan, syms: string, cap: Option<nat>) {
    (st.Failed? <==> Rejected(syms, cap)) &&
    (st.Scanning? ==> st.j == |syms| && st.out == Emitted(syms) && AccHolds(st.val3, syms))
  }

  lemma {:induction false} RejectedStays(syms: string, c: char, cap: Option<nat>)
    requires Rejected(syms, cap)
    ensures Rejected(syms + [c], cap)
  {
    if cap.Some? {
      OverflowsStep(syms, c, cap.value);
    }
    if !AllValid(syms) {
      var m :| 0 <= m < |syms| && !InTable(syms[m]);
      assert (syms + [c])[m] == syms[m];
    }
  }

  /** One symbol through the loop body keeps the loop in agreement with the specification. */
  lemma {:induction false} StepAgrees(st: Scan, syms: string, c: char, cap: Option<nat>)
    requires !IsSpace(c) && Agrees(st, syms, cap)
    ensures Agrees(Step(st, c, cap), syms + [c], cap)
  {
    if st.Failed? {
      RejectedStays(syms, c, cap);
    } else {
      EmitSpec(syms, c);
      if cap.Some? {
        OverflowsStep(syms, c, cap.value);
      }
      assert (syms + [c])[|syms|] == c;
      if InTable(c) {
        assert AllValid(syms + [c]);
        assert PrevValue(syms + [c]) == TableEntry(c);
        AccumulatorShift(st.val3, TableEntry(c));
        if c != '=' && |syms| % 4 != 0 {
          AccumulatorStore(st.val3, PrevValue(syms), TableEntry(c), |syms| % 4);
        }
      }
    }
  }

  /** The loop agrees with the symbol-wise specification on every input. */
  lemma {:induction false} RunDecodes(s: string, cap: Option<nat>)
    ensures Agrees(Run(s, cap), Symbols(s), cap)
  {
    if s != [] {
      var s', c := s[..|s| - 1], s[|s| - 1];
      RunDecodes(s', cap);
      assert Run(s, cap) == Step(Run(s', cap), c, cap);
      SymbolsStep(s, |s| - 1);
      assert s[..|s|] == s;
      if IsSpace(c) {
        assert Symbols(s) == Symbols(s');
        assert Run(s, cap) == Run(s', cap);
      } else {
        assert Symbols(s) == Symbols(s') + [c];
        StepAgrees(Run(s', cap), Symbols(s'), c, cap);
      }
    }
  }

  /** What b64_pton returns after its loop has run over the whole string. */
  lemma {:induction false} RunResult(s: string, cap: Option<nat>)
    ensures Run(s, cap).Failed? ==> Decode(s, cap) == None
    ensures Run(s, cap).Scanning? ==>
      Decode(s, cap) == if Run(s, cap).j % 4 != 0 then None else Some(Run(s, cap).out)
  {
    RunDecodes(s, cap);
  }

  /** Once the loop has failed, it stays failed. */
  lemma {:induction false} FailedStays(s: string, t: string, cap: Option<nat>)
    requires Run(s, cap) == Failed
    ensures Run(s + t, cap) == Failed
  {
    if t != [] {
      FailedStays(s, t[..|t| - 1], cap);
      assert (s + t)[..|s + t| - 1] == s + t[..|t| - 1];
    } else {
      assert s + t == s;
    }
  }

  /** A `return (-1)` inside the loop, at s[i], is what the specification decides for the whole input. */
  lemma {:induction false} FailsAt(s: string, i: nat, cap: Option<nat>)
    requires i < |s| && Step(RunTo(s, i, cap), s[i], cap) == Failed
    ensures Run(s, cap) == Failed
  {
    RunToPrefix(s, i + 1, cap);
    FailedStays(s[..i + 1], s[i + 1..], cap);
    assert s[..i + 1] + s[i + 1..] == s;
  }

  /**
   * One pass of the loop body of b64_pton for a symbol c of the alphabet:
   * the capacity check, the store of a completed byte and the shift of
   * the accumulator. It agrees with Step on the state (j, out, val3).
   */
  method Absorb(dst: array?<char>, dstsiz: nat, c: char, j: nat, k: nat, val3: nat,
                ghost st: Scan, ghost cap: Option<nat>)
    returns (ok: bool, k': nat, val3': nat)
    requires !IsSpace(c) && TableEntry(c) != 0xff
    requires cap == (if dst == null then None else Some(dstsiz))
    requires st.Scanning? && st.j == j && st.val3 == val3 && k == |st.out|
    requires dst != null ==> k <= dstsiz <= dst.Length && dst[..k] == st.out
    modifies dst
    ensures var next := Step(st, c, cap);
      (ok <==> next.Scanning?) &&
      (ok ==> next.val3 == val3' && k' == |next.out| &&
              (dst != null ==> k' <= dstsiz && dst[..k'] == next.out))
    ensures k' == k || (ok && k' == k + 1)
    ensures dst != null ==> forall m :: 0 <= m < dst.Length && (m != k || k' == k) ==> dst[m] == old(dst[m])
  {
    var v := BitOr(val3, TableEntry(c));
    k', val3' := k, ShiftLeft6(v);
    ok := true;
    if c != '=' {
      if dst != null && k >= dstsiz {
        ok := false;
        return;
      }
      if j % 4 != 0 {
        if dst != null {
          dst[k] := ToChar(if j % 4 == 1 then v / 16 % 256 else if j % 4 == 2 then v / 4 % 256 else v % 256);
          assert dst[..k + 1] == st.out + [dst[k]];
        }
        k' := k + 1;
      }
    }
  }

  /**
   * The loop of b64_pton over the NUL-terminated string in src. It stops
   * with failed set where b64_pton returns -1 inside the loop; otherwise it
   * has run Step over the whole string.
   */
  method ScanSymbols(src: array<char>, dst: array?<char>, dstsiz: nat, ghost cap: Option<nat>)
    returns (failed: bool, j: nat, k: nat)
    requires |CStr(src[..])| < src.Length
    requires cap == (if dst == null then None else Some(dstsiz))
    requires dst != null ==> dstsiz <= dst.Length
    modifies dst
    ensures failed ==> Run(CStr(old(src[..])), cap) == Failed
    ensures !failed ==> var st := Run(CStr(old(src[..])), cap);
      st.Scanning? && st.j == j && k == |st.out| && (dst != null ==> k <= dstsiz && dst[..k] == st.out)
    ensures dst != null ==> forall m :: k <= m < dst.Length ==> dst[m] == old(dst[m])
    ensures k <= |CStr(old(src[..]))| && (dst != null ==> k <= dstsiz)
  {
    ghost var text := src[..];
    ghost var s0 := CStr(text);
    var i := 0;
    var val3: nat := 0;
    j, k := 0, 0;
    ghost var st := Scanning(0, [], 0);
    while src[i] != '\0'
      invariant 0 <= i <= |s0| < src.Length == |text|
      invariant forall m :: i <= m < src.Length ==> src[m] == text[m]
      invariant st == RunTo(s0, i, cap) && st.Scanning? && st.j == j && st.val3 == val3
      invariant k == |st.out| && k <= j <= i
      invariant dst != null ==> k <= dstsiz && dst[..k] == st.out
      invariant dst != null ==> forall m :: k <= m < dst.Length ==> dst[m] == old(dst[m])
      decreases |s0| - i
    {
      var c := src[i];
      CStrInside(text, i);
      if IsSpace(c) {
        i := i + 1;
        continue;
      }
      if TableEntry(c) == 0xff {
        FailsAt(s0, i, cap);
        return true, j, k;
      }
      var ok;
      ok, k, val3 := Absorb(dst, dstsiz, c, j, k, val3, st, cap);
      if !ok {
        FailsAt(s0, i, cap);
        return true, j, k;
      }
      st := Step(st, c, cap);
      j := j + 1;
      i := i + 1;
    }
    CStrEnd(text, i);
    RunToPrefix(s0, i, cap);
    assert s0[..i] == s0;
    return false, j, k;
  }

  /**
   * b64_pton(src, dst, dstsiz). A null `dst` only counts; `dst` may be
   * the same array as `src`, which is how the encoded-word decoder calls it.
   */
  method B64Pton(src: array<char>, dst: array?<char>, dstsiz: nat) returns (r: int)
    requires |CStr(src[..])| < src.Length
    requires dst != null ==> dstsiz <= dst.Length
    modifies dst
    ensures var d := Decode(CStr(old(src[..])), if dst == null then None else Some(dstsiz));
      (r == -1 <==> d.None?) &&
      (d.Some? ==> r == |d.value| && (dst != null ==> r <= dst.Length && dst[..r] == d.value))
    ensures dst != null ==> forall m :: dstsiz <= m < dst.Length ==> dst[m] == old(dst[m])
    ensures dst != null ==> forall m :: |CStr(old(src[..]))| <= m < dst.Length ==> dst[m] == old(dst[m])
    ensures dst != null && r >= 0 ==> forall m :: r <= m < dst.Length ==> dst[m] == old(dst[m])
  {
    ghost var cap: Option<nat> := if dst == null then None else Some(dstsiz);
    var failed, j, k := ScanSymbols(src, dst, dstsiz, cap);
    RunResult(CStr(old(src[..])), cap);
    if failed {
      return -1;
    }
    if j % 4 != 0 {
      return -1;
    }
    return k;
  }
}
