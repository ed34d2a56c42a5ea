/**
 * The MH folder of the mail filter: a directory whose regular files are
 * named by their decimal message numbers. mh_folder_newfile creates the
 * file of the next free number, remembering the last number in the
 * folder's maxseq, and the folder's list method returns the numbers of
 * the files in ascending order.
 *
 * The directory is the state of the file system that the folder's path
 * names: its entries in the order readdir(3) returns them. open(2) with
 * O_EXCL | O_CREAT fails on a name that some entry has, and on the names
 * it refuses for other reasons (a permission, a full disk), which are a
 * set fixed for the folder.
 */
module MhFolder {
  import opened Wrappers
  import opened LibC

  /** A directory entry: its d_name, and whether its d_type is DT_REG. */
  datatype Entry = Entry(name: string, regular: bool)

  /**
   * The message number of an entry, as both readdir loops take it: a
   * regular file whose name strtonum accepts in [1, UINT_MAX], stored
   * into an int. It is never 0, so the abort() of the list loop is never
   * reached; names above INT_MAX become negative numbers.
   */
  function Number(e: Entry): (r: Option<int>)
    ensures r.Some? ==> e.regular && -INT_MAX - 1 <= r.value <= INT_MAX && r.value != 0
  {
    if !e.regular then None
    else
      match StrToNum(e.name, 1, UINT_MAX)
      case None => None
      case Some(v) => Some(ToInt(v))
  }

  /** The positive numbers are those of the names that strtonum accepts in [1, INT_MAX]. */
  lemma NumberPositive(e: Entry)
    requires Number(e).Some?
    ensures 0 < Number(e).value <==> StrToNum(e.name, 1, INT_MAX) == Some(Number(e).value)
  {
  }

  /** The file that mh_folder_newfile creates for a number is listed back with that number. */
  lemma NumberOfCreated(n: int)
    requires 1 <= n <= INT_MAX
    ensures Number(Entry(Decimal(n), true)) == Some(n)
  {
    StrToNumDecimal(n, 1, UINT_MAX);
  }

  /** The numbers of the entries, in readdir order. */
  function Numbers(entries: seq<Entry>): (r: seq<int>)
    ensures |r| <= |entries|
  {
    if entries == [] then []
    else
      var r := Numbers(entries[..|entries| - 1]);
      match Number(entries[|entries| - 1])
      case None => r
      case Some(v) => r + [v]
  }

  /** The number of every entry that has one is listed ... */
  lemma {:induction false} NumberListed(entries: seq<Entry>, i: nat)
    requires i < |entries| && Number(entries[i]).Some?
    ensures Number(entries[i]).value in Numbers(entries)
  {
    var init := entries[..|entries| - 1];
    if i < |init| {
      assert init[i] == entries[i];
      NumberListed(init, i);
    }
  }

  /** ... and every listed number is that of an entry. */
  lemma {:induction false} ListedNumber(entries: seq<Entry>, v: int) returns (i: nat)
    requires v in Numbers(entries)
    ensures i < |entries| && Number(entries[i]) == Some(v)
  {
    var init := entries[..|entries| - 1];
    if v in Numbers(init) {
      i := ListedNumber(init, v);
      assert init[i] == entries[i];
    } else {
      i := |entries| - 1;
    }
  }

  /** A file created at the end of the directory adds its number at the end of the numbers. */
  lemma NumbersCreated(entries: seq<Entry>, n: int)
    requires 1 <= n <= INT_MAX
    ensures Numbers(entries + [Entry(Decimal(n), true)]) == Numbers(entries) + [n]
  {
    assert (entries + [Entry(Decimal(n), true)])[..|entries|] == entries;
    NumberOfCreated(n);
  }

  /** An entry added at the end of the directory adds at most its own number. */
  lemma NumbersAppend(entries: seq<Entry>, e: Entry)
    ensures forall v :: v in Numbers(entries + [e]) ==> v in Numbers(entries) || Number(e) == Some(v)
  {
    assert (entries + [e])[..|entries|] == entries;
  }

  /**
   * A file created with a number above every number of the directory
   * leaves no number above it: its own number is n, or negative when n
   * is above INT_MAX, or none when n is above UINT_MAX.
   */
  lemma CreatedAbove(entries: seq<Entry>, n: int)
    requires 1 <= n && forall v :: v in Numbers(entries) ==> v < n
    ensures forall v :: v in Numbers(entries + [Entry(Decimal(n), true)]) ==> v <= n
  {
    NumbersAppend(entries, Entry(Decimal(n), true));
    if n <= INT_MAX {
      NumberOfCreated(n);
    }
  }

  /**
   * The readdir loop of mh_folder_newfile: MAXIMUM of the numbers,
   * starting from 0.
   */
  function Mark(entries: seq<Entry>): (m: int)
    ensures 0 <= m <= INT_MAX
  {
    if entries == [] then 0
    else
      var m := Mark(entries[..|entries| - 1]);
      match Number(entries[|entries| - 1])
      case None => m
      case Some(v) => if v > m then v else m
  }

  /** The mark bounds every number of the directory, and it is 0 or one of them. */
  lemma {:induction false} MarkIsMaximum(entries: seq<Entry>)
    ensures forall v :: v in Numbers(entries) ==> v <= Mark(entries)
    ensures Mark(entries) == 0 || Mark(entries) in Numbers(entries)
  {
    if entries != [] {
      MarkIsMaximum(entries[..|entries| - 1]);
    }
  }

  /** A number above the mark is above every number of the directory. */
  lemma AboveAll(entries: seq<Entry>, n: int)
    requires Mark(entries) < n
    ensures forall v :: v in Numbers(entries) ==> v < n
  {
    MarkIsMaximum(entries);
  }

  /**
   * The names that open(2) with O_EXCL | O_CREAT cannot create in a
   * directory: those of its entries, and those refused for other reasons.
   */
  predicate Taken(entries: seq<Entry>, refused: set<string>, name: string) {
    name in Names(entries) || name in refused
  }

  /** The names of the entries of a directory. */
  function Names(entries: seq<Entry>): (r: set<string>)
  {
    if entries == [] then {} else Names(entries[..|entries| - 1]) + {entries[|entries| - 1].name}
  }

  /** The name that "%d" prints for the number v is taken. */
  predicate TakenNumber(entries: seq<Entry>, refused: set<string>, v: nat) {
    Taken(entries, refused, Decimal(v))
  }

  /** Every number in (lo, hi] names a taken file. */
  predicate TakenRange(entries: seq<Entry>, refused: set<string>, lo: int, hi: int) {
    forall v: nat :: lo < v <= hi ==> TakenNumber(entries, refused, v)
  }

  lemma TakenRangeJoin(entries: seq<Entry>, refused: set<string>, lo: int, mid: int, hi: int)
    requires TakenRange(entries, refused, lo, mid) && TakenRange(entries, refused, mid, hi)
    ensures TakenRange(entries, refused, lo, hi)
  {
  }

  /** Some element of a non-empty set. */
  ghost function Pick(names: set<string>): (x: string)
    requires names != {}
    ensures x in names
  {
    var x :| x in names; x
  }

  /** The largest number that one of the names spells in decimal digits, 0 when none does. */
  ghost function Highest(names: set<string>): nat
    decreases names
  {
    if names == {} then 0
    else
      var x := Pick(names);
      var rest := Highest(names - {x});
      if AllDigits(x) && DigitsValue(x) > rest then DigitsValue(x) else rest
  }

  lemma {:induction false} HighestBounds(names: set<string>, d: string)
    requires d in names && AllDigits(d)
    ensures DigitsValue(d) <= Highest(names)
    decreases names
  {
    var x := Pick(names);
    if d != x {
      HighestBounds(names - {x}, d);
    }
  }

  /**
   * open(2) can refuse only finitely many numbers: every taken number is
   * at most the highest number that a taken name spells.
   */
  lemma TakenBounded(entries: seq<Entry>, refused: set<string>) returns (bound: nat)
    ensures forall n: nat :: TakenNumber(entries, refused, n) ==> n <= bound
  {
    bound := Highest(Names(entries) + refused);
    forall n: nat | TakenNumber(entries, refused, n)
      ensures n <= bound
    {
      DecimalValue(n);
      HighestBounds(Names(entries) + refused, Decimal(n));
    }
  }


  /** The number mh_folder_newfile counts up from: the largest number of the directory on the first call, the number it created last after that. */
  function Start(maxseq: int, entries: seq<Entry>): (m: int)
    ensures 0 <= m
  {
    if maxseq < 0 then Mark(entries) else maxseq
  }

  /** The outcome of opendir(3): a directory to read, a missing one (ENOENT), or another error. */
  datatype Opened = Opened | Missing | Unreadable

  class Folder {
    /** The number of the file last created; -1 until the directory is first read. */
    var maxseq: int
    /** The directory, in readdir order. */
    var entries: seq<Entry>
    /** The names that open(2) refuses for a reason other than an existing entry. */
    const refused: set<string>

    /**
     * Once the folder has read its directory, no file of the directory has
     * a number above maxseq, as long as only mh_folder_newfile creates
     * numbered files in it.
     */
    ghost predicate Valid()
      reads this
    {
      maxseq >= 0 ==> forall v :: v in Numbers(entries) ==> v <= maxseq
    }

    /** l_mh_folder: a folder that has not read its directory yet. */
    constructor (entries: seq<Entry>, refused: set<string>)
      ensures Valid()
      ensures maxseq == -1 && this.entries == entries && this.refused == refused
    {
      maxseq := -1;
      this.entries := entries;
      this.refused := refused;
    }

    /**
     * open(2) with O_EXCL | O_CREAT: a regular file is created, at the end
     * of the directory, when the name is not taken.
     */
    method Create(name: string) returns (ok: bool)
      modifies this
      ensures ok == !Taken(old(entries), refused, name)
      ensures entries == if ok then old(entries) + [Entry(name, true)] else old(entries)
      ensures maxseq == old(maxseq)
    {
      ok := !Taken(entries, refused, name);
      if ok {
        entries := entries + [Entry(name, true)];
      }
    }

    /** The readdir loop of mh_folder_newfile. */
    method Scan() returns (m: int)
      ensures m == Mark(entries)
    {
      m := 0;
      var i := 0;
      while i < |entries|
        invariant 0 <= i <= |entries|
        invariant m == Mark(entries[..i])
      {
        assert entries[..i + 1][..i] == entries[..i];
        var num := Number(entries[i]);
        if num.Some? {
          m := if num.value > m then num.value else m;
        }
        i := i + 1;
      }
      assert entries[..i] == entries;
    }

    /**
     * The for loop of mh_folder_newfile: 29 tries, each at the next number,
     * until open creates the file. Every number it passes over is taken.
     */
    method Tries() returns (ok: bool)
      requires maxseq >= 0
      modifies this
      ensures old(maxseq) < maxseq <= old(maxseq) + 29
      ensures TakenRange(old(entries), refused, old(maxseq), maxseq - 1)
      ensures ok ==> !TakenNumber(old(entries), refused, maxseq) && entries == old(entries) + [Entry(Decimal(maxseq), true)]
      ensures !ok ==> maxseq == old(maxseq) + 29 && TakenNumber(old(entries), refused, maxseq) && entries == old(entries)
    {
      var maxtries := 30;
      ok := false;
      while true
        invariant 1 <= maxtries <= 30 && !ok
        invariant maxseq == old(maxseq) + 30 - maxtries && entries == old(entries)
        invariant TakenRange(old(entries), refused, old(maxseq), maxseq)
        decreases maxtries
      {
        maxtries := maxtries - 1;
        if maxtries <= 0 {
          break;
        }
        maxseq := maxseq + 1;
        ok := Create(Decimal(maxseq));
        if ok {
          break;
        }
      }
    }

    /**
     * One pass of the do-while loop of mh_folder_newfile: the directory
     * is read first when the folder has not read it yet (failing when
     * opendir fails), then come the tries. mark is the number read, 0
     * when the directory was not read.
     */
    method Pass(opendirOk: bool) returns (ok: bool, mark: int, failed: bool, ghost from: int)
      modifies this
      ensures failed <==> old(maxseq) < 0 && !opendirOk
      ensures failed ==> !ok && mark == 0 && maxseq == old(maxseq) && entries == old(entries)
      ensures !failed ==> from == Start(old(maxseq), old(entries)) && mark == (if old(maxseq) < 0 then from else 0)
      ensures !failed ==> from < maxseq <= from + 29 && TakenRange(old(entries), refused, from, maxseq - 1)
      ensures !failed && ok ==> !TakenNumber(old(entries), refused, maxseq) && entries == old(entries) + [Entry(Decimal(maxseq), true)]
      ensures !failed && !ok ==> maxseq == from + 29 && TakenNumber(old(entries), refused, maxseq) && entries == old(entries)
    {
      mark := 0;
      if maxseq < 0 {
        if !opendirOk {
          return false, 0, true, 0;
        }
        mark := Scan();
        maxseq := mark;
      }
      failed, from := false, maxseq;
      ok := Tries();
    }

    /**
     * mh_folder_newfile. Until the folder has read its directory (maxseq
     * is negative) it reads it first, and fails when opendir fails. Then
     * it creates the file of the first free number above the largest
     * number read, or above the number it created last; it tries 29
     * numbers at a time, and tries again only while no number was read
     * in this call.
     */
    method NewFile(opendirOk: bool) returns (ok: bool)
      modifies this
      ensures old(maxseq) < 0 && !opendirOk ==> !ok && maxseq == old(maxseq) && entries == old(entries)
      ensures old(maxseq) >= 0 || opendirOk ==>
        Start(old(maxseq), old(entries)) < maxseq && TakenRange(old(entries), refused, Start(old(maxseq), old(entries)), maxseq - 1)
      ensures ok ==> !TakenNumber(old(entries), refused, maxseq) && entries == old(entries) + [Entry(Decimal(maxseq), true)]
      ensures !ok && (old(maxseq) >= 0 || opendirOk) ==>
        old(maxseq) < 0 && 0 < Mark(old(entries)) && maxseq == Mark(old(entries)) + 29 &&
        TakenNumber(old(entries), refused, maxseq) && entries == old(entries)
      ensures ok && old(Valid()) ==> forall v :: v in Numbers(old(entries)) ==> v < maxseq
      ensures old(Valid()) ==> Valid()
    {
      ghost var m0 := Start(maxseq, entries);
      ghost var bound := TakenBounded(entries, refused);
      ok := false;
      var mark := 0;
      var failed := false;
      while true
        invariant mark == 0 && !ok && entries == old(entries)
        invariant maxseq < 0 ==> maxseq == old(maxseq)
        invariant maxseq >= 0 ==> (old(maxseq) >= 0 || opendirOk) && m0 <= maxseq
        invariant maxseq >= 0 ==> TakenRange(old(entries), refused, m0, maxseq)
        invariant maxseq >= 0 && old(maxseq) < 0 ==> m0 < maxseq
        invariant old(Valid()) ==> Valid()
        decreases bound - maxseq
      {
        ghost var before := maxseq;
        ghost var from;
        ok, mark, failed, from := Pass(opendirOk);
        if failed {
          return;
        }
        assert from == (if before < 0 then m0 else before);
        TakenRangeJoin(old(entries), refused, m0, from, maxseq - 1);
        if old(Valid()) {
          if before < 0 {
            AboveAll(old(entries), maxseq);
          }
          assert forall v :: v in Numbers(old(entries)) ==> v < maxseq;
          if ok {
            CreatedAbove(old(entries), maxseq);
          }
        }
        if ok {
          break;
        }
        if mark != 0 {
          break;
        }
      }
    }

    /**
     * l_mh_folder_list: the numbers of the folder's files, ascending; no
     * numbers when the directory does not exist, and a Lua error when it
     * cannot be read.
     */
    method List(open: Opened) returns (r: Result<seq<int>, string>)
      ensures open == Missing ==> r == Ok([])
      ensures open == Unreadable ==> r == Err("could not open the directory")
      ensures open == Opened ==> r.Ok? && Sorted(r.value) && multiset(r.value) == multiset(Numbers(entries))
    {
      if open == Missing {
        return Ok([]);
      } else if open == Unreadable {
        return Err("could not open the directory");
      }
      var found: seq<int> := [];
      var i := 0;
      while i < |entries|
        invariant 0 <= i <= |entries|
        invariant found == Numbers(entries[..i])
      {
        assert entries[..i + 1][..i] == entries[..i];
        var num := Number(entries[i]);
        if num.Some? {
          found := found + [num.value];
        }
        i := i + 1;
      }
      assert entries[..i] == entries;
      SortSorted(found);
      r := Ok(Sort(found));
    }
  }

  /*
   * The order of qsort(3) in the list method
   */

  /** direntseq_compar as written: a->seq - b->seq in int, which wraps around. */
  function ComparAsWritten(a: int, b: int): (r: int)
    ensures -INT_MAX - 1 <= r <= INT_MAX
    ensures -INT_MAX - 1 <= a - b <= INT_MAX ==> r == a - b
  {
    (a - b + INT_MAX + 1) % (2 * (INT_MAX + 1)) - (INT_MAX + 1)
  }

  /**
   * The files "4294967295" and "2147483648" have the numbers -1 and
   * INT_MIN, and "1" has 1. The comparator as written puts 1 after -1 and
   * -1 after INT_MIN, but 1 before INT_MIN: it orders no set of numbers
   * that holds all three, and qsort's result is then unspecified.
   */
  lemma ComparCycle()
    ensures ComparAsWritten(1, -1) > 0 && ComparAsWritten(-1, -INT_MAX - 1) > 0
    ensures ComparAsWritten(1, -INT_MAX - 1) < 0
  {
    assert ComparAsWritten(1, -1) == 2;
    assert ComparAsWritten(-1, -INT_MAX - 1) == INT_MAX;
    assert ComparAsWritten(1, -INT_MAX - 1) == -INT_MAX;
  }

  lemma WrappedNumbers(all: int, half: int)
    requires all == UINT_MAX && half == INT_MAX + 1
    ensures Number(Entry(Decimal(all), true)) == Some(-1)
    ensures Number(Entry(Decimal(half), true)) == Some(-INT_MAX - 1)
  {
    NumberOfDecimal(all);
    NumberOfDecimal(half);
  }

  /** A regular file named by "%d" of a number in [1, UINT_MAX] has that number, stored into an int. */
  lemma NumberOfDecimal(n: int)
    requires 1 <= n <= UINT_MAX
    ensures Number(Entry(Decimal(n), true)) == Some(ToInt(n))
  {
    StrToNumDecimal(n, 1, UINT_MAX);
  }

  /** direntseq_compar without the overflow: the sign of the difference. */
  function Compar(a: int, b: int): (r: int)
    ensures r < 0 <==> a < b
    ensures r == 0 <==> a == b
  {
    if a < b then -1 else if a == b then 0 else 1
  }

  /** Where a - b fits in an int, which it does for two numbers of [1, INT_MAX], the comparator as written has the right sign. */
  lemma ComparAgrees(a: int, b: int)
    requires -INT_MAX - 1 <= a - b <= INT_MAX
    ensures ComparAsWritten(a, b) < 0 <==> Compar(a, b) < 0
    ensures ComparAsWritten(a, b) == 0 <==> Compar(a, b) == 0
  {
  }

  /** Ascending, the order that the comparator without overflow asks of qsort. */
  predicate Sorted(s: seq<int>) {
    forall i, j :: 0 <= i < j < |s| ==> s[i] <= s[j]
  }

  /** x placed before the first element that is not below it. */
  function Insert(x: int, s: seq<int>): (r: seq<int>)
    ensures multiset(r) == multiset(s) + multiset{x}
  {
    if s == [] || Compar(x, s[0]) <= 0 then [x] + s
    else
      assert s == [s[0]] + s[1..];
      [s[0]] + Insert(x, s[1..])
  }

  /** Inserting into an ascending sequence keeps it ascending, and its first element is the smaller one. */
  lemma {:induction false} InsertSorted(x: int, s: seq<int>)
    requires Sorted(s)
    ensures Sorted(Insert(x, s))
    ensures Insert(x, s)[0] == if s == [] || x <= s[0] then x else s[0]
  {
    if s != [] && Compar(x, s[0]) > 0 {
      var rest := Insert(x, s[1..]);
      InsertSorted(x, s[1..]);
      assert rest[0] == x || rest[0] == s[1];
      assert Insert(x, s) == [s[0]] + rest;
    }
  }

  /** The result qsort must give with the comparator without overflow: the numbers, rearranged. */
  function Sort(s: seq<int>): (r: seq<int>)
    ensures multiset(r) == multiset(s)
  {
    if s == [] then []
    else
      assert s == [s[0]] + s[1..];
      Insert(s[0], Sort(s[1..]))
  }

  /** ... and ascending. */
  lemma {:induction false} SortSorted(s: seq<int>)
    ensures Sorted(Sort(s))
  {
    if s != [] {
      SortSorted(s[1..]);
      InsertSorted(s[0], Sort(s[1..]));
    }
  }
}
