/**
 * The listing of a POP3 mailbox (l_pop3_list): the reply to LIST, one
 * "msg-number size" line per message (section 5 of RFC 1939), becomes a
 * table from message number to message; the reply to UIDL, one
 * "msg-number unique-id" line per message (section 7 of RFC 1939), then
 * gives a uid to the messages the table already has.
 *
 * Both replies are split with strsep(3): into lines at every CR and LF,
 * and each line into fields at every space and tab. The replies are what
 * the transfer wrote into the memory stream, read as C strings.
 */
module Pop3List {
  import opened Wrappers
  import opened LibC

  /** The largest size that the LIST parser accepts: INT64_MAX >> 1. */
  const MAX_SIZE: int := INT64_MAX / 2

  /** A message of the table: the fields "index", "size" and "uid". */
  datatype Message = Message(index: int, size: int, uid: Option<string>)

  /**
   * The Lua errors of l_pop3_list: the transfer of LIST failed, a line
   * has fewer than two fields ("could not parse the result of ...
   * command"), or a field is not a number in range ("<field>: <reason>").
   */
  datatype ListError = TransferFailed | Unparsable(command: string) | BadNumber(field: string)

  const LineDelims: set<char> := {'\n', '\r'}
  const FieldDelims: set<char> := {' ', '\t'}

  /*
   * strsep(3)
   */

  /** The index of the first delimiter of s, or |s| when it has none. */
  function TokenEnd(s: string, delims: set<char>): (k: nat)
    ensures k <= |s| && (k < |s| ==> s[k] in delims)
  {
    if s == [] || s[0] in delims then 0 else 1 + TokenEnd(s[1..], delims)
  }

  /**
   * The tokens that strsep returns, one call after another, for the
   * string s: the text before each delimiter, and the text after the
   * last one. Adjacent delimiters give empty tokens.
   */
  function Split(s: string, delims: set<char>): (r: seq<string>)
    ensures |r| >= 1
    decreases |s|
  {
    var k := TokenEnd(s, delims);
    if k == |s| then [s] else [s[..k]] + Split(s[k + 1..], delims)
  }

  /** The tokens strsep has still to return, from the position p (NULL when p is None). */
  function Rest(s: string, p: Option<nat>, delims: set<char>): seq<string>
    requires p.Some? ==> p.value <= |s|
  {
    if p.None? then [] else Split(s[p.value..], delims)
  }

  /** Where the string from i holds no delimiter before k, its first token ends at k when a delimiter or the end is there. */
  lemma {:induction false} TokenEndAt(s: string, delims: set<char>, k: nat)
    requires k <= |s| && (k < |s| ==> s[k] in delims)
    requires forall j :: 0 <= j < k ==> s[j] !in delims
    ensures TokenEnd(s, delims) == k
  {
    if k > 0 {
      TokenEndAt(s[1..], delims, k - 1);
    }
  }

  /**
   * strsep: the token from p up to the first delimiter, and the position
   * after that delimiter, or NULL when the token reached the end; NULL
   * and no token when p is NULL.
   */
  method StrSep(s: string, p: Option<nat>, delims: set<char>) returns (tok: Option<string>, next: Option<nat>)
    requires p.Some? ==> p.value <= |s|
    ensures next.Some? ==> p.Some? && p.value < next.value <= |s|
    ensures p.None? ==> tok.None? && next.None?
    ensures p.Some? ==> tok.Some? && Rest(s, p, delims) == [tok.value] + Rest(s, next, delims)
  {
    if p.None? {
      return None, None;
    }
    var i := p.value;
    while i < |s| && s[i] !in delims
      invariant p.value <= i <= |s|
      invariant forall j :: p.value <= j < i ==> s[j] !in delims
    {
      i := i + 1;
    }
    tok := Some(s[p.value..i]);
    next := if i < |s| then Some(i + 1) else None;
    SplitFrom(s, p.value, i, delims);
  }

  /** The tokens from p: the text up to the first delimiter i, then the tokens after it. */
  lemma SplitFrom(s: string, p: nat, i: nat, delims: set<char>)
    requires p <= i <= |s| && (i < |s| ==> s[i] in delims)
    requires forall j :: p <= j < i ==> s[j] !in delims
    ensures Split(s[p..], delims) == [s[p..i]] + (if i < |s| then Split(s[i + 1..], delims) else [])
  {
    var t := s[p..];
    TokenEndAt(t, delims, i - p);
    assert t[..i - p] == s[p..i] by {
      forall m | 0 <= m < i - p
        ensures t[..i - p][m] == s[p..i][m]
      {
      }
    }
    if i < |s| {
      assert t[i - p + 1..] == s[i + 1..];
    } else {
      assert s[p..i] == t;
    }
  }

  /*
   * The fields of a line
   */

  /** The tokens that are not empty: the ones that the field loops count. */
  function Words(tokens: seq<string>): (r: seq<string>)
    ensures |r| <= |tokens|
  {
    if tokens == [] then []
    else (if tokens[0] == "" then [] else [tokens[0]]) + Words(tokens[1..])
  }

  lemma WordsCons(t: string, tokens: seq<string>)
    ensures Words([t] + tokens) == (if t == "" then [] else [t]) + Words(tokens)
  {
    assert ([t] + tokens)[1..] == tokens;
  }

  /** arg[0] and arg[1]: the first two fields of the line, or all of them when it has fewer. */
  function Fields(line: string): (r: seq<string>)
    ensures |r| <= 2
  {
    var w := Words(Split(line, FieldDelims));
    if |w| <= 2 then w else w[..2]
  }

  /** No field is empty. */
  lemma FieldsNonEmpty(line: string)
    ensures forall i :: 0 <= i < |Fields(line)| ==> Fields(line)[i] != ""
  {
    WordsNonEmpty(Split(line, FieldDelims));
  }

  /** No field is empty: the field loops skip the empty tokens. */
  lemma {:induction false} WordsNonEmpty(tokens: seq<string>)
    ensures forall i :: 0 <= i < |Words(tokens)| ==> Words(tokens)[i] != ""
  {
    if tokens != [] {
      WordsNonEmpty(tokens[1..]);
    }
  }

  /**
   * The inner for loop of both parsers: strsep at spaces and tabs,
   * skipping empty fields, until two fields are found or the line ends.
   */
  method ReadFields(line: string) returns (args: seq<string>)
    ensures args == Fields(line)
  {
    ghost var all := Words(Split(line, FieldDelims));
    var arg0: Option<nat> := Some(0);
    args := [];
    assert line[0..] == line;
    while |args| < 2
      invariant |args| <= 2
      invariant arg0.Some? ==> arg0.value <= |line|
      invariant args + Words(Rest(line, arg0, FieldDelims)) == all
      decreases if arg0.None? then 0 else |line| - arg0.value + 1
    {
      var tok;
      tok, arg0 := StrSep(line, arg0, FieldDelims);
      if tok.None? {
        break;
      }
      WordsStep(args, tok.value, Rest(line, arg0, FieldDelims));
      if tok.value != "" {
        args := args + [tok.value];
      }
    }
    FieldsFrom(line, args, Rest(line, arg0, FieldDelims));
  }

  /** One token through the field loop: a non-empty one becomes the next field. */
  lemma WordsStep(args: seq<string>, t: string, rest: seq<string>)
    ensures args + Words([t] + rest) == (if t == "" then args else args + [t]) + Words(rest)
  {
    WordsCons(t, rest);
  }

  /** The fields found, once there are two or the tokens have run out, are the first two words. */
  lemma FieldsFrom(line: string, args: seq<string>, rest: seq<string>)
    requires args + Words(rest) == Words(Split(line, FieldDelims))
    requires |args| <= 2 && (|args| < 2 ==> rest == [])
    ensures args == Fields(line)
  {
    var all := Words(Split(line, FieldDelims));
    if |args| == 2 {
      assert all[..2] == args;
    } else {
      assert all == args;
    }
  }

  /*
   * The LIST reply
   */

  /**
   * One line of the LIST reply: an empty line is skipped; otherwise the
   * first field must be a message number in [1, INT_MAX] and the second
   * a size in [1, INT64_MAX >> 1], and further fields are ignored.
   */
  function ListEntry(line: string): (r: Result<Option<Message>, ListError>)
    ensures r.Ok? && r.value.Some? ==> 1 <= r.value.value.index <= INT_MAX && 1 <= r.value.value.size <= MAX_SIZE
    ensures r.Ok? && r.value.Some? ==> r.value.value.uid.None?
    ensures r == Ok(None) <==> line == ""
  {
    if line == "" then Ok(None)
    else
      var f := Fields(line);
      if |f| != 2 then Err(Unparsable("LIST"))
      else
        match StrToNum(f[0], 1, INT_MAX)
        case None => Err(BadNumber(f[0]))
        case Some(idx) =>
          match StrToNum(f[1], 1, MAX_SIZE)
          case None => Err(BadNumber(f[1]))
          case Some(siz) => Ok(Some(Message(idx, siz, None)))
  }

  /** Every message of the table is stored under its own number, with the number and size in range. */
  predicate InRange(table: map<int, Message>) {
    forall k :: k in table ==> 1 <= k <= INT_MAX && table[k].index == k && 1 <= table[k].size <= MAX_SIZE
  }

  /**
   * The lines of the LIST reply, one after another, from the table acc:
   * the first line in error ends the listing with its error; a message
   * number listed twice keeps the later line.
   */
  function ApplyList(lines: seq<string>, acc: map<int, Message>): (r: Result<map<int, Message>, ListError>)
    ensures InRange(acc) && r.Ok? ==> InRange(r.value)
    ensures r.Ok? ==> acc.Keys <= r.value.Keys
  {
    if lines == [] then Ok(acc)
    else
      match ListEntry(lines[0])
      case Err(e) => Err(e)
      case Ok(None) => ApplyList(lines[1..], acc)
      case Ok(Some(m)) => ApplyList(lines[1..], acc[m.index := m])
  }

  /** Listing two runs of lines is listing the first, then the second from its table. */
  lemma {:induction false} ApplyListAppend(pre: seq<string>, post: seq<string>, acc: map<int, Message>)
    ensures ApplyList(pre + post, acc) ==
      match ApplyList(pre, acc)
      case Err(e) => Err(e)
      case Ok(m) => ApplyList(post, m)
  {
    if pre != [] {
      assert (pre + post)[1..] == pre[1..] + post;
      match ListEntry(pre[0])
      case Err(e) =>
      case Ok(None) => ApplyListAppend(pre[1..], post, acc);
      case Ok(Some(m)) => ApplyListAppend(pre[1..], post, acc[m.index := m]);
    } else {
      assert pre + post == post;
    }
  }

  /** A non-empty line with fewer than two fields fails the listing, unless an earlier line already did. */
  lemma ShortLineFails(pre: seq<string>, line: string, post: seq<string>, acc: map<int, Message>)
    requires ApplyList(pre, acc).Ok?
    requires line != "" && |Words(Split(line, FieldDelims))| < 2
    ensures ApplyList(pre + [line] + post, acc) == Err(Unparsable("LIST"))
  {
    ApplyListAppend(pre, [line] + post, acc);
    assert pre + [line] + post == pre + ([line] + post);
  }

  /** The first loop of l_pop3_list: strsep at CR and LF over the LIST reply, one table entry per line. */
  method ParseList(text: string) returns (r: Result<map<int, Message>, ListError>)
    ensures r == ApplyList(Split(text, LineDelims), map[])
  {
    var table: map<int, Message> := map[];
    var line0: Option<nat> := Some(0);
    assert text[0..] == text;
    while true
      invariant line0.Some? ==> line0.value <= |text|
      invariant ApplyList(Rest(text, line0, LineDelims), table) == ApplyList(Split(text, LineDelims), map[])
      decreases if line0.None? then 0 else |text| - line0.value + 1
    {
      var line;
      line, line0 := StrSep(text, line0, LineDelims);
      if line.None? {
        break;
      }
      var l := line.value;
      if l == "" {
        continue;
      }
      var args := ReadFields(l);
      if |args| != 2 {
        return Err(Unparsable("LIST"));
      }
      var idx := StrToNum(args[0], 1, INT_MAX);
      if idx.None? {
        return Err(BadNumber(args[0]));
      }
      var siz := StrToNum(args[1], 1, MAX_SIZE);
      if siz.None? {
        return Err(BadNumber(args[1]));
      }
      table := table[idx.value := Message(idx.value, siz.value, None)];
    }
    r := Ok(table);
  }

  /*
   * The UIDL reply
   */

  /**
   * One line of the UIDL reply: an empty line is skipped; otherwise the
   * first field must be a message number in [1, INT_MAX], and the second
   * is the uid, taken as it is.
   */
  function UidlEntry(line: string): (r: Result<Option<(int, string)>, ListError>)
    ensures r.Ok? && r.value.Some? ==> 1 <= r.value.value.0 <= INT_MAX && r.value.value.1 != ""
    ensures r == Ok(None) <==> line == ""
  {
    if line == "" then Ok(None)
    else
      var f := Fields(line);
      FieldsNonEmpty(line);
      if |f| != 2 then Err(Unparsable("UIDL"))
      else
        match StrToNum(f[0], 1, INT_MAX)
        case None => Err(BadNumber(f[0]))
        case Some(idx) => Ok(Some((idx, f[1])))
  }

  /**
   * The lines of the UIDL reply, one after another: a uid goes to the
   * message of its number when the table has one, and is dropped
   * otherwise. The table keeps its numbers, indexes and sizes.
   */
  function ApplyUidl(lines: seq<string>, acc: map<int, Message>): (r: Result<map<int, Message>, ListError>)
    ensures r.Ok? ==> r.value.Keys == acc.Keys
    ensures r.Ok? ==> forall k :: k in acc ==> r.value[k].index == acc[k].index && r.value[k].size == acc[k].size
    ensures r.Ok? ==> forall k :: k in acc && acc[k].uid.Some? ==> r.value[k].uid.Some?
  {
    if lines == [] then Ok(acc)
    else
      match UidlEntry(lines[0])
      case Err(e) => Err(e)
      case Ok(None) => ApplyUidl(lines[1..], acc)
      case Ok(Some(u)) =>
        if u.0 in acc then ApplyUidl(lines[1..], acc[u.0 := acc[u.0].(uid := Some(u.1))])
        else ApplyUidl(lines[1..], acc)
  }

  /** The second loop of l_pop3_list: strsep at CR and LF over the UIDL reply, setting the uid of listed messages. */
  method ParseUidl(text: string, acc: map<int, Message>) returns (r: Result<map<int, Message>, ListError>)
    ensures r == ApplyUidl(Split(text, LineDelims), acc)
  {
    var table := acc;
    var line0: Option<nat> := Some(0);
    assert text[0..] == text;
    while true
      invariant line0.Some? ==> line0.value <= |text|
      invariant ApplyUidl(Rest(text, line0, LineDelims), table) == ApplyUidl(Split(text, LineDelims), acc)
      decreases if line0.None? then 0 else |text| - line0.value + 1
    {
      var line;
      line, line0 := StrSep(text, line0, LineDelims);
      if line.None? {
        break;
      }
      var l := line.value;
      if l == "" {
        continue;
      }
      var args := ReadFields(l);
      if |args| != 2 {
        return Err(Unparsable("UIDL"));
      }
      var idx := StrToNum(args[0], 1, INT_MAX);
      if idx.None? {
        return Err(BadNumber(args[0]));
      }
      if idx.value in table {
        table := table[idx.value := table[idx.value].(uid := Some(args[1]))];
      }
    }
    r := Ok(table);
  }

  /**
   * The UIDL line "n uid" gives the uid to the message n when the table
   * has it, and leaves the table as it is otherwise.
   */
  lemma UidlLineApplies(n: nat, uid: string, rest: seq<string>, acc: map<int, Message>)
    requires 1 <= n <= INT_MAX && uid != "" && NoDelim(uid, FieldDelims)
    ensures ApplyUidl([Decimal(n) + " " + uid] + rest, acc) ==
      ApplyUidl(rest, if n in acc then acc[n := acc[n].(uid := Some(uid))] else acc)
  {
    var a := Decimal(n);
    assert NoDelim(a, FieldDelims) by {
      assert forall i :: 0 <= i < |a| ==> IsDigit(a[i]);
    }
    TwoFields(a, uid);
    StrToNumDecimal(n, 1, INT_MAX);
    assert UidlEntry(a + " " + uid) == Ok(Some((n, uid)));
    assert ([a + " " + uid] + rest)[1..] == rest;
  }

  /*
   * l_pop3_list
   */

  /**
   * The table l_pop3_list returns, from the two replies (None when the
   * transfer failed): a failed LIST transfer is an error, a failed UIDL
   * transfer leaves the messages without uid.
   */
  function Listing(list: Option<string>, uidl: Option<string>): Result<map<int, Message>, ListError> {
    match list
    case None => Err(TransferFailed)
    case Some(l) =>
      match ApplyList(Split(CStr(l), LineDelims), map[])
      case Err(e) => Err(e)
      case Ok(table) => if uidl.None? then Ok(table) else ApplyUidl(Split(CStr(uidl.value), LineDelims), table)
  }

  method Pop3List(list: Option<string>, uidl: Option<string>) returns (r: Result<map<int, Message>, ListError>)
    ensures r == Listing(list, uidl)
  {
    if list.None? {
      return Err(TransferFailed);
    }
    r := ParseList(CStr(list.value));
    if r.Err? || uidl.None? {
      return;
    }
    r := ParseUidl(CStr(uidl.value), r.value);
  }

  /** Every message l_pop3_list returns is stored under its own number, with number and size in range. */
  lemma ListingInRange(list: Option<string>, uidl: Option<string>)
    requires Listing(list, uidl).Ok?
    ensures InRange(Listing(list, uidl).value)
  {
    var table := ApplyList(Split(CStr(list.value), LineDelims), map[]);
    assert InRange(table.value);
  }

  /*
   * A reply as a server writes it
   */

  /** The LIST reply that lists the messages ms, one "number size" line each, ending in CRLF. */
  function ListReply(ms: seq<(nat, nat)>): string {
    if ms == [] then ""
    else Decimal(ms[0].0) + " " + Decimal(ms[0].1) + "\r\n" + ListReply(ms[1..])
  }

  /** The table that lists the messages ms, from acc. */
  function Listed(ms: seq<(nat, nat)>, acc: map<int, Message>): map<int, Message> {
    if ms == [] then acc
    else Listed(ms[1..], acc[ms[0].0 := Message(ms[0].0, ms[0].1, None)])
  }

  predicate NoDelim(s: string, delims: set<char>) {
    forall i :: 0 <= i < |s| ==> s[i] !in delims
  }

  /** A token followed by a delimiter is strsep's first token. */
  lemma SplitFirst(a: string, d: char, rest: string, delims: set<char>)
    requires NoDelim(a, delims) && d in delims
    ensures Split(a + [d] + rest, delims) == [a] + Split(rest, delims)
  {
    var s := a + [d] + rest;
    TokenEndAt(s, delims, |a|);
    assert s[..|a|] == a && s[|a| + 1..] == rest;
  }

  lemma SplitWhole(a: string, delims: set<char>)
    requires NoDelim(a, delims)
    ensures Split(a, delims) == [a]
  {
    TokenEndAt(a, delims, |a|);
  }

  /** A line of two words without spaces or tabs, one space apart, has those two fields. */
  lemma TwoFields(a: string, b: string)
    requires a != "" && b != "" && NoDelim(a, FieldDelims) && NoDelim(b, FieldDelims)
    ensures Fields(a + " " + b) == [a, b]
  {
    SplitFirst(a, ' ', b, FieldDelims);
    SplitWhole(b, FieldDelims);
    assert a + " " + b == a + [' '] + b;
    WordsCons(a, [b]);
    WordsCons(b, []);
  }

  /** The line "n s" has the two fields n and s. */
  lemma LineFields(n: nat, s: nat)
    ensures Fields(Decimal(n) + " " + Decimal(s)) == [Decimal(n), Decimal(s)]
  {
    var a, b := Decimal(n), Decimal(s);
    assert NoDelim(a, FieldDelims) && NoDelim(b, FieldDelims) by {
      assert forall i :: 0 <= i < |a| ==> IsDigit(a[i]);
      assert forall i :: 0 <= i < |b| ==> IsDigit(b[i]);
    }
    TwoFields(a, b);
  }

  /** The lines of a LIST reply: each message's line, then the empty token between CR and LF. */
  lemma ListReplyLines(ms: seq<(nat, nat)>)
    requires ms != []
    ensures Split(ListReply(ms), LineDelims) ==
      [Decimal(ms[0].0) + " " + Decimal(ms[0].1), ""] + Split(ListReply(ms[1..]), LineDelims)
  {
    var a, b := Decimal(ms[0].0), Decimal(ms[0].1);
    NumberLineNoDelim(a, b);
    SplitCrLf(a + " " + b, ListReply(ms[1..]));
  }

  /** A line without delimiters, then CRLF: the line, then the empty token between CR and LF. */
  lemma SplitCrLf(line: string, rest: string)
    requires NoDelim(line, LineDelims)
    ensures Split(line + "\r\n" + rest, LineDelims) == [line, ""] + Split(rest, LineDelims)
  {
    assert line + "\r\n" + rest == line + ['\r'] + ("\n" + rest);
    SplitFirst(line, '\r', "\n" + rest, LineDelims);
    assert "\n" + rest == [] + ['\n'] + rest;
    SplitFirst([], '\n', rest, LineDelims);
  }

  lemma NumberLineNoDelim(a: string, b: string)
    requires AllDigits(a) && AllDigits(b)
    ensures NoDelim(a + " " + b, LineDelims)
  {
    var line := a + " " + b;
    forall i | 0 <= i < |line|
      ensures line[i] !in LineDelims
    {
      if i < |a| {
        assert line[i] == a[i];
      } else if i > |a| {
        assert line[i] == b[i - |a| - 1];
      }
    }
  }

  /** The line of a message in range, then the empty token, enter that message into the table. */
  lemma ListLineApplies(n: nat, s: nat, rest: seq<string>, acc: map<int, Message>)
    requires 1 <= n <= INT_MAX && 1 <= s <= MAX_SIZE
    ensures ApplyList([Decimal(n) + " " + Decimal(s), ""] + rest, acc) == ApplyList(rest, acc[n := Message(n, s, None)])
  {
    var line := Decimal(n) + " " + Decimal(s);
    LineFields(n, s);
    StrToNumDecimal(n, 1, INT_MAX);
    StrToNumDecimal(s, 1, MAX_SIZE);
    assert ListEntry(line) == Ok(Some(Message(n, s, None)));
    assert ([line, ""] + rest)[1..] == [""] + rest;
    assert ([""] + rest)[1..] == rest;
  }

  /**
   * Round trip: the LIST reply of messages whose numbers and sizes are in
   * range gives the table of those messages, a later line of the same
   * number replacing an earlier one.
   */
  lemma {:induction false} ListReplyParses(ms: seq<(nat, nat)>, acc: map<int, Message>)
    requires forall i :: 0 <= i < |ms| ==> 1 <= ms[i].0 <= INT_MAX && 1 <= ms[i].1 <= MAX_SIZE
    ensures ApplyList(Split(ListReply(ms), LineDelims), acc) == Ok(Listed(ms, acc))
  {
    if ms == [] {
      assert Split("", LineDelims) == [""];
    } else {
      var n, s := ms[0].0, ms[0].1;
      var rest := Split(ListReply(ms[1..]), LineDelims);
      ListReplyLines(ms);
      ListLineApplies(n, s, rest, acc);
      ListReplyParses(ms[1..], acc[n := Message(n, s, None)]);
    }
  }
}
