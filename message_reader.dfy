/**
 * rfc5322_read, the callback that receives a message in chunks of any
 * size: each chunk is added to the buffer, every complete line (up to an
 * LF) is taken off it, the CR before the LF is cut, the line goes to the
 * RFC 5322 parser, the parser's answers become calls of the Lua handlers
 * on_header and on_end_of_headers, and the line itself, ended by a single
 * LF, goes to on_write. A partial line stays in the buffer for the next
 * chunk.
 *
 * The parser (rfc5322.h) is not part of this model: it is an oracle that,
 * given every line pushed so far, lists its answers to the calls of
 * rfc5322_next that follow the latest push; once that list is used up it
 * answers NONE. The Lua handlers are recorded as events.
 */
module MessageReader {
  import opened Wrappers
  import opened LibC
  import opened Rfc2047
  import opened HeaderText
  import Base64

  /** The size of the hdr buffer that str_tolower fills. */
  const HeaderNameSize: nat := 128

  /** The states of rfc5322_next the reader tells apart; the parser's others are StateOther. */
  datatype ParserState =
    | StateNone
    | StateHeaderStart
    | StateHeaderEnd
    | StateEndOfHeaders
    | StateErr
    | StateOther(code: int)

  /** One answer of rfc5322_next: a state and, for StateHeaderEnd, the header's name and raw value. */
  datatype Answer = Answer(state: ParserState, hdr: string, value: string)

  /** Which of on_header, on_end_of_headers and on_write the Lua table holds as functions. */
  datatype Handlers = Handlers(onHeader: bool, onEndOfHeaders: bool, onWrite: bool)

  /**
   * What the reader works with besides its own state: the handlers, the
   * parser as an oracle over the lines pushed so far, the charset names
   * and the converter decode_text uses, and decode_text itself as the
   * reader calls it: from a header value and what the decoded buffer
   * holds, to the text returned and what the buffer holds after.
   * DecodesText says that decode is decode_text.
   */
  datatype Env = Env(
    handlers: Handlers,
    parser: seq<string> -> seq<Answer>,
    names: seq<string>,
    iconv: Converter,
    decode: (string, string) -> (string, string))

  /** The calls the reader makes into Lua, in order. */
  datatype Event = OnHeader(name: string, value: string) | OnEndOfHeaders | OnWrite(line: string)

  /**
   * The reader between two calls: the bytes left in ctx->buffer, the lines
   * pushed to the parser, ctx->state, the Lua calls made, and what the
   * 128-byte decoded buffer of decode_text holds.
   */
  datatype Reader = Reader(pending: string, pushed: seq<string>, state: ParserState, events: seq<Event>, frame: string)

  /*
   * The specification
   */

  /** memchr: the index of the first c in s, if any. */
  function Memchr(s: string, c: char): (r: Option<nat>)
    ensures r.Some? ==> r.value < |s| && s[r.value] == c && c !in s[..r.value]
    ensures r.None? ==> c !in s
  {
    if c !in s then None
    else if s[0] == c then Some(0)
    else
      var r := Memchr(s[1..], c);
      assert s == [s[0]] + s[1..];
      Some(r.value + 1)
  }

  /** The length of a line once the CR just before its LF is cut. */
  function Cut(raw: string): (n: nat)
    ensures n == |raw| || (n == |raw| - 1 && raw[n] == '\r')
  {
    if 0 < |raw| && raw[|raw| - 1] == '\r' then |raw| - 1 else |raw|
  }

  /** The answer of call j after the push: the listed one, then NONE. */
  function AnswerAt(answers: seq<Answer>, j: nat): Answer {
    if j < |answers| then answers[j] else Answer(StateNone, "", "")
  }

  /** decode_text over the names and the converter, as a function of the value and the decoded buffer. */
  function DecodeTextOf(names: seq<string>, iconv: Converter): (d: (string, string) -> (string, string))
    ensures forall w, f :: NoNul(w) && |f| == DecodedSize ==>
      d(w, f) == (DecodedText(names, iconv, w, f).text, DecodedText(names, iconv, w, f).buf)
  {
    (w: string, f: string) =>
      if NoNul(w) && |f| == DecodedSize then
        var t := DecodedText(names, iconv, w, f);
        (t.text, t.buf)
      else (w, f)
  }

  /** The environment's decode is decode_text with its charset names and converter. */
  ghost predicate DecodesText(env: Env) {
    forall w, f {:trigger DecodedText(env.names, env.iconv, w, f)} :: NoNul(w) && |f| == DecodedSize ==>
      env.decode(w, f) == (DecodedText(env.names, env.iconv, w, f).text, DecodedText(env.names, env.iconv, w, f).buf)
  }

  /**
   * The call of on_header for a header the parser finished: its name
   * lowered into 128 bytes, and its value past skip_ws, run through
   * decode_text; with the decoded buffer after it. The value is always
   * decoded: need_decode holds for every header name (NeedDecodeAlways).
   */
  function HeaderCall(env: Env, a: Answer, frame: string): (r: (Event, string))
    ensures r.0.OnHeader? && |r.0.name| < HeaderNameSize
    ensures forall i :: 0 <= i < |r.0.name| ==> !('A' <= r.0.name[i] <= 'Z')
  {
    var v := CStr(a.value);
    var (text, buf) := env.decode(v[SkipWs(v, 0)..], frame);
    (OnHeader(LowerCopy(a.hdr, HeaderNameSize), text), buf)
  }

  /** The switch on one answer: the Lua calls it makes and the decoded buffer after it. */
  function Dispatch(env: Env, a: Answer, frame: string): (r: (seq<Event>, string))
    ensures |r.0| <= 1
  {
    match a.state
    case StateHeaderEnd =>
      if env.handlers.onHeader then
        var (e, f) := HeaderCall(env, a, frame);
        ([e], f)
      else ([], frame)
    case StateEndOfHeaders => (if env.handlers.onEndOfHeaders then [OnEndOfHeaders] else [], frame)
    case _ => ([], frame)
  }

  /**
   * The do-while over the answers from call j on: each answer is handled,
   * then the next one is read, until it is NONE or ERR. The first answer
   * is handled whatever it is.
   */
  function Drain(env: Env, answers: seq<Answer>, j: nat, frame: string): (r: (seq<Event>, string, ParserState))
    ensures r.2 == StateNone || r.2 == StateErr
    decreases |answers| - j
  {
    var (ev, frame1) := Dispatch(env, AnswerAt(answers, j), frame);
    var next := AnswerAt(answers, j + 1).state;
    if next == StateNone || next == StateErr then (ev, frame1, next)
    else
      var (rest, frame2, last) := Drain(env, answers, j + 1, frame1);
      (ev + rest, frame2, last)
  }

  /**
   * One line, the first lf bytes of the buffer: the line, without the CR
   * before its LF, goes to the parser as a C string, the answers are
   * handled, and on_write gets the line with a single LF.
   */
  function LineStep(env: Env, r: Reader, lf: nat): (r': Reader)
    requires lf < |r.pending|
    ensures r'.pending == r.pending[lf + 1..]
  {
    var raw := r.pending[..lf];
    var line := raw[..Cut(raw)];
    var pushed := r.pushed + [CStr(line)];
    var (ev, frame, st) := Drain(env, env.parser(pushed), 0, r.frame);
    var written := if env.handlers.onWrite then [OnWrite(line + "\n")] else [];
    Reader(r.pending[lf + 1..], pushed, st, r.events + ev + written, frame)
  }

  /** The outer loop: lines are taken while the state is NONE and the buffer holds an LF. */
  function Consume(env: Env, r: Reader): (r': Reader)
    decreases |r.pending|
  {
    if r.state != StateNone then r
    else
      match Memchr(r.pending, '\n')
      case None => r
      case Some(lf) => Consume(env, LineStep(env, r, lf))
  }

  /** A call of rfc5322_read with the bytes chunk. */
  function Feed(env: Env, r: Reader, chunk: string): (r': Reader)
  {
    Consume(env, r.(pending := r.pending + chunk))
  }

  /*
   * The reader, as written
   */

  /** struct pop3_read_ctx: the buffer, the parser, the state, and the Lua side as recorded events. */
  class ReadCtx {
    var buffer: string
    var pushed: seq<string>
    var state: ParserState
    var events: seq<Event>
    const env: Env

    /** The reader's state, with decoded as the decoded buffer of decode_text. */
    ghost function Snapshot(decoded: seq<char>): Reader
      reads this
    {
      Reader(buffer, pushed, state, events, decoded)
    }

    constructor (env: Env)
      ensures this.env == env && buffer == "" && pushed == [] && state == StateNone && events == []
    {
      this.env := env;
      buffer := "";
      pushed := [];
      state := StateNone;
      events := [];
    }

    /** memchr over the buffer, -1 standing for NULL. */
    method ScanLf() returns (lf: int)
      ensures lf == -1 <==> Memchr(buffer, '\n').None?
      ensures lf != -1 ==> lf == Memchr(buffer, '\n').value
    {
      var i := 0;
      while i < |buffer|
        invariant i <= |buffer| && '\n' !in buffer[..i]
      {
        if buffer[i] == '\n' {
          MemchrAt(buffer, i);
          return i;
        }
        assert buffer[..i + 1] == buffer[..i] + [buffer[i]];
        i := i + 1;
      }
      assert buffer[..i] == buffer;
      return -1;
    }

    /** The case RFC5322_HEADER_END with on_header defined: the name lowered, the value decoded, the call. */
    method CallOnHeader(a: Answer, table: CharsetTable, decoded: array<char>)
      requires DecodesText(env) && table.Valid() && table.mime == env.names && decoded.Length == DecodedSize
      modifies this`events, table, decoded
      ensures table.Valid()
      ensures events == old(events) + [HeaderCall(env, a, old(decoded[..])).0]
      ensures decoded[..] == HeaderCall(env, a, old(decoded[..])).1
    {
      var hdr := new char[HeaderNameSize];
      StrToLower(a.hdr, hdr, HeaderNameSize);
      var n := Strlen(hdr, LowerCopy(a.hdr, HeaderNameSize));
      var v := CStr(a.value);
      var w := v[SkipWs(v, 0)..];
      var ret := DecodeText(table, w, env.iconv, decoded);
      var m := Strlen(ret, DecodedText(env.names, env.iconv, w, old(decoded[..])).text);
      events := events + [OnHeader(hdr[..n], ret[..m])];
    }

    /** The switch of the do-while on one answer. */
    method Handle(a: Answer, table: CharsetTable, decoded: array<char>)
      requires DecodesText(env) && table.Valid() && table.mime == env.names && decoded.Length == DecodedSize
      modifies this`events, table, decoded
      ensures table.Valid()
      ensures events == old(events) + Dispatch(env, a, old(decoded[..])).0
      ensures decoded[..] == Dispatch(env, a, old(decoded[..])).1
    {
      match a.state
      case StateHeaderEnd =>
        if env.handlers.onHeader {
          CallOnHeader(a, table, decoded);
        }
      case StateEndOfHeaders =>
        if env.handlers.onEndOfHeaders {
          events := events + [OnEndOfHeaders];
        }
      case _ =>
    }

    /** The do-while that follows a push: it leaves ctx->state at NONE or ERR. */
    method DrainAnswers(answers: seq<Answer>, table: CharsetTable, decoded: array<char>)
      requires DecodesText(env) && table.Valid() && table.mime == env.names && decoded.Length == DecodedSize
      modifies this`events, this`state, table, decoded
      ensures table.Valid()
      ensures var d := Drain(env, answers, 0, old(decoded[..]));
        events == old(events) + d.0 && decoded[..] == d.1 && state == d.2
    {
      ghost var whole := Drain(env, answers, 0, decoded[..]);
      ghost var rest := whole;
      var j := 0;
      state := AnswerAt(answers, 0).state;
      var done := false;
      while !done
        invariant table.Valid() && decoded.Length == DecodedSize
        invariant !done ==> rest == Drain(env, answers, j, decoded[..])
        invariant !done ==> events + rest.0 == old(events) + whole.0 && rest.1 == whole.1 && rest.2 == whole.2
        invariant done ==> events == old(events) + whole.0 && decoded[..] == whole.1 && state == whole.2
        decreases |answers| - j, if done then 0 else 1
      {
        done := Advance(answers, j, table, decoded);
        if !done {
          j := j + 1;
          rest := Drain(env, answers, j, decoded[..]);
        }
      }
    }

    /**
     * One turn of the do-while: the answer of call j is handled and the
     * next one read; done when that one is NONE or ERR.
     */
    method Advance(answers: seq<Answer>, j: nat, table: CharsetTable, decoded: array<char>) returns (done: bool)
      requires DecodesText(env) && table.Valid() && table.mime == env.names && decoded.Length == DecodedSize
      modifies this`events, this`state, table, decoded
      ensures table.Valid()
      ensures var d := Drain(env, answers, j, old(decoded[..]));
        done ==> events == old(events) + d.0 && decoded[..] == d.1 && state == d.2
      ensures var d, rest := Drain(env, answers, j, old(decoded[..])), Drain(env, answers, j + 1, decoded[..]);
        !done ==> j + 1 < |answers| && old(events) + d.0 == events + rest.0 && d.1 == rest.1 && d.2 == rest.2
    {
      ghost var f := decoded[..];
      Handle(AnswerAt(answers, j), table, decoded);
      state := AnswerAt(answers, j + 1).state;
      done := state == StateNone || state == StateErr;
      if done {
        DrainLast(env, answers, j, f);
      } else {
        DrainNext(env, answers, j, f);
      }
    }

    /** One line off the buffer: the cut, the push, the do-while and on_write. */
    method TakeLine(lf: nat, table: CharsetTable, decoded: array<char>)
      requires lf < |buffer| && DecodesText(env) && table.Valid() && table.mime == env.names && decoded.Length == DecodedSize
      modifies this, table, decoded
      ensures table.Valid()
      ensures Snapshot(decoded[..]) == LineStep(env, old(Snapshot(decoded[..])), lf)
    {
      var raw := buffer[..lf];
      buffer := buffer[lf + 1..];
      var line := raw[..Cut(raw)];
      pushed := pushed + [CStr(line)];
      DrainAnswers(env.parser(pushed), table, decoded);
      if env.handlers.onWrite {
        events := events + [OnWrite(line + "\n")];
      }
    }

    /**
     * rfc5322_read: the chunk is the nmemb * size bytes at buf, and that
     * count is returned whatever happens to them.
     */
    method Read(chunk: string, nmemb: nat, size: nat, table: CharsetTable, decoded: array<char>) returns (n: int)
      requires |chunk| == nmemb * size
      requires DecodesText(env) && table.Valid() && table.mime == env.names && decoded.Length == DecodedSize
      modifies this, table, decoded
      ensures table.Valid() && n == nmemb * size
      ensures Snapshot(decoded[..]) == Feed(env, old(Snapshot(decoded[..])), chunk)
    {
      buffer := buffer + chunk;
      while state == StateNone
        invariant table.Valid() && decoded.Length == DecodedSize
        invariant Consume(env, Snapshot(decoded[..])) == Feed(env, old(Snapshot(decoded[..])), chunk)
        decreases |buffer|
      {
        var lf := ScanLf();
        if lf == -1 {
          break;
        }
        TakeLine(lf, table, decoded);
      }
      n := nmemb * size;
    }
  }

  lemma {:induction false} MemchrAt(s: string, i: nat)
    requires i < |s| && s[i] == '\n' && '\n' !in s[..i]
    ensures Memchr(s, '\n') == Some(i)
  {
  }

  /** The last answer the do-while handles: the one before NONE or ERR. */
  lemma {:induction false} DrainLast(env: Env, answers: seq<Answer>, j: nat, frame: string)
    requires AnswerAt(answers, j + 1).state == StateNone || AnswerAt(answers, j + 1).state == StateErr
    ensures var d := Dispatch(env, AnswerAt(answers, j), frame);
      Drain(env, answers, j, frame) == (d.0, d.1, AnswerAt(answers, j + 1).state)
  {
  }

  /** An answer the do-while handles before going on to the next. */
  lemma {:induction false} DrainNext(env: Env, answers: seq<Answer>, j: nat, frame: string)
    requires AnswerAt(answers, j + 1).state != StateNone && AnswerAt(answers, j + 1).state != StateErr
    ensures j + 1 < |answers|
    ensures var d := Dispatch(env, AnswerAt(answers, j), frame);
      var rest := Drain(env, answers, j + 1, d.1);
      Drain(env, answers, j, frame) == (d.0 + rest.0, rest.1, rest.2)
  {
  }

  /** An environment built with DecodeTextOf decodes as decode_text does. */
  lemma DecodeTextOfDecodes(handlers: Handlers, parser: seq<string> -> seq<Answer>, names: seq<string>, iconv: Converter)
    ensures DecodesText(Env(handlers, parser, names, iconv, DecodeTextOf(names, iconv)))
  {
  }

  /**
   * What on_header receives for a header: its value past the leading
   * white space, run through decode_text, never longer than the value.
   */
  lemma HeaderCallValue(env: Env, a: Answer, frame: string)
    requires DecodesText(env) && |frame| == DecodedSize
    ensures var v := CStr(a.value);
      var t := DecodedText(env.names, env.iconv, v[SkipWs(v, 0)..], frame);
      HeaderCall(env, a, frame) == (OnHeader(LowerCopy(a.hdr, HeaderNameSize), t.text), t.buf)
    ensures |HeaderCall(env, a, frame).0.value| <= |CStr(a.value)|
  {
    var v := CStr(a.value);
    var t := DecodedText(env.names, env.iconv, v[SkipWs(v, 0)..], frame);
  }

  /*
   * The lines of a stream, independently of how it is cut into chunks
   */

  /** The complete lines of s, each without its LF. */
  function Lines(s: string): (ls: seq<string>)
    ensures forall k :: 0 <= k < |ls| ==> '\n' !in ls[k]
    decreases |s|
  {
    match Memchr(s, '\n')
    case None => []
    case Some(i) => [s[..i]] + Lines(s[i + 1..])
  }

  /** What follows the last LF of s: the partial line. */
  function Leftover(s: string): (t: string)
    ensures '\n' !in t
    decreases |s|
  {
    match Memchr(s, '\n')
    case None => s
    case Some(i) => Leftover(s[i + 1..])
  }

  /** Lines put back together, each ended by an LF. */
  function Join(ls: seq<string>): string {
    if ls == [] then "" else ls[0] + "\n" + Join(ls[1..])
  }

  /** The lines as rfc5322_push receives them: the CR before the LF cut, up to the first NUL. */
  function Pushed(ls: seq<string>): (ps: seq<string>)
    ensures |ps| == |ls|
    ensures forall k :: 0 <= k < |ls| ==> ps[k] == CStr(ls[k][..Cut(ls[k])])
  {
    if ls == [] then [] else [CStr(ls[0][..Cut(ls[0])])] + Pushed(ls[1..])
  }

  /** The lines as on_write receives them: the CR before the LF cut and a single LF after. */
  function Normalised(ls: seq<string>): (ws: seq<string>)
    ensures |ws| == |ls|
    ensures forall k :: 0 <= k < |ls| ==> ws[k] == ls[k][..Cut(ls[k])] + "\n"
  {
    if ls == [] then [] else [ls[0][..Cut(ls[0])] + "\n"] + Normalised(ls[1..])
  }

  /** The lines handed to on_write, in order. */
  function Written(events: seq<Event>): seq<string> {
    if events == [] then []
    else (if events[0].OnWrite? then [events[0].line] else []) + Written(events[1..])
  }

  /** A stream is its complete lines followed by its partial line. */
  lemma {:induction false} SplitLines(s: string)
    ensures s == Join(Lines(s)) + Leftover(s)
    decreases |s|
  {
    match Memchr(s, '\n')
    case None =>
    case Some(i) =>
      var rest := s[i + 1..];
      SplitLines(rest);
      JoinCons(s[..i], Lines(rest));
      var head := s[..i] + "\n";
      assert s == head + rest;
      Base64.AppendAssoc(head, Join(Lines(rest)), Leftover(rest));
      assert Lines(s) == [s[..i]] + Lines(rest);
      assert Join(Lines(s)) == head + Join(Lines(rest));
      assert Leftover(s) == Leftover(rest);
  }

  lemma {:induction false} JoinCons(x: string, ls: seq<string>)
    ensures Join([x] + ls) == x + "\n" + Join(ls)
  {
    assert ([x] + ls)[0] == x && ([x] + ls)[1..] == ls;
  }

  lemma {:induction false} WrittenAppend(a: seq<Event>, b: seq<Event>)
    ensures Written(a + b) == Written(a) + Written(b)
    decreases |a|
  {
    if a == [] {
      assert a + b == b;
    } else {
      WrittenAppend(a[1..], b);
      assert (a + b)[0] == a[0] && (a + b)[1..] == a[1..] + b;
    }
  }

  /** The do-while never calls on_write. */
  lemma {:induction false} DrainWritesNothing(env: Env, answers: seq<Answer>, j: nat, frame: string)
    ensures Written(Drain(env, answers, j, frame).0) == []
    decreases |answers| - j
  {
    var (ev, frame1) := Dispatch(env, AnswerAt(answers, j), frame);
    assert Written(ev) == [];
    var next := AnswerAt(answers, j + 1).state;
    if next != StateNone && next != StateErr {
      DrainWritesNothing(env, answers, j + 1, frame1);
      WrittenAppend(ev, Drain(env, answers, j + 1, frame1).0);
    }
  }

  /** The first LF of s is the first LF of s followed by more bytes. */
  lemma {:induction false} MemchrAppend(s: string, b: string, i: nat)
    requires Memchr(s, '\n') == Some(i)
    ensures Memchr(s + b, '\n') == Some(i)
  {
    assert (s + b)[..i] == s[..i];
    MemchrAt(s + b, i);
  }

  /** Taking a line does not look at the bytes after it. */
  lemma {:induction false} LineStepAppend(env: Env, r: Reader, lf: nat, b: string)
    requires lf < |r.pending|
    ensures LineStep(env, r.(pending := r.pending + b), lf) == LineStep(env, r, lf).(pending := r.pending[lf + 1..] + b)
  {
    assert (r.pending + b)[..lf] == r.pending[..lf];
    assert (r.pending + b)[lf + 1..] == r.pending[lf + 1..] + b;
  }

  /**
   * The lines rfc5322_read takes out of the buffer do not depend on
   * whether more bytes follow them: consuming and then adding b is
   * adding b.
   */
  lemma {:induction false} ConsumeFeed(env: Env, r: Reader, b: string)
    ensures Feed(env, Consume(env, r), b) == Feed(env, r, b)
    decreases |r.pending|
  {
    if r.state == StateNone {
      match Memchr(r.pending, '\n')
      case None =>
      case Some(lf) =>
        MemchrAppend(r.pending, b, lf);
        LineStepAppend(env, r, lf, b);
        ConsumeFeed(env, LineStep(env, r, lf), b);
    }
  }

  /** Two calls of rfc5322_read do what one call with both chunks does. */
  lemma FeedTwice(env: Env, r: Reader, a: string, b: string)
    ensures Feed(env, Feed(env, r, a), b) == Feed(env, r, a + b)
  {
    ConsumeFeed(env, r.(pending := r.pending + a), b);
    assert r.pending + a + b == r.pending + (a + b);
  }

  /** The outer loop stops only at a state other than NONE, or when no complete line is left. */
  lemma {:induction false} ConsumeStops(env: Env, r: Reader)
    ensures Consume(env, r).state != StateNone || '\n' !in Consume(env, r).pending
    decreases |r.pending|
  {
    if r.state == StateNone {
      match Memchr(r.pending, '\n')
      case None =>
      case Some(lf) => ConsumeStops(env, LineStep(env, r, lf));
    }
  }

  /** Once the state is ERR (or any state but NONE), later calls only buffer their bytes. */
  lemma ErrorSticks(env: Env, r: Reader, chunk: string)
    requires r.state != StateNone
    ensures Feed(env, r, chunk) == r.(pending := r.pending + chunk)
  {
  }

  /**
   * When the state stays NONE, every complete line is taken: the parser
   * gets each one with its CR cut, on_write (when defined) gets each one
   * ending in a single LF, and only the partial line stays buffered.
   */
  lemma {:induction false} ConsumeLines(env: Env, r: Reader)
    requires Consume(env, r).state == StateNone
    ensures Consume(env, r).pending == Leftover(r.pending)
    ensures Consume(env, r).pushed == r.pushed + Pushed(Lines(r.pending))
    ensures Written(Consume(env, r).events) ==
      Written(r.events) + (if env.handlers.onWrite then Normalised(Lines(r.pending)) else [])
    decreases |r.pending|
  {
    match Memchr(r.pending, '\n')
    case None =>
    case Some(lf) =>
      var r1 := LineStep(env, r, lf);
      assert Consume(env, r) == Consume(env, r1);
      ConsumeLines(env, r1);
      var raw := r.pending[..lf];
      var line := raw[..Cut(raw)];
      var ls := Lines(r1.pending);
      assert Lines(r.pending) == [raw] + ls;
      PushedCons(raw, ls);
      NormalisedCons(raw, ls);
      assert r1.pushed == r.pushed + [CStr(line)];
      SeqAssoc(r.pushed, [CStr(line)], Pushed(ls));
      var d := Drain(env, env.parser(r.pushed + [CStr(line)]), 0, r.frame);
      var written := if env.handlers.onWrite then [OnWrite(line + "\n")] else [];
      assert r1.events == r.events + d.0 + written;
      DrainWritesNothing(env, env.parser(r.pushed + [CStr(line)]), 0, r.frame);
      WrittenAppend(r.events + d.0, written);
      WrittenAppend(r.events, d.0);
      assert Written(r.events + d.0) == Written(r.events);
      assert Written(r1.events) == Written(r.events) + Written(written);
      if env.handlers.onWrite {
        assert Written(written) == [line + "\n"];
        SeqAssoc(Written(r.events), [line + "\n"], Normalised(ls));
      } else {
        assert Written(written) == [];
      }
  }

  lemma {:induction false} PushedCons(x: string, ls: seq<string>)
    ensures Pushed([x] + ls) == [CStr(x[..Cut(x)])] + Pushed(ls)
  {
    assert ([x] + ls)[0] == x && ([x] + ls)[1..] == ls;
  }

  lemma {:induction false} NormalisedCons(x: string, ls: seq<string>)
    ensures Normalised([x] + ls) == [x[..Cut(x)] + "\n"] + Normalised(ls)
  {
    assert ([x] + ls)[0] == x && ([x] + ls)[1..] == ls;
  }

  lemma SeqAssoc<T>(a: seq<T>, b: seq<T>, c: seq<T>)
    ensures a + b + c == a + (b + c)
  {
  }
}
