/** `CSVRecordStream`: the transform stream that owns one parser, feeds it
    the bytes it is given and emits each record `get()` hands out. The Node
    `Transform` machinery is replaced by pure functions over the sequence of
    chunks; an emitted record is an element of the output sequence. */
module RecordStream {
  import opened Wrappers
  import opened Bytes
  import opened RecordParser

  /** What driving the parser over some bytes leaves behind: the parser and
      the records emitted on the way, or the error that stopped it and the
      records emitted before it. */
  datatype Driven =
    | Fed(parser: Parser, records: seq<Record>)
    | Failed(error: ParseError, records: seq<Record>)

  function Prepend(rs: seq<Record>, d: Driven): (r: Driven)
    ensures r.records == rs + d.records
  {
    match d
    case Fed(q, more) => Fed(q, rs + more)
    case Failed(e, more) => Failed(e, rs + more)
  }

  /** The body of the `for ... of` loop in `_transform`, over a whole byte
      sequence: push each byte and call `get()` whenever `push` says a record
      is ready. Because `get()` follows every completion at once, the parser
      is never pushed into while `Complete`, so the only possible failure is
      a stray byte after a closing quote, and it is a byte of the input. */
  function Drive(p: Parser, bytes: seq<byte>): (d: Driven)
    ensures d.Fed? ==> d.parser.trim == p.trim
    ensures p.state != Complete && d.Fed? ==> d.parser.state != Complete
    ensures p.state != Complete && d.Failed? ==> d.error.UnexpectedAfterQuote? && d.error.offending in bytes
    decreases |bytes|
  {
    if |bytes| == 0 then Fed(p, [])
    else
      match Push(p, bytes[0])
      case Err(e) => Failed(e, [])
      case Ok((q, ready)) =>
        if ready then
          var (q', rec) := Get(q).value;
          Prepend([rec], Drive(q', bytes[1..]))
        else Drive(q, bytes[1..])
  }

  /** At most one record per LF: a record is only ever completed by an LF. */
  lemma {:induction false} RecordsPerLine(p: Parser, bytes: seq<byte>)
    ensures |Drive(p, bytes).records| <= Count(bytes, LF)
    decreases |bytes|
  {
    if |bytes| > 0 {
      match Push(p, bytes[0])
      case Err(_) =>
      case Ok((q, ready)) =>
        RecordsPerLine(if ready then Get(q).value.0 else q, bytes[1..]);
    }
  }

  /** A byte that completes no record moves the drive on to the next one. */
  lemma DriveQuiet(p: Parser, b: byte, q: Parser, rest: seq<byte>)
    requires Push(p, b) == Ok((q, false))
    ensures Drive(p, [b] + rest) == Drive(q, rest)
  {
    assert ([b] + rest)[0] == b && ([b] + rest)[1..] == rest;
  }

  /** A byte that completes a record emits it before the rest is driven
      from `Initial`. */
  lemma DriveReady(p: Parser, b: byte, q: Parser, rest: seq<byte>)
    requires Push(p, b) == Ok((q, true))
    ensures Drive(p, [b] + rest) == Prepend([q.fields], Drive(Parser(Initial, q.current, [], q.trim), rest))
  {
    assert ([b] + rest)[0] == b && ([b] + rest)[1..] == rest;
  }

  /** A byte the parser rejects ends the drive with its error. */
  lemma DriveFails(p: Parser, b: byte, e: ParseError, rest: seq<byte>)
    requires Push(p, b) == Err(e)
    ensures Drive(p, [b] + rest) == Failed(e, [])
  {
    assert ([b] + rest)[0] == b;
  }

  /** Continues a drive over more bytes, unless it already failed. */
  function Then(d: Driven, more: seq<byte>): Driven {
    match d
    case Fed(q, rs) => Prepend(rs, Drive(q, more))
    case Failed(_, _) => d
  }

  lemma PrependThen(rs: seq<Record>, d: Driven, more: seq<byte>)
    ensures Prepend(rs, Then(d, more)) == Then(Prepend(rs, d), more)
  {
    if d.Fed? {
      var x := Drive(d.parser, more).records;
      assert rs + (d.records + x) == (rs + d.records) + x;
    }
  }

  lemma PrependPrepend(a: seq<Record>, b: seq<Record>, d: Driven)
    ensures Prepend(a, Prepend(b, d)) == Prepend(a + b, d)
  {
    assert a + (b + d.records) == (a + b) + d.records;
  }

  /** Driving over `a + b` is driving over `a` and then over `b` from where
      it stopped: records come out in input order, and the records emitted
      before an error stay emitted. */
  lemma {:induction false} DriveAppend(p: Parser, a: seq<byte>, b: seq<byte>)
    ensures Drive(p, a + b) == Then(Drive(p, a), b)
    decreases |a|
  {
    if |a| == 0 {
      assert a + b == b;
      assert [] + Drive(p, b).records == Drive(p, b).records;
      match Drive(p, b)
      case Fed(_, _) =>
      case Failed(_, _) =>
    } else {
      assert (a + b)[0] == a[0];
      assert (a + b)[1..] == a[1..] + b;
      match Push(p, a[0])
      case Err(e) =>
      case Ok((q, ready)) =>
        DriveAppend(if ready then Get(q).value.0 else q, a[1..], b);
        if ready {
          var (q', rec) := Get(q).value;
          PrependThen([rec], Drive(q', a[1..]), b);
        }
    }
  }

  /** The loop of `_transform` as written, with the `try`/`catch` turned into
      an early return of the error. It computes `Drive`. */
  method DriveLoop(p: Parser, buffer: seq<byte>) returns (d: Driven)
    ensures d == Drive(p, buffer)
  {
    var parser := p;
    var out: seq<Record> := [];
    var i := 0;
    while i < |buffer|
      invariant 0 <= i <= |buffer|
      invariant Drive(p, buffer) == Prepend(out, Drive(parser, buffer[i..]))
    {
      var rest := buffer[i + 1..];
      assert buffer[i..] == [buffer[i]] + rest;
      var pushed := Push(parser, buffer[i]);
      if pushed.Err? {
        DriveFails(parser, buffer[i], pushed.error, rest);
        assert out + [] == out;
        return Failed(pushed.error, out);
      }
      var (q, ready) := pushed.value;
      if ready {
        var (q', rec) := Get(q).value;
        DriveReady(parser, buffer[i], q, rest);
        PrependPrepend(out, [rec], Drive(q', rest));
        parser := q';
        out := out + [rec];
      } else {
        DriveQuiet(parser, buffer[i], q, rest);
        parser := q;
      }
      i := i + 1;
    }
    assert buffer[i..] == [];
    assert out + [] == out;
    return Fed(parser, out);
  }

  /** The stream's options. Only `trim` reaches the parser; `limit` is
      accepted and read by nothing. */
  datatype Options = Options(trim: bool, limit: int)

  /** The stream's state: the concatenation of the chunks received so far,
      the parser, and the records pushed downstream. */
  datatype Stream = Stream(buffer: seq<byte>, decoder: Parser, emitted: seq<Record>)

  /** A stream is open, ended (`done` called by `_flush`), or destroyed by a
      parse error. */
  datatype Lifecycle =
    | Open(stream: Stream)
    | Done(records: seq<Record>)
    | Destroyed(error: ParseError, records: seq<Record>)

  /** Everything pushed downstream so far. */
  function Emitted(l: Lifecycle): seq<Record> {
    match l
    case Open(s) => s.emitted
    case Done(rs) => rs
    case Destroyed(_, rs) => rs
  }

  /** The constructor: an empty buffer and a fresh parser with the `trim`
      option. */
  function Create(options: Options): (s: Stream)
    ensures s.decoder.trim == options.trim && s.decoder.state != Complete
    // ended at once, the stream emits nothing
    ensures End(s) == Done([])
  {
    Stream([], New(options.trim), [])
  }

  /** `_transform`: appends the chunk to the buffer, which is never cleared,
      and drives the parser over the whole buffer from its first byte. */
  function Transform(s: Stream, chunk: seq<byte>): (r: Lifecycle)
    ensures r.Open? || r.Destroyed?
    ensures r.Open? ==> r.stream.buffer == s.buffer + chunk && r.stream.decoder.trim == s.decoder.trim
    ensures s.decoder.state != Complete && r.Open? ==> r.stream.decoder.state != Complete
    ensures s.decoder.state != Complete && r.Destroyed? ==> r.error.UnexpectedAfterQuote?
    ensures s.emitted <= Emitted(r)
  {
    var buffer := s.buffer + chunk;
    match Drive(s.decoder, buffer)
    case Fed(q, rs) => Open(Stream(buffer, q, s.emitted + rs))
    case Failed(e, rs) => Destroyed(e, s.emitted + rs)
  }

  /** `_flush`: finalises the parser and emits the trailing record, which
      exists exactly when the parser is not in `Initial`. */
  function End(s: Stream): (r: Lifecycle)
    ensures r.Done?
    ensures s.emitted <= r.records
    ensures |r.records| == |s.emitted| + (if s.decoder.state == Initial then 0 else 1)
    ensures s.decoder.state != Initial ==> r.records[|s.emitted|] == Finalise(s.decoder).0.fields
  {
    var (q, ready) := Finalise(s.decoder);
    if ready then Done(s.emitted + [Get(q).value.1])
    else Done(s.emitted)
  }

  function Concat(chunks: seq<seq<byte>>): seq<byte> {
    if |chunks| == 0 then [] else chunks[0] + Concat(chunks[1..])
  }

  lemma ConcatCons(b: seq<byte>, chunks: seq<seq<byte>>)
    requires chunks != []
    ensures (b + chunks[0]) + Concat(chunks[1..]) == b + Concat(chunks)
  {
    assert Concat(chunks) == chunks[0] + Concat(chunks[1..]);
  }

  /** Hands the chunks to `_transform` one after the other; a destroyed
      stream receives nothing more. */
  function Feed(s: Stream, chunks: seq<seq<byte>>): (r: Lifecycle)
    ensures r.Open? || r.Destroyed?
    ensures r.Open? ==> r.stream.buffer == s.buffer + Concat(chunks) && r.stream.decoder.trim == s.decoder.trim
    ensures s.decoder.state != Complete && r.Open? ==> r.stream.decoder.state != Complete
    ensures s.decoder.state != Complete && r.Destroyed? ==> r.error.UnexpectedAfterQuote?
    ensures s.emitted <= Emitted(r)
    decreases |chunks|
  {
    if |chunks| == 0 then
      assert s.buffer + [] == s.buffer;
      Open(s)
    else
      var t := Transform(s, chunks[0]);
      if t.Open? then
        var r := Feed(t.stream, chunks[1..]);
        ConcatCons(s.buffer, chunks);
        assert s.emitted <= t.stream.emitted <= Emitted(r);
        r
      else t
  }

  /** Once destroyed, a stream ignores every later chunk. */
  lemma {:induction false} FeedStopsOnError(s: Stream, a: seq<seq<byte>>, b: seq<seq<byte>>)
    requires Feed(s, a).Destroyed?
    ensures Feed(s, a + b) == Feed(s, a)
    decreases |a|
  {
    assert a != [];
    assert (a + b)[0] == a[0] && (a + b)[1..] == a[1..] + b;
    var t := Transform(s, a[0]);
    if t.Open? {
      FeedStopsOnError(t.stream, a[1..], b);
    }
  }

  /** The whole stream: the chunks, then end of input. It ends normally or
      is destroyed by a stray byte after a closing quote. */
  function Run(options: Options, chunks: seq<seq<byte>>): (r: Lifecycle)
    ensures r.Done? || (r.Destroyed? && r.error.UnexpectedAfterQuote?)
  {
    match Feed(Create(options), chunks)
    case Open(s) => End(s)
    case other => other
  }

  /** One pass of the parser over `bytes`, then end of input. */
  function Parse(trim: bool, bytes: seq<byte>): (r: Lifecycle)
    ensures r.Done? || (r.Destroyed? && r.error.UnexpectedAfterQuote? && r.error.offending in bytes)
  {
    match Drive(New(trim), bytes)
    case Fed(q, rs) => End(Stream(bytes, q, rs))
    case Failed(e, rs) => Destroyed(e, rs)
  }

  /** Input that leaves the parser between records parses to exactly the
      records the drive emitted. */
  lemma ParseFed(trim: bool, bytes: seq<byte>, rs: seq<Record>)
    requires Drive(New(trim), bytes) == Fed(New(trim), rs)
    ensures Parse(trim, bytes) == Done(rs)
  {
  }

  /** The parse emits at most one record per LF, and one more for a last
      line without a line break. */
  lemma ParseBound(trim: bool, bytes: seq<byte>)
    ensures |Parse(trim, bytes).records| <= Count(bytes, LF) + 1
  {
    RecordsPerLine(New(trim), bytes);
  }

  /** With a single chunk the stream is the one-pass parse; no input, or one
      empty chunk, emits nothing. */
  lemma RunSingleChunk(options: Options, chunk: seq<byte>)
    ensures Run(options, [chunk]) == Parse(options.trim, chunk)
    ensures Run(options, []) == Done([])
    ensures Run(options, [[]]) == Done([])
  {
    var s := Create(options);
    assert [chunk][1..] == [];
    assert s.buffer + chunk == chunk;
    assert Feed(s, [chunk]) == Transform(s, chunk) by {
      var t := Transform(s, chunk);
      if t.Open? {
        assert Feed(t.stream, []) == Open(t.stream);
      }
    }
    match Drive(s.decoder, chunk)
    case Fed(q, rs) => assert s.emitted + rs == rs;
    case Failed(e, rs) => assert s.emitted + rs == rs;
  }

  /** The `limit` option changes nothing. */
  lemma RunIgnoresLimit(trim: bool, limit: int, limit': int, chunks: seq<seq<byte>>)
    ensures Run(Options(trim, limit), chunks) == Run(Options(trim, limit'), chunks)
  {
  }

  /** As written, the k-th `_transform` re-drives the parser over all k
      chunks: when the first chunk ends on a record boundary, every record it
      holds is emitted again by the second call. */
  lemma {:induction false} SecondChunkReplaysFirst(options: Options, c1: seq<byte>, c2: seq<byte>, rs1: seq<Record>, q: Parser, rs2: seq<Record>)
    requires Drive(New(options.trim), c1) == Fed(New(options.trim), rs1)
    requires Drive(New(options.trim), c2) == Fed(q, rs2)
    ensures Feed(Create(options), [c1, c2]) == Open(Stream(c1 + c2, q, rs1 + (rs1 + rs2)))
  {
    FirstChunk(options, c1, rs1);
    SecondChunk(options, c1, c2, rs1, q, rs2);
    FeedTwo(Create(options), c1, c2);
  }

  lemma FirstChunk(options: Options, c1: seq<byte>, rs1: seq<Record>)
    requires Drive(New(options.trim), c1) == Fed(New(options.trim), rs1)
    ensures Transform(Create(options), c1) == Open(Stream(c1, New(options.trim), rs1))
  {
    assert [] + c1 == c1 && [] + rs1 == rs1;
  }

  lemma SecondChunk(options: Options, c1: seq<byte>, c2: seq<byte>, rs1: seq<Record>, q: Parser, rs2: seq<Record>)
    requires Drive(New(options.trim), c1) == Fed(New(options.trim), rs1)
    requires Drive(New(options.trim), c2) == Fed(q, rs2)
    ensures Transform(Stream(c1, New(options.trim), rs1), c2) == Open(Stream(c1 + c2, q, rs1 + (rs1 + rs2)))
  {
    DriveTwoChunks(options.trim, c1, c2, rs1, q, rs2);
  }

  /** A chunk that ends on a record boundary, followed by another: one
      drive over both emits the records of each in turn. */
  lemma DriveTwoChunks(t: bool, c1: seq<byte>, c2: seq<byte>, rs1: seq<Record>, q: Parser, rs2: seq<Record>)
    requires Drive(New(t), c1) == Fed(New(t), rs1)
    requires Drive(New(t), c2) == Fed(q, rs2)
    ensures Drive(New(t), c1 + c2) == Fed(q, rs1 + rs2)
  {
    DriveAppend(New(t), c1, c2);
  }

  /** Two chunks: the second goes to the stream the first one left open. */
  lemma FeedTwo(s: Stream, c1: seq<byte>, c2: seq<byte>)
    ensures Feed(s, [c1, c2])
         == match Transform(s, c1)
            case Open(s1) => Transform(s1, c2)
            case other => other
  {
    assert [c1, c2][1..] == [c2];
    assert [c2][1..] == [];
    var t := Transform(s, c1);
    if t.Open? {
      var u := Transform(t.stream, c2);
      if u.Open? {
        assert Feed(u.stream, []) == u;
      }
    }
  }

  lemma Assoc<T>(a: seq<T>, b: seq<T>, c: seq<T>)
    ensures (a + b) + c == a + (b + c)
  {
  }

  /** What the `_transform` calls emit, one after the other, when every
      chunk ends on a record boundary and yields `rss[k]` on its own: call
      `k` re-drives the whole buffer, so it emits the records of every
      earlier chunk again and then those of chunk `k`. `acc` holds the
      records of what the buffer already held. */
  function Replayed(acc: seq<Record>, rss: seq<seq<Record>>): seq<Record>
    decreases |rss|
  {
    if rss == [] then [] else (acc + rss[0]) + Replayed(acc + rss[0], rss[1..])
  }

  /** As written, over any number of chunks that each end on a record
      boundary: every call feeds the entire accumulated buffer to the parser
      again, so the stream emits `Replayed`. */
  lemma {:induction false} FeedReplays(t: bool, buf: seq<byte>, e: seq<Record>, rsBuf: seq<Record>,
                                       chunks: seq<seq<byte>>, rss: seq<seq<Record>>)
    requires Drive(New(t), buf) == Fed(New(t), rsBuf)
    requires |rss| == |chunks|
    requires forall k :: 0 <= k < |chunks| ==> Drive(New(t), chunks[k]) == Fed(New(t), rss[k])
    ensures Feed(Stream(buf, New(t), e), chunks)
         == Open(Stream(buf + Concat(chunks), New(t), e + Replayed(rsBuf, rss)))
    decreases |chunks|
  {
    if chunks == [] {
      assert buf + [] == buf && e + [] == e;
    } else {
      var buf', rsBuf' := buf + chunks[0], rsBuf + rss[0];
      var e' := e + rsBuf';
      DriveTwoChunks(t, buf, chunks[0], rsBuf, New(t), rss[0]);
      FeedStep(t, buf, e, rsBuf, chunks[0], rss[0]);
      ReplayTail(t, chunks, rss);
      FeedReplays(t, buf', e', rsBuf', chunks[1..], rss[1..]);
      ConcatCons(buf, chunks);
      assert Replayed(rsBuf, rss) == rsBuf' + Replayed(rsBuf', rss[1..]);
      Assoc(e, rsBuf', Replayed(rsBuf', rss[1..]));
    }
  }

  /** One call of `FeedReplays`: the buffer and the chunk both end on a
      record boundary. */
  lemma FeedStep(t: bool, buf: seq<byte>, e: seq<Record>, rsBuf: seq<Record>, c: seq<byte>, rs: seq<Record>)
    requires Drive(New(t), buf) == Fed(New(t), rsBuf)
    requires Drive(New(t), c) == Fed(New(t), rs)
    ensures Transform(Stream(buf, New(t), e), c) == Open(Stream(buf + c, New(t), e + (rsBuf + rs)))
  {
    DriveTwoChunks(t, buf, c, rsBuf, New(t), rs);
  }

  lemma ReplayTail(t: bool, chunks: seq<seq<byte>>, rss: seq<seq<Record>>)
    requires chunks != [] && |rss| == |chunks|
    requires forall k :: 0 <= k < |chunks| ==> Drive(New(t), chunks[k]) == Fed(New(t), rss[k])
    ensures forall k :: 0 <= k < |chunks[1..]| ==> Drive(New(t), chunks[1..][k]) == Fed(New(t), rss[1..][k])
  {
    forall k | 0 <= k < |chunks[1..]|
      ensures Drive(New(t), chunks[1..][k]) == Fed(New(t), rss[1..][k])
    {
      assert chunks[1..][k] == chunks[k + 1] && rss[1..][k] == rss[k + 1];
    }
  }

  /** The whole run as written, for chunks that each end on a record
      boundary: the records of chunk `k` are emitted once by call `k` and
      again by every later call. */
  lemma RunReplays(options: Options, chunks: seq<seq<byte>>, rss: seq<seq<Record>>)
    requires |rss| == |chunks|
    requires forall k :: 0 <= k < |chunks| ==> Drive(New(options.trim), chunks[k]) == Fed(New(options.trim), rss[k])
    ensures Run(options, chunks) == Done(Replayed([], rss))
  {
    var t := options.trim;
    var rs := Replayed([], rss);
    assert Drive(New(t), []) == Fed(New(t), []);
    assert Create(options) == Stream([], New(t), []);
    FeedReplays(t, [], [], [], chunks, rss);
    assert [] + rs == rs;
    EndFresh(Stream([] + Concat(chunks), New(t), rs));
  }

  /** A stream whose parser is fresh ends with nothing more. */
  lemma EndFresh(s: Stream)
    requires s.decoder.state == Initial
    ensures End(s) == Done(s.emitted)
  {
  }

  /** A one-letter line ending in LF is one record of one field. */
  lemma LetterLine(c: byte)
    requires c !in {COMMA, CR, LF, QUOTE}
    ensures Drive(New(false), [c, LF]) == Fed(New(false), [[[c]]])
  {
    var f := Parser(Field, [], [], false);
    var q := Parser(Field, [c], [], false);
    assert Push(New(false), c) == Push(f, c);
    assert f.current + [c] == [c];
    assert Push(f, c) == Ok((q, false));
    assert Flush(q) == Parser(Field, [], [[c]], false);
    assert Push(q, LF) == Ok((Parser(Complete, [], [[c]], false), true));
    assert [c, LF][1..] == [LF];
    assert [LF][1..] == [];
    assert Drive(New(false), [c, LF]) == Drive(q, [LF]);
    assert Get(Parser(Complete, [], [[c]], false)).value == (New(false), [[c]]);
    assert Drive(q, [LF]) == Prepend([[[c]]], Drive(New(false), []));
    assert [[[c]]] + [] == [[[c]]];
  }

  /** Two one-record chunks "a\n" and "b\n" give three records, the first
      one twice. */
  lemma ReplayExample()
    ensures Run(Options(false, 0), [[0x61, LF], [0x62, LF]]) == Done([[[0x61]], [[0x61]], [[0x62]]])
  {
    LetterLine(0x61);
    LetterLine(0x62);
    SecondChunkReplaysFirst(Options(false, 0), [0x61, LF], [0x62, LF], [[[0x61]]], New(false), [[[0x62]]]);
  }

  /** The one-pass parse of the same bytes gives two records. */
  lemma OnePassExample()
    ensures Parse(false, [0x61, LF, 0x62, LF]) == Done([[[0x61]], [[0x62]]])
  {
    var a: seq<byte> := [0x61, LF];
    var b: seq<byte> := [0x62, LF];
    LetterLine(0x61);
    LetterLine(0x62);
    DriveAppend(New(false), a, b);
    assert a + b == [0x61, LF, 0x62, LF];
  }

  /** A one-digit line ending in CRLF is one record of one field. */
  lemma DigitLine(c: byte)
    requires c !in {COMMA, CR, LF, QUOTE}
    ensures Drive(New(false), [c, CR, LF]) == Fed(New(false), [[[c]]])
  {
    var f := Parser(Field, [], [], false);
    var q := Parser(Field, [c], [], false);
    var d := Parser(RecordDelimiter, [], [[c]], false);
    assert Push(New(false), c) == Push(f, c);
    assert f.current + [c] == [c];
    DriveQuiet(New(false), c, q, [CR, LF]);
    assert q.fields + [FieldValue(false, q.current)] == [[c]];
    DriveQuiet(q, CR, d, [LF]);
    DriveReady(d, LF, d.(state := Complete), []);
    assert [c, CR, LF] == [c] + [CR, LF] && [CR, LF] == [CR] + [LF] && [LF] == [LF] + [];
    assert [[[c]]] + [] == [[[c]]];
  }

  /** Whole lines driven one after another from `Initial` emit their
      records one after another. */
  lemma LinesAppend(a: seq<byte>, ra: seq<Record>, b: seq<byte>, rb: seq<Record>)
    requires Drive(New(false), a) == Fed(New(false), ra)
    requires Drive(New(false), b) == Fed(New(false), rb)
    ensures Drive(New(false), a + b) == Fed(New(false), ra + rb)
  {
    DriveAppend(New(false), a, b);
  }

  /** The input of the "limits" example, four CRLF lines in one chunk with
      `limit` 2, gives all four records. */
  lemma LimitsExample()
    ensures Run(Options(false, 2), [[0x31, CR, LF, 0x32, CR, LF, 0x33, CR, LF, 0x34, CR, LF]])
         == Done([[[0x31]], [[0x32]], [[0x33]], [[0x34]]])
  {
    var l1: seq<byte> := [0x31, CR, LF];
    var l2: seq<byte> := [0x32, CR, LF];
    var l3: seq<byte> := [0x33, CR, LF];
    var l4: seq<byte> := [0x34, CR, LF];
    var all := l1 + (l2 + (l3 + l4));
    assert all == [0x31, CR, LF, 0x32, CR, LF, 0x33, CR, LF, 0x34, CR, LF];
    var rs: seq<Record> := [[[0x31]], [[0x32]], [[0x33]], [[0x34]]];
    assert rs == [[[0x31]]] + ([[[0x32]]] + ([[[0x33]]] + [[[0x34]]]));
    DigitLine(0x31);
    DigitLine(0x32);
    DigitLine(0x33);
    DigitLine(0x34);
    LinesAppend(l3, [[[0x33]]], l4, [[[0x34]]]);
    LinesAppend(l2, [[[0x32]]], l3 + l4, [[[0x33]]] + [[[0x34]]]);
    LinesAppend(l1, [[[0x31]]], l2 + (l3 + l4), [[[0x32]]] + ([[[0x33]]] + [[[0x34]]]));
    RunSingleChunk(Options(false, 2), all);
  }

  /** `_transform` with the evidently intended buffer handling: the buffer
      only ever holds bytes the parser has not consumed, so it is empty
      again once the loop has run. */
  function TransformFixed(s: Stream, chunk: seq<byte>): (r: Lifecycle)
    ensures r.Open? || r.Destroyed?
    ensures r.Open? ==> r.stream.buffer == []
    ensures s.emitted <= Emitted(r)
  {
    Absorb(s.emitted, Drive(s.decoder, s.buffer + chunk))
  }

  /** The stream after a drive that started with `emitted` already out and
      an empty buffer. */
  function Absorb(emitted: seq<Record>, d: Driven): (r: Lifecycle)
    ensures Emitted(r) == emitted + d.records
  {
    match d
    case Fed(q, rs) => Open(Stream([], q, emitted + rs))
    case Failed(e, rs) => Destroyed(e, emitted + rs)
  }

  lemma AbsorbPrepend(emitted: seq<Record>, rs: seq<Record>, d: Driven)
    ensures Absorb(emitted, Prepend(rs, d)) == Absorb(emitted + rs, d)
  {
    assert emitted + (rs + d.records) == emitted + rs + d.records;
  }

  function FeedFixed(s: Stream, chunks: seq<seq<byte>>): (r: Lifecycle)
    ensures r.Open? || r.Destroyed?
    ensures s.emitted <= Emitted(r)
    decreases |chunks|
  {
    if |chunks| == 0 then Open(s)
    else
      var t := TransformFixed(s, chunks[0]);
      if t.Open? then
        var r := FeedFixed(t.stream, chunks[1..]);
        assert s.emitted <= t.stream.emitted <= Emitted(r);
        r
      else t
  }

  function RunFixed(options: Options, chunks: seq<seq<byte>>): Lifecycle {
    match FeedFixed(Create(options), chunks)
    case Open(s) => End(s)
    case other => other
  }

  lemma {:induction false} FeedFixedDrives(p: Parser, emitted: seq<Record>, chunks: seq<seq<byte>>)
    ensures FeedFixed(Stream([], p, emitted), chunks) == Absorb(emitted, Drive(p, Concat(chunks)))
    decreases |chunks|
  {
    if |chunks| == 0 {
      assert emitted + [] == emitted;
    } else {
      var c := chunks[0];
      var rest := Concat(chunks[1..]);
      assert [] + c == c;
      assert Concat(chunks) == c + rest;
      DriveAppend(p, c, rest);
      var d := Drive(p, c);
      if d.Fed? {
        FeedFixedDrives(d.parser, emitted + d.records, chunks[1..]);
        AbsorbPrepend(emitted, d.records, Drive(d.parser, rest));
      }
    }
  }

  /** With the fix, how the input is split into chunks does not matter: the
      stream emits what the one-pass parse of the concatenation emits. */
  lemma ChunkInvariance(options: Options, chunks: seq<seq<byte>>)
    ensures RunFixed(options, chunks) == Parse(options.trim, Concat(chunks))
  {
    FeedFixedDrives(New(options.trim), [], chunks);
    var d := Drive(New(options.trim), Concat(chunks));
    assert [] + d.records == d.records;
  }
}
