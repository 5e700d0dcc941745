/** Reference definitions for the CSV format of section 2 of RFC 4180, and
    what the parser makes of text written in it: unquoted fields split on
    commas, quoted fields with doubled quotes, CRLF or bare LF record ends.
    The lemmas here also pin down where the parser departs from the RFC. */
module Rfc4180 {
  import opened Wrappers
  import opened Bytes
  import opened RecordParser
  import opened RecordStream

  /** The value a flush stores for each field of `r`. */
  function FieldValues(trim: bool, r: Record): (v: Record)
    ensures |v| == |r|
  {
    if r == [] then [] else [FieldValue(trim, r[0])] + FieldValues(trim, r[1..])
  }

  lemma FieldValuesSingle(trim: bool, f: seq<byte>)
    ensures FieldValues(trim, [f]) == [FieldValue(trim, f)]
  {
    assert [f][1..] == [];
  }

  lemma {:induction false} FieldValuesAppend(trim: bool, a: Record, b: Record)
    ensures FieldValues(trim, a + b) == FieldValues(trim, a) + FieldValues(trim, b)
  {
    if a == [] {
      assert a + b == b;
    } else {
      calc {
        FieldValues(trim, a + b);
      == { assert (a + b)[0] == a[0]; }
        [FieldValue(trim, a[0])] + FieldValues(trim, (a + b)[1..]);
      == { assert (a + b)[1..] == a[1..] + b; }
        [FieldValue(trim, a[0])] + FieldValues(trim, a[1..] + b);
      == { FieldValuesAppend(trim, a[1..], b); }
        [FieldValue(trim, a[0])] + (FieldValues(trim, a[1..]) + FieldValues(trim, b));
      }
    }
  }

  lemma {:induction false} FieldValuesNoTrim(r: Record)
    ensures FieldValues(false, r) == r
  {
    if r != [] {
      FieldValuesNoTrim(r[1..]);
      assert r == [r[0]] + r[1..];
    }
  }

  /** A drive that has not started a record yet behaves like one at the
      start of a fresh record, whatever the leftovers of the last one. */
  lemma DriveFromInitial(current: seq<byte>, fields: Record, trim: bool, bytes: seq<byte>)
    requires |bytes| > 0
    ensures Drive(Parser(Initial, current, fields, trim), bytes) == Drive(Parser(Field, [], [], trim), bytes)
  {
    assert Push(Parser(Initial, current, fields, trim), bytes[0]) == Push(Parser(Field, [], [], trim), bytes[0]);
  }

  // ---------------------------------------------------------------------
  // Unquoted fields (rules 1, 2 and 4)

  /** The comma-separated pieces of a line; there is always at least one. */
  function Split(s: seq<byte>): (parts: seq<seq<byte>>)
    ensures |parts| > 0
  {
    if |s| == 0 then [[]]
    else if s[0] == COMMA then [[]] + Split(s[1..])
    else
      var t := Split(s[1..]);
      [[s[0]] + t[0]] + t[1..]
  }

  /** The pieces joined with commas between them. */
  function Join(parts: seq<seq<byte>>): seq<byte> {
    if |parts| == 0 then []
    else if |parts| == 1 then parts[0]
    else parts[0] + [COMMA] + Join(parts[1..])
  }

  /** A line with k commas has k + 1 fields. */
  lemma {:induction false} SplitCount(s: seq<byte>)
    ensures |Split(s)| == Count(s, COMMA) + 1
  {
    if |s| > 0 {
      SplitCount(s[1..]);
    }
  }

  lemma {:induction false} SplitNoComma(s: seq<byte>)
    requires COMMA !in s
    ensures Split(s) == [s]
  {
    if |s| > 0 {
      SplitNoComma(s[1..]);
      assert [s[0]] + s[1..] == s;
    }
  }

  lemma {:induction false} SplitComma(s: seq<byte>, rest: seq<byte>)
    requires COMMA !in s
    ensures Split(s + [COMMA] + rest) == [s] + Split(rest)
  {
    if |s| == 0 {
      assert s + [COMMA] + rest == [COMMA] + rest;
    } else {
      assert (s + [COMMA] + rest)[1..] == s[1..] + [COMMA] + rest;
      SplitComma(s[1..], rest);
      assert [s[0]] + s[1..] == s;
    }
  }

  /** Splitting and joining are inverse: joining the pieces gives the line
      back, and comma-free pieces are recovered from their join. */
  lemma {:induction false} JoinSplit(s: seq<byte>)
    ensures Join(Split(s)) == s
  {
    if |s| > 0 {
      JoinSplit(s[1..]);
      var t := Split(s[1..]);
      if s[0] == COMMA {
        assert s == [COMMA] + s[1..];
      } else if |t| == 1 {
        assert s == [s[0]] + t[0];
      } else {
        assert ([s[0]] + t[0]) + [COMMA] + Join(t[1..]) == [s[0]] + (t[0] + [COMMA] + Join(t[1..]));
        assert s == [s[0]] + s[1..];
      }
    }
  }

  lemma {:induction false} SplitJoin(parts: seq<seq<byte>>)
    requires |parts| > 0
    requires forall i :: 0 <= i < |parts| ==> COMMA !in parts[i]
    ensures Split(Join(parts)) == parts
  {
    if |parts| == 1 {
      SplitNoComma(parts[0]);
    } else {
      SplitJoin(parts[1..]);
      SplitComma(parts[0], Join(parts[1..]));
      assert [parts[0]] + parts[1..] == parts;
    }
  }

  /** Text without quotes or line breaks. */
  predicate Plain(s: seq<byte>) {
    QUOTE !in s && CR !in s && LF !in s
  }

  function Last(parts: seq<seq<byte>>): seq<byte>
    requires |parts| > 0
  {
    parts[|parts| - 1]
  }

  function AllButLast(parts: seq<seq<byte>>): seq<seq<byte>>
    requires |parts| > 0
  {
    parts[..|parts| - 1]
  }

  /** The fields a record ends up with when every piece but the last was
      stored and the last one is flushed. */
  lemma FlushLast(trim: bool, parts: seq<seq<byte>>)
    requires |parts| > 0
    ensures FieldValues(trim, AllButLast(parts)) + [FieldValue(trim, Last(parts))] == FieldValues(trim, parts)
  {
    assert AllButLast(parts) + [Last(parts)] == parts;
    FieldValuesAppend(trim, AllButLast(parts), [Last(parts)]);
    FieldValuesSingle(trim, Last(parts));
  }

  /** Inside an unquoted field, plain text is split on commas: every piece
      but the last is stored, the last one is the current field. */
  lemma {:induction false} DrivePlain(current: seq<byte>, fields: Record, trim: bool, line: seq<byte>)
    requires COMMA !in current && Plain(line)
    ensures var parts := Split(current + line);
      Drive(Parser(Field, current, fields, trim), line)
        == Fed(Parser(Field, Last(parts), fields + FieldValues(trim, AllButLast(parts)), trim), [])
    decreases |line|
  {
    var p := Parser(Field, current, fields, trim);
    if |line| == 0 {
      assert current + line == current;
      SplitNoComma(current);
      assert fields + FieldValues(trim, []) == fields;
    } else {
      var c := line[0];
      var tail := line[1..];
      if c == COMMA {
        var stored := fields + [FieldValue(trim, current)];
        DrivePlain([], stored, trim, tail);
        assert [] + tail == tail;
        assert line == [COMMA] + tail;
        DrivePlainComma(current, fields, trim, tail);
      } else {
        DrivePlain(current + [c], fields, trim, tail);
        DrivePlainByte(current, fields, trim, line);
        assert (current + [c]) + tail == current + line;
      }
    }
  }

  /** The step of `DrivePlain` over a byte that is not a comma. */
  lemma DrivePlainByte(current: seq<byte>, fields: Record, trim: bool, line: seq<byte>)
    requires |line| > 0 && line[0] !in {COMMA, QUOTE, CR, LF}
    ensures Drive(Parser(Field, current, fields, trim), line)
         == Drive(Parser(Field, current + [line[0]], fields, trim), line[1..])
  {
    var p := Parser(Field, current, fields, trim);
    assert line == [line[0]] + line[1..];
    DriveQuiet(p, line[0], Parser(Field, current + [line[0]], fields, trim), line[1..]);
  }

  /** The comma step of `DrivePlain`, given what the rest of the line does. */
  lemma DrivePlainComma(current: seq<byte>, fields: Record, trim: bool, tail: seq<byte>)
    requires COMMA !in current
    requires var stored := fields + [FieldValue(trim, current)];
      Drive(Parser(Field, [], stored, trim), tail)
        == Fed(Parser(Field, Last(Split(tail)), stored + FieldValues(trim, AllButLast(Split(tail))), trim), [])
    ensures var parts := Split(current + ([COMMA] + tail));
      Drive(Parser(Field, current, fields, trim), [COMMA] + tail)
        == Fed(Parser(Field, Last(parts), fields + FieldValues(trim, AllButLast(parts)), trim), [])
  {
    var stored := fields + [FieldValue(trim, current)];
    var p := Parser(Field, current, fields, trim);
    var parts := Split(current + ([COMMA] + tail));
    calc {
      Drive(p, [COMMA] + tail);
    == { DriveQuiet(p, COMMA, Parser(Field, [], stored, trim), tail); }
      Drive(Parser(Field, [], stored, trim), tail);
    ==
      Fed(Parser(Field, Last(Split(tail)), stored + FieldValues(trim, AllButLast(Split(tail))), trim), []);
    == { CommaStored(current, fields, trim, tail); }
      Fed(Parser(Field, Last(parts), fields + FieldValues(trim, AllButLast(parts)), trim), []);
    }
  }

  /** How the pieces of a line change when a field and a comma go before
      it: the last piece is the same, and the stored ones gain the field. */
  lemma CommaStored(current: seq<byte>, fields: Record, trim: bool, tail: seq<byte>)
    requires COMMA !in current
    ensures var parts := Split(current + ([COMMA] + tail));
      && Last(parts) == Last(Split(tail))
      && fields + FieldValues(trim, AllButLast(parts))
         == fields + [FieldValue(trim, current)] + FieldValues(trim, AllButLast(Split(tail)))
  {
    var parts' := Split(tail);
    var parts := Split(current + ([COMMA] + tail));
    assert parts == [current] + parts' by {
      SplitComma(current, tail);
      assert current + ([COMMA] + tail) == current + [COMMA] + tail;
    }
    assert AllButLast(parts) == [current] + AllButLast(parts');
    FieldValuesAppend(trim, [current], AllButLast(parts'));
    FieldValuesSingle(trim, current);
  }

  /** The parser after an unquoted line of a fresh record. */
  function AfterPlain(trim: bool, line: seq<byte>): Parser {
    var parts := Split(line);
    Parser(Field, Last(parts), FieldValues(trim, AllButLast(parts)), trim)
  }

  lemma DrivePlainLine(trim: bool, line: seq<byte>, more: seq<byte>)
    requires Plain(line) && |line + more| > 0
    ensures Drive(New(trim), line + more) == Drive(AfterPlain(trim, line), more)
  {
    var f := Parser(Field, [], [], trim);
    calc {
      Drive(New(trim), line + more);
    == { DriveFromInitial([], [], trim, line + more); }
      Drive(f, line + more);
    == { DriveAppend(f, line, more); }
      Then(Drive(f, line), more);
    == { DrivePlain([], [], trim, line);
         assert [] + line == line;
         assert [] + FieldValues(trim, AllButLast(Split(line))) == FieldValues(trim, AllButLast(Split(line))); }
      Then(Fed(AfterPlain(trim, line), []), more);
    == { assert [] + Drive(AfterPlain(trim, line), more).records == Drive(AfterPlain(trim, line), more).records; }
      Drive(AfterPlain(trim, line), more);
    }
  }

  /** One unquoted line and its end: a bare LF, or a CR followed by any
      bytes other than LF and then an LF (the bytes in between are dropped).
      The record holds the comma-separated pieces of the line; an empty line
      gives one empty field. */
  lemma PlainLineDrive(trim: bool, line: seq<byte>, junk: seq<byte>, rest: seq<byte>)
    requires Plain(line) && LF !in junk
    ensures Drive(New(trim), line + [LF] + rest)
         == Prepend([FieldValues(trim, Split(line))], Drive(New(trim), rest))
    ensures Drive(New(trim), line + [CR] + junk + [LF] + rest)
         == Prepend([FieldValues(trim, Split(line))], Drive(New(trim), rest))
  {
    PlainLineLF(trim, line, rest);
    PlainLineCR(trim, line, junk, rest);
  }

  /** The parser after an unquoted line, once a CR or LF has flushed the
      last field. */
  lemma FlushPlain(trim: bool, line: seq<byte>)
    ensures Flush(AfterPlain(trim, line)) == Parser(Field, [], FieldValues(trim, Split(line)), trim)
  {
    FlushLast(trim, Split(line));
  }

  lemma PlainLineLF(trim: bool, line: seq<byte>, rest: seq<byte>)
    requires Plain(line)
    ensures Drive(New(trim), line + [LF] + rest)
         == Prepend([FieldValues(trim, Split(line))], Drive(New(trim), rest))
  {
    var p := AfterPlain(trim, line);
    var rec := FieldValues(trim, Split(line));
    calc {
      Drive(New(trim), line + [LF] + rest);
    == { assert line + [LF] + rest == line + ([LF] + rest); DrivePlainLine(trim, line, [LF] + rest); }
      Drive(p, [LF] + rest);
    == { FlushPlain(trim, line); DriveReady(p, LF, Parser(Complete, [], rec, trim), rest); }
      Prepend([rec], Drive(New(trim), rest));
    }
  }

  lemma PlainLineCR(trim: bool, line: seq<byte>, junk: seq<byte>, rest: seq<byte>)
    requires Plain(line) && LF !in junk
    ensures Drive(New(trim), line + [CR] + junk + [LF] + rest)
         == Prepend([FieldValues(trim, Split(line))], Drive(New(trim), rest))
  {
    var p := AfterPlain(trim, line);
    var rec := FieldValues(trim, Split(line));
    var done := Parser(RecordDelimiter, [], rec, trim);
    calc {
      Drive(New(trim), line + [CR] + junk + [LF] + rest);
    == { assert line + [CR] + junk + [LF] + rest == line + ([CR] + (junk + [LF] + rest));
         DrivePlainLine(trim, line, [CR] + (junk + [LF] + rest)); }
      Drive(p, [CR] + (junk + [LF] + rest));
    == { FlushPlain(trim, line); DriveQuiet(p, CR, done, junk + [LF] + rest); }
      Drive(done, junk + [LF] + rest);
    == { DriveDelimiter(done, junk, rest); }
      Prepend([rec], Drive(New(trim), rest));
    }
  }

  /** After a CR, every byte up to the next LF is dropped and the LF
      completes the record. */
  lemma {:induction false} DriveDelimiter(p: Parser, junk: seq<byte>, rest: seq<byte>)
    requires p.state == RecordDelimiter && LF !in junk
    ensures Drive(p, junk + [LF] + rest)
         == Prepend([p.fields], Drive(Parser(Initial, p.current, [], p.trim), rest))
    decreases |junk|
  {
    if |junk| == 0 {
      assert junk + [LF] + rest == [LF] + rest;
      DriveReady(p, LF, p.(state := Complete), rest);
    } else {
      assert junk + [LF] + rest == [junk[0]] + (junk[1..] + [LF] + rest);
      DriveQuiet(p, junk[0], p, junk[1..] + [LF] + rest);
      DriveDelimiter(p, junk[1..], rest);
    }
  }

  /** RFC 4180 rules 1, 2 and 4 for a last line without a line break: no
      input gives no record, anything else gives one record of the
      comma-separated pieces. */
  lemma PlainLastLine(trim: bool, line: seq<byte>)
    requires Plain(line)
    ensures Parse(trim, line) == if line == [] then Done([]) else Done([FieldValues(trim, Split(line))])
  {
    if line != [] {
      assert line + [] == line;
      DrivePlainLine(trim, line, []);
      FlushLast(trim, Split(line));
    }
  }

  /** Comma-separated unquoted fields written as one line stay unquoted. */
  lemma {:induction false} JoinPlain(parts: seq<seq<byte>>)
    requires forall i :: 0 <= i < |parts| ==> Plain(parts[i])
    ensures Plain(Join(parts))
  {
    if |parts| > 1 {
      JoinPlain(parts[1..]);
      assert Plain(parts[0]);
    }
  }

  /** Rules 1 and 4 for unquoted fields: fields without quotes, commas or
      line breaks, written with commas between them and ended by CRLF, read
      back as exactly those fields, trimmed when `trim` is on. */
  lemma PlainRoundTrip(trim: bool, parts: seq<seq<byte>>)
    requires |parts| > 0
    requires forall i :: 0 <= i < |parts| ==> Plain(parts[i]) && COMMA !in parts[i]
    ensures Parse(trim, Join(parts) + [CR, LF]) == Done([FieldValues(trim, parts)])
  {
    var line := Join(parts);
    JoinPlain(parts);
    SplitJoin(parts);
    PlainLineDrive(trim, line, [], []);
    assert line + [CR] + [] + [LF] + [] == line + [CR, LF];
    assert Drive(New(trim), []) == Fed(New(trim), []);
    ParseFed(trim, line + [CR, LF], [FieldValues(trim, parts)]);
  }

  // ---------------------------------------------------------------------
  // Quoted fields (rules 5, 6 and 7)

  /** Rule 7: a quote inside a quoted field is written twice. */
  function Escape(f: seq<byte>): seq<byte> {
    if f == [] then []
    else (if f[0] == QUOTE then [QUOTE, QUOTE] else [f[0]]) + Escape(f[1..])
  }

  function Quoted(f: seq<byte>): seq<byte> {
    [QUOTE] + Escape(f) + [QUOTE]
  }

  /** The fields of a record, each quoted, separated by commas. */
  function EncodeFields(r: Record): seq<byte>
    requires |r| > 0
  {
    if |r| == 1 then Quoted(r[0]) else Quoted(r[0]) + [COMMA] + EncodeFields(r[1..])
  }

  /** A record with all fields quoted, ended by CRLF. */
  function EncodeRecord(r: Record): seq<byte>
    requires |r| > 0
  {
    EncodeFields(r) + [CR, LF]
  }

  /** A document of records. A record needs a field: CRLF alone reads back
      as one empty field. */
  function Serialize(rs: seq<Record>): seq<byte>
    requires forall i :: 0 <= i < |rs| ==> |rs[i]| > 0
  {
    if rs == [] then [] else EncodeRecord(rs[0]) + Serialize(rs[1..])
  }

  /** Inside quotes, commas, CR and LF are kept and a doubled quote is one
      quote; the closing quote leads to `AfterQuotedField`. */
  lemma {:induction false} DriveQuotedBody(p: Parser, f: seq<byte>, rest: seq<byte>)
    requires p.state == QuotedField
    ensures Drive(p, Escape(f) + [QUOTE] + rest)
         == Drive(p.(state := AfterQuotedField, current := p.current + f), rest)
    decreases |f|
  {
    if f == [] {
      calc {
        Drive(p, Escape(f) + [QUOTE] + rest);
      == { assert Escape(f) + [QUOTE] + rest == [QUOTE] + rest; }
        Drive(p, [QUOTE] + rest);
      == { DriveQuiet(p, QUOTE, p.(state := AfterQuotedField), rest); }
        Drive(p.(state := AfterQuotedField), rest);
      == { assert p.current + f == p.current; }
        Drive(p.(state := AfterQuotedField, current := p.current + f), rest);
      }
    } else {
      var c := f[0];
      var q := p.(current := p.current + [c]);
      var more := Escape(f[1..]) + [QUOTE] + rest;
      calc {
        Drive(p, Escape(f) + [QUOTE] + rest);
      == { EscapeStep(p, f, rest); }
        Drive(q, more);
      == { DriveQuotedBody(q, f[1..], rest); }
        Drive(q.(state := AfterQuotedField, current := q.current + f[1..]), rest);
      == { assert q.current + f[1..] == p.current + f; }
        Drive(p.(state := AfterQuotedField, current := p.current + f), rest);
      }
    }
  }

  /** The first byte of a quoted field's text, doubled when it is a quote,
      is appended to the field. */
  lemma EscapeStep(p: Parser, f: seq<byte>, rest: seq<byte>)
    requires p.state == QuotedField && f != []
    ensures Drive(p, Escape(f) + [QUOTE] + rest)
         == Drive(p.(current := p.current + [f[0]]), Escape(f[1..]) + [QUOTE] + rest)
  {
    var more := Escape(f[1..]) + [QUOTE] + rest;
    EscapeHead(f, rest);
    if f[0] == QUOTE {
      QuoteStep(p, more);
    } else {
      ByteStep(p, f[0], more);
    }
  }

  /** How `Escape` writes the first byte of a field. */
  lemma EscapeHead(f: seq<byte>, rest: seq<byte>)
    requires f != []
    ensures f[0] == QUOTE ==>
      Escape(f) + [QUOTE] + rest == [QUOTE] + ([QUOTE] + (Escape(f[1..]) + [QUOTE] + rest))
    ensures f[0] != QUOTE ==>
      Escape(f) + [QUOTE] + rest == [f[0]] + (Escape(f[1..]) + [QUOTE] + rest)
  {
    var head := if f[0] == QUOTE then [QUOTE, QUOTE] else [f[0]];
    var tail := Escape(f[1..]);
    assert Escape(f) == head + tail;
    assert Escape(f) + [QUOTE] + rest == head + (tail + [QUOTE] + rest) by {
      Assoc(head, tail, [QUOTE] + rest);
    }
  }

  /** A doubled quote inside quotes appends one quote. */
  lemma QuoteStep(p: Parser, more: seq<byte>)
    requires p.state == QuotedField
    ensures Drive(p, [QUOTE] + ([QUOTE] + more)) == Drive(p.(current := p.current + [QUOTE]), more)
  {
    var a := p.(state := AfterQuotedField);
    DriveQuiet(p, QUOTE, a, [QUOTE] + more);
    DriveQuiet(a, QUOTE, p.(current := p.current + [QUOTE]), more);
  }

  /** Any other byte inside quotes is appended. */
  lemma ByteStep(p: Parser, c: byte, more: seq<byte>)
    requires p.state == QuotedField && c != QUOTE
    ensures Drive(p, [c] + more) == Drive(p.(current := p.current + [c]), more)
  {
    DriveQuiet(p, c, p.(current := p.current + [c]), more);
  }

  /** One quoted field read from the start of a field leaves the parser
      after its closing quote, holding the field's text. */
  lemma DriveQuotedField(fields: Record, trim: bool, f: seq<byte>, rest: seq<byte>)
    ensures Drive(Parser(Field, [], fields, trim), Quoted(f) + rest)
         == Drive(Parser(AfterQuotedField, f, fields, trim), rest)
  {
    var p := Parser(Field, [], fields, trim);
    var open := Parser(QuotedField, [], fields, trim);
    calc {
      Drive(p, Quoted(f) + rest);
    == { assert Quoted(f) + rest == [QUOTE] + (Escape(f) + [QUOTE] + rest); }
      Drive(p, [QUOTE] + (Escape(f) + [QUOTE] + rest));
    == { DriveQuiet(p, QUOTE, open, Escape(f) + [QUOTE] + rest); }
      Drive(open, Escape(f) + [QUOTE] + rest);
    == { DriveQuotedBody(open, f, rest); assert [] + f == f; }
      Drive(Parser(AfterQuotedField, f, fields, trim), rest);
    }
  }

  /** The quoted fields of a record, read from the start of a field, leave
      the parser after the last closing quote with every field but the last
      stored. */
  lemma {:induction false} DriveQuotedFields(fields: Record, trim: bool, r: Record, rest: seq<byte>)
    requires |r| > 0
    ensures Drive(Parser(Field, [], fields, trim), EncodeFields(r) + rest)
         == Drive(Parser(AfterQuotedField, Last(r), fields + FieldValues(trim, AllButLast(r)), trim), rest)
    decreases |r|
  {
    var p := Parser(Field, [], fields, trim);
    var after := Parser(AfterQuotedField, r[0], fields, trim);
    if |r| == 1 {
      calc {
        Drive(p, EncodeFields(r) + rest);
      == { DriveQuotedField(fields, trim, r[0], rest); }
        Drive(after, rest);
      == { assert AllButLast(r) == [] && fields + FieldValues(trim, []) == fields; }
        Drive(Parser(AfterQuotedField, Last(r), fields + FieldValues(trim, AllButLast(r)), trim), rest);
      }
    } else {
      var stored := fields + [FieldValue(trim, r[0])];
      var p' := Parser(Field, [], stored, trim);
      var more := EncodeFields(r[1..]) + rest;
      calc {
        Drive(p, EncodeFields(r) + rest);
      == { EncodeFieldsCons(r, rest); }
        Drive(p, Quoted(r[0]) + ([COMMA] + more));
      == { DriveQuotedField(fields, trim, r[0], [COMMA] + more); }
        Drive(after, [COMMA] + more);
      == { DriveQuiet(after, COMMA, p', more); }
        Drive(p', more);
      == { DriveQuotedFields(stored, trim, r[1..], rest); }
        Drive(Parser(AfterQuotedField, Last(r[1..]), stored + FieldValues(trim, AllButLast(r[1..])), trim), rest);
      == { QuotedStored(fields, trim, r); }
        Drive(Parser(AfterQuotedField, Last(r), fields + FieldValues(trim, AllButLast(r)), trim), rest);
      }
    }
  }

  /** The first quoted field of a record with several, then its comma. */
  lemma EncodeFieldsCons(r: Record, rest: seq<byte>)
    requires |r| > 1
    ensures EncodeFields(r) + rest == Quoted(r[0]) + ([COMMA] + (EncodeFields(r[1..]) + rest))
  {
    var q, e := Quoted(r[0]), EncodeFields(r[1..]);
    assert EncodeFields(r) == q + [COMMA] + e;
    Assoc(q + [COMMA], e, rest);
    Assoc(q, [COMMA], e + rest);
  }

  /** The fields stored before the last one, one field at a time. */
  lemma QuotedStored(fields: Record, trim: bool, r: Record)
    requires |r| > 1
    ensures Last(r[1..]) == Last(r)
    ensures fields + [FieldValue(trim, r[0])] + FieldValues(trim, AllButLast(r[1..]))
         == fields + FieldValues(trim, AllButLast(r))
  {
    assert AllButLast(r) == [r[0]] + AllButLast(r[1..]);
    FieldValuesAppend(trim, [r[0]], AllButLast(r[1..]));
    FieldValuesSingle(trim, r[0]);
  }

  /** The fields of a complete record once its last field is flushed. */
  lemma LastFlushed(trim: bool, r: Record)
    requires |r| > 0
    ensures FieldValues(trim, AllButLast(r)) + [FieldValue(trim, Last(r))] == FieldValues(trim, r)
  {
    FlushLast(trim, r);
  }

  /** A record's quoted fields read from the start of the input. */
  lemma DriveRecordFields(trim: bool, r: Record, rest: seq<byte>)
    requires |r| > 0
    ensures Drive(New(trim), EncodeFields(r) + rest)
         == Drive(Parser(AfterQuotedField, Last(r), FieldValues(trim, AllButLast(r)), trim), rest)
  {
    var x := EncodeFields(r) + rest;
    var vals := FieldValues(trim, AllButLast(r));
    calc {
      Drive(New(trim), x);
    == { assert x[0] == QUOTE; DriveFromInitial([], [], trim, x); }
      Drive(Parser(Field, [], [], trim), x);
    == { DriveQuotedFields([], trim, r, rest); assert [] + vals == vals; }
      Drive(Parser(AfterQuotedField, Last(r), vals, trim), rest);
    }
  }

  /** One quoted record ending in CRLF is one record: the fields with quotes
      undone, trimmed when `trim` is on even though they were quoted. */
  lemma RecordDrive(trim: bool, r: Record, rest: seq<byte>)
    requires |r| > 0
    ensures Drive(New(trim), EncodeRecord(r) + rest) == Prepend([FieldValues(trim, r)], Drive(New(trim), rest))
  {
    var vals := FieldValues(trim, AllButLast(r));
    var after := Parser(AfterQuotedField, Last(r), vals, trim);
    var done := Parser(RecordDelimiter, [], FieldValues(trim, r), trim);
    calc {
      Drive(New(trim), EncodeRecord(r) + rest);
    == { assert EncodeRecord(r) + rest == EncodeFields(r) + ([CR] + ([LF] + rest)); }
      Drive(New(trim), EncodeFields(r) + ([CR] + ([LF] + rest)));
    == { DriveRecordFields(trim, r, [CR] + ([LF] + rest)); }
      Drive(after, [CR] + ([LF] + rest));
    == { LastFlushed(trim, r); DriveQuiet(after, CR, done, [LF] + rest); }
      Drive(done, [LF] + rest);
    == { DriveReady(done, LF, done.(state := Complete), rest); }
      Prepend([FieldValues(trim, r)], Drive(New(trim), rest));
    }
  }

  /** RFC 4180 section 2, rules 5 to 7, as a round trip: a document written
      with every field quoted reads back as exactly its records. */
  lemma {:induction false} SerializeDrive(rs: seq<Record>)
    requires forall i :: 0 <= i < |rs| ==> |rs[i]| > 0
    ensures Drive(New(false), Serialize(rs)) == Fed(New(false), rs)
  {
    if rs != [] {
      SerializeDrive(rs[1..]);
      RecordDrive(false, rs[0], Serialize(rs[1..]));
      FieldValuesNoTrim(rs[0]);
      assert [rs[0]] + rs[1..] == rs;
    }
  }

  lemma RoundTrip(rs: seq<Record>)
    requires forall i :: 0 <= i < |rs| ==> |rs[i]| > 0
    ensures Parse(false, Serialize(rs)) == Done(rs)
  {
    SerializeDrive(rs);
    assert rs + [] == rs;
  }

  /** A record's quoted fields with nothing after them leave the last field
      pending after its closing quote. */
  lemma QuotedFieldsDrive(trim: bool, r: Record)
    requires |r| > 0
    ensures Drive(New(trim), EncodeFields(r))
         == Fed(Parser(AfterQuotedField, Last(r), FieldValues(trim, AllButLast(r)), trim), [])
  {
    assert EncodeFields(r) + [] == EncodeFields(r);
    DriveRecordFields(trim, r, []);
  }

  /** RFC 4180 rule 2 with quoted fields: a last record without a line
      break is still one record, its last field flushed at end of input. */
  lemma QuotedLastRecord(trim: bool, r: Record)
    requires |r| > 0
    ensures Parse(trim, EncodeFields(r)) == Done([FieldValues(trim, r)])
  {
    QuotedFieldsDrive(trim, r);
    LastFlushed(trim, r);
    assert [] + [FieldValues(trim, r)] == [FieldValues(trim, r)];
  }

  /** The round trip when the last record has no final CRLF. */
  lemma RoundTripUnterminated(rs: seq<Record>, last: Record)
    requires forall i :: 0 <= i < |rs| ==> |rs[i]| > 0
    requires |last| > 0
    ensures Parse(false, Serialize(rs) + EncodeFields(last)) == Done(rs + [last])
  {
    var after := Parser(AfterQuotedField, Last(last), FieldValues(false, AllButLast(last)), false);
    SerializeDrive(rs);
    QuotedFieldsDrive(false, last);
    DriveAppend(New(false), Serialize(rs), EncodeFields(last));
    assert rs + [] == rs;
    assert Drive(New(false), Serialize(rs) + EncodeFields(last)) == Fed(after, rs);
    LastFlushed(false, last);
    FieldValuesNoTrim(last);
  }

  /** Quoted fields, a comma and then unquoted text: the parser is back in
      an unquoted field with the quoted ones stored. */
  lemma QuotedThenComma(trim: bool, r: Record, more: seq<byte>)
    requires |r| > 0
    ensures Drive(New(trim), EncodeFields(r) + ([COMMA] + more))
         == Drive(Parser(Field, [], FieldValues(trim, r), trim), more)
  {
    var after := Parser(AfterQuotedField, Last(r), FieldValues(trim, AllButLast(r)), trim);
    DriveRecordFields(trim, r, [COMMA] + more);
    LastFlushed(trim, r);
    DriveQuiet(after, COMMA, Parser(Field, [], FieldValues(trim, r), trim), more);
  }

  /** Unquoted text ending in CRLF after stored fields completes the record
      with the text's comma-separated pieces. */
  lemma PlainTail(fs: Record, trim: bool, line: seq<byte>, rest: seq<byte>)
    requires Plain(line)
    ensures Drive(Parser(Field, [], fs, trim), line + ([CR] + ([LF] + rest)))
         == Prepend([fs + FieldValues(trim, Split(line))], Drive(New(trim), rest))
  {
    var f := Parser(Field, [], fs, trim);
    var parts := Split(line);
    var g := Parser(Field, Last(parts), fs + FieldValues(trim, AllButLast(parts)), trim);
    var rec := fs + FieldValues(trim, parts);
    var d := Parser(RecordDelimiter, [], rec, trim);
    calc {
      Drive(f, line + ([CR] + ([LF] + rest)));
    == { DriveAppend(f, line, [CR] + ([LF] + rest)); DrivePlain([], fs, trim, line); assert [] + line == line; }
      Prepend([], Drive(g, [CR] + ([LF] + rest)));
    == { assert [] + Drive(g, [CR] + ([LF] + rest)).records == Drive(g, [CR] + ([LF] + rest)).records; }
      Drive(g, [CR] + ([LF] + rest));
    == { FlushLast(trim, parts);
         assert fs + FieldValues(trim, AllButLast(parts)) + [FieldValue(trim, Last(parts))] == rec;
         DriveQuiet(g, CR, d, [LF] + rest); }
      Drive(d, [LF] + rest);
    == { DriveReady(d, LF, d.(state := Complete), rest); }
      Prepend([rec], Drive(New(trim), rest));
    }
  }

  /** A record of quoted fields followed by unquoted ones, ended by CRLF. */
  lemma MixedRecord(trim: bool, r: Record, line: seq<byte>, rest: seq<byte>)
    requires |r| > 0 && Plain(line)
    ensures Drive(New(trim), EncodeFields(r) + [COMMA] + line + [CR, LF] + rest)
         == Prepend([FieldValues(trim, r + Split(line))], Drive(New(trim), rest))
  {
    assert EncodeFields(r) + [COMMA] + line + [CR, LF] + rest
        == EncodeFields(r) + ([COMMA] + (line + ([CR] + ([LF] + rest))));
    QuotedThenComma(trim, r, line + ([CR] + ([LF] + rest)));
    PlainTail(FieldValues(trim, r), trim, line, rest);
    FieldValuesAppend(trim, r, Split(line));
  }

  /** A field without quotes is written unchanged between its quotes. */
  lemma {:induction false} EscapeNoQuote(f: seq<byte>)
    requires QUOTE !in f
    ensures Escape(f) == f
  {
    if f != [] {
      EscapeNoQuote(f[1..]);
      assert [f[0]] + f[1..] == f;
    }
  }

  lemma {:induction false} EscapeAppend(a: seq<byte>, b: seq<byte>)
    ensures Escape(a + b) == Escape(a) + Escape(b)
  {
    if a == [] {
      assert a + b == b;
    } else {
      assert (a + b)[0] == a[0] && (a + b)[1..] == a[1..] + b;
      EscapeAppend(a[1..], b);
    }
  }

  /** One quoted field holding text without quotes, alone in the input,
      as in the examples `""`, `"123456789"`, `"1234,5678"` and
      `"1234<CR><LF>5678"`: commas and line breaks inside are kept. */
  lemma OneQuotedField(f: seq<byte>)
    requires QUOTE !in f
    ensures Parse(false, [QUOTE] + f + [QUOTE]) == Done([[f]])
  {
    EscapeNoQuote(f);
    QuotedLastRecord(false, [f]);
    FieldValuesNoTrim([f]);
  }

  /** The same field ended by CRLF, as in the example `"123456789"` CRLF. */
  lemma OneQuotedLine(f: seq<byte>)
    requires QUOTE !in f
    ensures Parse(false, [QUOTE] + f + [QUOTE, CR, LF]) == Done([[f]])
  {
    EscapeNoQuote(f);
    RoundTrip([[f]]);
    assert Serialize([[f]]) == EncodeRecord([f]) + Serialize([]);
    assert EncodeRecord([f]) + [] == [QUOTE] + f + [QUOTE, CR, LF];
  }

  /** The empty quoted field `""` is one record of one empty field. */
  lemma EmptyQuotedExample()
    ensures Parse(false, [QUOTE, QUOTE]) == Done([[[]]])
  {
    OneQuotedField([]);
    assert [QUOTE] + [] + [QUOTE] == [QUOTE, QUOTE];
  }

  /** Rule 7 inside one field, as in the example `"1234""5678"`: the
      doubled quote reads back as one quote. */
  lemma EscapedQuote(a: seq<byte>, b: seq<byte>)
    requires QUOTE !in a && QUOTE !in b
    ensures Parse(false, [QUOTE] + a + [QUOTE, QUOTE] + b + [QUOTE]) == Done([[a + [QUOTE] + b]])
  {
    var f := a + [QUOTE] + b;
    EscapeOneQuote(a, b);
    assert EncodeFields([f]) == [QUOTE] + a + [QUOTE, QUOTE] + b + [QUOTE];
    QuotedLastRecord(false, [f]);
    FieldValuesNoTrim([f]);
  }

  lemma EscapeOneQuote(a: seq<byte>, b: seq<byte>)
    requires QUOTE !in a && QUOTE !in b
    ensures Escape(a + [QUOTE] + b) == a + [QUOTE, QUOTE] + b
  {
    EscapeNoQuote(a);
    EscapeNoQuote(b);
    assert Escape([QUOTE]) == [QUOTE, QUOTE] by {
      assert [QUOTE][1..] == [];
    }
    EscapeAppend(a + [QUOTE], b);
    EscapeAppend(a, [QUOTE]);
  }

  /** A quoted field followed by an unquoted one and CRLF, as in the example
      `"123456789",ABCDEFGHI` CRLF. */
  lemma QuotedThenPlain(f: seq<byte>, line: seq<byte>)
    requires QUOTE !in f && Plain(line) && COMMA !in line
    ensures Parse(false, [QUOTE] + f + [QUOTE, COMMA] + line + [CR, LF]) == Done([[f, line]])
  {
    var s := [QUOTE] + f + [QUOTE, COMMA] + line + [CR, LF];
    EscapeNoQuote(f);
    assert s == EncodeFields([f]) + [COMMA] + line + [CR, LF] + [];
    SplitNoComma(line);
    FieldValuesNoTrim([f] + [line]);
    MixedRecord(false, [f], line, []);
    assert [f] + Split(line) == [f, line];
    assert [[f, line]] + [] == [[f, line]];
    assert Drive(New(false), []) == Fed(New(false), []);
    ParseFed(false, s, [[f, line]]);
  }

  /** Any text without quotes inside an open quoted field is kept. */
  lemma {:induction false} DriveInsideQuotes(p: Parser, junk: seq<byte>)
    requires p.state == QuotedField && QUOTE !in junk
    ensures Drive(p, junk) == Fed(p.(current := p.current + junk), [])
    decreases |junk|
  {
    if junk == [] {
      assert p.current + junk == p.current;
    } else {
      DriveInsideQuotes(p.(current := p.current + [junk[0]]), junk[1..]);
      assert p.current + [junk[0]] + junk[1..] == p.current + junk;
    }
  }

  /** At end of input an unterminated quoted field is dropped without an
      error; the fields before it still make a record. */
  lemma UnterminatedQuote(trim: bool, r: Record, junk: seq<byte>)
    requires |r| > 0 && QUOTE !in junk
    ensures Parse(trim, EncodeFields(r) + [COMMA, QUOTE] + junk) == Done([FieldValues(trim, r)])
    ensures Parse(trim, [QUOTE] + junk) == Done([[]])
  {
    DriveUnterminated(trim, r, junk);
    LoneQuote(trim, junk);
  }

  /** The drive behind `UnterminatedQuote`: the record's fields are stored
      and the parser is left inside the open quote. */
  lemma DriveUnterminated(trim: bool, r: Record, junk: seq<byte>)
    requires |r| > 0 && QUOTE !in junk
    ensures Drive(New(trim), EncodeFields(r) + [COMMA, QUOTE] + junk)
         == Fed(Parser(QuotedField, junk, FieldValues(trim, r), trim), [])
  {
    var x := EncodeFields(r) + [COMMA, QUOTE] + junk;
    calc {
      Drive(New(trim), x);
    == { assert x == EncodeFields(r) + ([COMMA] + ([QUOTE] + junk)); }
      Drive(New(trim), EncodeFields(r) + ([COMMA] + ([QUOTE] + junk)));
    == { DriveRecordFields(trim, r, [COMMA] + ([QUOTE] + junk)); }
      Drive(Parser(AfterQuotedField, Last(r), FieldValues(trim, AllButLast(r)), trim), [COMMA] + ([QUOTE] + junk));
    == { CommaQuote(trim, r, junk); }
      Fed(Parser(QuotedField, junk, FieldValues(trim, r), trim), []);
    }
  }

  /** A comma after the last closing quote stores the field; a quote then
      opens a field that nothing closes. */
  lemma CommaQuote(trim: bool, r: Record, junk: seq<byte>)
    requires |r| > 0 && QUOTE !in junk
    ensures Drive(Parser(AfterQuotedField, Last(r), FieldValues(trim, AllButLast(r)), trim), [COMMA] + ([QUOTE] + junk))
         == Fed(Parser(QuotedField, junk, FieldValues(trim, r), trim), [])
  {
    var a := Parser(AfterQuotedField, Last(r), FieldValues(trim, AllButLast(r)), trim);
    var f := Parser(Field, [], FieldValues(trim, r), trim);
    var open := f.(state := QuotedField);
    calc {
      Drive(a, [COMMA] + ([QUOTE] + junk));
    == { LastFlushed(trim, r); DriveQuiet(a, COMMA, f, [QUOTE] + junk); }
      Drive(f, [QUOTE] + junk);
    == { DriveQuiet(f, QUOTE, open, junk); }
      Drive(open, junk);
    == { DriveInsideQuotes(open, junk); assert [] + junk == junk; }
      Fed(Parser(QuotedField, junk, FieldValues(trim, r), trim), []);
    }
  }

  /** A quote that opens the input and is never closed leaves the parser
      inside the open field with no field stored, so end of input gives one
      record with no fields at all. */
  lemma LoneQuote(trim: bool, junk: seq<byte>)
    requires QUOTE !in junk
    ensures Drive(New(trim), [QUOTE] + junk) == Fed(Parser(QuotedField, junk, [], trim), [])
  {
    var f := Parser(Field, [], [], trim);
    calc {
      Drive(New(trim), [QUOTE] + junk);
    == { DriveFromInitial([], [], trim, [QUOTE] + junk); }
      Drive(f, [QUOTE] + junk);
    == { DriveQuiet(f, QUOTE, f.(state := QuotedField), junk); }
      Drive(f.(state := QuotedField), junk);
    == { DriveInsideQuotes(f.(state := QuotedField), junk); assert [] + junk == junk; }
      Fed(Parser(QuotedField, junk, [], trim), []);
    }
  }

  /** After a closing quote only a quote, a comma or a CR may follow; any
      other byte, LF included, destroys the stream with an error naming the
      byte, and no record is emitted. */
  lemma StrayByteAfterQuote(trim: bool, r: Record, b: byte, rest: seq<byte>)
    requires |r| > 0 && b !in {QUOTE, COMMA, CR}
    ensures Parse(trim, EncodeFields(r) + [b] + rest) == Destroyed(UnexpectedAfterQuote(b), [])
  {
    calc {
      Drive(New(trim), EncodeFields(r) + [b] + rest);
    == { assert EncodeFields(r) + [b] + rest == EncodeFields(r) + ([b] + rest); }
      Drive(New(trim), EncodeFields(r) + ([b] + rest));
    == { DriveRecordFields(trim, r, [b] + rest); }
      Drive(Parser(AfterQuotedField, Last(r), FieldValues(trim, AllButLast(r)), trim), [b] + rest);
    ==
      Failed(UnexpectedAfterQuote(b), []);
    }
  }

  /** The input "1234"5678 fails on the byte 0x35, with the message the
      example expects. */
  lemma StrayDigitExample()
    ensures Parse(false, [QUOTE, 0x31, 0x32, 0x33, 0x34, QUOTE, 0x35, 0x36, 0x37, 0x38])
         == Destroyed(UnexpectedAfterQuote(0x35), [])
    ensures Message(UnexpectedAfterQuote(0x35)) == "Unexpected character (0x35) after quote"
  {
    StrayDigitParse();
    MessageForDigitFive();
  }

  lemma StrayDigitParse()
    ensures Parse(false, [QUOTE, 0x31, 0x32, 0x33, 0x34, QUOTE, 0x35, 0x36, 0x37, 0x38])
         == Destroyed(UnexpectedAfterQuote(0x35), [])
  {
    QuotedDigits();
    StrayByteAfterQuote(false, [[0x31, 0x32, 0x33, 0x34]], 0x35, [0x36, 0x37, 0x38]);
  }

  lemma QuotedDigits()
    ensures EncodeFields([[0x31, 0x32, 0x33, 0x34]]) + [0x35] + [0x36, 0x37, 0x38]
         == [QUOTE, 0x31, 0x32, 0x33, 0x34, QUOTE, 0x35, 0x36, 0x37, 0x38]
  {
    var f: seq<byte> := [0x31, 0x32, 0x33, 0x34];
    assert Escape(f) == f by {
      assert Escape(f[3..]) == f[3..];
      assert Escape(f[2..]) == f[2..];
      assert Escape(f[1..]) == f[1..];
    }
  }

  // ---------------------------------------------------------------------
  // The trim option

  predicate TrimmedRecord(r: Record) {
    forall i :: 0 <= i < |r| ==> Trimmed(r[i])
  }

  lemma PushKeepsTrimmed(p: Parser, b: byte)
    requires p.trim && TrimmedRecord(p.fields)
    ensures Push(p, b).Ok? ==> TrimmedRecord(Push(p, b).value.0.fields)
    decreases Rank(p.state)
  {
    FlushKeepsTrimmed(p);
    match p.state
    case Initial =>
      PushKeepsTrimmed(Parser(Field, [], [], p.trim), b);
    case Field =>
      if b == LF {
        PushKeepsTrimmed(Flush(p).(state := RecordDelimiter), b);
      }
    case _ =>
  }

  /** Storing a field with `trim` on keeps every stored field trimmed. */
  lemma FlushKeepsTrimmed(p: Parser)
    requires p.trim && TrimmedRecord(p.fields)
    ensures TrimmedRecord(Flush(p).fields)
  {
    if p.state in {Field, AfterQuotedField} {
      var v := FieldValue(p.trim, p.current);
      assert Trimmed(v);
      assert Flush(p).fields == p.fields + [v];
    }
  }

  lemma {:induction false} DriveKeepsTrimmed(p: Parser, bytes: seq<byte>)
    requires p.trim && TrimmedRecord(p.fields)
    ensures var d := Drive(p, bytes);
      && (forall j :: 0 <= j < |d.records| ==> TrimmedRecord(d.records[j]))
      && (d.Fed? ==> TrimmedRecord(d.parser.fields))
    decreases |bytes|
  {
    if |bytes| > 0 {
      PushKeepsTrimmed(p, bytes[0]);
      match Push(p, bytes[0])
      case Err(_) =>
      case Ok((q, ready)) =>
        DriveKeepsTrimmed(if ready then Get(q).value.0 else q, bytes[1..]);
    }
  }

  /** With `trim` on, no field of any record starts or ends with white
      space, quoted or not. */
  lemma TrimOption(bytes: seq<byte>)
    ensures var r := Parse(true, bytes);
      forall j :: 0 <= j < |r.records| ==> TrimmedRecord(r.records[j])
  {
    DriveKeepsTrimmed(New(true), bytes);
  }

  /** With `trim` on, the quoted record "  a  " reads back as "a". */
  lemma TrimQuotedExample()
    ensures Parse(true, EncodeRecord([[0x20, 0x20, 0x61, 0x20, 0x20]])) == Done([[[0x61]]])
  {
    var f: seq<byte> := [0x20, 0x20, 0x61, 0x20, 0x20];
    assert FieldValue(true, f) == [0x61] by {
      assert f[2..3] == [0x61];
      assert f[..2] == [0x20, 0x20] && f[3..] == [0x20, 0x20];
      TrimUnique(f, 2, 3);
    }
    QuotedFieldRead(true, f, [0x61]);
  }

  /** A record of one quoted field reads back as the value a flush stores. */
  lemma QuotedFieldRead(trim: bool, f: seq<byte>, v: seq<byte>)
    requires FieldValue(trim, f) == v
    ensures Parse(trim, EncodeRecord([f])) == Done([[v]])
  {
    FieldValuesSingle(trim, f);
    assert EncodeRecord([f]) + [] == EncodeRecord([f]);
    RecordDrive(trim, [f], []);
    assert Drive(New(trim), []) == Fed(New(trim), []);
    ParseFed(trim, EncodeRecord([f]), [[v]]);
  }
}
