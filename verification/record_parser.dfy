/** The byte-at-a-time CSV record state machine of `CSVRecordParser`.
    A parser value holds the state, the field being assembled, the fields
    flushed so far and the `trim` option; every operation returns a new
    parser value instead of mutating one. */
module RecordParser {
  import opened Wrappers
  import opened Bytes
  import Numerals

  datatype State = Initial | Field | QuotedField | AfterQuotedField | RecordDelimiter | Complete

  type Record = seq<seq<byte>>

  datatype Parser = Parser(state: State, current: seq<byte>, fields: Record, trim: bool)

  /** The three `Error`s the parser throws. */
  datatype ParseError =
    | UnexpectedAfterQuote(offending: byte)
    | PushAfterComplete
    | GetWhenIncomplete

  /** The message text of each thrown error; the offending byte is rendered
      in lower-case hexadecimal without padding. */
  function Message(e: ParseError): (m: string)
    ensures |m| > 0
    // the first letter tells which error was thrown
    ensures m[0] == 'U' <==> e.UnexpectedAfterQuote?
    ensures m[0] == 'u' <==> e.PushAfterComplete?
    ensures m[0] == 'g' <==> e.GetWhenIncomplete?
  {
    match e
    case UnexpectedAfterQuote(c) => "Unexpected character (0x" + Numerals.ToString(c, 16) + ") after quote"
    case PushAfterComplete => "unexpected push after record complete"
    case GetWhenIncomplete => "get() called when incomplete"
  }

  /** The constructor: only the `trim` option is read. The source leaves the
      field list and the current field unset until the first byte arrives;
      they are empty here, which nothing can observe. */
  function New(trim: bool): (p: Parser)
    ensures p.trim == trim
    // end of input straight after construction gives no record
    ensures !Finalise(p).1
  {
    Parser(Initial, [], [], trim)
  }

  /** The value a flush stores for a field: trimmed when `trim` is on,
      whether the field was quoted or not. */
  function FieldValue(trim: bool, f: seq<byte>): seq<byte> {
    if trim then Trim(f) else f
  }

  /** Stores the current field, but only from `Field` or `AfterQuotedField`. */
  function Flush(p: Parser): (q: Parser)
    ensures q.state == p.state && q.trim == p.trim
    ensures p.state in {Field, AfterQuotedField} ==> q.current == [] && q.fields == p.fields + [FieldValue(p.trim, p.current)]
    ensures p.state !in {Field, AfterQuotedField} ==> q == p
  {
    if p.state in {Field, AfterQuotedField} then
      p.(fields := p.fields + [FieldValue(p.trim, p.current)], current := [])
    else p
  }

  /** Order of the two states `Push` re-enters itself from: `Initial` moves to
      `Field` and `Field` moves to `RecordDelimiter` before re-reading the
      byte. */
  function Rank(s: State): nat {
    match s
    case Initial => 2
    case Field => 1
    case _ => 0
  }

  /** Feeds one byte. `Ok((q, true))` means a record is ready for `Get`. */
  function Push(p: Parser, b: byte): (r: Result<(Parser, bool), ParseError>)
    ensures r.Ok? ==> r.value.0.trim == p.trim
    // a record is ready exactly on an LF outside quotes and after no closing quote
    ensures r.Ok? && r.value.1 <==> b == LF && p.state in {Initial, Field, RecordDelimiter}
    ensures r.Ok? ==> (r.value.1 <==> r.value.0.state == Complete)
    // the only failures: a push after completion, and a stray byte after a closing quote
    ensures r.Err? <==> p.state == Complete || (p.state == AfterQuotedField && b !in {QUOTE, COMMA, CR})
    ensures p.state == Complete ==> r == Err(PushAfterComplete)
    ensures p.state == AfterQuotedField && r.Err? ==> r.error == UnexpectedAfterQuote(b)
    decreases Rank(p.state)
  {
    match p.state
    case Initial =>
      Push(Parser(Field, [], [], p.trim), b)
    case Field =>
      if b == COMMA then Ok((Flush(p), false))
      else if b == CR then Ok((Flush(p).(state := RecordDelimiter), false))
      else if b == LF then Push(Flush(p).(state := RecordDelimiter), b)
      else if b == QUOTE && |p.current| < 1 then Ok((p.(state := QuotedField), false))
      else Ok((p.(current := p.current + [b]), false))
    case QuotedField =>
      if b == QUOTE then Ok((p.(state := AfterQuotedField), false))
      else Ok((p.(current := p.current + [b]), false))
    case AfterQuotedField =>
      if b == QUOTE then Ok((p.(current := p.current + [b], state := QuotedField), false))
      else if b == COMMA then Ok((Flush(p).(state := Field), false))
      else if b == CR then Ok((Flush(p).(state := RecordDelimiter), false))
      else Err(UnexpectedAfterQuote(b))
    case RecordDelimiter =>
      if b == LF then Ok((p.(state := Complete), true))
      else Ok((p, false))
    case Complete =>
      Err(PushAfterComplete)
  }

  /** The single-byte transitions that neither fail nor complete a record. */
  lemma PushSteps(p: Parser, b: byte)
    // a comma in an unquoted field stores the field and stays in `Field`
    ensures p.state == Field && b == COMMA ==> Push(p, b) == Ok((Flush(p).(state := Field), false))
    // a quote opens a quoted field only at the start of a field
    ensures p.state == Field && b == QUOTE && p.current == [] ==> Push(p, b) == Ok((p.(state := QuotedField), false))
    ensures p.state == Field && b == QUOTE && p.current != [] ==> Push(p, b) == Ok((p.(current := p.current + [QUOTE]), false))
    // inside quotes everything but a quote is kept literally
    ensures p.state == QuotedField && b != QUOTE ==> Push(p, b) == Ok((p.(current := p.current + [b]), false))
    // a doubled quote stands for one quote
    ensures p.state == AfterQuotedField && b == QUOTE ==> Push(p, b) == Ok((p.(state := QuotedField, current := p.current + [QUOTE]), false))
    // between CR and LF every byte is dropped
    ensures p.state == RecordDelimiter && b != LF ==> Push(p, b) == Ok((p, false))
  {
  }

  /** End of input: returns whether a record is ready. Pending text of an
      unterminated quoted field is dropped, because `Flush` stores nothing
      from `QuotedField`. */
  function Finalise(p: Parser): (r: (Parser, bool))
    ensures r.1 <==> p.state != Initial
    ensures !r.1 ==> r.0 == p
    ensures r.1 ==> r.0.state == Complete && r.0.trim == p.trim
    ensures r.1 && p.state in {Field, AfterQuotedField} ==> r.0.fields == p.fields + [FieldValue(p.trim, p.current)]
    ensures r.1 && p.state !in {Field, AfterQuotedField} ==> r.0.fields == p.fields
  {
    if p.state != Initial then (Flush(p).(state := Complete), true)
    else (p, false)
  }

  /** Hands out the completed record and starts over. */
  function Get(p: Parser): (r: Result<(Parser, Record), ParseError>)
    ensures r.Ok? <==> p.state == Complete
    ensures r.Err? ==> r.error == GetWhenIncomplete
    ensures r.Ok? ==> r.value.1 == p.fields
    ensures r.Ok? ==> r.value.0 == Parser(Initial, p.current, [], p.trim)
  {
    match p.state
    case Complete => Ok((p.(fields := [], state := Initial), p.fields))
    case _ => Err(GetWhenIncomplete)
  }

  /** The message of a stray-byte error carries the byte: the hexadecimal
      digits between "(0x" and ")" read back to it. */
  lemma MessageCarriesByte(c: byte)
    ensures var m := Message(UnexpectedAfterQuote(c));
      var digits := m[|"Unexpected character (0x"|..|m| - |") after quote"|];
      && m == "Unexpected character (0x" + digits + ") after quote"
      && (forall k :: 0 <= k < |digits| ==> Numerals.IsDigit(digits[k], 16))
      && Numerals.Value(digits, 16) == c
  {
    var m := Message(UnexpectedAfterQuote(c));
    var h := Numerals.ToString(c, 16);
    assert m[|"Unexpected character (0x"|..|m| - |") after quote"|] == h;
    Numerals.ValueOfToString(c, 16);
  }

  /** Different stray bytes give different messages. */
  lemma MessageInjective(c: byte, d: byte)
    ensures Message(UnexpectedAfterQuote(c)) == Message(UnexpectedAfterQuote(d)) ==> c == d
  {
    MessageCarriesByte(c);
    MessageCarriesByte(d);
  }

  /** Different errors give different messages. */
  lemma MessagesDistinct(e: ParseError, e': ParseError)
    ensures Message(e) == Message(e') ==> e == e'
  {
    if e.UnexpectedAfterQuote? && e'.UnexpectedAfterQuote? {
      MessageInjective(e.offending, e'.offending);
    }
  }

  /** The byte '5' after a closing quote is reported as 0x35. */
  lemma MessageForDigitFive()
    ensures Message(UnexpectedAfterQuote(0x35)) == "Unexpected character (0x35) after quote"
  {
    assert 0x35 / 16 == 3 && 0x35 % 16 == 5;
    assert Numerals.ToString(3, 16) == "3" && Numerals.DigitChar(5) == '5';
    assert Numerals.ToString(0x35, 16) == "35";
  }
}
