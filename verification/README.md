# CSV record and object streams of HKAnalyser, in Dafny

This project models the CSV core of HKAnalyser's `packages/csv` in Dafny and
proves properties of the model. The core has three parts:

- `CSVRecordParser` is a byte-at-a-time state machine. Its states are
  `Initial`, `Field`, `QuotedField`, `AfterQuotedField`, `RecordDelimiter`
  and `Complete`. It has the operations `push`, `flush`, `finalise` and
  `get`, and a `trim` option.
- `CSVRecordStream` is a transform stream. It concatenates every chunk onto
  one buffer and runs the parser over that buffer. Each record that `get()`
  hands out goes downstream. At end of input it finalises the parser.
- `CSVObjectStream` turns every array it receives into an object whose keys
  are `field1`, `field2`, and so on. Any other chunk makes it throw.

The model uses pure functions over immutable values:

- A parser is a `Parser` value, and `Push` returns the next value together
  with the "record ready" flag, or the error the source throws.
- A stream's life is a function from its sequence of chunks to what it
  emitted. It ends as `Done(records)`, or as `Destroyed(error, records)`
  when a parse error reaches `destroy`.
- Bytes are integers 0 to 255. A field is the sequence of its bytes. The
  source builds fields with `String.fromCharCode`, one character per byte,
  so the two views carry the same information. `ObjectStream.Latin1`
  converts one to the other.

Files:

- `wrappers.dfy`: `Option` and `Result`.
- `bytes.dfy`: the byte type, the delimiter constants, and
  `String.prototype.trim` restricted to bytes. The trimmed bytes are 0x09 to
  0x0D, 0x20 and 0xA0.
- `numerals.dfy`: `Number.prototype.toString(base)` for naturals, with its
  inverse.
- `record_parser.dfy`: the state machine.
- `record_stream.dfy`: the stream as written, plus a corrected variant (see
  Findings).
- `rfc4180.dfy`: reference encoders for section 2 of RFC 4180. It proves
  what the parser makes of text they produce.
- `object_stream.dfy`: the object stream, and the pipeline of both streams.

## Model

| member | source | states |
|---|---|---|
| RecordParser.New | packages/csv/CSVRecordParser.js:25-28 | A new parser keeps the `trim` option, and ending the input straight away gives no record. |
| RecordParser.Push | packages/csv/CSVRecordParser.js:30-130 | The ready flag is returned exactly for an LF read in `Initial`, `Field` or `RecordDelimiter`, and then the parser is `Complete`. The only failures are a push after completion and, after a closing quote, a byte other than a quote, comma or CR; that error carries the byte. `trim` never changes. |
| RecordParser.PushSteps | packages/csv/CSVRecordParser.js:41-122 | The non-completing transitions. A comma in a field stores it. A quote opens a quoted field only when the field is empty, and is literal otherwise. Inside quotes every non-quote byte is kept. A doubled quote is one quote. Between CR and LF every byte is ignored. |
| RecordParser.Flush | packages/csv/CSVRecordParser.js:132-140 | Only in `Field` and `AfterQuotedField` the current field, trimmed when `trim` is set, is appended and cleared. In every other state nothing changes. |
| RecordParser.Finalise | packages/csv/CSVRecordParser.js:142-149 | A record is pending exactly when the state is not `Initial`. The pending record gets the current field only from `Field` or `AfterQuotedField`, so an unterminated quoted field is dropped. |
| RecordParser.Get | packages/csv/CSVRecordParser.js:151-165 | Succeeds exactly in `Complete`. It returns the stored fields, and the parser goes back to `Initial` with no fields. Otherwise it gives the "incomplete" error. |
| RecordParser.Message | packages/csv/CSVRecordParser.js:108-162 | Each of the three thrown messages is non-empty, and its first letter tells which error was thrown: the stray byte after a quote, the push after completion, or `get()` while incomplete. |
| RecordParser.MessagesDistinct | packages/csv/CSVRecordParser.js:108-162 | Different errors give different messages. |
| RecordParser.MessageCarriesByte | packages/csv/CSVRecordParser.js:108 | The stray-byte message is the fixed prefix, hexadecimal digits, and the fixed suffix. The digits read back to the byte. |
| RecordParser.MessageInjective | packages/csv/CSVRecordParser.js:108 | Different stray bytes give different messages. |
| RecordParser.MessageForDigitFive | packages/csv/CSVRecordStream.test.js:255-268 | The byte '5' is reported as "(0x35)". |
| Bytes.Trim | packages/csv/CSVRecordParser.js:136 | The result is no longer than the input, and neither of its ends is white space. |
| Bytes.TrimSlice | packages/csv/CSVRecordParser.js:136 | Trimming keeps one contiguous slice of the input and removes only white space around it. |
| Bytes.TrimUnique | packages/csv/CSVRecordParser.js:136 | Any slice whose surroundings are all white space and whose own ends are not is exactly the trimmed value. Together with `TrimSlice` this defines trimming completely. |
| Bytes.TrimTrimmed | packages/csv/CSVRecordParser.js:136 | Trimming is idempotent: a value without white space at its ends is unchanged. |
| Numerals.ToString | packages/csv/CSVRecordParser.js:108 | `toString(base)` produces a non-empty string of digits. It is one digit long exactly below the base and has no leading zero. |
| Numerals.ValueOfToString | packages/csv/CSVObjectStream.js:20 | Reading the digits back gives the number. |
| Numerals.ToStringInjective | packages/csv/CSVObjectStream.js:20 | Different numbers render differently. |
| RecordStream.Create | packages/csv/CSVRecordStream.js:11-18 | A new stream has a parser with the `trim` option that is not `Complete`. Ended at once, it emits nothing. |
| RecordStream.Drive | packages/csv/CSVRecordStream.js:31-36 | The loop never leaves the parser `Complete`, because every completion is followed by `get()`. Starting from a parser that is not `Complete`, the only possible error is a stray byte after a quote, and that byte is one of the input's. |
| RecordStream.DriveLoop | packages/csv/CSVRecordStream.js:31-41 | The `for ... of` loop, with the `try`/`catch` as an early return, computes `Drive`. |
| RecordStream.RecordsPerLine | packages/csv/CSVRecordStream.js:32-35 | At most one record is emitted per LF of the input. |
| RecordStream.DriveAppend | packages/csv/CSVRecordStream.js:32-36 | Driving over `a + b` equals driving over `a` and then over `b` from where it stopped. Records come out in input order, and records emitted before an error stay emitted. |
| RecordStream.Transform | packages/csv/CSVRecordStream.js:24-44 | The buffer becomes the old buffer plus the chunk. The emitted records only grow. An error destroys the stream, and it can only be a stray byte after a quote. Which records a call emits, the whole buffer driven again, is `RecordStream.FeedReplays`. |
| RecordStream.End | packages/csv/CSVRecordStream.js:46-51 | The stream ends. Exactly one trailing record is added when the parser is not in `Initial`, and that record is the finalised fields. |
| RecordStream.Feed | packages/csv/CSVRecordStream.js:24-44 | Over a sequence of chunks the buffer is their concatenation, emitted records only grow, the parser is never left `Complete`, and the only error is a stray byte after a quote. That the chunks after the destroying one change nothing is `RecordStream.FeedStopsOnError`. Which records are emitted is `RecordStream.FeedReplays`. |
| RecordStream.FeedStopsOnError | packages/csv/CSVRecordStream.js:38-41 | Once a prefix of the chunks has destroyed the stream, the chunks after it change neither the error nor the emitted records. |
| RecordStream.Run | packages/csv/CSVRecordStream.js:11-51 | A whole stream either ends normally or is destroyed by a stray byte after a closing quote. Which records it emits over several chunks is `RecordStream.RunReplays`. |
| RecordStream.Parse | packages/csv/CSVRecordStream.js:31-50 | A single pass over all bytes, then end of input. It either ends or fails on a byte of the input. |
| RecordStream.ParseBound | packages/csv/CSVRecordStream.js:32-49 | The parse emits at most one record per LF, plus one. |
| RecordStream.RunSingleChunk | packages/csv/CSVRecordStream.test.js:14-21 | One chunk is the single-pass parse. No chunk, or one empty chunk, emits nothing. |
| RecordStream.RunIgnoresLimit | packages/csv/CSVRecordStream.js:11-18 | The `limit` option changes nothing. |
| RecordStream.LimitsExample | packages/csv/CSVRecordStream.test.js:324-339 | With `limit` 2, the four lines `1` to `4` in one chunk still give all four records, one field each. |
| RecordStream.FeedReplays | packages/csv/CSVRecordStream.js:29-36 | As written, over any number of chunks that each end on a record boundary: call `k` drives the whole accumulated buffer again from the parser it left, so it emits the records of every earlier chunk again and then those of chunk `k`. The buffer is the concatenation of the chunks. |
| RecordStream.RunReplays | packages/csv/CSVRecordStream.js:24-51 | As written, a whole run over such chunks ends normally with exactly those replayed records and no trailing record. |
| RecordStream.SecondChunkReplaysFirst | packages/csv/CSVRecordStream.js:29-36 | As written: when the first chunk ends on a record boundary, the second `_transform` emits every record of the first chunk again before those of the second. |
| RecordStream.ReplayExample | packages/csv/CSVRecordStream.js:29-36 | As written: the chunks "a\n" and "b\n" emit `a`, `a`, `b`. |
| RecordStream.OnePassExample | packages/csv/CSVRecordStream.js:31-36 | The same bytes in one chunk emit `a`, `b`. |
| RecordStream.TransformFixed | packages/csv/CSVRecordStream.js:29-36 | Corrected: the buffer is empty after every call, and emitted records only grow. |
| RecordStream.FeedFixedDrives | packages/csv/CSVRecordStream.js:29-36 | Corrected: feeding chunks equals one drive over their concatenation. |
| RecordStream.ChunkInvariance | packages/csv/CSVRecordStream.js:24-51 | Corrected: for every input and every split into chunks, the stream emits what the single-pass parse of the concatenation emits. |
| Rfc4180.DriveFromInitial | packages/csv/CSVRecordParser.js:34-39 | A parser in `Initial` behaves like a fresh field, whatever the current field and fields it had before. |
| Rfc4180.SplitCount | packages/csv/CSVRecordStream.test.js:127-155 | An unquoted line with `k` commas has `k + 1` fields, as in the two- and three-field examples. |
| Rfc4180.JoinSplit | packages/csv/CSVRecordParser.js:43-46 | Joining the comma-separated pieces of a line with commas gives the line back. |
| Rfc4180.SplitJoin | packages/csv/CSVRecordParser.js:43-46 | Pieces without commas are recovered from their comma-joined line. |
| Rfc4180.PlainRoundTrip | packages/csv/CSVRecordParser.js:41-70 | Rules 1 and 4 of RFC 4180 section 2 for unquoted fields: fields without quotes, commas or line breaks, joined with commas and ended by CRLF, read back as exactly those fields, trimmed when `trim` is on. |
| Rfc4180.DrivePlain | packages/csv/CSVRecordParser.js:41-70 | Unquoted text without line breaks is split on commas. Every piece but the last is stored, and the last one is the current field. |
| Rfc4180.PlainLineDrive | packages/csv/CSVRecordParser.js:41-122 | An unquoted line ending in LF, or in CR, other bytes and then LF, is one record holding the comma-separated pieces. An empty line gives one empty field. |
| Rfc4180.DriveDelimiter | packages/csv/CSVRecordParser.js:114-122 | After a CR every byte up to the next LF is dropped, and the LF emits the record. |
| Rfc4180.PlainLastLine | packages/csv/CSVRecordParser.js:142-149 | A last line without a line break is a record, and no input is no record. |
| Rfc4180.DriveQuotedBody | packages/csv/CSVRecordParser.js:72-93 | Inside quotes, commas, CR and LF are kept and a doubled quote is one quote. The closing quote leads to `AfterQuotedField`. |
| Rfc4180.DriveQuotedFields | packages/csv/CSVRecordParser.js:57-99 | Comma-separated quoted fields are stored one by one. |
| Rfc4180.RecordDrive | packages/csv/CSVRecordParser.js:86-122 | A record of quoted fields ending in CRLF yields exactly those fields, trimmed when `trim` is on. |
| Rfc4180.RoundTrip | packages/csv/CSVRecordParser.js:30-130 | Rules 5 to 7 of RFC 4180 section 2: a document written with every field quoted reads back as exactly its records. |
| Rfc4180.RoundTripUnterminated | packages/csv/CSVRecordParser.js:142-149 | Rule 2 of RFC 4180 section 2: a document written with every field quoted, whose last record has no final CRLF, still reads back as exactly its records. |
| Rfc4180.QuotedLastRecord | packages/csv/CSVRecordStream.test.js:191-204 | A record of quoted fields with no line break after it is one record holding those fields, trimmed when `trim` is on. |
| Rfc4180.MixedRecord | packages/csv/CSVRecordParser.js:41-110 | Quoted fields followed by a comma and an unquoted line ending in CRLF form one record: the quoted fields, then the comma-separated pieces of the line. |
| Rfc4180.QuotedThenPlain | packages/csv/CSVRecordStream.test.js:206-219 | A quoted field, a comma, an unquoted field and CRLF give one record of the two fields, as in `"123456789",ABCDEFGHI`. |
| Rfc4180.OneQuotedField | packages/csv/CSVRecordStream.test.js:225-253 | A lone quoted field without quotes inside is one record of that field, commas and CRLF inside included, as in `"1234,5678"` and `"1234` CRLF `5678"`. |
| Rfc4180.OneQuotedLine | packages/csv/CSVRecordStream.test.js:176-189 | The same quoted field ended by CRLF is one record of that field. |
| Rfc4180.EmptyQuotedExample | packages/csv/CSVRecordStream.test.js:161-174 | `""` is one record of one empty field. |
| Rfc4180.EscapedQuote | packages/csv/CSVRecordStream.test.js:275-288 | A doubled quote inside a quoted field reads back as one quote, as in `"1234""5678"`. |
| Rfc4180.UnterminatedQuote | packages/csv/CSVRecordParser.js:132-149 | At end of input a quoted field that was never closed is dropped without an error. The fields before it still form a record. |
| Rfc4180.StrayByteAfterQuote | packages/csv/CSVRecordParser.js:107-109 | After a closing quote, any byte other than a quote, comma or CR, LF included, destroys the stream. The error names that byte, and no record is emitted. |
| Rfc4180.StrayDigitExample | packages/csv/CSVRecordStream.test.js:255-268 | `"1234"5678` fails on 0x35 with the message the test expects. |
| Rfc4180.TrimOption | packages/csv/CSVRecordParser.js:136 | With `trim` on, no field of any record starts or ends with white space, whether it was quoted or not. |
| Rfc4180.TrimQuotedExample | packages/csv/CSVRecordParser.js:136 | With `trim` on, the quoted field holding two spaces, `a` and two spaces reads back as `a`. |
| ObjectStream.Message | packages/csv/CSVObjectStream.js:24 | The error message ends with the chunk's `typeof`. |
| ObjectStream.MessageNamesType | packages/csv/CSVObjectStream.js:24 | Two chunks give the same message exactly when their `typeof` is the same. |
| ObjectStream.TypeOf | packages/csv/CSVObjectStream.js:24 | `typeof` is "object" exactly for arrays, objects and `null`. |
| ObjectStream.Assign | packages/csv/CSVObjectStream.js:20 | The spread-and-set adds one property exactly when the key is new. |
| ObjectStream.AssignLookup | packages/csv/CSVObjectStream.js:20 | After the spread-and-set, the key reads the new value and every other key reads what it read before. |
| ObjectStream.AssignFresh | packages/csv/CSVObjectStream.js:20 | A new key is appended at the end. |
| ObjectStream.FieldKeyInjective | packages/csv/CSVObjectStream.js:20 | The keys `field<i+1>` are distinct for distinct positions. |
| ObjectStream.ToObject | packages/csv/CSVObjectStream.js:19-21 | The object has one property per element, in element order. The `i`-th property is `field<i+1>`, holding the `i`-th element. |
| ObjectStream.FieldLookup | packages/csv/CSVObjectStream.js:19-21 | The own property `field<i+1>` reads the `i`-th element. |
| ObjectStream.OtherKeysUndefined | packages/csv/CSVObjectStream.js:19-21 | The object has no other own property. |
| ObjectStream.Transform | packages/csv/CSVObjectStream.js:15-27 | An object is pushed exactly for an array, with as many properties as the array has elements. Anything else throws. |
| ObjectStream.Run | packages/csv/CSVObjectStream.js:15-27 | A run pushes at most one object per chunk, and exactly one per chunk when it does not throw. |
| ObjectStream.RunObjects | packages/csv/CSVObjectStream.js:17-21 | Every pushed object comes from an array chunk at the same position, and its properties are that array's elements. |
| ObjectStream.RunFinishes | packages/csv/CSVObjectStream.js:15-27 | A run finishes without throwing exactly when every chunk is an array. |
| ObjectStream.RunStops | packages/csv/CSVObjectStream.js:23-25 | A run that throws stops at its first chunk that is not an array, with the message naming that chunk's type. |
| ObjectStream.RunMapsArrays | packages/csv/CSVObjectStream.js:15-27 | The stream maps arrays to objects one for one and in order. It throws exactly when some chunk is not an array, at the first such chunk, naming its type. |
| ObjectStream.PipelineFinishes | packages/csv/CSVObjectStream.js:15-27 | Fed the record stream's output, the object stream never throws, even for records with no field, and pushes one object per record with one property per field. |
| ObjectStream.Pipeline | packages/csv/CSVObjectStream.js:17-21 | Fed the record stream's output, the `field<i+1>` of the `n`-th object is the `i`-th field of the `n`-th record, for every record and field there is. |
| ObjectStream.SeriesExample | packages/csv/CSVObjectStream.test.js:19-57 | No chunks give no objects. A three-element row gives `field1`, `field2` and `field3`. |
| ObjectStream.StringChunkExample | packages/csv/CSVObjectStream.js:24 | A string chunk is refused with "... expected array, got string". |

## Left out

- The Node `Transform` machinery is not modelled: `done` callbacks, high-water marks and scheduling. A stream is a function of its whole chunk sequence. `destroy` is an end state that keeps the records already pushed.
- Converting a string chunk to bytes (`Buffer.from(chunk, encoding)`) is left out because it is an encoding library. Chunks are byte sequences.
- Parsing does not decode UTF-8. As in the source, each byte becomes one character, so a multi-byte character spans several characters of a field.
- The overridden `push` of `CSVRecordStream` only forwards to the base class. Pushing a record means appending it to the emitted sequence.
- `limit` is accepted by the record stream's options and read by nothing. `RecordStream.RunIgnoresLimit` proves that it has no effect. The "limits" test expects three records from four lines with `limit: 2`. The code emits all four (`RecordStream.LimitsExample`), and no limit is modelled.
- The code has no backpressure handling, no record limit (the "limits" test expects one), no header mode, no value transforms in the object stream and no parser reset after an error. The model follows the code. Splitting the input into chunks changes the records (see Findings).
- The source leaves the parser's field list and current field undefined until the first byte arrives. The model starts them empty, which nothing can observe.
- Objects are lists of own properties. Keys inherited from `Object.prototype`, such as `toString`, are not modelled, so `ObjectStream.OtherKeysUndefined` speaks of own properties only (`Object.hasOwn`).
- JavaScript numbers are integers in `ObjectStream.Value`. Functions, symbols and big integers are not values here. Holes in sparse arrays, which `reduce` skips, are not modelled.
- A throw from `CSVObjectStream._transform` ends the run in the model. How Node then reports it to the writer is not modelled.
- `ObjectStream.Run`: its own contract only counts the objects. `ObjectStream.RunMapsArrays` and the three lemmas it combines state the full behaviour.
- `parse.js`, the importer, the reporter and the command-line entry points are not part of this model.

## Findings

| source | as written | input that shows it | evidently intended | confidence | as-written member | corrected member |
|---|---|---|---|---|---|---|
| packages/csv/CSVRecordStream.js:29-36 | `_transform` appends each chunk to `this.buffer`, never clears it, and feeds the whole buffer to the parser on every call. Bytes of earlier chunks are pushed again, and their records are emitted again. | The chunks "a\n" then "b\n" emit the records `a`, `a`, `b`. The same bytes in one chunk emit `a`, `b`. | Feed each byte once, by consuming the buffer, so that splitting the input into chunks does not change the records. | not executed | RecordStream.SecondChunkReplaysFirst, RecordStream.ReplayExample | RecordStream.TransformFixed, RecordStream.ChunkInvariance |
