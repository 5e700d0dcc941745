/** `CSVObjectStream`: an object-mode transform that turns every array it
    receives into an object whose keys are `field1`, `field2`, ... in array
    order, and throws on any other chunk. A JavaScript object is modelled as
    its list of own properties in insertion order, which is the order the
    spread operator copies them in. */
module ObjectStream {
  import opened Wrappers
  import Numerals
  import RecordParser
  import Bytes

  /** The JavaScript values a chunk can be; numbers are integers here. */
  datatype Value =
    | Str(s: string)
    | Num(n: int)
    | Bool(b: bool)
    | Undefined
    | Null
    | Arr(items: seq<Value>)
    | Obj(props: Props)

  /** The own properties of an object, in insertion order. */
  type Props = seq<(string, Value)>

  /** `typeof`: arrays and `null` are objects too. */
  function TypeOf(v: Value): (t: string)
    ensures t == "object" <==> v.Arr? || v.Obj? || v.Null?
  {
    match v
    case Str(_) => "string"
    case Num(_) => "number"
    case Bool(_) => "boolean"
    case Undefined => "undefined"
    case _ => "object"
  }

  predicate HasKey(o: Props, k: string) {
    exists i :: 0 <= i < |o| && o[i].0 == k
  }

  /** The own property `k` of `o`, as `Object.hasOwn(o, k) ? o[k] :
      undefined`; `None` stands for `undefined`. Keys inherited from
      `Object.prototype` are not own properties and are not modelled. */
  function Lookup(o: Props, k: string): Option<Value> {
    if o == [] then None
    else if o[0].0 == k then Some(o[0].1)
    else Lookup(o[1..], k)
  }

  /** `{ ...o, [k]: v }`: an existing property keeps its place and takes the
      new value, a new one goes at the end. */
  function Assign(o: Props, k: string, v: Value): (r: Props)
    ensures |r| == if HasKey(o, k) then |o| else |o| + 1
  {
    if o == [] then [(k, v)]
    else if o[0].0 == k then [(k, v)] + o[1..]
    else
      assert HasKey(o, k) <==> HasKey(o[1..], k) by {
        if HasKey(o, k) {
          var i :| 0 <= i < |o| && o[i].0 == k;
          assert o[1..][i - 1].0 == k;
        }
        if HasKey(o[1..], k) {
          var i :| 0 <= i < |o[1..]| && o[1..][i].0 == k;
          assert o[i + 1].0 == k;
        }
      }
      [o[0]] + Assign(o[1..], k, v)
  }

  /** After `Assign`, `k` reads the new value and every other key reads what
      it read before. */
  lemma {:induction false} AssignLookup(o: Props, k: string, v: Value, k': string)
    ensures Lookup(Assign(o, k, v), k') == if k' == k then Some(v) else Lookup(o, k')
  {
    if o != [] && o[0].0 != k {
      AssignLookup(o[1..], k, v, k');
      assert ([o[0]] + Assign(o[1..], k, v))[1..] == Assign(o[1..], k, v);
    } else if o != [] {
      assert ([(k, v)] + o[1..])[1..] == o[1..];
    }
  }

  /** A key not yet present is appended. */
  lemma {:induction false} AssignFresh(o: Props, k: string, v: Value)
    requires forall i :: 0 <= i < |o| ==> o[i].0 != k
    ensures Assign(o, k, v) == o + [(k, v)]
  {
    if o != [] {
      AssignFresh(o[1..], k, v);
      assert [o[0]] + (o[1..] + [(k, v)]) == o + [(k, v)];
    }
  }

  /** The first property with key `k` is the one `Lookup` finds. */
  lemma {:induction false} LookupFirst(o: Props, i: nat)
    requires i < |o|
    requires forall j :: 0 <= j < i ==> o[j].0 != o[i].0
    ensures Lookup(o, o[i].0) == Some(o[i].1)
  {
    if i > 0 {
      LookupFirst(o[1..], i - 1);
    }
  }

  lemma {:induction false} LookupAbsent(o: Props, k: string)
    requires !HasKey(o, k)
    ensures Lookup(o, k) == None
  {
    if o != [] {
      LookupAbsent(o[1..], k);
    }
  }

  /** The key of the `i`-th array element (counting from 0). */
  function FieldKey(i: nat): string {
    "field" + Numerals.ToString(i + 1, 10)
  }

  /** Different positions get different keys. */
  lemma FieldKeyInjective(i: nat, j: nat)
    ensures FieldKey(i) == FieldKey(j) ==> i == j
  {
    if FieldKey(i) == FieldKey(j) {
      assert FieldKey(i)[5..] == Numerals.ToString(i + 1, 10);
      assert FieldKey(j)[5..] == Numerals.ToString(j + 1, 10);
      Numerals.ToStringInjective(i + 1, j + 1, 10);
    }
  }

  /** The `reduce` of `_transform`, starting from `{}`. The object has one
      property per element, in element order: the `i`-th is `field<i+1>`
      holding the `i`-th element, so no value is overwritten. */
  function ToObject(items: seq<Value>): (o: Props)
    ensures |o| == |items|
    ensures forall i :: 0 <= i < |items| ==> o[i] == (FieldKey(i), items[i])
    decreases |items|
  {
    if items == [] then []
    else
      var n := |items| - 1;
      var prefix := ToObject(items[..n]);
      assert forall i :: 0 <= i < n ==> prefix[i].0 != FieldKey(n) by {
        forall i | 0 <= i < n
          ensures prefix[i].0 != FieldKey(n)
        {
          FieldKeyInjective(i, n);
        }
      }
      AssignFresh(prefix, FieldKey(n), items[n]);
      Assign(prefix, FieldKey(n), items[n])
  }

  /** Reading the object back: the own property `field<i+1>` is the `i`-th
      element, and the object has no other own property. */
  lemma FieldLookup(items: seq<Value>, i: nat)
    requires i < |items|
    ensures Lookup(ToObject(items), FieldKey(i)) == Some(items[i])
  {
    var o := ToObject(items);
    forall j | 0 <= j < i
      ensures o[j].0 != o[i].0
    {
      FieldKeyInjective(j, i);
    }
    LookupFirst(o, i);
  }

  lemma OtherKeysUndefined(items: seq<Value>, k: string)
    requires forall i: nat :: i < |items| ==> k != FieldKey(i)
    ensures Lookup(ToObject(items), k) == None
  {
    LookupAbsent(ToObject(items), k);
  }

  /** The text of the error thrown for a chunk that is not an array. */
  function Message(chunk: Value): (m: string)
    // the message ends with the chunk's `typeof`
    ensures |TypeOf(chunk)| < |m| && m[|m| - |TypeOf(chunk)|..] == TypeOf(chunk)
  {
    "Unexpected chunk type, expected array, got " + TypeOf(chunk)
  }

  /** Two chunks give the same message exactly when they have the same
      `typeof`. */
  lemma MessageNamesType(c: Value, d: Value)
    ensures Message(c) == Message(d) <==> TypeOf(c) == TypeOf(d)
  {
    var prefix := "Unexpected chunk type, expected array, got ";
    if Message(c) == Message(d) {
      assert Message(c)[|prefix|..] == TypeOf(c);
      assert Message(d)[|prefix|..] == TypeOf(d);
    }
  }

  /** `_transform` on one chunk: the object for an array, the error for
      anything else. */
  function Transform(chunk: Value): (r: Result<Value, string>)
    ensures r.Ok? <==> chunk.Arr?
    ensures r.Ok? ==> r.value.Obj? && |r.value.props| == |chunk.items|
  {
    if chunk.Arr? then
      Ok(Obj(ToObject(chunk.items)))
    else Err(Message(chunk))
  }

  /** What the stream did with a sequence of chunks: it pushed the objects,
      or it pushed some and then threw on a chunk. */
  datatype Outcome =
    | Finished(objects: seq<Value>)
    | Threw(message: string, objects: seq<Value>)

  function Cons(o: Value, r: Outcome): (r': Outcome)
    ensures r'.objects == [o] + r.objects
    ensures r'.Finished? <==> r.Finished?
  {
    match r
    case Finished(os) => Finished([o] + os)
    case Threw(m, os) => Threw(m, [o] + os)
  }

  /** The stream over all its chunks; a throw ends it. */
  function Run(chunks: seq<Value>): (r: Outcome)
    ensures |r.objects| <= |chunks|
    ensures r.Finished? ==> |r.objects| == |chunks|
  {
    if chunks == [] then Finished([])
    else
      match Transform(chunks[0])
      case Err(m) => Threw(m, [])
      case Ok(o) => Cons(o, Run(chunks[1..]))
  }

  /** The stream maps arrays to objects one for one and in order, stops at
      the first chunk that is not an array, and throws exactly when there is
      one, naming its type. */
  lemma RunMapsArrays(chunks: seq<Value>)
    ensures var r := Run(chunks);
      && (forall i :: 0 <= i < |r.objects| ==> chunks[i].Arr? && r.objects[i] == Obj(ToObject(chunks[i].items)))
      && (r.Finished? <==> forall i :: 0 <= i < |chunks| ==> chunks[i].Arr?)
      && (r.Finished? ==> |r.objects| == |chunks|)
      && (r.Threw? ==> |r.objects| < |chunks| && !chunks[|r.objects|].Arr? && r.message == Message(chunks[|r.objects|]))
  {
    RunObjects(chunks);
    RunFinishes(chunks);
    RunStops(chunks);
  }

  /** Every object pushed is the one made from the chunk at its position. */
  lemma {:induction false} RunObjects(chunks: seq<Value>)
    ensures var r := Run(chunks);
      forall i :: 0 <= i < |r.objects| ==> chunks[i].Arr? && r.objects[i] == Obj(ToObject(chunks[i].items))
    decreases |chunks|
  {
    if chunks != [] && chunks[0].Arr? {
      var rest := Run(chunks[1..]);
      RunObjects(chunks[1..]);
      var r := Run(chunks);
      assert r == Cons(Obj(ToObject(chunks[0].items)), rest);
      forall i | 0 <= i < |r.objects|
        ensures chunks[i].Arr? && r.objects[i] == Obj(ToObject(chunks[i].items))
      {
        if i > 0 {
          assert r.objects[i] == rest.objects[i - 1];
          assert chunks[1..][i - 1] == chunks[i];
        }
      }
    }
  }

  /** The stream finishes exactly when every chunk is an array. */
  lemma {:induction false} RunFinishes(chunks: seq<Value>)
    ensures Run(chunks).Finished? <==> forall i :: 0 <= i < |chunks| ==> chunks[i].Arr?
    decreases |chunks|
  {
    if chunks != [] && chunks[0].Arr? {
      var t := Transform(chunks[0]);
      var rest := Run(chunks[1..]);
      RunFinishes(chunks[1..]);
      assert Run(chunks) == Cons(t.value, rest);
      if rest.Finished? {
        forall i | 0 <= i < |chunks|
          ensures chunks[i].Arr?
        {
          if i > 0 {
            assert chunks[1..][i - 1].Arr?;
          }
        }
      } else {
        var k :| 0 <= k < |chunks[1..]| && !chunks[1..][k].Arr?;
        assert !chunks[k + 1].Arr?;
      }
    }
  }

  /** A throw happens at the first chunk that is not an array, and its
      message names that chunk's type. */
  lemma {:induction false} RunStops(chunks: seq<Value>)
    ensures var r := Run(chunks);
      r.Threw? ==> |r.objects| < |chunks| && !chunks[|r.objects|].Arr? && r.message == Message(chunks[|r.objects|])
    decreases |chunks|
  {
    if chunks != [] && chunks[0].Arr? {
      var t := Transform(chunks[0]);
      var rest := Run(chunks[1..]);
      RunStops(chunks[1..]);
      assert Run(chunks) == Cons(t.value, rest);
      if rest.Threw? {
        var k := |rest.objects|;
        var r := Run(chunks);
        assert r.Threw? && r.message == rest.message && |r.objects| == k + 1;
        assert chunks[1..][k] == chunks[k + 1];
      }
    }
  }

  /** A field's text as a JavaScript string: `String.fromCharCode` of each
      byte, so one character per byte. */
  function Latin1(f: seq<Bytes.byte>): (s: string)
    ensures |s| == |f|
    ensures forall i :: 0 <= i < |f| ==> s[i] as int == f[i]
  {
    seq(|f|, i requires 0 <= i < |f| => f[i] as char)
  }

  /** A record as the array of strings the record stream pushes. */
  function RecordValue(r: RecordParser.Record): (v: Value)
    ensures v.Arr? && |v.items| == |r|
    ensures forall i :: 0 <= i < |r| ==> v.items[i] == Str(Latin1(r[i]))
  {
    Arr(seq(|r|, i requires 0 <= i < |r| => Str(Latin1(r[i]))))
  }

  /** Piped after the record stream, the object stream never throws, even
      for records with no field, and pushes one object per record with one
      property per field. */
  lemma PipelineFinishes(records: seq<RecordParser.Record>)
    ensures var r := Run(seq(|records|, k requires 0 <= k < |records| => RecordValue(records[k])));
      && r.Finished?
      && |r.objects| == |records|
      && forall k :: 0 <= k < |records| ==> r.objects[k].Obj? && |r.objects[k].props| == |records[k]|
  {
    var chunks := seq(|records|, k requires 0 <= k < |records| => RecordValue(records[k]));
    RunMapsArrays(chunks);
  }

  /** Piped after the record stream, the object stream never throws and
      turns every record into an object whose `field<i+1>` is the record's
      `i`-th field. */
  lemma Pipeline(records: seq<RecordParser.Record>, n: nat, i: nat)
    requires n < |records| && i < |records[n]|
    ensures var r := Run(seq(|records|, k requires 0 <= k < |records| => RecordValue(records[k])));
      && r.Finished?
      && |r.objects| == |records|
      && r.objects[n].Obj?
      && Lookup(r.objects[n].props, FieldKey(i)) == Some(Str(Latin1(records[n][i])))
  {
    var chunks := seq(|records|, k requires 0 <= k < |records| => RecordValue(records[k]));
    RunMapsArrays(chunks);
    FieldLookup(chunks[n].items, i);
  }

  /** No chunks give no objects; the rows 1,2,3 and 4,5,6 give objects with
      the keys field1, field2 and field3. */
  lemma SeriesExample(a: Value, b: Value, c: Value)
    ensures Run([]) == Finished([])
    ensures ToObject([a, b, c]) == [("field1", a), ("field2", b), ("field3", c)]
  {
    assert FieldKey(0) == "field1" && FieldKey(1) == "field2" && FieldKey(2) == "field3";
  }

  /** A string chunk is refused, naming its type. */
  lemma StringChunkExample(s: string)
    ensures Run([Str(s)]) == Threw("Unexpected chunk type, expected array, got string", [])
  {
  }
}
