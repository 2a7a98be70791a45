/**
 * The wire form of a split (MongoInputSplit.write and readFields): one BSON document with
 * eight keys in a fixed order, and the length framing readFields uses to read it back.
 */
module SplitCodec {
  import opened Wrappers
  import opened Errors
  import opened Bytes
  import opened Bson
  import opened MongoUri
  import opened Descriptor

  const InputUriKey: Text := [0x69, 0x6E, 0x70, 0x75, 0x74, 0x55, 0x52, 0x49]  // "inputURI"
  const KeyFieldKey: Text := [0x6B, 0x65, 0x79, 0x46, 0x69, 0x65, 0x6C, 0x64]  // "keyField"
  const FieldsKey: Text := [0x66, 0x69, 0x65, 0x6C, 0x64, 0x73]  // "fields"
  const QueryKey: Text := [0x71, 0x75, 0x65, 0x72, 0x79]  // "query"
  const SortKey: Text := [0x73, 0x6F, 0x72, 0x74]  // "sort"
  const MinKey: Text := [0x6D, 0x69, 0x6E]  // "min"
  const MaxKey: Text := [0x6D, 0x61, 0x78]  // "max"
  const NoTimeoutKey: Text := [0x6E, 0x6F, 0x74, 0x69, 0x6D, 0x65, 0x6F, 0x75, 0x74]  // "notimeout"

  /** The keys in the order write puts them, as their ASCII bytes. */
  const Keys: seq<Text> :=
    [InputUriKey, KeyFieldKey, FieldsKey, QueryKey, SortKey, MinKey, MaxKey, NoTimeoutKey]

  /** No two keys are the same, and none holds a zero byte (each is written as a cstring). */
  lemma {:induction false} KeysDistinct()
    ensures forall i, j :: 0 <= i < j < |Keys| ==> Keys[i] != Keys[j]
    ensures forall i :: 0 <= i < |Keys| ==> IsCString(Keys[i])
  {
  }

  /** A nullable string as a BSON value: null, or a string. */
  function TextValue(t: Option<Text>): Value {
    match t
    case None => Null
    case Some(t) => Str(t)
  }

  /** A nullable DBObject as a BSON value: null, or an embedded document. */
  function DocValue(d: Option<Document>): Value {
    match d
    case None => Null
    case Some(d) => Doc(d)
  }

  /** The document write builds: every key present, an absent field as an explicit null. */
  function SpecElements(u: MongoURI, f: Fields): (es: seq<Element>)
    ensures |es| == |Keys| && forall i :: 0 <= i < |es| ==> es[i].key == Keys[i]
    ensures es[0].value == Str(ToString(u)) && es[7].value == Bool(f.notimeout)
    ensures es[1].value.Null? <==> f.keyField.None?
    ensures es[2].value.Null? <==> f.fields.None?
    ensures es[3].value.Null? <==> f.query.None?
    ensures es[4].value.Null? <==> f.sort.None?
    ensures es[5].value.Null? <==> f.min.None?
    ensures es[6].value.Null? <==> f.max.None?
  {
    [Element(InputUriKey, Str(ToString(u))),
     Element(KeyFieldKey, TextValue(f.keyField)),
     Element(FieldsKey, DocValue(f.fields)),
     Element(QueryKey, DocValue(f.query)),
     Element(SortKey, DocValue(f.sort)),
     Element(MinKey, DocValue(f.min)),
     Element(MaxKey, DocValue(f.max)),
     Element(NoTimeoutKey, Bool(f.notimeout))]
  }

  /**
   * The bytes write sends: the encoded document, or the exception.  A null inputURI is
   * dereferenced for its toString; a document too long for its int32 length is refused.
   */
  function Encode(f: Fields): (r: Result<Text, Error>)
    ensures r == Failure(NullPointer) <==> f.inputURI.None?
    ensures r.Success? ==> |r.value| <= MaxInt32
  {
    match f.inputURI
    case None => Failure(NullPointer)
    case Some(u) =>
      var doc := EncodeDocument(SpecElements(u, f));
      if |doc| > MaxInt32 then Failure(Unencodable) else Success(doc)
  }

  /** Every value of an element list fits its own length field, and every key is a cstring. */
  lemma {:induction false} EncodableWhen(es: seq<Element>)
    requires forall i :: 0 <= i < |es| ==> IsCString(es[i].key) && Fits(es[i].value)
    ensures Encodable(es)
  {
    if es != [] {
      EncodableWhen(es[1..]);
    }
  }

  /** What write sends decodes to exactly the eight keys, in order, with their values. */
  lemma {:induction false} WrittenDocument(f: Fields, tail: Text)
    requires Encode(f).Success?
    ensures f.inputURI.Some?
    ensures DecodeDocument(Encode(f).value + tail) == Success(SpecElements(f.inputURI.value, f))
  {
    var es := SpecElements(f.inputURI.value, f);
    KeysDistinct();
    FitsWhenFramed(es);
    EncodableWhen(es);
    DecodeEncodeDocument(es, tail);
  }

  /** BasicBSONObject.get finds the value of a key that no later element repeats. */
  lemma {:induction false} GetAt(es: seq<Element>, i: nat)
    requires i < |es| && forall j :: i < j < |es| ==> es[j].key != es[i].key
    ensures Get(es, es[i].key) == Some(es[i].value)
    decreases |es|
  {
    if i < |es| - 1 {
      var init := es[..|es| - 1];
      assert init[i] == es[i];
      GetAt(init, i);
    }
  }

  /** `new MongoURI((String) spec.get("inputURI"))`. */
  function ReadUri(v: Option<Value>): (r: Result<MongoURI, Error>)
    ensures r.Success? <==> v.Some? && v.value.Str? && IsConnectionString(v.value.text)
    ensures r.Success? ==> ToString(r.value) == v.value.text
    ensures v.None? || v == Some(Null) ==> r == Failure(NullPointer)
  {
    match v
    case None => Failure(NullPointer)
    case Some(Null) => Failure(NullPointer)
    case Some(Str(t)) => Parse(t)
    case Some(_) => Failure(ClassCast)
  }

  /** `(String) spec.get(key)`: null stays null, anything but a string fails the cast. */
  function ReadText(v: Option<Value>): (r: Result<Option<Text>, Error>)
    ensures r.Success? <==> v.None? || v.value.Null? || v.value.Str?
    ensures r.Success? ==> TextValue(r.value) == if v.None? then Null else v.value
  {
    match v
    case None => Success(None)
    case Some(Null) => Success(None)
    case Some(Str(t)) => Success(Some(t))
    case Some(_) => Failure(ClassCast)
  }

  /**
   * `temp = (BSONObject) spec.get(key)`, then `new BasicDBObject(temp.toMap())` when it is
   * not null: a copy with the same contents.
   */
  function ReadDoc(v: Option<Value>): (r: Result<Option<Document>, Error>)
    ensures r.Success? <==> v.None? || v.value.Null? || v.value.Doc?
    ensures r.Success? ==> DocValue(r.value) == if v.None? then Null else v.value
  {
    match v
    case None => Success(None)
    case Some(Null) => Success(None)
    case Some(Doc(d)) => Success(Some(Document(d.elements)))
    case Some(_) => Failure(ClassCast)
  }

  /** `(Boolean) spec.get("notimeout")` unboxed: a null or absent value cannot be unboxed. */
  function ReadBool(v: Option<Value>): (r: Result<bool, Error>)
    ensures r.Success? <==> v.Some? && v.value.Bool?
    ensures r.Success? ==> v.value == Bool(r.value)
    ensures v.None? || v == Some(Null) ==> r == Failure(NullPointer)
  {
    match v
    case None => Failure(NullPointer)
    case Some(Null) => Failure(NullPointer)
    case Some(Bool(b)) => Success(b)
    case Some(_) => Failure(ClassCast)
  }

  /** The fields after readFields's setters ran, and the exception that stopped them, if any. */
  datatype Restored = Restored(fields: Fields, error: Option<Error>)

  /**
   * The setter calls of readFields, in order, on the decoded elements es: each key is read
   * and its setter applied before the next key is looked at, so an exception leaves the
   * fields set so far in place.
   */
  function Rebuild(f: Fields, es: seq<Element>): (r: Restored)
    ensures r.error.None? ==> r.fields.inputURI.Some?
    ensures r.error.None? ==> ReadBool(Get(es, NoTimeoutKey)) == Success(r.fields.notimeout)
    ensures r.error.Some? ==> r.fields.notimeout == f.notimeout
    ensures r.error == Some(NullPointer) || r.error == Some(ClassCast)
            || r.error == Some(IllegalArgument) || r.error.None?
  {
    var uri := ReadUri(Get(es, InputUriKey));
    if uri.Failure? then Restored(f, Some(uri.error)) else
    var f1 := f.(inputURI := Some(uri.value));
    var key := ReadText(Get(es, KeyFieldKey));
    if key.Failure? then Restored(f1, Some(key.error)) else
    var f2 := f1.(keyField := key.value);
    var fields := ReadDoc(Get(es, FieldsKey));
    if fields.Failure? then Restored(f2, Some(fields.error)) else
    var f3 := f2.(fields := fields.value);
    var query := ReadDoc(Get(es, QueryKey));
    if query.Failure? then Restored(f3, Some(query.error)) else
    var f4 := f3.(query := query.value);
    var sort := ReadDoc(Get(es, SortKey));
    if sort.Failure? then Restored(f4, Some(sort.error)) else
    var f5 := f4.(sort := sort.value);
    var min := ReadDoc(Get(es, MinKey));
    if min.Failure? then Restored(f5, Some(min.error)) else
    var f6 := f5.(min := min.value);
    var max := ReadDoc(Get(es, MaxKey));
    if max.Failure? then Restored(f6, Some(max.error)) else
    var f7 := f6.(max := max.value);
    var notimeout := ReadBool(Get(es, NoTimeoutKey));
    if notimeout.Failure? then Restored(f7, Some(notimeout.error)) else
    Restored(f7.(notimeout := notimeout.value), None)
  }

  /** Each key of the document write builds finds the value written under it. */
  lemma {:induction false} GetSpec(u: MongoURI, f: Fields, i: nat)
    requires i < |Keys|
    ensures Get(SpecElements(u, f), Keys[i]) == Some(SpecElements(u, f)[i].value)
  {
    KeysDistinct();
    GetAt(SpecElements(u, f), i);
  }

  /** The setters restore every field from the document write built for it. */
  lemma {:induction false} RebuildSpec(f: Fields, g: Fields)
    requires f.inputURI.Some?
    ensures Rebuild(g, SpecElements(f.inputURI.value, f)) == Restored(f, None)
  {
    var u := f.inputURI.value;
    var es := SpecElements(u, f);
    GetSpec(u, f, 0);
    GetSpec(u, f, 1);
    GetSpec(u, f, 2);
    GetSpec(u, f, 3);
    GetSpec(u, f, 4);
    GetSpec(u, f, 5);
    GetSpec(u, f, 6);
    GetSpec(u, f, 7);
    assert Get(es, InputUriKey) == Some(Str(ToString(u)));
    assert Get(es, KeyFieldKey) == Some(TextValue(f.keyField));
    assert Get(es, FieldsKey) == Some(DocValue(f.fields));
    assert Get(es, QueryKey) == Some(DocValue(f.query));
    assert Get(es, SortKey) == Some(DocValue(f.sort));
    assert Get(es, MinKey) == Some(DocValue(f.min));
    assert Get(es, MaxKey) == Some(DocValue(f.max));
    assert Get(es, NoTimeoutKey) == Some(Bool(f.notimeout));
    ReadValues(f);
    RebuildAllRead(f, g, es);
  }

  /** Each reader gives back the field its value was made from. */
  lemma {:induction false} ReadValues(f: Fields)
    requires f.inputURI.Some?
    ensures ReadUri(Some(Str(ToString(f.inputURI.value)))) == Success(f.inputURI.value)
    ensures ReadText(Some(TextValue(f.keyField))) == Success(f.keyField)
    ensures ReadDoc(Some(DocValue(f.fields))) == Success(f.fields)
    ensures ReadDoc(Some(DocValue(f.query))) == Success(f.query)
    ensures ReadDoc(Some(DocValue(f.sort))) == Success(f.sort)
    ensures ReadDoc(Some(DocValue(f.min))) == Success(f.min)
    ensures ReadDoc(Some(DocValue(f.max))) == Success(f.max)
    ensures ReadBool(Some(Bool(f.notimeout))) == Success(f.notimeout)
  {
    assert Parse(ToString(f.inputURI.value)) == Success(f.inputURI.value);
    ReadDocValue(f.fields);
    ReadDocValue(f.query);
    ReadDocValue(f.sort);
    ReadDocValue(f.min);
    ReadDocValue(f.max);
  }

  lemma {:induction false} ReadDocValue(d: Option<Document>)
    ensures ReadDoc(Some(DocValue(d))) == Success(d)
  {
  }

  /** When every key reads back as f's field, the setters leave exactly f. */
  lemma {:induction false} RebuildAllRead(f: Fields, g: Fields, es: seq<Element>)
    requires f.inputURI.Some? && ReadUri(Get(es, InputUriKey)) == Success(f.inputURI.value)
    requires ReadText(Get(es, KeyFieldKey)) == Success(f.keyField)
    requires ReadDoc(Get(es, FieldsKey)) == Success(f.fields)
    requires ReadDoc(Get(es, QueryKey)) == Success(f.query)
    requires ReadDoc(Get(es, SortKey)) == Success(f.sort)
    requires ReadDoc(Get(es, MinKey)) == Success(f.min)
    requires ReadDoc(Get(es, MaxKey)) == Success(f.max)
    requires ReadBool(Get(es, NoTimeoutKey)) == Success(f.notimeout)
    ensures Rebuild(g, es) == Restored(f, None)
  {
  }

  /** A document without a usable inputURI changes nothing: the first setter never runs. */
  lemma {:induction false} RebuildWithoutUri(f: Fields, es: seq<Element>)
    requires forall i :: 0 <= i < |es| && es[i].key == InputUriKey ==> es[i].value.Null?
    ensures Rebuild(f, es) == Restored(f, Some(NullPointer))
  {
    GetLast(es, InputUriKey);
    match Get(es, InputUriKey)
    case None =>
    case Some(v) =>
      var i :| 0 <= i < |es| && es[i] == Element(InputUriKey, v);
  }

  /** Success overwrites every field: nothing of the split's earlier state survives it. */
  lemma {:induction false} RebuildOverwrites(f: Fields, g: Fields, es: seq<Element>)
    requires Rebuild(f, es).error.None?
    ensures Rebuild(g, es) == Rebuild(f, es)
  {
  }

  /** The bytes readFields puts in its buffer and how many it takes from the input, or why it fails. */
  datatype FrameRead = Framed(data: Text, consumed: nat) | Unframed(error: Error, consumed: nat)

  /**
   * The framing of readFields on input: read four bytes, allocate `dataLen + 4` bytes
   * (Java int arithmetic), copy the four bytes in, then read `dataLen - 4` more at offset 4.
   * readFully takes what the input still holds before it fails for lack of bytes.
   */
  function ReadFrame(input: Text): (r: FrameRead)
    ensures r.consumed <= |input|
    ensures r.Framed? <==>
      4 <= |input| && 4 <= ReadInt(input, 0) as int <= MaxInt32 - 4 && ReadInt(input, 0) as int <= |input|
    ensures r.Framed? ==>
      var n := ReadInt(input, 0) as int;
      r.consumed == n && |r.data| == n + 4 && r.data[..n] == input[..n] && r.data[n..] == [0, 0, 0, 0]
    ensures r.Unframed? && r.error == EndOfFile ==> r.consumed == |input|
  {
    if |input| < 4 then Unframed(EndOfFile, |input|)
    else
      var dataLen := ReadInt(input, 0);
      var size := Wrap32(dataLen as int + 4);
      if size < 0 then Unframed(NegativeArraySize, 4)
      else if size < 4 then Unframed(IndexOutOfBounds, 4)
      else
        var len := Wrap32(dataLen as int - 4) as int;
        if len < 0 then Unframed(IndexOutOfBounds, 4)
        else if |input| - 4 < len then Unframed(EndOfFile, |input|)
        else Framed(input[..4 + len] + seq(size as int - 4 - len, _ => 0), 4 + len)
  }

  /** The frame of a BSON document write sent is read back whole, whatever follows it. */
  lemma {:induction false} FrameWritten(doc: Text, tail: Text)
    requires 4 <= |doc| <= MaxInt32 - 4 && ReadInt(doc, 0) as int == |doc|
    ensures ReadFrame(doc + tail) == Framed(doc + [0, 0, 0, 0], |doc|)
  {
    var input := doc + tail;
    assert ReadInt(input, 0) == ReadInt(doc, 0) by {
      assert input[..4] == doc[..4];
      assert input[0] == doc[0] && input[1] == doc[1] && input[2] == doc[2] && input[3] == doc[3];
    }
    assert input[..|doc|] == doc;
    var r := ReadFrame(input);
    assert r.data == r.data[..|doc|] + r.data[|doc|..];
  }

  /** A buffer holding the first n bytes of the input and four zero bytes is the frame read. */
  lemma {:induction false} FrameContents(input: Text, data: Text)
    requires ReadFrame(input).Framed?
    requires |data| == ReadInt(input, 0) as int + 4
    requires forall i :: 0 <= i < |data| - 4 ==> data[i] == input[i]
    requires forall i :: |data| - 4 <= i < |data| ==> data[i] == 0
    ensures ReadFrame(input).data == data
  {
    var r := ReadFrame(input);
    var n := |data| - 4;
    assert data[..n] == input[..n];
    assert data[n..] == [0, 0, 0, 0];
    assert data == data[..n] + data[n..];
    assert r.data == r.data[..n] + r.data[n..];
  }

  /** The outcome of readFields: the fields afterwards, its exception, the bytes it consumed. */
  datatype ReadOutcome = ReadOutcome(fields: Fields, error: Option<Error>, consumed: nat)

  /** readFields on a split holding f, reading from input. */
  function ReadFieldsOutcome(f: Fields, input: Text): (r: ReadOutcome)
    ensures r.consumed <= |input|
  {
    match ReadFrame(input)
    case Unframed(e, n) => ReadOutcome(f, Some(e), n)
    case Framed(data, n) =>
      match DecodeDocument(data)
      case Failure(e) => ReadOutcome(f, Some(e), n)
      case Success(es) =>
        var r := Rebuild(f, es);
        ReadOutcome(r.fields, r.error, n)
  }

  /** write then readFields: the fields come back, and exactly the bytes written are consumed. */
  lemma {:induction false} ReadWrite(f: Fields, g: Fields, tail: Text)
    requires Encode(f).Success? && |Encode(f).value| <= MaxInt32 - 4
    ensures ReadFieldsOutcome(g, Encode(f).value + tail) == ReadOutcome(f, None, |Encode(f).value|)
  {
    var doc := Encode(f).value;
    var es := SpecElements(f.inputURI.value, f);
    WrittenDocument(f, [0, 0, 0, 0]);
    WrittenLength(f);
    FrameWritten(doc, tail);
    RebuildSpec(f, g);
  }

  /** The length prefix of what write sends is the length of what it sends. */
  lemma {:induction false} WrittenLength(f: Fields)
    requires Encode(f).Success?
    ensures 5 <= |Encode(f).value| && ReadInt(Encode(f).value, 0) as int == |Encode(f).value|
  {
    var doc := Encode(f).value;
    HoldsAtPrefix(doc, []);
    assert doc + [] == doc;
    FrameParts(EncodeElements(SpecElements(f.inputURI.value, f)), doc, 0);
  }
}
