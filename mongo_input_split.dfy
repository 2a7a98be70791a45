/**
 * MongoInputSplit: the description of one partition of a collection scan that Hadoop hands
 * to a task.  It carries a connection string, the key field, five optional query documents
 * and a no-timeout flag; it writes itself to, and reads itself from, a byte stream; and it
 * opens its cursor once, on first use.
 */
module InputSplit {
  import opened Wrappers
  import opened Errors
  import opened Bytes
  import opened Bson
  import opened MongoUri
  import opened Descriptor
  import opened SplitCodec
  import opened SplitIdentity
  import opened DataIo
  import opened Driver

  /** Java's Long.MAX_VALUE. */
  const LongMaxValue: int := 0x7FFF_FFFF_FFFF_FFFF

  /**
   * The driver calls of getCursor's first run, in order: find(query, fields), then sort,
   * always, then setOptions only with notimeout, then the $min and $max modifiers only for
   * the bounds that are present.
   */
  function CursorCalls(f: Fields): (calls: seq<Call>)
    ensures |calls| == 2 + (if f.notimeout then 1 else 0) + (if f.min.Some? then 1 else 0)
                         + (if f.max.Some? then 1 else 0)
  {
    var started := [Call.Find(f.query, f.fields), Call.Sort(f.sort)];
    var timed := if f.notimeout then started + [Call.SetOptions(QueryOptionNoTimeout)] else started;
    var bounded := if f.min.Some? then timed + [Call.AddSpecial(MinSpecial, f.min.value)] else timed;
    if f.max.Some? then bounded + [Call.AddSpecial(MaxSpecial, f.max.value)] else bounded
  }

  /** What the driver calls of getCursor's first run are and are not. */
  lemma {:induction false} CursorCallsOrder(f: Fields)
    ensures var calls := CursorCalls(f);
      && 2 <= |calls| <= 5
      && calls[0] == Call.Find(f.query, f.fields) && calls[1] == Call.Sort(f.sort)
      && (Call.SetOptions(QueryOptionNoTimeout) in calls <==> f.notimeout)
      && ((exists d :: Call.AddSpecial(MinSpecial, d) in calls) <==> f.min.Some?)
      && ((exists d :: Call.AddSpecial(MaxSpecial, d) in calls) <==> f.max.Some?)
      && (f.min.Some? ==> Call.AddSpecial(MinSpecial, f.min.value) in calls)
      && (f.max.Some? ==> calls[|calls| - 1] == Call.AddSpecial(MaxSpecial, f.max.value))
  {
    var calls := CursorCalls(f);
    assert MinSpecial != MaxSpecial;
    if f.min.Some? {
      assert Call.AddSpecial(MinSpecial, f.min.value) in calls;
    }
    if f.max.Some? {
      assert Call.AddSpecial(MaxSpecial, f.max.value) in calls;
    }
  }

  /** The driver calls getCursor makes on its first run, on the collection it resolved. */
  method OpenCursor(collection: Collection, f: Fields) returns (c: DBCursor)
    ensures fresh(c) && c.collection == collection && c.calls == CursorCalls(f)
  {
    c := new DBCursor.Find(collection, f.query, f.fields);
    c := c.Sort(f.sort);
    ghost var expected := [Call.Find(f.query, f.fields), Call.Sort(f.sort)];
    assert c.calls == expected;
    if f.notimeout {
      c.SetOptions(QueryOptionNoTimeout);
      expected := expected + [Call.SetOptions(QueryOptionNoTimeout)];
    }
    assert c.calls == expected;
    if f.min.Some? {
      c.AddSpecial(MinSpecial, f.min.value);
      expected := expected + [Call.AddSpecial(MinSpecial, f.min.value)];
    }
    assert c.calls == expected;
    if f.max.Some? {
      c.AddSpecial(MaxSpecial, f.max.value);
      expected := expected + [Call.AddSpecial(MaxSpecial, f.max.value)];
    }
    assert expected == CursorCalls(f);
  }

  /** The first steps of readFields: `new byte[4]` and readFully of the length prefix. */
  method ReadLength(inp: DataInput) returns (l: array<uint8>, err: Option<Error>)
    modifies inp
    ensures fresh(l) && l.Length == 4
    ensures err.Some? <==> |old(inp.remaining)| < 4
    ensures err.Some? ==> err.value == EndOfFile && inp.remaining == []
    ensures err.None? ==> l[..] == old(inp.remaining)[..4] && inp.remaining == old(inp.remaining)[4..]
  {
    l := new uint8[4](_ => 0);
    err := inp.ReadFully(l, 0, 4);
  }

  /** `new byte[size]` followed by arraycopy of the four length bytes l to its front. */
  method NewFrameBuffer(l: array<uint8>, size: int32) returns (data: array<uint8>)
    requires l.Length == 4 && 4 <= size
    ensures fresh(data) && data.Length == size as int
    ensures forall i :: 0 <= i < data.Length ==> data[i] == if i < 4 then l[i] else 0
  {
    data := new uint8[size](_ => 0);
    data[0], data[1], data[2], data[3] := l[0], l[1], l[2], l[3];
  }

  /**
   * The rest of readFields' framing, once the four length bytes l are read: Bits.readInt, a
   * buffer of `dataLen + 4` bytes, arraycopy of the prefix, and readFully of `dataLen - 4`
   * bytes at offset 4.
   */
  method ReadBody(inp: DataInput, l: array<uint8>) returns (r: FrameRead)
    requires l.Length == 4
    modifies inp
    ensures 4 <= r.consumed
    ensures r == ReadFrame(old(l[..] + inp.remaining))
    ensures inp.remaining == old(inp.remaining)[r.consumed - 4..]
  {
    var input := l[..] + inp.remaining;
    assert input[..4] == l[..];
    var dataLen := ReadInt(l[..], 0);
    assert dataLen == ReadInt(input, 0);
    var size := Wrap32(dataLen as int + 4);
    if size < 0 {
      return Unframed(NegativeArraySize, 4);
    }
    if size < 4 {
      return Unframed(IndexOutOfBounds, 4);
    }
    var data := NewFrameBuffer(l, size);
    ghost var rest := inp.remaining;
    ghost var copied := data[..];
    var err := inp.ReadFully(data, 4, Wrap32(dataLen as int - 4));
    if err.Some? {
      return Unframed(err.value, if err.value == EndOfFile then |input| else 4);
    }
    FilledFrame(l[..], rest, copied, data[..]);
    r := Framed(data[..], data.Length - 4);
  }

  /**
   * The buffer once readFully has filled it: the four length bytes, then the `dataLen - 4`
   * bytes that followed them, then the zeros the buffer was created with.
   */
  lemma {:induction false} FilledFrame(l: Text, rest: Text, copied: Text, filled: Text)
    requires |l| == 4 && ReadFrame(l + rest).Framed?
    requires |copied| == |filled| == ReadInt(l, 0) as int + 4
    requires forall i :: 0 <= i < |copied| ==> copied[i] == if i < 4 then l[i] else 0
    requires forall i :: 0 <= i < |filled| ==>
      filled[i] == if 4 <= i < |filled| - 4 then rest[i - 4] else copied[i]
    ensures ReadFrame(l + rest) == Framed(filled, |filled| - 4)
  {
    var input := l + rest;
    assert input[..4] == l;
    var n := |filled| - 4;
    forall i | 0 <= i < n ensures filled[i] == input[i] {
    }
    FrameContents(input, filled);
  }

  /** The framing of readFields: the frame read and the input that follows it. */
  method ReadFrameFrom(inp: DataInput) returns (r: FrameRead)
    modifies inp
    ensures r == ReadFrame(old(inp.remaining)) && inp.remaining == old(inp.remaining)[r.consumed..]
  {
    var input := inp.remaining;
    var l, err := ReadLength(inp);
    if err.Some? {
      return Unframed(err.value, |input|);
    }
    assert input == l[..] + inp.remaining;
    r := ReadBody(inp, l);
  }

  /** A split read back from what it wrote is equal to it and has its hash code. */
  lemma {:induction false} ReadBackEqual(f: Fields, g: Fields, tail: Text, eq: (Document, Document) -> bool,
                                         uriHash: MongoURI -> int32, docHash: Document -> int32)
    requires forall x :: eq(x, x)
    requires Encode(f).Success? && |Encode(f).value| <= MaxInt32 - 4
    ensures var back := ReadFieldsOutcome(g, Encode(f).value + tail);
      back.error.None? && SameSplit(back.fields, f, eq)
      && HashCode(back.fields, uriHash, docHash) == HashCode(f, uriHash, docHash)
  {
    ReadWrite(f, g, tail);
    SameSplitReflexive(f, eq);
  }

  class MongoInputSplit {
    var inputURI: Option<MongoURI>
    var keyField: Option<Text>
    var fields: Option<Document>
    var query: Option<Document>
    var sort: Option<Document>
    var min: Option<Document>
    var max: Option<Document>
    var notimeout: bool
    var cursor: DBCursor?

    /** The values the split carries (everything but the transient cursor). */
    function State(): Fields
      reads this
    {
      Fields(inputURI, keyField, fields, query, sort, min, max, notimeout)
    }

    constructor ()
      ensures State() == Initial() && cursor == null
    {
      keyField := Some(IdKey);
      inputURI, fields, query, sort, min, max := None, None, None, None, None, None;
      notimeout := false;
      cursor := null;
    }

    method SetInputURI(u: Option<MongoURI>)
      modifies this
      ensures State() == old(State()).(inputURI := u) && cursor == old(cursor)
    {
      inputURI := u;
    }

    method SetKeyField(k: Option<Text>)
      modifies this
      ensures State() == old(State()).(keyField := k) && cursor == old(cursor)
    {
      keyField := k;
    }

    method SetFields(d: Option<Document>)
      modifies this
      ensures State() == old(State()).(fields := d) && cursor == old(cursor)
    {
      fields := d;
    }

    method SetQuery(d: Option<Document>)
      modifies this
      ensures State() == old(State()).(query := d) && cursor == old(cursor)
    {
      query := d;
    }

    method SetSort(d: Option<Document>)
      modifies this
      ensures State() == old(State()).(sort := d) && cursor == old(cursor)
    {
      sort := d;
    }

    method SetMin(d: Option<Document>)
      modifies this
      ensures State() == old(State()).(min := d) && cursor == old(cursor)
    {
      min := d;
    }

    method SetMax(d: Option<Document>)
      modifies this
      ensures State() == old(State()).(max := d) && cursor == old(cursor)
    {
      max := d;
    }

    method SetNoTimeout(b: bool)
      modifies this
      ensures State() == old(State()).(notimeout := b) && cursor == old(cursor)
    {
      notimeout := b;
    }

    /**
     * getLocations: null without a connection string, otherwise its hosts in the order
     * written: the host part split at commas, as String.split does.
     */
    function GetLocations(): (r: Option<seq<Text>>)
      reads this
      ensures r.None? <==> inputURI.None?
      ensures r.Some? ==> SplitOf(ServerPart(inputURI.value), Comma, r.value)
      ensures r.Some? && IndexOf(ServerPart(inputURI.value), Comma).None? ==> r.value == [ServerPart(inputURI.value)]
      ensures r.Some? && IndexOf(ServerPart(inputURI.value), Comma).Some? ==>
        r.value == [] || r.value[|r.value| - 1] != []
    {
      match inputURI
      case None => None
      case Some(u) => Some(Hosts(u))
    }

    /** getLength: the split claims to be as long as possible. */
    function GetLength(): (r: int)
      ensures r == LongMaxValue
    {
      LongMaxValue
    }

    /** write(out): sends the split's document, or fails before writing anything. */
    method Write(out: DataOutput) returns (err: Option<Error>)
      modifies out
      ensures Encode(State()).Success? ==> err.None? && out.written == old(out.written) + Encode(State()).value
      ensures Encode(State()).Failure? ==> err == Some(Encode(State()).error) && out.written == old(out.written)
    {
      var buf := Encode(State());
      if buf.Failure? {
        return Some(buf.error);
      }
      out.Write(buf.value);
      return None;
    }

    /**
     * readFields(in): reads the length prefix, reads the rest of the frame into a buffer of
     * prefix + 4 bytes, decodes it and sets each field from its key, in write's order.
     */
    method ReadFields(inp: DataInput) returns (err: Option<Error>)
      modifies this, inp
      ensures var o := ReadFieldsOutcome(old(State()), old(inp.remaining));
        State() == o.fields && err == o.error && inp.remaining == old(inp.remaining)[o.consumed..]
      ensures cursor == old(cursor)
    {
      var frame := ReadFrameFrom(inp);
      if frame.Unframed? {
        return Some(frame.error);
      }
      var decoded := DecodeDocument(frame.data);
      if decoded.Failure? {
        return Some(decoded.error);
      }
      err := SetFromDocument(decoded.value);
    }

    /** The setter calls of readFields on the decoded document, stopping at the first exception. */
    method SetFromDocument(es: seq<Element>) returns (err: Option<Error>)
      modifies this
      ensures State() == Rebuild(old(State()), es).fields && err == Rebuild(old(State()), es).error
      ensures cursor == old(cursor)
    {
      var uri := ReadUri(Get(es, InputUriKey));
      if uri.Failure? {
        return Some(uri.error);
      }
      SetInputURI(Some(uri.value));
      var key := ReadText(Get(es, KeyFieldKey));
      if key.Failure? {
        return Some(key.error);
      }
      SetKeyField(key.value);
      var d := ReadDoc(Get(es, FieldsKey));
      if d.Failure? {
        return Some(d.error);
      }
      SetFields(d.value);
      d := ReadDoc(Get(es, QueryKey));
      if d.Failure? {
        return Some(d.error);
      }
      SetQuery(d.value);
      d := ReadDoc(Get(es, SortKey));
      if d.Failure? {
        return Some(d.error);
      }
      SetSort(d.value);
      d := ReadDoc(Get(es, MinKey));
      if d.Failure? {
        return Some(d.error);
      }
      SetMin(d.value);
      d := ReadDoc(Get(es, MaxKey));
      if d.Failure? {
        return Some(d.error);
      }
      SetMax(d.value);
      var b := ReadBool(Get(es, NoTimeoutKey));
      if b.Failure? {
        return Some(b.error);
      }
      SetNoTimeout(b.value);
      return None;
    }

    /**
     * getCursor: the first call opens the cursor with the driver calls of CursorCalls and
     * keeps it; every later call returns that cursor and makes no driver call.
     */
    method GetCursor() returns (r: Result<DBCursor, Error>)
      modifies this
      ensures State() == old(State())
      ensures old(cursor) != null ==> r == Success(old(cursor)) && cursor == old(cursor)
      ensures old(cursor) == null && inputURI.None? ==> r == Failure(NullPointer) && cursor == null
      ensures old(cursor) == null && inputURI.Some? ==>
        r.Success? && cursor == r.value && fresh(r.value)
        && r.value.collection == Collection(inputURI.value) && r.value.calls == CursorCalls(State())
    {
      if cursor == null {
        var collection := GetCollection(inputURI);
        if collection.Failure? {
          return Failure(collection.error);
        }
        cursor := OpenCursor(collection.value, State());
      }
      return Success(cursor);
    }

    /**
     * hashCode, with MongoURI.hashCode and DBObject.hashCode given as uriHash and docHash: the
     * int congruent to the base-31 polynomial of the seven hashes, a null hashing to 0.
     */
    function HashCode(uriHash: MongoURI -> int32, docHash: Document -> int32): (r: int32)
      reads this
      ensures (r as int
        - (887503681 * NullHash(inputURI, uriHash) as int + 28629151 * NullHash(query, docHash) as int
           + 923521 * NullHash(fields, docHash) as int + 29791 * NullHash(max, docHash) as int
           + 961 * NullHash(min, docHash) as int + 31 * NullHash(sort, docHash) as int
           + (if notimeout then 1 else 0))) % TwoTo32 == 0
    {
      SplitIdentity.HashCode(State(), uriHash, docHash)
    }

    /**
     * equals(o), with DBObject.equals given as eq: the same object is equal to itself, null
     * is not, and another split is equal when the seven compared fields are.
     */
    function Equals(o: MongoInputSplit?, eq: (Document, Document) -> bool): (r: bool)
      reads this, o
      ensures r <==> o != null && (o == this || SameSplit(State(), o.State(), eq))
    {
      if this == o then true
      else if o == null then false
      else SameSplit(State(), o.State(), eq)
    }
  }
}
