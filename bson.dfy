/**
 * The part of BSON (version 1.1) that the split's wire frame uses:
 *
 *   document ::= int32 e_list "\x00"      -- the int32 is the total length, itself included
 *   element  ::= type-byte cstring value
 *
 * with the four value types the split writes at top level: string (0x02), embedded
 * document (0x03), boolean (0x08) and null (0x0A).  The inside of an embedded document
 * (a DBObject) is opaque here: it is carried as the bytes of its element list and
 * delimited by its own length prefix.
 */
module Bson {
  import opened Wrappers
  import opened Errors
  import opened Bytes

  /** A DBObject, by the bytes of its element list. */
  datatype Document = Document(elements: Text)

  datatype Value = Str(text: Text) | Doc(doc: Document) | Bool(b: bool) | Null

  datatype Element = Element(key: Text, value: Value)

  const StringTag: uint8 := 0x02
  const DocumentTag: uint8 := 0x03
  const BooleanTag: uint8 := 0x08
  const NullTag: uint8 := 0x0A

  /** A key is written as a cstring, so it must not contain a zero byte. */
  predicate IsCString(s: Text) {
    forall i :: 0 <= i < |s| ==> s[i] != 0
  }

  function TagOf(v: Value): uint8 {
    match v
    case Str(_) => StringTag
    case Doc(_) => DocumentTag
    case Bool(_) => BooleanTag
    case Null => NullTag
  }

  /** The frame `int32 body "\x00"`, whose int32 is the length of the whole frame. */
  function Frame(body: Text): (r: Text)
    ensures |r| == |body| + 5
  {
    IntBytes(Wrap32(|body| + 5)) + (body + [0])
  }

  /** The parts of a frame held at `at`: its length, when that fits an int, and its body. */
  lemma {:induction false} FrameParts(body: Text, s: Text, at: nat)
    requires |body| + 5 <= MaxInt32 && HoldsAt(s, at, Frame(body))
    ensures ReadInt(s, at) as int == |body| + 5 && HoldsAt(s, at + 4, body + [0])
  {
    var prefix := IntBytes(Wrap32(|body| + 5));
    HoldsAtSplit(s, at, prefix, body + [0]);
    ReadIntBytes(Wrap32(|body| + 5), s, at);
  }

  /** The number of bytes a value, an element and an element list take once encoded. */
  function ValueSize(v: Value): nat {
    match v
    case Str(t) => |t| + 5
    case Doc(d) => |d.elements| + 5
    case Bool(_) => 1
    case Null => 0
  }

  function ElementSize(e: Element): nat {
    |e.key| + 2 + ValueSize(e.value)
  }

  function ElementsSize(es: seq<Element>): nat {
    if es == [] then 0 else ElementSize(es[0]) + ElementsSize(es[1..])
  }

  function EncodeValue(v: Value): (r: Text)
    ensures |r| == ValueSize(v)
  {
    match v
    case Str(t) => IntBytes(Wrap32(|t| + 1)) + (t + [0])
    case Doc(d) => Frame(d.elements)
    case Bool(b) => [if b then 1 else 0]
    case Null => []
  }

  function EncodeElement(e: Element): (r: Text)
    ensures |r| == ElementSize(e)
  {
    [TagOf(e.value)] + e.key + [0] + EncodeValue(e.value)
  }

  function EncodeElements(es: seq<Element>): (r: Text)
    ensures |r| == ElementsSize(es)
  {
    if es == [] then [] else EncodeElement(es[0]) + EncodeElements(es[1..])
  }

  /** BasicBSONEncoder.encode of a document with the elements es, in order. */
  function EncodeDocument(es: seq<Element>): (r: Text)
    ensures |r| == ElementsSize(es) + 5 && r[|r| - 1] == 0
  {
    Frame(EncodeElements(es))
  }

  /** The position of the first zero byte at or after `from`: where a cstring ends. */
  function ZeroIndex(s: Text, from: nat): (r: Option<nat>)
    requires from <= |s|
    ensures r.Some? ==> from <= r.value < |s| && s[r.value] == 0
    decreases |s| - from
  {
    if from == |s| then None
    else if s[from] == 0 then Some(from)
    else ZeroIndex(s, from + 1)
  }

  /** A string value at position at: int32 size, size - 1 bytes, and a zero byte. */
  function DecodeString(s: Text, at: nat): (r: Result<(Value, nat), Error>)
    requires at <= |s|
    ensures r.Success? ==> r.value.0.Str? && at + 5 <= r.value.1 <= |s|
  {
    if |s| - at < 4 then Failure(MalformedBson)
    else
      var n := ReadInt(s, at) as int;
      if n < 1 || |s| - at - 4 < n || s[at + 3 + n] != 0 then Failure(MalformedBson)
      else Success((Str(Span(s, at + 4, at + 3 + n)), at + 4 + n))
  }

  /** An embedded document at position at: int32 size (itself included), elements, a zero byte. */
  function DecodeEmbedded(s: Text, at: nat): (r: Result<(Value, nat), Error>)
    requires at <= |s|
    ensures r.Success? ==> r.value.0.Doc? && at + 5 <= r.value.1 <= |s|
  {
    if |s| - at < 4 then Failure(MalformedBson)
    else
      var n := ReadInt(s, at) as int;
      if n < 5 || |s| - at < n || s[at + n - 1] != 0 then Failure(MalformedBson)
      else Success((Doc(Document(Span(s, at + 4, at + n - 1))), at + n))
  }

  /** A boolean at position at: one byte, anything but zero being true. */
  function DecodeBoolean(s: Text, at: nat): (r: Result<(Value, nat), Error>)
    requires at <= |s|
    ensures r.Success? ==> r.value.0.Bool? && r.value.1 == at + 1 <= |s|
  {
    if |s| - at < 1 then Failure(MalformedBson) else Success((Bool(s[at] != 0), at + 1))
  }

  /** The value of type `tag` that starts at position `at` of s, and where it ends. */
  function DecodeValue(tag: uint8, s: Text, at: nat): (r: Result<(Value, nat), Error>)
    requires at <= |s|
    ensures r.Success? ==> at <= r.value.1 <= |s| && TagOf(r.value.0) == tag
  {
    if tag == StringTag then DecodeString(s, at)
    else if tag == DocumentTag then DecodeEmbedded(s, at)
    else if tag == BooleanTag then DecodeBoolean(s, at)
    else if tag == NullTag then Success((Null, at))
    else Failure(MalformedBson)
  }

  /** The element that starts at position `at` (its type byte is not the terminator). */
  function DecodeElement(s: Text, at: nat): (r: Result<(Element, nat), Error>)
    requires at < |s| && s[at] != 0
    ensures r.Success? ==> at + 2 <= r.value.1 <= |s|
  {
    match ZeroIndex(s, at + 1)
    case None => Failure(MalformedBson)
    case Some(k) =>
      var v := DecodeValue(s[at], s, k + 1);
      if v.Failure? then Failure(v.error)
      else Success((Element(Span(s, at + 1, k), v.value.0), v.value.1))
  }

  /** The elements from position `at` up to the terminating zero byte, and the position after it. */
  function DecodeElements(s: Text, at: nat): (r: Result<(seq<Element>, nat), Error>)
    requires at <= |s|
    ensures r.Success? ==> at < r.value.1 <= |s| && s[r.value.1 - 1] == 0
    decreases |s| - at
  {
    if at == |s| then Failure(MalformedBson)
    else if s[at] == 0 then Success(([], at + 1))
    else
      var first := DecodeElement(s, at);
      if first.Failure? then Failure(first.error)
      else
        var rest := DecodeElements(s, first.value.1);
        if rest.Failure? then Failure(rest.error)
        else Success(([first.value.0] + rest.value.0, rest.value.1))
  }

  /**
   * BasicBSONDecoder.decode of the document at the front of buf: the elements must end
   * exactly at the length the prefix declares; bytes after it are not looked at.
   */
  function DecodeDocument(buf: Text): (r: Result<seq<Element>, Error>)
    ensures r.Success? ==> |buf| >= 5 && 5 <= ReadInt(buf, 0) as int <= |buf|
  {
    if |buf| < 4 then Failure(MalformedBson)
    else
      var n := ReadInt(buf, 0) as int;
      if n < 5 || |buf| < n then Failure(MalformedBson)
      else
        var es := DecodeElements(buf[..n], 4);
        if es.Failure? then Failure(es.error)
        else if es.value.1 == n then Success(es.value.0)
        else Failure(MalformedBson)
  }

  /** A value whose own length field does not overflow an int. */
  predicate Fits(v: Value) {
    match v
    case Str(t) => |t| + 1 <= MaxInt32
    case Doc(d) => |d.elements| + 5 <= MaxInt32
    case _ => true
  }

  predicate Encodable(es: seq<Element>) {
    es == [] || (IsCString(es[0].key) && Fits(es[0].value) && Encodable(es[1..]))
  }

  /** The bytes of t at `at`, then a zero byte: how a cstring, a string and a body end. */
  predicate TerminatedAt(s: Text, at: nat, t: Text) {
    at + |t| < |s| && HoldsAt(s, at, t) && s[at + |t|] == 0
  }

  /** The value v written at `at`, described byte by byte rather than as one sequence. */
  predicate ValuePlaced(s: Text, at: nat, v: Value) {
    match v
    case Str(t) => at + 4 <= |s| && ReadInt(s, at) as int == |t| + 1 && TerminatedAt(s, at + 4, t)
    case Doc(d) =>
      at + 4 <= |s| && ReadInt(s, at) as int == |d.elements| + 5 && TerminatedAt(s, at + 4, d.elements)
    case Bool(b) => at < |s| && s[at] == if b then 1 else 0
    case Null => at <= |s|
  }

  /** The element e written at `at`: type byte, key as a cstring, value. */
  predicate ElementPlaced(s: Text, at: nat, e: Element) {
    at < |s| && s[at] == TagOf(e.value) && TerminatedAt(s, at + 1, e.key) &&
    ValuePlaced(s, at + |e.key| + 2, e.value)
  }

  /** The elements es written one after another from `at`, then the terminating zero byte. */
  predicate Laid(s: Text, at: nat, es: seq<Element>)
    decreases |es|
  {
    if es == [] then at < |s| && s[at] == 0
    else ElementPlaced(s, at, es[0]) && Laid(s, at + ElementSize(es[0]), es[1..])
  }

  lemma {:induction false} Terminated(t: Text, s: Text, at: nat)
    requires HoldsAt(s, at, t + [0])
    ensures TerminatedAt(s, at, t)
  {
    HoldsAtSplit(s, at, t, [0]);
    HoldsAtIndex(s, at + |t|, [0], 0);
  }

  /** What EncodeValue writes is the value, placed. */
  lemma {:induction false} PlacedValue(v: Value, s: Text, at: nat)
    requires Fits(v) && HoldsAt(s, at, EncodeValue(v))
    ensures ValuePlaced(s, at, v)
  {
    match v
    case Str(t) =>
      var prefix := IntBytes(Wrap32(|t| + 1));
      HoldsAtSplit(s, at, prefix, t + [0]);
      ReadIntBytes(Wrap32(|t| + 1), s, at);
      Terminated(t, s, at + 4);
    case Doc(d) =>
      FrameParts(d.elements, s, at);
      Terminated(d.elements, s, at + 4);
    case Bool(b) =>
      HoldsAtIndex(s, at, EncodeValue(v), 0);
    case Null =>
  }

  /** What EncodeElement writes is the element, placed. */
  lemma {:induction false} PlacedElement(e: Element, s: Text, at: nat)
    requires Fits(e.value) && HoldsAt(s, at, EncodeElement(e))
    ensures ElementPlaced(s, at, e)
  {
    var tag := [TagOf(e.value)];
    HoldsAtSplit(s, at, tag + e.key + [0], EncodeValue(e.value));
    HoldsAtSplit(s, at, tag + e.key, [0]);
    HoldsAtSplit(s, at, tag, e.key);
    HoldsAtIndex(s, at, tag, 0);
    HoldsAtIndex(s, at + 1 + |e.key|, [0], 0);
    PlacedValue(e.value, s, at + |e.key| + 2);
  }

  /** What EncodeElements writes, with the terminator after it, is the elements, laid. */
  lemma {:induction false} LaidElements(es: seq<Element>, s: Text, at: nat)
    requires Encodable(es) && HoldsAt(s, at, EncodeElements(es) + [0])
    ensures Laid(s, at, es)
    decreases |es|
  {
    if es == [] {
      HoldsAtIndex(s, at, EncodeElements(es) + [0], 0);
    } else {
      var head, rest := EncodeElement(es[0]), EncodeElements(es[1..]);
      assert EncodeElements(es) + [0] == head + rest + [0];
      HoldsAtSplitFirst(s, at, head, rest, [0]);
      PlacedElement(es[0], s, at);
      LaidElements(es[1..], s, at + |head|);
      LaidCons(s, at, es);
    }
  }

  lemma {:induction false} LaidCons(s: Text, at: nat, es: seq<Element>)
    requires es != [] && ElementPlaced(s, at, es[0]) && Laid(s, at + ElementSize(es[0]), es[1..])
    ensures Laid(s, at, es)
  {
  }

  /** Decoding a placed value gives it back, and stops right after it. */
  lemma {:induction false} DecodePlacedValue(v: Value, s: Text, at: nat)
    requires ValuePlaced(s, at, v)
    ensures DecodeValue(TagOf(v), s, at) == Success((v, at + ValueSize(v)))
  {
    match v
    case Str(t) => HoldsAtSpan(s, at + 4, t);
    case Doc(d) => HoldsAtSpan(s, at + 4, d.elements);
    case Bool(b) =>
    case Null =>
  }

  /** The scan for a key's end stops at the zero byte after the key, when the key has none. */
  lemma {:induction false} ZeroIndexAfterCString(s: Text, from: nat, key: Text)
    requires IsCString(key) && TerminatedAt(s, from, key)
    ensures ZeroIndex(s, from) == Some(from + |key|)
    decreases |key|
  {
    if key != [] {
      HoldsAtTail(s, from, key);
      ZeroIndexAfterCString(s, from + 1, key[1..]);
    }
  }

  lemma {:induction false} DecodeElementStep(s: Text, at: nat, k: nat, v: Value, end: nat)
    requires at < k < |s| && s[at] != 0 && ZeroIndex(s, at + 1) == Some(k)
    requires DecodeValue(s[at], s, k + 1) == Success((v, end))
    ensures DecodeElement(s, at) == Success((Element(Span(s, at + 1, k), v), end))
  {
  }

  /** Decoding a placed element gives it back, and stops right after it. */
  lemma {:induction false} DecodePlacedElement(e: Element, s: Text, at: nat)
    requires IsCString(e.key) && ElementPlaced(s, at, e)
    ensures s[at] != 0 && DecodeElement(s, at) == Success((e, at + ElementSize(e)))
  {
    var k := at + 1 + |e.key|;
    ZeroIndexAfterCString(s, at + 1, e.key);
    HoldsAtSpan(s, at + 1, e.key);
    DecodePlacedValue(e.value, s, k + 1);
    DecodeElementStep(s, at, k, e.value, k + 1 + ValueSize(e.value));
  }

  lemma {:induction false} DecodeElementsStep(s: Text, at: nat, es: seq<Element>, n: nat, m: nat)
    requires es != [] && at < |s| && s[at] != 0 && DecodeElement(s, at) == Success((es[0], n))
    requires DecodeElements(s, n) == Success((es[1..], m))
    ensures DecodeElements(s, at) == Success((es, m))
  {
    assert [es[0]] + es[1..] == es;
  }

  /** Decoding laid elements gives them back, and stops right after the terminator. */
  lemma {:induction false} DecodeLaidElements(es: seq<Element>, s: Text, at: nat)
    requires Encodable(es) && Laid(s, at, es)
    ensures DecodeElements(s, at) == Success((es, at + ElementsSize(es) + 1))
    decreases |es|
  {
    if es != [] {
      var n := at + ElementSize(es[0]);
      DecodePlacedElement(es[0], s, at);
      DecodeLaidElements(es[1..], s, n);
      DecodeElementsStep(s, at, es, n, n + ElementsSize(es[1..]) + 1);
    }
  }

  /** Decoding what EncodeElements wrote, followed by the terminator, gives back the elements. */
  lemma {:induction false} DecodeEncodeElements(es: seq<Element>, s: Text, at: nat)
    requires Encodable(es) && HoldsAt(s, at, EncodeElements(es) + [0])
    ensures DecodeElements(s, at) == Success((es, at + |EncodeElements(es)| + 1))
  {
    LaidElements(es, s, at);
    DecodeLaidElements(es, s, at);
  }

  /** A document whose elements decode to es, found at the front of buf. */
  lemma {:induction false} DecodeDocumentAt(buf: Text, doc: Text, es: seq<Element>)
    requires 5 <= |doc| <= |buf| && HoldsAt(buf, 0, doc) && ReadInt(doc, 0) as int == |doc|
    requires DecodeElements(doc, 4) == Success((es, |doc|))
    ensures DecodeDocument(buf) == Success(es)
  {
    assert ReadInt(buf, 0) == ReadInt(doc, 0) by {
      HoldsAtIndex(buf, 0, doc, 0);
      HoldsAtIndex(buf, 0, doc, 1);
      HoldsAtIndex(buf, 0, doc, 2);
      HoldsAtIndex(buf, 0, doc, 3);
    }
    assert buf[..|doc|] == doc;
  }

  /** An encoded document held at the front of s: its length prefix, then its elements and the terminator. */
  lemma {:induction false} FramedLength(es: seq<Element>, s: Text)
    requires |EncodeDocument(es)| <= MaxInt32 && HoldsAt(s, 0, EncodeDocument(es))
    ensures ReadInt(s, 0) as int == |EncodeDocument(es)|
    ensures |EncodeDocument(es)| == 4 + |EncodeElements(es)| + 1
    ensures HoldsAt(s, 4, EncodeElements(es) + [0])
  {
    FrameParts(EncodeElements(es), s, 0);
  }

  /** An encoded document held at the front of s: its length prefix and its elements. */
  lemma {:induction false} FramedElements(es: seq<Element>, s: Text)
    requires Encodable(es) && |EncodeDocument(es)| <= MaxInt32 && HoldsAt(s, 0, EncodeDocument(es))
    ensures ReadInt(s, 0) as int == |EncodeDocument(es)|
    ensures DecodeElements(s, 4) == Success((es, |EncodeDocument(es)|))
  {
    FramedLength(es, s);
    DecodeEncodeElements(es, s, 4);
  }

  /** Round trip of the codec: any trailing bytes after the frame are ignored. */
  lemma {:induction false} DecodeEncodeDocument(es: seq<Element>, tail: Text)
    requires Encodable(es) && |EncodeDocument(es)| <= MaxInt32
    ensures DecodeDocument(EncodeDocument(es) + tail) == Success(es)
  {
    var doc := EncodeDocument(es);
    HoldsAtPrefix(doc, []);
    assert doc + [] == doc;
    FramedElements(es, doc);
    HoldsAtPrefix(doc, tail);
    DecodeDocumentAt(doc + tail, doc, es);
  }

  /** A value's encoding lies within the encoding of the element list that holds it. */
  lemma {:induction false} ValueWithinElements(es: seq<Element>, i: nat)
    requires i < |es|
    ensures ValueSize(es[i].value) + 2 <= ElementsSize(es)
  {
    if i > 0 {
      ValueWithinElements(es[1..], i - 1);
    }
  }

  /** A document small enough for its own frame has no value too large for its frame. */
  lemma {:induction false} FitsWhenFramed(es: seq<Element>)
    requires |EncodeDocument(es)| <= MaxInt32
    ensures forall i :: 0 <= i < |es| ==> Fits(es[i].value)
  {
    forall i | 0 <= i < |es| ensures Fits(es[i].value) {
      ValueWithinElements(es, i);
    }
  }

  /**
   * BasicBSONObject.get: the value most recently put under key (a repeated key replaces
   * the earlier value), or None when the key is absent.
   */
  function Get(es: seq<Element>, key: Text): (r: Option<Value>)
    ensures r.Some? ==> Element(key, r.value) in es
  {
    if es == [] then None
    else if es[|es| - 1].key == key then Some(es[|es| - 1].value)
    else Get(es[..|es| - 1], key)
  }

  /** Get finds nothing exactly when no element has the key, and otherwise the last such element. */
  lemma {:induction false} GetLast(es: seq<Element>, key: Text)
    ensures Get(es, key).None? <==> forall i :: 0 <= i < |es| ==> es[i].key != key
    ensures Get(es, key).Some? ==>
      exists i :: 0 <= i < |es| && es[i] == Element(key, Get(es, key).value)
                  && forall j :: i < j < |es| ==> es[j].key != key
    decreases |es|
  {
    if es != [] && es[|es| - 1].key != key {
      var init := es[..|es| - 1];
      GetLast(init, key);
      assert forall i :: 0 <= i < |init| ==> init[i] == es[i];
      if Get(init, key).Some? {
        var i :| 0 <= i < |init| && init[i] == Element(key, Get(init, key).value)
                 && forall j :: i < j < |init| ==> init[j].key != key;
        assert es[i] == init[i];
      }
    }
  }
}
