/**
 * The driver calls getCursor makes, kept as a log on the cursor rather than carried out:
 * MongoConfigUtil.getCollection, DBCollection.find, and DBCursor's sort, setOptions and
 * addSpecial.
 */
module Driver {
  import opened Wrappers
  import opened Errors
  import opened Bytes
  import opened Bson
  import opened MongoUri

  /** Bytes.QUERYOPTION_NOTIMEOUT of the driver. */
  const QueryOptionNoTimeout: int32 := 16

  /** The names getCursor passes to addSpecial, as their ASCII bytes. */
  const MinSpecial: Text := [0x24, 0x6D, 0x69, 0x6E]  // "$min"
  const MaxSpecial: Text := [0x24, 0x6D, 0x61, 0x78]  // "$max"

  /** The collection a connection string names. */
  datatype Collection = Collection(uri: MongoURI)

  /** A call made on a cursor, with its arguments. */
  datatype Call =
    | Find(query: Option<Document>, fields: Option<Document>)
    | Sort(orderBy: Option<Document>)
    | SetOptions(options: int32)
    | AddSpecial(name: Text, value: Document)

  /** MongoConfigUtil.getCollection(uri): a null connection string is dereferenced. */
  function GetCollection(uri: Option<MongoURI>): (r: Result<Collection, Error>)
    ensures r.Success? <==> uri.Some?
    ensures r.Success? ==> r.value.uri == uri.value
    ensures r.Failure? ==> r.error == NullPointer
  {
    match uri
    case None => Failure(NullPointer)
    case Some(u) => Success(Collection(u))
  }

  /** A DBCursor: the collection it reads and the calls made on it so far, find first. */
  class DBCursor {
    const collection: Collection
    var calls: seq<Call>

    /** DBCollection.find(query, fields): a new cursor on the collection. */
    constructor Find(c: Collection, query: Option<Document>, fields: Option<Document>)
      ensures collection == c && calls == [Call.Find(query, fields)]
    {
      collection := c;
      calls := [Call.Find(query, fields)];
    }

    /** sort(orderBy): records the order and returns the same cursor. */
    method Sort(orderBy: Option<Document>) returns (r: DBCursor)
      modifies this
      ensures r == this && calls == old(calls) + [Call.Sort(orderBy)]
    {
      calls := calls + [Call.Sort(orderBy)];
      r := this;
    }

    /** setOptions(options). */
    method SetOptions(options: int32)
      modifies this
      ensures calls == old(calls) + [Call.SetOptions(options)]
    {
      calls := calls + [Call.SetOptions(options)];
    }

    /** addSpecial(name, value): a query modifier such as $min or $max. */
    method AddSpecial(name: Text, value: Document)
      modifies this
      ensures calls == old(calls) + [Call.AddSpecial(name, value)]
    {
      calls := calls + [Call.AddSpecial(name, value)];
    }
  }
}
