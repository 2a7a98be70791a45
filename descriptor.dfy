/**
 * The values a MongoInputSplit carries: the connection string, the key field, the five
 * optional query documents and the no-timeout flag.  Java's null is `None`.
 */
module Descriptor {
  import opened Wrappers
  import opened Bytes
  import opened Bson
  import opened MongoUri

  datatype Fields = Fields(
    inputURI: Option<MongoURI>,
    keyField: Option<Text>,
    fields: Option<Document>,
    query: Option<Document>,
    sort: Option<Document>,
    min: Option<Document>,
    max: Option<Document>,
    notimeout: bool)

  /** The default key field, "_id", as its ASCII bytes. */
  const IdKey: Text := [0x5F, 0x69, 0x64]

  /** The field initialisers of a freshly constructed split. */
  function Initial(): Fields {
    Fields(None, Some(IdKey), None, None, None, None, None, false)
  }
}
