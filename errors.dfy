/** The Java exceptions the modelled code can raise, by kind. */
module Errors {

  datatype Error =
    | NullPointer        // NullPointerException: a null reference dereferenced or unboxed
    | ClassCast          // ClassCastException: a decoded value of the wrong type
    | IllegalArgument    // IllegalArgumentException: a connection string MongoURI rejects
    | EndOfFile          // EOFException: DataInput.readFully ran out of bytes
    | NegativeArraySize  // NegativeArraySizeException: `new byte[n]` with n < 0
    | IndexOutOfBounds   // IndexOutOfBoundsException: arraycopy / readFully bounds
    | MalformedBson      // the BSON decoder rejected the bytes
    | Unencodable        // the document does not fit the int32 length of a BSON frame
}
