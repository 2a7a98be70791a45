# MongoInputSplit, modelled in Dafny

mongo-hadoop's `MongoInputSplit` is one partition of a MongoDB collection scan. Hadoop
hands it to a map task. It carries:

- the connection string (`inputURI`);
- the key field (`keyField`, `"_id"` by default);
- five optional query documents (`fields`, `query`, `sort`, `min`, `max`);
- a no-timeout flag.

The split serialises itself (`write`) as one BSON document with eight keys in a fixed order.
It reads itself back (`readFields`) by reading a four-byte length prefix, allocating a
buffer, reading the rest of the frame into it, decoding it, and setting the fields one key
at a time. `getCursor` opens its cursor on first use and keeps it. `hashCode` and `equals`
look at the connection string, the five documents and the flag, but never at `keyField`.

The project has these modules:

- `Bytes`: Java `int` wrap-around and `Bits.readInt`.
- `Bson`: the BSON subset the split writes (string, embedded document, boolean, null at top
  level; an embedded document is carried as the bytes of its element list), an encoder, a
  decoder, and the round trip between them.
- `MongoUri`: the connection string and its host list.
- `Descriptor`: the value a split carries (`Fields`).
- `SplitCodec`: write's document, readFields' framing, and its setter sequence.
- `SplitIdentity`: equals and hashCode over the carried values.
- `DataIo`: `DataInput.readFully` over a byte array, and `DataOutput.write`.
- `Driver`: the driver calls `getCursor` makes, recorded as a log on the cursor.
- `InputSplit`: the `MongoInputSplit` class itself.

The class updates its fields in place. The framing of `readFields` works on arrays, as the
Java code does.

Four consequences of the code are easy to miss:

- A missing or null `notimeout` key makes `readFields` fail with a NullPointerException,
  which is what unboxing a null `Boolean` does. It does not default to `false`.
- `equals` ignores `keyField`.
- A missing or null `inputURI` key fails with a NullPointerException, raised by
  `new MongoURI(null)`.
- A failure part way through `readFields` leaves the setters that already ran in effect.

## Model

| member | source | states |
|---|---|---|
| `InputSplit.MongoInputSplit.constructor` | core/src/main/java/com/mongodb/hadoop/input/MongoInputSplit.java:15-28 | a new split has keyField "_id", notimeout false, every other field null and no cursor |
| `InputSplit.MongoInputSplit.SetInputURI` | core/src/main/java/com/mongodb/hadoop/input/MongoInputSplit.java:30-32 | only inputURI changes, to the argument; the cursor is kept |
| `InputSplit.MongoInputSplit.SetKeyField` | core/src/main/java/com/mongodb/hadoop/input/MongoInputSplit.java:55-57 | only keyField changes, to the argument (null allowed) |
| `InputSplit.MongoInputSplit.SetFields` | core/src/main/java/com/mongodb/hadoop/input/MongoInputSplit.java:63-65 | only fields changes |
| `InputSplit.MongoInputSplit.SetQuery` | core/src/main/java/com/mongodb/hadoop/input/MongoInputSplit.java:71-73 | only query changes |
| `InputSplit.MongoInputSplit.SetSort` | core/src/main/java/com/mongodb/hadoop/input/MongoInputSplit.java:79-81 | only sort changes |
| `InputSplit.MongoInputSplit.SetMin` | core/src/main/java/com/mongodb/hadoop/input/MongoInputSplit.java:87-89 | only min changes |
| `InputSplit.MongoInputSplit.SetMax` | core/src/main/java/com/mongodb/hadoop/input/MongoInputSplit.java:95-97 | only max changes |
| `InputSplit.MongoInputSplit.SetNoTimeout` | core/src/main/java/com/mongodb/hadoop/input/MongoInputSplit.java:103-105 | only notimeout changes |
| `InputSplit.MongoInputSplit.GetLocations` | core/src/main/java/com/mongodb/hadoop/input/MongoInputSplit.java:39-44 | null exactly when there is no connection string; otherwise the host part split at commas as String.split does: no host holds a comma, the hosts joined by commas are the host part less a run of trailing commas, a host part without commas is the one host, and trailing empty hosts are dropped |
| `MongoUri.Hosts` | core/src/main/java/com/mongodb/hadoop/input/MongoInputSplit.java:43 | the host part split at commas as String.split does: no host holds a comma, the hosts joined by commas are the host part less trailing commas (all commas when there are none), a host part without commas is the one host, and otherwise the last host is not empty |
| `MongoUri.JavaSplit` | core/src/main/java/com/mongodb/hadoop/input/MongoInputSplit.java:43 | String.split at a one-byte separator: text without it is the one part; otherwise the parts between separators with the trailing empty ones dropped, which joined back give the text less trailing separators |
| `MongoUri.SplitOfTrimmed` | core/src/main/java/com/mongodb/hadoop/input/MongoInputSplit.java:43 | dropping the trailing empty parts of a split loses only trailing separators from the text |
| `MongoUri.TrimTrailingEmpty` | core/src/main/java/com/mongodb/hadoop/input/MongoInputSplit.java:43 | the parts are the result followed only by empty parts, and the result does not end with an empty part |
| `MongoUri.SplitDropsTrailing` | core/src/main/java/com/mongodb/hadoop/input/MongoInputSplit.java:43 | ",".split(",") has no parts, and "a,".split(",") is the one part "a" |
| `MongoUri.HostsDropTrailing` | core/src/main/java/com/mongodb/hadoop/input/MongoInputSplit.java:43 | "mongodb://a," has the one host "a", and "mongodb://," has no hosts |
| `MongoUri.JoinSplit` | core/src/main/java/com/mongodb/hadoop/input/MongoInputSplit.java:43 | splitting at commas and joining again gives back the text |
| `InputSplit.MongoInputSplit.GetLength` | core/src/main/java/com/mongodb/hadoop/input/MongoInputSplit.java:47-49 | the length is Long.MAX_VALUE, 2^63 - 1 |
| `SplitCodec.SpecElements` | core/src/main/java/com/mongodb/hadoop/input/MongoInputSplit.java:109-117 | eight elements under the eight keys in write's order; the URI as its text, the flag as a boolean, and an absent field as an explicit null |
| `SplitCodec.KeysDistinct` | core/src/main/java/com/mongodb/hadoop/input/MongoInputSplit.java:109-117 | the eight keys are pairwise different and contain no zero byte |
| `SplitCodec.Encode` | core/src/main/java/com/mongodb/hadoop/input/MongoInputSplit.java:108-118 | fails with a NullPointerException exactly when there is no connection string; a produced document fits an int32 length |
| `InputSplit.MongoInputSplit.Write` | core/src/main/java/com/mongodb/hadoop/input/MongoInputSplit.java:107-120 | on success exactly the encoded document is appended to the output; on failure nothing is written |
| `DataIo.DataOutput.Write` | core/src/main/java/com/mongodb/hadoop/input/MongoInputSplit.java:119 | the buffer is appended to what was written before |
| `Bytes.ReadInt` | core/src/main/java/com/mongodb/hadoop/input/MongoInputSplit.java:128 | Bits.readInt is the little-endian unsigned value of the four bytes, less 2^32 when that exceeds the int range |
| `Bytes.ReadIntBytes` | core/src/main/java/com/mongodb/hadoop/input/MongoInputSplit.java:128 | Bits.readInt of the four bytes written for an int gives that int back |
| `Bytes.IntBytesRead` | core/src/main/java/com/mongodb/hadoop/input/MongoInputSplit.java:128 | any four bytes are the bytes written for the int Bits.readInt reads from them |
| `Bson.EncodeDocument` | core/src/main/java/com/mongodb/hadoop/input/MongoInputSplit.java:118 | the encoded document is the elements' size plus five bytes (length prefix and terminator) long and ends in a zero byte |
| `Bson.DecodeEncodeDocument` | core/src/main/java/com/mongodb/hadoop/input/MongoInputSplit.java:118-133 | decoding an encoded document gives back its elements, whatever bytes follow it |
| `SplitCodec.WrittenDocument` | core/src/main/java/com/mongodb/hadoop/input/MongoInputSplit.java:108-133 | what write sends decodes to exactly the eight keys in order with their values |
| `SplitCodec.WrittenLength` | core/src/main/java/com/mongodb/hadoop/input/MongoInputSplit.java:118-128 | the length prefix of what write sends equals the number of bytes it sends, at least 5 |
| `SplitCodec.ReadFrame` | core/src/main/java/com/mongodb/hadoop/input/MongoInputSplit.java:126-131 | a frame is read exactly when 4 <= prefix <= 2^31 - 5 and the input holds prefix bytes; then the buffer is those bytes plus four zero bytes; end of input consumes everything |
| `SplitCodec.FrameWritten` | core/src/main/java/com/mongodb/hadoop/input/MongoInputSplit.java:126-131 | the frame of a document whose prefix is its length is read back whole, consuming exactly its bytes |
| `SplitCodec.FrameContents` | core/src/main/java/com/mongodb/hadoop/input/MongoInputSplit.java:129-131 | a buffer holding the first prefix bytes of the input followed by four zeros is the frame read |
| `DataIo.DataInput.ReadFully` | core/src/main/java/com/mongodb/hadoop/input/MongoInputSplit.java:127-131 | a bad range fails with nothing changed; otherwise min(len, available) bytes land at off.. in order and are consumed, other bytes are unchanged, and EOF is raised exactly when fewer than len were available |
| `InputSplit.ReadLength` | core/src/main/java/com/mongodb/hadoop/input/MongoInputSplit.java:126-127 | the four length bytes are read and consumed, or EOF when fewer than four remain |
| `InputSplit.NewFrameBuffer` | core/src/main/java/com/mongodb/hadoop/input/MongoInputSplit.java:129-130 | a fresh buffer of the given size whose first four bytes are the length bytes and the rest zero |
| `InputSplit.ReadBody` | core/src/main/java/com/mongodb/hadoop/input/MongoInputSplit.java:128-131 | the array steps give exactly ReadFrame's outcome on the length bytes plus the input, and consume what it says |
| `InputSplit.FilledFrame` | core/src/main/java/com/mongodb/hadoop/input/MongoInputSplit.java:129-131 | the buffer readFully filled at offset 4, over the length bytes and zeros, is the frame ReadFrame reads |
| `InputSplit.ReadFrameFrom` | core/src/main/java/com/mongodb/hadoop/input/MongoInputSplit.java:126-131 | the framing steps give exactly ReadFrame's outcome, and the input afterwards is what follows the consumed bytes |
| `Bson.DecodeDocument` | core/src/main/java/com/mongodb/hadoop/input/MongoInputSplit.java:132-133 | a decoded document has a length prefix of at least 5 that lies within the buffer |
| `Bson.GetLast` | core/src/main/java/com/mongodb/hadoop/input/MongoInputSplit.java:134-152 | spec.get finds nothing exactly when no element has the key, and otherwise the value of the last element with that key |
| `Bson.Get` | core/src/main/java/com/mongodb/hadoop/input/MongoInputSplit.java:134-152 | a value spec.get finds is the value of an element with that key |
| `SplitCodec.GetAt` | core/src/main/java/com/mongodb/hadoop/input/MongoInputSplit.java:134-152 | an element whose key no later element repeats is what spec.get returns |
| `MongoUri.Parse` | core/src/main/java/com/mongodb/hadoop/input/MongoInputSplit.java:134 | new MongoURI accepts exactly the text starting with "mongodb://" and keeps that text; otherwise IllegalArgument |
| `MongoUri.ToString` | core/src/main/java/com/mongodb/hadoop/input/MongoInputSplit.java:110 | toString gives a connection string that new MongoURI parses back to the same URI |
| `SplitCodec.ReadUri` | core/src/main/java/com/mongodb/hadoop/input/MongoInputSplit.java:134 | succeeds exactly on a string that is a connection string, with that text; absent or null gives NullPointer |
| `SplitCodec.ReadText` | core/src/main/java/com/mongodb/hadoop/input/MongoInputSplit.java:135 | succeeds exactly on absent, null or a string; null and absent read as null |
| `SplitCodec.ReadDoc` | core/src/main/java/com/mongodb/hadoop/input/MongoInputSplit.java:137-150 | succeeds exactly on absent, null or a document; a document is copied with the same contents |
| `SplitCodec.ReadBool` | core/src/main/java/com/mongodb/hadoop/input/MongoInputSplit.java:152 | succeeds exactly on a boolean, giving it; absent or null gives NullPointer (unboxing) |
| `SplitCodec.Rebuild` | core/src/main/java/com/mongodb/hadoop/input/MongoInputSplit.java:134-152 | the setters in readFields' order: success only with a connection string set and the notimeout key read as a boolean equal to the new flag; on failure the flag is kept; the only exceptions are NullPointer, ClassCast and IllegalArgument |
| `SplitCodec.RebuildSpec` | core/src/main/java/com/mongodb/hadoop/input/MongoInputSplit.java:134-152 | the setters applied to write's document restore every field of the written split, whatever the split held before, with no exception |
| `SplitCodec.RebuildWithoutUri` | core/src/main/java/com/mongodb/hadoop/input/MongoInputSplit.java:134 | a document whose inputURI is absent or null changes nothing and fails with NullPointer |
| `SplitCodec.RebuildOverwrites` | core/src/main/java/com/mongodb/hadoop/input/MongoInputSplit.java:134-152 | a successful readFields leaves nothing of the earlier state |
| `InputSplit.MongoInputSplit.SetFromDocument` | core/src/main/java/com/mongodb/hadoop/input/MongoInputSplit.java:133-152 | the fields and exception after the setter calls are those of Rebuild on the decoded elements; the cursor is kept |
| `InputSplit.MongoInputSplit.ReadFields` | core/src/main/java/com/mongodb/hadoop/input/MongoInputSplit.java:123-153 | the new fields, the exception and the bytes consumed are those of ReadFieldsOutcome on the old state and input |
| `SplitCodec.ReadFieldsOutcome` | core/src/main/java/com/mongodb/hadoop/input/MongoInputSplit.java:123-153 | readFields never consumes more than the input holds |
| `SplitCodec.ReadWrite` | core/src/main/java/com/mongodb/hadoop/input/MongoInputSplit.java:107-153 | readFields of what write sent restores the written fields without an exception, consumes exactly the written bytes and leaves what follows |
| `InputSplit.ReadBackEqual` | core/src/main/java/com/mongodb/hadoop/input/MongoInputSplit.java:107-202 | a split read back from what another wrote is equal to it and has its hashCode |
| `InputSplit.CursorCalls` | core/src/main/java/com/mongodb/hadoop/input/MongoInputSplit.java:158-161 | getCursor makes find and sort, plus one call each for notimeout, $min and $max when they apply |
| `InputSplit.CursorCallsOrder` | core/src/main/java/com/mongodb/hadoop/input/MongoInputSplit.java:155-164 | find then sort first; setOptions(QUERYOPTION_NOTIMEOUT) exactly when notimeout; $min and $max exactly when present, $max last |
| `Driver.GetCollection` | core/src/main/java/com/mongodb/hadoop/input/MongoInputSplit.java:158 | a collection for the connection string, or NullPointer exactly when there is none |
| `Driver.DBCursor.Find` | core/src/main/java/com/mongodb/hadoop/input/MongoInputSplit.java:158 | a new cursor on the collection whose only call is find(query, fields) |
| `Driver.DBCursor.Sort` | core/src/main/java/com/mongodb/hadoop/input/MongoInputSplit.java:158 | records sort and returns the same cursor |
| `Driver.DBCursor.SetOptions` | core/src/main/java/com/mongodb/hadoop/input/MongoInputSplit.java:159 | records setOptions |
| `Driver.DBCursor.AddSpecial` | core/src/main/java/com/mongodb/hadoop/input/MongoInputSplit.java:160-161 | records addSpecial |
| `InputSplit.OpenCursor` | core/src/main/java/com/mongodb/hadoop/input/MongoInputSplit.java:158-161 | a fresh cursor on the collection with exactly the calls of CursorCalls |
| `InputSplit.MongoInputSplit.GetCursor` | core/src/main/java/com/mongodb/hadoop/input/MongoInputSplit.java:155-164 | a kept cursor is returned unchanged; otherwise a new cursor with CursorCalls is opened and kept, or NullPointer without a connection string; the carried fields never change |
| `SplitIdentity.HashFoldPolynomial` | core/src/main/java/com/mongodb/hadoop/input/MongoInputSplit.java:177-186 | the int arithmetic of the 31-fold is congruent modulo 2^32 to the unbounded polynomial |
| `SplitIdentity.HashCode` | core/src/main/java/com/mongodb/hadoop/input/MongoInputSplit.java:177-186 | hashCode is congruent modulo 2^32 to 31^6 uri + 31^5 query + 31^4 fields + 31^3 max + 31^2 min + 31 sort + notimeout, a null contributing 0 |
| `InputSplit.MongoInputSplit.HashCode` | core/src/main/java/com/mongodb/hadoop/input/MongoInputSplit.java:177-186 | the split's hashCode is that polynomial of its own fields modulo 2^32 |
| `SplitIdentity.EqualSplitsHashEqual` | core/src/main/java/com/mongodb/hadoop/input/MongoInputSplit.java:177-202 | splits that equals calls equal have equal hashCodes, given DBObject keeps that contract |
| `SplitIdentity.SameSplit` | core/src/main/java/com/mongodb/hadoop/input/MongoInputSplit.java:194-200 | splits equals calls equal have the same flag and connection string, and each of the five documents is null on both sides or on neither |
| `SplitIdentity.SameSplitIffOnlyKeyFieldDiffers` | core/src/main/java/com/mongodb/hadoop/input/MongoInputSplit.java:194-200 | with documents compared by content, two splits are equal exactly when they differ at most in keyField |
| `SplitIdentity.SameSplitIgnoresKeyField` | core/src/main/java/com/mongodb/hadoop/input/MongoInputSplit.java:194-200 | changing keyField on either side never changes the answer |
| `SplitIdentity.SameSplitReflexive` | core/src/main/java/com/mongodb/hadoop/input/MongoInputSplit.java:194-201 | the field comparison is reflexive when DBObject.equals is |
| `SplitIdentity.SameSplitSymmetric` | core/src/main/java/com/mongodb/hadoop/input/MongoInputSplit.java:194-201 | the field comparison is symmetric when DBObject.equals is |
| `SplitIdentity.SameSplitTransitive` | core/src/main/java/com/mongodb/hadoop/input/MongoInputSplit.java:194-201 | the field comparison is transitive when DBObject.equals is |
| `InputSplit.MongoInputSplit.Equals` | core/src/main/java/com/mongodb/hadoop/input/MongoInputSplit.java:189-202 | true exactly for the same object, or for a non-null split whose seven compared fields are equal |

## Left out

- BSON is modelled only for the four value types write puts at top level. An embedded
  DBObject is opaque: the bytes of its element list, delimited by its own length. The
  driver's codec for the inside of a document is not part of this model.
- Java strings are modelled as their UTF-8 bytes. Conversion between `String` and UTF-8 is
  left out, and so is the decoder's limit on string sizes.
- `MongoURI` belongs to the driver. Here it is a connection string that must start with
  `mongodb://`. `toString` gives back its text, and `getHosts` is the host part split at
  commas the way `String.split(",")` does it. `MongoURI.equals` is taken as equality of that
  text.
- `MongoConfigUtil.getCollection` is not part of this model. `Driver.GetCollection` assumes
  that it fails, with a NullPointerException, only for a null connection string. Network
  and server failures of the driver are left out, and the cursor only records the calls
  made on it.
- `DBObject.equals`, `DBObject.hashCode` and `MongoURI.hashCode` are parameters. Java's
  contract between equals and hashCode is a precondition where a lemma needs it.
- `InputSplit.MongoInputSplit.Equals`: the `getClass() != o.getClass()` test is not
  modelled, because the model has no subclasses. Its argument is a `MongoInputSplit` or null.
- `SplitCodec.ReadWrite`: holds for documents of at most 2^31 - 5 bytes. For a longer
  one, readFields' `dataLen + 4` overflows a Java int, and the round trip fails with a
  NegativeArraySizeException.
- `InputSplit.MongoInputSplit.SetFields`, `SetQuery`, `SetSort`, `SetMin`, `SetMax`,
  `SplitCodec.ReadDoc` and `InputSplit.MongoInputSplit.GetCursor`: documents are values, so
  reference semantics is not modelled. The setters keep the caller's `DBObject`, and later
  changes to it show through the split. readFields stores fresh copies
  (`new BasicDBObject(temp.toMap())`) that nothing else shares. getCursor hands the split's
  own documents to the cursor. The model captures contents only, not aliasing.
- `toString` and the plain getters are left out: they only read fields.
- The static encoder and decoder instances are shared, and concurrent use of them is left
  out.
- IOExceptions that `DataOutput.write` itself may raise are left out. The output is taken
  to accept every byte.
