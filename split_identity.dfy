/**
 * MongoInputSplit.equals and hashCode over the values a split carries.  Both look at the
 * same seven fields (the connection string, the five documents, the no-timeout flag);
 * neither looks at keyField or at the cursor.  DBObject.equals and DBObject.hashCode are
 * the driver's: they are parameters here, and Java's contract between them (equal objects
 * have equal hash codes) is a precondition where it is needed.
 */
module SplitIdentity {
  import opened Wrappers
  import opened Bytes
  import opened Bson
  import opened MongoUri
  import opened Descriptor

  /** `a != null ? a.equals(b) : b == null`, with DBObject.equals given as eq. */
  function NullSafeEquals(a: Option<Document>, b: Option<Document>, eq: (Document, Document) -> bool): bool {
    match a
    case None => b.None?
    case Some(x) => b.Some? && eq(x, b.value)
  }

  /**
   * The field comparisons of equals, in its order: notimeout, fields, inputURI, query, sort,
   * max, min.  MongoURI.equals is taken as equality of the connection string.
   */
  function SameSplit(a: Fields, b: Fields, eq: (Document, Document) -> bool): (r: bool)
    ensures r ==> a.notimeout == b.notimeout && a.inputURI == b.inputURI
    ensures r ==> (a.fields.None? <==> b.fields.None?) && (a.query.None? <==> b.query.None?)
                  && (a.sort.None? <==> b.sort.None?) && (a.min.None? <==> b.min.None?)
                  && (a.max.None? <==> b.max.None?)
  {
    a.notimeout == b.notimeout &&
    NullSafeEquals(a.fields, b.fields, eq) &&
    a.inputURI == b.inputURI &&
    NullSafeEquals(a.query, b.query, eq) &&
    NullSafeEquals(a.sort, b.sort, eq) &&
    NullSafeEquals(a.max, b.max, eq) &&
    NullSafeEquals(a.min, b.min, eq)
  }

  /** With documents compared by content, two splits are equal exactly when they differ at most in keyField. */
  lemma {:induction false} SameSplitIffOnlyKeyFieldDiffers(a: Fields, b: Fields)
    ensures SameSplit(a, b, (x: Document, y: Document) => x == y) <==> a.(keyField := b.keyField) == b
  {
    var eq := (x: Document, y: Document) => x == y;
    forall d1: Option<Document>, d2: Option<Document> ensures NullSafeEquals(d1, d2, eq) <==> d1 == d2 {
    }
  }

  /** keyField plays no part in equality. */
  lemma {:induction false} SameSplitIgnoresKeyField(a: Fields, b: Fields, k: Option<Text>, eq: (Document, Document) -> bool)
    ensures SameSplit(a.(keyField := k), b, eq) == SameSplit(a, b, eq)
    ensures SameSplit(a, b.(keyField := k), eq) == SameSplit(a, b, eq)
  {
  }

  /** equals is reflexive, symmetric and transitive when DBObject.equals is. */
  lemma {:induction false} SameSplitReflexive(a: Fields, eq: (Document, Document) -> bool)
    requires forall x :: eq(x, x)
    ensures SameSplit(a, a, eq)
  {
  }

  lemma {:induction false} SameSplitSymmetric(a: Fields, b: Fields, eq: (Document, Document) -> bool)
    requires forall x, y :: eq(x, y) ==> eq(y, x)
    requires SameSplit(a, b, eq)
    ensures SameSplit(b, a, eq)
  {
  }

  lemma {:induction false} SameSplitTransitive(a: Fields, b: Fields, c: Fields, eq: (Document, Document) -> bool)
    requires forall x, y, z :: eq(x, y) && eq(y, z) ==> eq(x, z)
    requires SameSplit(a, b, eq) && SameSplit(b, c, eq)
    ensures SameSplit(a, c, eq)
  {
  }

  /** `o != null ? o.hashCode() : 0`. */
  function NullHash<T>(o: Option<T>, hash: T -> int32): int32 {
    match o
    case None => 0
    case Some(x) => hash(x)
  }

  /** One step of hashCode: `result = 31 * result + h` in int arithmetic. */
  function Step(acc: int32, h: int32): int32 {
    Wrap32(31 * acc as int + h as int)
  }

  /** The steps of hashCode folded over the contributions hs, starting from acc. */
  function HashFold(acc: int32, hs: seq<int32>): int32
    decreases |hs|
  {
    if hs == [] then acc else HashFold(Step(acc, hs[0]), hs[1..])
  }

  /** What each step of hashCode adds, in its order: query, fields, max, min, sort, notimeout. */
  function Contributions(f: Fields, docHash: Document -> int32): seq<int32> {
    [NullHash(f.query, docHash), NullHash(f.fields, docHash), NullHash(f.max, docHash),
     NullHash(f.min, docHash), NullHash(f.sort, docHash), if f.notimeout then 1 else 0]
  }


  /** The same fold in unbounded integers. */
  function Polynomial(acc: int, hs: seq<int32>): int
    decreases |hs|
  {
    if hs == [] then acc else Polynomial(31 * acc + hs[0] as int, hs[1..])
  }

  function Pow31(n: nat): (r: int)
    ensures r >= 1
  {
    if n == 0 then 1 else 31 * Pow31(n - 1)
  }

  /** Two starting values apart by d end up apart by 31^|hs| * d. */
  lemma {:induction false} PolynomialShift(a: int, b: int, hs: seq<int32>)
    ensures Polynomial(a, hs) - Polynomial(b, hs) == Pow31(|hs|) * (a - b)
    decreases |hs|
  {
    if hs != [] {
      var a1, b1 := 31 * a + hs[0] as int, 31 * b + hs[0] as int;
      PolynomialShift(a1, b1, hs[1..]);
      assert Pow31(|hs|) == 31 * Pow31(|hs| - 1);
      calc {
        Pow31(|hs| - 1) * (a1 - b1);
        Pow31(|hs| - 1) * (31 * (a - b));
        { assert Pow31(|hs| - 1) * (31 * (a - b)) == (31 * Pow31(|hs| - 1)) * (a - b); }
        Pow31(|hs|) * (a - b);
      }
    }
  }

  /** Multiples of 2^32 are closed under sums and under multiplication by any integer. */
  lemma {:induction false} MultipleSum(x: int, y: int)
    requires x % TwoTo32 == 0 && y % TwoTo32 == 0
    ensures (x + y) % TwoTo32 == 0
  {
    assert x == TwoTo32 * (x / TwoTo32) && y == TwoTo32 * (y / TwoTo32);
    assert x + y == TwoTo32 * (x / TwoTo32 + y / TwoTo32);
  }

  lemma {:induction false} MultipleScaled(k: int, d: int)
    requires d % TwoTo32 == 0
    ensures (k * d) % TwoTo32 == 0
  {
    var q := d / TwoTo32;
    assert d == TwoTo32 * q;
    assert k * d == TwoTo32 * (k * q);
  }

  /** Starting values congruent modulo 2^32 give congruent polynomials. */
  lemma {:induction false} PolynomialCongruent(a: int, b: int, hs: seq<int32>)
    requires (a - b) % TwoTo32 == 0
    ensures (Polynomial(a, hs) - Polynomial(b, hs)) % TwoTo32 == 0
  {
    PolynomialShift(a, b, hs);
    MultipleScaled(Pow31(|hs|), a - b);
  }

  /** The wrapping fold agrees with the unbounded one modulo 2^32: Java's int hash of the polynomial. */
  lemma {:induction false} HashFoldPolynomial(acc: int32, hs: seq<int32>)
    ensures (HashFold(acc, hs) as int - Polynomial(acc as int, hs)) % TwoTo32 == 0
    decreases |hs|
  {
    if hs != [] {
      var rest := hs[1..];
      var exact := 31 * acc as int + hs[0] as int;
      var w := Step(acc, hs[0]);
      assert HashFold(acc, hs) == HashFold(w, rest);
      assert Polynomial(acc as int, hs) == Polynomial(exact, rest);
      var folded, wrapped, unwrapped := HashFold(w, rest) as int, Polynomial(w as int, rest), Polynomial(exact, rest);
      HashFoldPolynomial(w, rest);
      PolynomialCongruent(w as int, exact, rest);
      MultipleSum(folded - wrapped, wrapped - unwrapped);
    }
  }

  /** The fold over six contributions, written out. */
  lemma {:induction false} PolynomialSix(u: int, hs: seq<int32>)
    requires |hs| == 6
    ensures Polynomial(u, hs) ==
      887503681 * u + 28629151 * hs[0] as int + 923521 * hs[1] as int + 29791 * hs[2] as int
      + 961 * hs[3] as int + 31 * hs[4] as int + hs[5] as int
  {
    var p1 := 31 * u + hs[0] as int;
    var p2 := 31 * p1 + hs[1] as int;
    var p3 := 31 * p2 + hs[2] as int;
    var p4 := 31 * p3 + hs[3] as int;
    var p5 := 31 * p4 + hs[4] as int;
    var p6 := 31 * p5 + hs[5] as int;
    assert Polynomial(u, hs) == Polynomial(p1, hs[1..]);
    assert Polynomial(p1, hs[1..]) == Polynomial(p2, hs[2..]);
    assert Polynomial(p2, hs[2..]) == Polynomial(p3, hs[3..]);
    assert Polynomial(p3, hs[3..]) == Polynomial(p4, hs[4..]);
    assert Polynomial(p4, hs[4..]) == Polynomial(p5, hs[5..]);
    assert Polynomial(p5, hs[5..]) == Polynomial(p6, hs[6..]) == p6;
  }

  /**
   * hashCode: starts from the connection string's hash and folds in the other six fields.
   * The result is, modulo 2^32, the polynomial 31^6 uri + 31^5 query + 31^4 fields + 31^3 max
   * + 31^2 min + 31 sort + notimeout of the contributions, a null contributing 0.
   */
  function HashCode(f: Fields, uriHash: MongoURI -> int32, docHash: Document -> int32): (r: int32)
    ensures var hs := Contributions(f, docHash);
      (r as int
        - (887503681 * NullHash(f.inputURI, uriHash) as int + 28629151 * hs[0] as int
           + 923521 * hs[1] as int + 29791 * hs[2] as int + 961 * hs[3] as int
           + 31 * hs[4] as int + hs[5] as int)) % TwoTo32 == 0
  {
    var hs := Contributions(f, docHash);
    var start := NullHash(f.inputURI, uriHash);
    HashFoldPolynomial(start, hs);
    PolynomialSix(start as int, hs);
    HashFold(start, hs)
  }

  /** Splits that equals calls equal have the same hashCode, given that DBObject keeps Java's contract. */
  lemma {:induction false} EqualSplitsHashEqual(a: Fields, b: Fields, uriHash: MongoURI -> int32,
                                                 docHash: Document -> int32, eq: (Document, Document) -> bool)
    requires forall x, y :: eq(x, y) ==> docHash(x) == docHash(y)
    requires SameSplit(a, b, eq)
    ensures HashCode(a, uriHash, docHash) == HashCode(b, uriHash, docHash)
  {
    assert Contributions(a, docHash) == Contributions(b, docHash);
  }
}
