/** Bytes, Java ints, and the little-endian int32 that frames every BSON document. */
module Bytes {

  newtype uint8 = x: int | 0 <= x < 0x100

  /** Java's `int`. */
  newtype int32 = x: int | -0x8000_0000 <= x < 0x8000_0000

  /** A Java string, as the UTF-8 bytes BSON stores. */
  type Text = seq<uint8>

  const MaxInt32: int := 0x7FFF_FFFF
  const TwoTo32: int := 0x1_0000_0000

  /** Java int arithmetic: x reduced to the two's-complement int congruent to it. */
  function Wrap32(x: int): (r: int32)
    ensures (x - r as int) % TwoTo32 == 0
    ensures -0x8000_0000 <= x <= MaxInt32 ==> r as int == x
  {
    (((x + 0x8000_0000) % TwoTo32) - 0x8000_0000) as int32
  }

  /** The bytes of s from position `from` up to, and not including, position `to`. */
  function Span(s: seq<uint8>, from: nat, to: nat): (r: seq<uint8>)
    requires from <= to <= |s|
    ensures |r| == to - from
    decreases |s| - from
  {
    if from == to then [] else [s[from]] + Span(s, from + 1, to)
  }

  lemma {:induction false} SpanIndex(s: seq<uint8>, from: nat, to: nat, i: nat)
    requires from <= to <= |s| && i < to - from
    ensures Span(s, from, to)[i] == s[from + i]
    decreases i
  {
    if i > 0 {
      SpanIndex(s, from + 1, to, i - 1);
    }
  }

  /** s holds the bytes t from position at on. */
  predicate HoldsAt(s: seq<uint8>, at: nat, t: seq<uint8>) {
    at + |t| <= |s| && forall i {:trigger t[i]} :: 0 <= i < |t| ==> s[at + i] == t[i]
  }

  lemma {:induction false} HoldsAtIndex(s: seq<uint8>, at: nat, t: seq<uint8>, i: nat)
    requires HoldsAt(s, at, t) && i < |t|
    ensures s[at + i] == t[i]
  {
  }

  /** The span of s where t is held is t. */
  lemma {:induction false} HoldsAtSpan(s: seq<uint8>, at: nat, t: seq<uint8>)
    requires HoldsAt(s, at, t)
    ensures Span(s, at, at + |t|) == t
  {
    forall i | 0 <= i < |t| ensures Span(s, at, at + |t|)[i] == t[i] {
      SpanIndex(s, at, at + |t|, i);
    }
  }

  /** Bytes held at a position split into the bytes of each part. */
  lemma {:induction false} HoldsAtTail(s: seq<uint8>, at: nat, t: seq<uint8>)
    requires HoldsAt(s, at, t) && t != []
    ensures s[at] == t[0] && HoldsAt(s, at + 1, t[1..])
  {
    HoldsAtIndex(s, at, t, 0);
    forall i | 0 <= i < |t[1..]| ensures s[at + 1 + i] == t[1..][i] {
      HoldsAtIndex(s, at, t, i + 1);
    }
  }

  lemma {:induction false} HoldsAtJoin(s: seq<uint8>, at: nat, a: seq<uint8>, b: seq<uint8>)
    requires HoldsAt(s, at, a) && HoldsAt(s, at + |a|, b)
    ensures HoldsAt(s, at, a + b)
  {
    forall i | 0 <= i < |a + b| ensures s[at + i] == (a + b)[i] {
      if i < |a| {
        HoldsAtIndex(s, at, a, i);
      } else {
        HoldsAtIndex(s, at + |a|, b, i - |a|);
      }
    }
  }

  lemma {:induction false} HoldsAtSplit(s: seq<uint8>, at: nat, a: seq<uint8>, b: seq<uint8>)
    requires HoldsAt(s, at, a + b)
    ensures HoldsAt(s, at, a) && HoldsAt(s, at + |a|, b)
  {
    forall i | 0 <= i < |a| ensures s[at + i] == a[i] {
      HoldsAtIndex(s, at, a + b, i);
    }
    forall i | 0 <= i < |b| ensures s[at + |a| + i] == b[i] {
      HoldsAtIndex(s, at, a + b, |a| + i);
    }
  }

  lemma {:induction false} HoldsAtSplitFirst(s: seq<uint8>, at: nat, a: seq<uint8>, b: seq<uint8>, c: seq<uint8>)
    requires HoldsAt(s, at, a + b + c)
    ensures HoldsAt(s, at, a) && HoldsAt(s, at + |a|, b + c)
  {
    HoldsAtSplit(s, at, a + b, c);
    HoldsAtSplit(s, at, a, b);
    HoldsAtJoin(s, at + |a|, b, c);
  }

  /** A sequence holds at the front of any extension of itself. */
  lemma {:induction false} HoldsAtPrefix(a: seq<uint8>, b: seq<uint8>)
    ensures HoldsAt(a + b, 0, a)
  {
    forall i | 0 <= i < |a| ensures (a + b)[0 + i] == a[i] {
    }
  }

  /** The unsigned value of the four bytes at position at, least significant first. */
  function Unsigned(s: seq<uint8>, at: nat): (u: int)
    requires at + 4 <= |s|
    ensures 0 <= u < TwoTo32
  {
    s[at] as int + 0x100 * s[at + 1] as int + 0x1_0000 * s[at + 2] as int
      + 0x100_0000 * s[at + 3] as int
  }

  /** `org.bson.io.Bits.readInt(data, offset)`: four little-endian bytes read as a signed int. */
  function ReadInt(s: seq<uint8>, at: nat): (x: int32)
    requires at + 4 <= |s|
    ensures x as int == Unsigned(s, at) || x as int == Unsigned(s, at) - TwoTo32
  {
    var u := Unsigned(s, at);
    if u <= MaxInt32 then u as int32 else (u - TwoTo32) as int32
  }

  /** The n lowest bytes of u, least significant first. */
  function LittleEndian(u: nat, n: nat): (b: seq<uint8>)
    ensures |b| == n
  {
    if n == 0 then [] else [(u % 0x100) as uint8] + LittleEndian(u / 0x100, n - 1)
  }

  /** The four little-endian bytes a BSON encoder writes for an int (two's complement). */
  function IntBytes(x: int32): (b: seq<uint8>)
    ensures |b| == 4
  {
    LittleEndian(if x < 0 then x as int + TwoTo32 else x as int, 4)
  }

  lemma {:induction false} DivModDigit(a: int, q: int)
    requires 0 <= a < 0x100
    ensures (a + 0x100 * q) % 0x100 == a && (a + 0x100 * q) / 0x100 == q
  {
  }

  /** The first four bytes of LittleEndian(u, _), as the digits of u in base 256. */
  lemma {:induction false} LittleEndianDigits(u: nat)
    requires u < TwoTo32
    ensures var b := LittleEndian(u, 4);
            u == b[0] as int + 0x100 * b[1] as int + 0x1_0000 * b[2] as int
                 + 0x100_0000 * b[3] as int
  {
    var q1 := u / 0x100;
    var q2 := q1 / 0x100;
    var q3 := q2 / 0x100;
    assert LittleEndian(u, 4) == [(u % 0x100) as uint8] + LittleEndian(q1, 3);
    assert LittleEndian(q1, 3) == [(q1 % 0x100) as uint8] + LittleEndian(q2, 2);
    assert LittleEndian(q2, 2) == [(q2 % 0x100) as uint8] + LittleEndian(q3, 1);
    assert LittleEndian(q3, 1) == [(q3 % 0x100) as uint8] + LittleEndian(q3 / 0x100, 0);
    assert q3 < 0x100;
  }

  /** Reading back the bytes written for an int, wherever they are held, gives that int. */
  lemma {:induction false} ReadIntBytes(x: int32, s: seq<uint8>, at: nat)
    requires HoldsAt(s, at, IntBytes(x))
    ensures ReadInt(s, at) == x
  {
    var u := if x < 0 then x as int + TwoTo32 else x as int;
    var b := IntBytes(x);
    LittleEndianDigits(u);
    HoldsAtIndex(s, at, b, 0);
    HoldsAtIndex(s, at, b, 1);
    HoldsAtIndex(s, at, b, 2);
    HoldsAtIndex(s, at, b, 3);
    assert Unsigned(s, at) == u;
  }

  /** Every four bytes are the bytes written for the int they read as. */
  lemma {:induction false} IntBytesRead(b: seq<uint8>)
    requires |b| == 4
    ensures IntBytes(ReadInt(b, 0)) == b
  {
    var u := Unsigned(b, 0);
    var r3 := b[3] as int;
    var r2 := b[2] as int + 0x100 * r3;
    var r1 := b[1] as int + 0x100 * r2;
    assert u == b[0] as int + 0x100 * r1;
    DivModDigit(b[0] as int, r1);
    DivModDigit(b[1] as int, r2);
    DivModDigit(b[2] as int, r3);
    DivModDigit(b[3] as int, 0);
    assert IntBytes(ReadInt(b, 0)) == LittleEndian(u, 4);
    assert LittleEndian(u, 4) == [b[0]] + LittleEndian(r1, 3);
    assert LittleEndian(r1, 3) == [b[1]] + LittleEndian(r2, 2);
    assert LittleEndian(r2, 2) == [b[2]] + LittleEndian(r3, 1);
    assert LittleEndian(r3, 1) == [b[3]] + LittleEndian(0, 0);
    assert [b[0]] + ([b[1]] + ([b[2]] + ([b[3]] + []))) == b;
  }
}
