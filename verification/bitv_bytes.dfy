/**
 * Conversions between `Bitv` and bytes, booleans and index functions:
 * `to_bytes`, `from_bytes`, `from_bools` and `from_fn`.  Within a byte the
 * first bit of the vector is the most significant bit.
 */
module BitvBytes {

  import opened Words
  import opened Bitvs

  type Byte = bv8

  /** Bit s of a byte, counted from the least significant bit. */
  predicate ShiftBit(x: Byte, s: nat)
    requires s < 8
  {
    (x >> s) & 1 == 1
  }

  /** A byte is determined by its eight bits. */
  lemma ByteExt(x: Byte, y: Byte)
    requires forall s :: 0 <= s < 8 ==> ShiftBit(x, s) == ShiftBit(y, s)
    ensures x == y
  {
    assert ShiftBit(x, 0) == ShiftBit(y, 0);
    assert ShiftBit(x, 1) == ShiftBit(y, 1);
    assert ShiftBit(x, 2) == ShiftBit(y, 2);
    assert ShiftBit(x, 3) == ShiftBit(y, 3);
    assert ShiftBit(x, 4) == ShiftBit(y, 4);
    assert ShiftBit(x, 5) == ShiftBit(y, 5);
    assert ShiftBit(x, 6) == ShiftBit(y, 6);
    assert ShiftBit(x, 7) == ShiftBit(y, 7);
  }

  /** The byte whose only possibly-set bit is bit t, holding x. */
  function Single(x: bool, t: nat): Byte
    requires t < 8
  {
    (if x then 1 else 0) << t
  }

  lemma ShiftBitSingle(x: bool, t: nat, s: nat)
    requires t < 8 && s < 8
    ensures ShiftBit(Single(x, t), s) == (s == t && x)
  {
  }

  // ---------------------------------------------------------------------------
  // `to_bytes`.

  /**
   * The inner `bit(bitv, byte, bit)` of `to_bytes`: vector bit byte*8 + bit,
   * shifted to position 7 - bit, or zero past the end of the vector.
   */
  function BitByte(b: Bitv, byte: nat, bit: nat): Byte
    requires Covers(b) && bit < 8
  {
    var offset := byte * 8 + bit;
    if offset >= b.nbits then 0 else Single(Get(b, offset), 7 - bit)
  }

  /** Byte i of `to_bytes`: the OR of its eight contributions. */
  function ByteAt(b: Bitv, i: nat): Byte
    requires Covers(b)
  {
    BitByte(b, i, 0) | BitByte(b, i, 1) | BitByte(b, i, 2) | BitByte(b, i, 3) |
    BitByte(b, i, 4) | BitByte(b, i, 5) | BitByte(b, i, 6) | BitByte(b, i, 7)
  }

  /** Bit 7 - t of byte i of `to_bytes` is vector bit i*8 + t, or zero past the end. */
  lemma ByteAtBit(b: Bitv, i: nat, t: nat)
    requires Covers(b) && t < 8
    ensures ShiftBit(ByteAt(b, i), 7 - t) == (i * 8 + t < b.nbits && Get(b, i * 8 + t))
  {
    var s := 7 - t;
    var xs := seq(8, u requires 0 <= u < 8 => BitByte(b, i, u));
    forall u | 0 <= u < 8
      ensures ShiftBit(xs[u], s) == (u == t && i * 8 + u < b.nbits && Get(b, i * 8 + u))
    {
      BitByteBit(b, i, u, s);
    }
    Or8Pick(xs, s, t);
  }

  lemma BitByteBit(b: Bitv, i: nat, u: nat, s: nat)
    requires Covers(b) && u < 8 && s < 8
    ensures ShiftBit(BitByte(b, i, u), s) == (u == 7 - s && i * 8 + u < b.nbits && Get(b, i * 8 + u))
  {
    if i * 8 + u < b.nbits {
      ShiftBitSingle(Get(b, i * 8 + u), 7 - u, s);
    }
  }

  /** When only byte t can have bit s set, bit s of the OR of eight bytes is that of byte t. */
  lemma Or8Pick(xs: seq<Byte>, s: nat, t: nat)
    requires |xs| == 8 && s < 8 && t < 8
    requires forall u :: 0 <= u < 8 && u != t ==> !ShiftBit(xs[u], s)
    ensures ShiftBit(xs[0] | xs[1] | xs[2] | xs[3] | xs[4] | xs[5] | xs[6] | xs[7], s) == ShiftBit(xs[t], s)
  {
    Or8Bit(xs[0], xs[1], xs[2], xs[3], xs[4], xs[5], xs[6], xs[7], s);
    if t == 0 {
    } else if t == 1 {
    } else if t == 2 {
    } else if t == 3 {
    } else if t == 4 {
    } else if t == 5 {
    } else if t == 6 {
    } else {
      assert t == 7;
    }
  }

  lemma Or8Bit(x0: Byte, x1: Byte, x2: Byte, x3: Byte, x4: Byte, x5: Byte, x6: Byte, x7: Byte, s: nat)
    requires s < 8
    ensures ShiftBit(x0 | x1 | x2 | x3 | x4 | x5 | x6 | x7, s) ==
            (ShiftBit(x0, s) || ShiftBit(x1, s) || ShiftBit(x2, s) || ShiftBit(x3, s) ||
             ShiftBit(x4, s) || ShiftBit(x5, s) || ShiftBit(x6, s) || ShiftBit(x7, s))
  {
    if s == 0 {
    } else if s == 1 {
    } else if s == 2 {
    } else if s == 3 {
    } else if s == 4 {
    } else if s == 5 {
    } else if s == 6 {
    } else {
      assert s == 7;
    }
  }

  /**
   * `to_bytes`: ceil(nbits / 8) bytes; vector bit p is bit 7 - p % 8 of byte
   * p / 8, and the padding bits of the last byte are zero.
   */
  function ToBytes(b: Bitv): (r: seq<Byte>)
    requires Covers(b)
    ensures |r| == (b.nbits + 7) / 8
    ensures forall p :: 0 <= p < |r| * 8 ==>
              ShiftBit(r[p / 8], 7 - p % 8) == (p < b.nbits && Get(b, p))
  {
    var len := b.nbits / 8 + if b.nbits % 8 == 0 then 0 else 1;
    var r := seq(len, i requires 0 <= i < len => ByteAt(b, i));
    ByteSeqBits(b, r);
    r
  }

  /** Bytes that are `ByteAt` hold the vector's bits, most significant first. */
  lemma ByteSeqBits(b: Bitv, r: seq<Byte>)
    requires Covers(b) && forall i :: 0 <= i < |r| ==> r[i] == ByteAt(b, i)
    ensures forall p :: 0 <= p < |r| * 8 ==> ShiftBit(r[p / 8], 7 - p % 8) == (p < b.nbits && Get(b, p))
  {
    forall p | 0 <= p < |r| * 8
      ensures ShiftBit(r[p / 8], 7 - p % 8) == (p < b.nbits && Get(b, p))
    {
      ByteAtBit(b, p / 8, p % 8);
      assert p == (p / 8) * 8 + p % 8;
    }
  }

  // ---------------------------------------------------------------------------
  // `from_fn`, `from_bools`, `from_bytes`.

  /** `from_fn` after its loop has set the first i bits. */
  function FromFnUpTo(len: nat, f: nat --> bool, i: nat): (r: Bitv)
    requires i <= len && forall j :: 0 <= j < len ==> f.requires(j)
    ensures Valid(r) && Covers(r) && r.nbits == len
    ensures forall j :: 0 <= j < len ==> Get(r, j) == (j < i && f(j))
    decreases i
  {
    if i == 0 then New(len, false)
    else
      var prev := FromFnUpTo(len, f, i - 1);
      var r := Set(prev, i - 1, f(i - 1));
      assert forall j :: 0 <= j < len ==> Get(r, j) == (j < i && f(j)) by {
        forall j | 0 <= j < len
          ensures Get(r, j) == (j < i && f(j))
        {
          GetSet(prev, i - 1, f(i - 1), j);
        }
      }
      r
  }

  /** `from_fn(len, f)`: a vector of len bits whose bit i is f(i). */
  function FromFn(len: nat, f: nat --> bool): (r: Bitv)
    requires forall j :: 0 <= j < len ==> f.requires(j)
    ensures Valid(r) && Covers(r) && r.nbits == len
    ensures forall j :: 0 <= j < len ==> Get(r, j) == f(j)
  {
    FromFnUpTo(len, f, len)
  }

  /** `from_bools`: the vector whose bits are the given booleans. */
  function FromBools(bools: seq<bool>): (r: Bitv)
    ensures Valid(r) && Covers(r)
    ensures View(r) == bools
  {
    FromFn(|bools|, i requires 0 <= i < |bools| => bools[i])
  }

  /**
   * `from_bytes`: eight bits per byte, most significant first; bit i is
   * `bytes[i / 8] >> (7 - i % 8) & 1 == 1`.
   */
  function FromBytes(bytes: seq<Byte>): (r: Bitv)
    ensures Valid(r) && Covers(r) && r.nbits == |bytes| * 8
    ensures forall p :: 0 <= p < |bytes| * 8 ==> Get(r, p) == ShiftBit(bytes[p / 8], 7 - p % 8)
  {
    FromFn(|bytes| * 8, i requires 0 <= i < |bytes| * 8 => ShiftBit(bytes[i / 8], 7 - i % 8))
  }

  /** Turning bytes into a vector and back gives the same bytes. */
  lemma ToBytesFromBytes(bytes: seq<Byte>)
    ensures ToBytes(FromBytes(bytes)) == bytes
  {
    var b := FromBytes(bytes);
    var r := ToBytes(b);
    assert |r| == |bytes|;
    forall i | 0 <= i < |bytes|
      ensures r[i] == bytes[i]
    {
      forall s | 0 <= s < 8
        ensures ShiftBit(r[i], s) == ShiftBit(bytes[i], s)
      {
        var p := i * 8 + (7 - s);
        assert p / 8 == i && p % 8 == 7 - s;
      }
      ByteExt(r[i], bytes[i]);
    }
  }

  /**
   * Turning a vector into bytes and back gives the vector padded with zero
   * bits to a whole number of bytes.
   */
  lemma FromBytesToBytes(b: Bitv)
    requires Covers(b)
    ensures var r := FromBytes(ToBytes(b));
            r.nbits == (b.nbits + 7) / 8 * 8 &&
            forall p :: 0 <= p < r.nbits ==> Get(r, p) == (p < b.nbits && Get(b, p))
  {
  }
}
