/**
 * `BitvSet`: a set of naturals stored as a `Bitv`, member v being bit v.
 *
 * The set lets its storage run ahead of `nbits` (insertion grows the storage
 * by at least doubling but sets `nbits` to just past the new member), so the
 * `new`-vector shape `Valid` does not hold in general.  The invariant the set
 * operations keep is `Tidy`: either the vector has the `new` shape (as after
 * `from_bitv`), or every storage bit at or above `nbits` is zero.  Under it
 * the masked words `MaskWords` yields hold exactly the members.
 */
module BitvSets {

  import opened Words
  import opened Bitvs

  datatype BitvSet = BitvSet(bitv: Bitv)

  /** The abstract value of a set: the meaningful bits that are set. */
  function Members(s: BitvSet): set<nat>
    requires Covers(s.bitv)
  {
    set v: nat | v < s.bitv.nbits && Get(s.bitv, v)
  }

  /**
   * `capacity`: the number of bits the storage words hold, a whole number of
   * words; every member lies below it.
   */
  function Capacity(s: BitvSet): (n: nat)
    ensures n % W == 0
    ensures Covers(s.bitv) ==> forall v :: v in Members(s) ==> v < n
  {
    |s.bitv.storage| * W
  }

  /** `contains(v)`: v is below `nbits` and its bit is set, that is, v is a member. */
  function Contains(s: BitvSet, v: nat): (r: bool)
    requires v < s.bitv.nbits ==> v < Capacity(s)
    ensures Covers(s.bitv) ==> (r <==> v in Members(s))
  {
    v < s.bitv.nbits && Get(s.bitv, v)
  }

  /** The representation invariant of a bit set (see the module comment). */
  predicate Tidy(s: BitvSet)
  {
    Covers(s.bitv) &&
    (Valid(s.bitv) || forall i :: s.bitv.nbits <= i < |s.bitv.storage| * W ==> !RawBit(s.bitv, i))
  }

  /** Under the invariant, bit i of the masked words is membership of i. */
  lemma TidyMasked(s: BitvSet, i: nat)
    requires Tidy(s) && i < Capacity(s)
    ensures Bit(Masked(s.bitv, i / W), i % W) == Contains(s, i)
  {
    var b := s.bitv;
    if Valid(b) {
      ValidMaskedBit(b, i);
    } else {
      MaskedBit(b, i);
      if i < b.nbits {
        WordOfIndex(b.nbits, i);
        WordsForBound(b.nbits, |b.storage|);
      }
    }
  }

  /** Under the invariant, a storage bit is set exactly for the members. */
  lemma TidyRaw(s: BitvSet, i: nat)
    requires Tidy(s) && i < Capacity(s)
    ensures (RawBit(s.bitv, i) && !(s.bitv.nbits <= i < WordsFor(s.bitv.nbits) * W)) == Contains(s, i)
  {
    WordsForCovers(s.bitv.nbits);
    if !Valid(s.bitv) && s.bitv.nbits <= i {
      assert !RawBit(s.bitv, i);
    }
  }

  // ---------------------------------------------------------------------------
  // Construction.

  /** `BitvSet::new`: the set over an empty vector. */
  function Empty(): (r: BitvSet)
    ensures Tidy(r) && Members(r) == {} && Capacity(r) == 0
  {
    BitvSet(New(0, false))
  }

  /** `from_bitv`: the members are the set bits of the vector. */
  function FromBitv(b: Bitv): (r: BitvSet)
    ensures r.bitv == b
    ensures Valid(b) ==> Tidy(r) && forall i :: 0 <= i < b.nbits ==> (i in Members(r) <==> Get(b, i))
  {
    if Valid(b) then ValidCovers(b); BitvSet(b) else BitvSet(b)
  }

  /**
   * `grow(size)`: appends zero words until the storage holds `size` bits;
   * never shrinks and leaves `nbits` alone.
   */
  function Grow(s: BitvSet, size: nat): (r: BitvSet)
    ensures r.bitv.nbits == s.bitv.nbits
    ensures |r.bitv.storage| == Max(|s.bitv.storage|, WordsFor(size))
    ensures r.bitv.storage[..|s.bitv.storage|] == s.bitv.storage
    ensures forall k :: |s.bitv.storage| <= k < |r.bitv.storage| ==> r.bitv.storage[k] == 0
  {
    var oldSize := |s.bitv.storage|;
    var size := WordsFor(size);
    if oldSize < size then BitvSet(s.bitv.(storage := s.bitv.storage + seq(size - oldSize, _ => 0)))
    else s
  }

  /** A grown set has the old storage bits and zeros after them. */
  lemma GrowRaw(s: BitvSet, size: nat, i: nat)
    requires i < Capacity(Grow(s, size))
    ensures RawBit(Grow(s, size).bitv, i) == (i < Capacity(s) && RawBit(s.bitv, i))
  {
    var g := Grow(s, size);
    if i < Capacity(s) {
      assert g.bitv.storage[i / W] == g.bitv.storage[..|s.bitv.storage|][i / W];
    } else {
      BitConst(i % W);
    }
  }

  /** Growing keeps the members and makes room for `size` bits. */
  lemma GrowKeeps(s: BitvSet, size: nat)
    requires Covers(s.bitv)
    ensures Covers(Grow(s, size).bitv) && Members(Grow(s, size)) == Members(s)
    ensures Capacity(Grow(s, size)) >= size
  {
    var g := Grow(s, size);
    WordsForCovers(size);
    forall i | 0 <= i < Capacity(s)
      ensures RawBit(g.bitv, i) == RawBit(s.bitv, i)
    {
      GrowRaw(s, size, i);
    }
  }

  /**
   * Growing a tidy set and then re-masking its old last word leaves exactly
   * the members as set storage bits.  (Growing alone does not: the stale
   * bits of a `new`-shaped vector's last word stop being masked once that
   * word is no longer the last.)
   */
  lemma GrowRemask(s: BitvSet, size: nat, i: nat)
    requires Tidy(s) && i < Capacity(Grow(s, size))
    ensures RawBit(Remask(Grow(s, size).bitv), i) == Contains(s, i)
  {
    GrowRaw(s, size, i);
    if i < Capacity(s) {
      TidyRaw(s, i);
    }
  }

  /**
   * The masking step of `insert`: when `nbits` is not a multiple of 64, the
   * word holding the last meaningful bit is ANDed with `(1 << nbits % 64) - 1`,
   * clearing its stale bits.
   */
  function Remask(b: Bitv): (r: Bitv)
    requires Covers(b)
    ensures |r.storage| == |b.storage| && r.nbits == b.nbits
    ensures forall i :: 0 <= i < |b.storage| * W ==>
              RawBit(r, i) == (RawBit(b, i) && !(b.nbits <= i < WordsFor(b.nbits) * W))
  {
    var rem := b.nbits % W;
    if rem != 0 then
      WordsForBound(b.nbits, |b.storage|);
      var k := (b.nbits + W - 1) / W - 1;
      var r := b.(storage := b.storage[k := ClearAbove(b.storage[k], rem)]);
      assert forall i :: 0 <= i < |b.storage| * W ==>
               RawBit(r, i) == (RawBit(b, i) && !(b.nbits <= i < WordsFor(b.nbits) * W)) by {
        forall i | 0 <= i < |b.storage| * W
          ensures RawBit(r, i) == (RawBit(b, i) && !(b.nbits <= i < WordsFor(b.nbits) * W))
        {
          RemaskRaw(b, r, k, i);
        }
      }
      r
    else
      b
  }

  /** `w & ((1 << rem) - 1)`: w with every bit from rem upwards cleared. */
  function ClearAbove(w: Word, rem: nat): (r: Word)
    requires 0 < rem < W
    ensures forall c :: 0 <= c < W ==> Bit(r, c) == (Bit(w, c) && c < rem)
  {
    var r := Apply(And, w, LowMask(rem));
    assert forall c :: 0 <= c < W ==> Bit(r, c) == (Bit(w, c) && c < rem) by {
      forall c | 0 <= c < W
        ensures Bit(r, c) == (Bit(w, c) && c < rem)
      {
        ApplyBit(And, w, LowMask(rem), c);
        BitLowMask(rem, c);
      }
    }
    r
  }

  /**
   * Replacing the last word of n bits (n not a multiple of 64) by its low
   * n % 64 bits clears exactly the storage bits from n up to the end of
   * that word.
   */
  lemma RemaskRaw(b: Bitv, r: Bitv, k: nat, i: nat)
    requires b.nbits % W != 0 && k == WordsFor(b.nbits) - 1 && k < |b.storage| && i < |b.storage| * W
    requires |r.storage| == |b.storage|
    requires forall j :: 0 <= j < |b.storage| && j != k ==> r.storage[j] == b.storage[j]
    requires forall c :: 0 <= c < W ==> Bit(r.storage[k], c) == (Bit(b.storage[k], c) && c < b.nbits % W)
    ensures RawBit(r, i) == (RawBit(b, i) && !(b.nbits <= i < WordsFor(b.nbits) * W))
  {
    RemaskIndex(b.nbits, i);
  }

  /** Where position i lies relative to the last word of n bits, n not a multiple of 64. */
  lemma RemaskIndex(n: nat, i: nat)
    requires n % W != 0
    ensures WordsFor(n) - 1 == n / W
    ensures i / W == n / W ==> (i < n <==> i % W < n % W) && i < WordsFor(n) * W
    ensures i / W < n / W ==> i < n
    ensures i / W > n / W ==> i >= WordsFor(n) * W
  {
    var q, r := n / W, n % W;
    assert n == q * W + r;
    assert i == (i / W) * W + i % W;
    assert WordsFor(n) == q + 1;
  }

  /** Raising `nbits` to n, masking the old last word first. */
  function Lengthen(b: Bitv, n: nat): (r: Bitv)
    requires Covers(b) && b.nbits <= n
    ensures |r.storage| == |b.storage| && r.nbits == n
    ensures forall i :: 0 <= i < |b.storage| * W ==>
              RawBit(r, i) == (RawBit(b, i) && !(b.nbits <= i < WordsFor(b.nbits) * W))
  {
    var m := Remask(b);
    assert forall i :: 0 <= i < |b.storage| * W ==> RawBit(m.(nbits := n), i) == RawBit(m, i);
    m.(nbits := n)
  }

  /**
   * Under the invariant, re-masking leaves exactly the members as set storage
   * bits.
   */
  lemma RemaskMembers(s: BitvSet, i: nat)
    requires Tidy(s) && i < Capacity(s)
    ensures RawBit(Remask(s.bitv), i) == Contains(s, i)
  {
    TidyRaw(s, i);
  }

  // ---------------------------------------------------------------------------
  // Single members.

  /** The storage `insert` builds when v is not yet a member. */
  function InsertNew(s: BitvSet, v: nat): (r: BitvSet)
    requires Covers(s.bitv)
    ensures r.bitv.nbits == Max(s.bitv.nbits, v + 1)
    ensures Capacity(r) == if v < Capacity(s) then Capacity(s) else WordsFor(Max(v + 1, Capacity(s) * 2)) * W
    ensures Covers(r.bitv) && v < Capacity(r)
    ensures forall i :: 0 <= i < Capacity(r) ==>
              RawBit(r.bitv, i) ==
              (i == v ||
               (i < Capacity(s) && RawBit(s.bitv, i) &&
                !(v >= s.bitv.nbits && s.bitv.nbits <= i < WordsFor(s.bitv.nbits) * W)))
  {
    var g := if v >= Capacity(s) then Grow(s, Max(v + 1, Capacity(s) * 2)) else s;
    WordsForCovers(Max(v + 1, Capacity(s) * 2));
    assert forall i :: 0 <= i < Capacity(g) ==> RawBit(g.bitv, i) == (i < Capacity(s) && RawBit(s.bitv, i)) by {
      forall i | 0 <= i < Capacity(g)
        ensures RawBit(g.bitv, i) == (i < Capacity(s) && RawBit(s.bitv, i))
      {
        if v >= Capacity(s) {
          GrowRaw(s, Max(v + 1, Capacity(s) * 2), i);
        }
      }
    }
    var b := if v >= g.bitv.nbits then Lengthen(g.bitv, v + 1) else g.bitv;
    var r := BitvSet(Set(b, v, true));
    r
  }

  /**
   * `insert(v)`: when v is already a member nothing changes and the answer is
   * false; otherwise the storage grows to at least v + 1 bits (by at least
   * doubling), stale bits of the old last word are masked when `nbits`
   * rises, v becomes a member and the answer is true.
   */
  function Insert(s: BitvSet, v: nat): (res: (BitvSet, bool))
    requires Covers(s.bitv)
    ensures res.1 == !Contains(s, v)
    ensures !res.1 ==> res.0 == s
    ensures res.1 ==> Covers(res.0.bitv) && Contains(res.0, v)
    ensures res.1 ==> v < Capacity(res.0)
    ensures res.1 && v >= Capacity(s) ==> Capacity(res.0) >= 2 * Capacity(s)
    ensures res.1 && v < Capacity(s) ==> Capacity(res.0) == Capacity(s)
    ensures Tidy(s) ==> Tidy(res.0) && Members(res.0) == Members(s) + {v}
  {
    if Contains(s, v) then (s, false)
    else
      var r := InsertNew(s, v);
      WordsForCovers(Max(v + 1, Capacity(s) * 2));
      if Tidy(s) then InsertKeeps(s, v); (r, true) else (r, true)
  }

  lemma InsertKeeps(s: BitvSet, v: nat)
    requires Tidy(s) && !Contains(s, v)
    ensures Tidy(InsertNew(s, v)) && Members(InsertNew(s, v)) == Members(s) + {v}
  {
    var r := InsertNew(s, v);
    if v >= s.bitv.nbits || !Valid(s.bitv) {
      forall i | r.bitv.nbits <= i < Capacity(r)
        ensures !RawBit(r.bitv, i)
      {
        if i < Capacity(s) {
          TidyRaw(s, i);
        }
      }
    } else {
      assert Capacity(r) == Capacity(s);
    }
    forall i: nat
      ensures i in Members(r) <==> i in Members(s) + {v}
    {
      InsertMember(s, v, i);
    }
  }

  lemma InsertMember(s: BitvSet, v: nat, i: nat)
    requires Tidy(s) && !Contains(s, v) && Covers(InsertNew(s, v).bitv)
    ensures i in Members(InsertNew(s, v)) <==> i == v || i in Members(s)
  {
    var r := InsertNew(s, v);
    if i < Capacity(r) {
      if i < Capacity(s) {
        TidyRaw(s, i);
      }
      assert Contains(r, i) == (i == v || Contains(s, i));
    }
  }

  /** `remove(v)`: when v is a member its bit is cleared and the answer is true. */
  function Remove(s: BitvSet, v: nat): (res: (BitvSet, bool))
    requires Covers(s.bitv)
    ensures res.1 == Contains(s, v)
    ensures !res.1 ==> res.0 == s
    ensures Covers(res.0.bitv) && !Contains(res.0, v) && Capacity(res.0) == Capacity(s)
    ensures Tidy(s) ==> Tidy(res.0) && Members(res.0) == Members(s) - {v}
  {
    if !Contains(s, v) then (s, false)
    else
      var r := BitvSet(Set(s.bitv, v, false));
      assert forall i :: 0 <= i < Capacity(s) ==> RawBit(r.bitv, i) == (i != v && RawBit(s.bitv, i));
      (r, true)
  }

  /** `clear`: every storage word becomes zero, so the set is empty. */
  function SetClear(s: BitvSet): (r: BitvSet)
    requires Covers(s.bitv)
    ensures Tidy(r) && Members(r) == {} && Capacity(r) == Capacity(s)
  {
    var r := BitvSet(Clear(s.bitv));
    assert forall i :: 0 <= i < Capacity(s) ==> !RawBit(r.bitv, i);
    r
  }

  // ---------------------------------------------------------------------------
  // `len`.

  /**
   * `len` as written: the set bits of every storage word, stale ones
   * included; it is the number of members only when no bit at or above
   * `nbits` is set.
   */
  function LenAsWritten(s: BitvSet): (n: nat)
    ensures n == |set i: nat | i < Capacity(s) && RawBit(s.bitv, i)|
    ensures Covers(s.bitv) && (forall i :: s.bitv.nbits <= i < Capacity(s) ==> !RawBit(s.bitv, i)) ==>
              n == |Members(s)|
  {
    var n := OnesFold(0, s.bitv.storage);
    StorageOnesCard(s);
    if Covers(s.bitv) && (forall i :: s.bitv.nbits <= i < Capacity(s) ==> !RawBit(s.bitv, i)) then
      CleanRawMembers(s); n
    else n
  }

  /** The masked words, as `MaskWords` yields them, without their offsets. */
  function MaskedWords(b: Bitv): (ws: seq<Word>)
    ensures |ws| == |b.storage|
    ensures forall k :: 0 <= k < |ws| ==> ws[k] == Masked(b, k)
  {
    seq(|b.storage|, k requires 0 <= k < |b.storage| => Masked(b, k))
  }

  /** `len` counting the masked words: under the invariant, the number of members. */
  function Len(s: BitvSet): (n: nat)
    ensures Tidy(s) ==> n == |Members(s)|
  {
    var n := OnesFold(0, MaskedWords(s.bitv));
    if Tidy(s) then MaskedOnesCard(s); n else n
  }

  lemma MaskedOnesCard(s: BitvSet)
    requires Tidy(s)
    ensures OnesFold(0, MaskedWords(s.bitv)) == |Members(s)|
  {
    var ws := MaskedWords(s.bitv);
    var flat := FlatWords(ws, 0);
    OnesFoldFlat(0, ws, 0);
    forall x: nat
      ensures x in Members(s) <==> x in flat
    {
      if x < Capacity(s) {
        TidyMasked(s, x);
      }
    }
    Sorted.IncreasingCard(flat, Members(s));
  }

  lemma StorageOnesCard(s: BitvSet)
    ensures OnesFold(0, s.bitv.storage) == |set i: nat | i < Capacity(s) && RawBit(s.bitv, i)|
  {
    var flat := FlatWords(s.bitv.storage, 0);
    OnesFoldFlat(0, s.bitv.storage, 0);
    var raw := set i: nat | i < Capacity(s) && RawBit(s.bitv, i);
    forall x: nat
      ensures x in raw <==> x in flat
    {
    }
    Sorted.IncreasingCard(flat, raw);
  }

  /** With no bit set at or above `nbits`, the set storage bits are the members. */
  lemma CleanRawMembers(s: BitvSet)
    requires Covers(s.bitv)
    requires forall i :: s.bitv.nbits <= i < Capacity(s) ==> !RawBit(s.bitv, i)
    ensures (set i: nat | i < Capacity(s) && RawBit(s.bitv, i)) == Members(s)
  {
    forall x: nat
      ensures (x < Capacity(s) && RawBit(s.bitv, x)) <==> x in Members(s)
    {
      if x < s.bitv.nbits {
        assert Get(s.bitv, x) == RawBit(s.bitv, x);
      }
    }
  }

  /**
   * `from_bitv(Bitv::new(10, true))` has ten members, but `len` also counts
   * the 54 stale bits of its only word.
   */
  lemma LenAsWrittenOvercounts()
    ensures var s := FromBitv(New(10, true));
            Tidy(s) && Len(s) == |Members(s)| < LenAsWritten(s)
  {
    var s := FromBitv(New(10, true));
    var raw := set i: nat | i < Capacity(s) && RawBit(s.bitv, i);
    assert s.bitv.storage == [Ones];
    assert 10 in raw by {
      BitConst(10);
    }
    assert 10 !in Members(s);
    assert Members(s) <= raw by {
      forall x | x in Members(s)
        ensures x in raw
      {
        assert x < 10;
      }
    }
    SubsetCard(Members(s), raw);
  }

  lemma SubsetCard(a: set<nat>, b: set<nat>)
    requires a < b
    ensures |a| < |b|
  {
    var x :| x in b && x !in a;
    assert b == a + (b - a);
    assert x in b - a;
  }

  // ---------------------------------------------------------------------------
  // `shrink_to_fit`.

  /** The number of zero words at the end of ws. */
  function TrailingZeros(ws: seq<Word>): (n: nat)
    ensures n <= |ws|
    ensures forall k :: |ws| - n <= k < |ws| ==> ws[k] == 0
    ensures n < |ws| ==> ws[|ws| - n - 1] != 0
    decreases |ws|
  {
    if |ws| == 0 || ws[|ws| - 1] != 0 then 0
    else 1 + TrailingZeros(ws[..|ws| - 1])
  }

  /**
   * `shrink_to_fit` as written: drops trailing zero words but keeps at least
   * one (when there is one), and sets `nbits` to the kept length rounded up
   * to one word, `max(len - zeros, 1) * 64`.
   */
  function ShrinkToFitAsWritten(s: BitvSet): (r: BitvSet)
    ensures r.bitv.storage <= s.bitv.storage
    ensures forall k :: |r.bitv.storage| <= k < |s.bitv.storage| ==> s.bitv.storage[k] == 0
    ensures |r.bitv.storage| > 1 ==> r.bitv.storage[|r.bitv.storage| - 1] != 0
    ensures r.bitv.nbits > 0 && r.bitv.nbits % W == 0
    ensures |s.bitv.storage| > 0 <==> r.bitv.nbits == Capacity(r)
  {
    var storage := s.bitv.storage;
    var truncLen := Max(|storage| - TrailingZeros(storage), 1);
    var kept := if truncLen < |storage| then storage[..truncLen] else storage;
    BitvSet(Bitv(kept, truncLen * W))
  }

  /**
   * `shrink_to_fit` masking the stale bits of the last meaningful word first
   * (as `insert` does before raising `nbits`) and setting `nbits` to the
   * capacity actually kept.
   */
  function ShrinkToFit(s: BitvSet): (r: BitvSet)
    requires Covers(s.bitv)
    ensures Valid(r.bitv) && Covers(r.bitv) && r.bitv.nbits == Capacity(r)
    ensures r.bitv.storage <= Remask(s.bitv).storage
    ensures forall k :: |r.bitv.storage| <= k < |s.bitv.storage| ==> Remask(s.bitv).storage[k] == 0
    ensures |s.bitv.storage| > 0 ==> |r.bitv.storage| > 0
    ensures |r.bitv.storage| > 1 ==> r.bitv.storage[|r.bitv.storage| - 1] != 0
    ensures Tidy(s) ==> Tidy(r) && Members(r) == Members(s)
  {
    var storage := Remask(s.bitv).storage;
    var truncLen := Max(|storage| - TrailingZeros(storage), 1);
    var kept := storage[..Min(truncLen, |storage|)];
    var r := BitvSet(Bitv(kept, |kept| * W));
    WordsForWhole(|kept|);
    if Tidy(s) then ShrinkKeeps(s); r else r
  }

  lemma ShrinkKeeps(s: BitvSet)
    requires Tidy(s)
    ensures var storage := Remask(s.bitv).storage;
            var kept := storage[..Min(Max(|storage| - TrailingZeros(storage), 1), |storage|)];
            Members(BitvSet(Bitv(kept, |kept| * W))) == Members(s)
  {
    var m := Remask(s.bitv);
    var storage := m.storage;
    var kept := storage[..Min(Max(|storage| - TrailingZeros(storage), 1), |storage|)];
    var r := BitvSet(Bitv(kept, |kept| * W));
    forall i: nat
      ensures i in Members(s) <==> i in Members(r)
    {
      if i < Capacity(s) {
        RemaskMembers(s, i);
        assert Contains(s, i) == (i in Members(s));
        if i >= Capacity(r) {
          BitConst(i % W);
        } else {
          assert r.bitv.storage[i / W] == storage[i / W];
          assert Get(r.bitv, i) == RawBit(r.bitv, i);
        }
      }
    }
  }

  /**
   * On a set that keeps its invariant and has storage, the code's
   * `shrink_to_fit` leaves a well-formed set of whole words that keeps every
   * member (the stale bits it may add are shown by `ShrinkAddsMembers`).
   */
  lemma ShrinkAsWrittenKeeps(s: BitvSet)
    requires Tidy(s) && |s.bitv.storage| > 0
    ensures var r := ShrinkToFitAsWritten(s);
            Covers(r.bitv) && r.bitv.nbits == Capacity(r) > 0 && Members(s) <= Members(r)
  {
    var r := ShrinkToFitAsWritten(s);
    var ws := s.bitv.storage;
    forall i | i in Members(s)
      ensures i in Members(r)
    {
      BitConst(i % W);
      assert ws[i / W] != 0;
      assert i / W < |r.bitv.storage|;
      assert r.bitv.storage[i / W] == ws[i / W];
      assert Get(r.bitv, i) == RawBit(r.bitv, i);
    }
  }

  /** On an empty set the code's `shrink_to_fit` leaves `nbits` past the storage. */
  lemma ShrinkEmptyOverruns()
    ensures var r := ShrinkToFitAsWritten(Empty());
            r.bitv.nbits == W && Capacity(r) == 0 && !Covers(r.bitv)
  {
  }

  /** After the code's `shrink_to_fit`, stale bits of `from_bitv(Bitv::new(10, true))` become members. */
  lemma ShrinkAddsMembers()
    ensures var s := FromBitv(New(10, true));
            var r := ShrinkToFitAsWritten(s);
            Tidy(s) && 20 !in Members(s) && Covers(r.bitv) && Contains(r, 20)
  {
    var s := FromBitv(New(10, true));
    assert s.bitv.storage == [Ones];
    BitConst(20 % W);
  }

  // ---------------------------------------------------------------------------
  // In-place set algebra: `other_op` and the `*_with` operations.

  /**
   * `other_op` as written: grows self to the other's capacity, then replaces
   * each word i of self that the other has by f(word, other's masked word i).
   * `nbits` is never changed.
   */
  function OtherOpAsWritten(s: BitvSet, other: BitvSet, op: WordOp): (r: BitvSet)
    ensures r.bitv.nbits == s.bitv.nbits
    ensures |r.bitv.storage| == Max(|s.bitv.storage|, |other.bitv.storage|)
    ensures forall k :: 0 <= k < |r.bitv.storage| ==>
              var old_ := if k < |s.bitv.storage| then s.bitv.storage[k] else 0;
              r.bitv.storage[k] == if k < |other.bitv.storage| then Apply(op, old_, Masked(other.bitv, k)) else old_
  {
    var g := Grow(s, Capacity(other));
    WordsForWhole(|other.bitv.storage|);
    var ws := MaskWords(other.bitv, 0);
    var storage := g.bitv.storage;
    assert forall k :: 0 <= k < |s.bitv.storage| ==> storage[k] == storage[..|s.bitv.storage|][k];
    BitvSet(g.bitv.(storage := seq(|storage|, k requires 0 <= k < |storage| =>
                                      if k < |ws| then Apply(op, storage[k], ws[k].1) else storage[k])))
  }

  /**
   * When the other set is no longer than self, the code's `other_op` is
   * exact for the four set operations, except that `intersect_with` also
   * needs the other's storage to reach past self's.
   */
  lemma OtherOpAsWrittenAgrees(s: BitvSet, other: BitvSet, op: WordOp)
    requires Tidy(s) && Tidy(other) && other.bitv.nbits <= s.bitv.nbits
    requires op != Copy && (op == And ==> |s.bitv.storage| <= |other.bitv.storage|)
    ensures var r := OtherOpAsWritten(s, other, op);
            Covers(r.bitv) &&
            forall i: nat :: i in Members(r) <==> ApplyBool(op, i in Members(s), i in Members(other))
  {
    var r := OtherOpAsWritten(s, other, op);
    forall i: nat
      ensures i in Members(r) <==> ApplyBool(op, i in Members(s), i in Members(other))
    {
      if i < s.bitv.nbits {
        var k := i / W;
        assert Get(r.bitv, i) == RawBit(r.bitv, i);
        assert Get(s.bitv, i) == RawBit(s.bitv, i);
        OtherWordBit(other, i);
        if k < |other.bitv.storage| {
          ApplyBit(op, s.bitv.storage[k], Masked(other.bitv, k), i % W);
        } else {
          assert i >= Capacity(other);
        }
      }
    }
  }

  /**
   * `other_op` raising `nbits` to the larger of the two (masking the old last
   * word as `insert` does) and treating the other's missing words as zero.
   */
  function OtherOp(s: BitvSet, other: BitvSet, op: WordOp): (r: BitvSet)
    requires Covers(s.bitv)
    ensures r.bitv.nbits == Max(s.bitv.nbits, other.bitv.nbits)
    ensures |r.bitv.storage| == Max(|s.bitv.storage|, |other.bitv.storage|)
    ensures Tidy(s) && Tidy(other) ==>
              Tidy(r) &&
              forall i: nat :: i in Members(r) <==> ApplyBool(op, i in Members(s), i in Members(other))
  {
    var g := Grow(s, Capacity(other));
    WordsForWhole(|other.bitv.storage|);
    var r := BitvSet(Combine(Lengthen(g.bitv, Max(s.bitv.nbits, other.bitv.nbits)), other.bitv, op));
    if Tidy(s) && Tidy(other) then OtherOpKeeps(s, other, op); r else r
  }

  /** Every word k of b replaced by op(word, word k of other as `OtherWord` reads it). */
  function Combine(b: Bitv, other: Bitv, op: WordOp): (r: Bitv)
    ensures |r.storage| == |b.storage| && r.nbits == b.nbits
  {
    b.(storage := seq(|b.storage|, k requires 0 <= k < |b.storage| => Apply(op, b.storage[k], OtherWord(other, k))))
  }

  lemma CombineBit(b: Bitv, other: Bitv, op: WordOp, i: nat)
    requires i < |b.storage| * W
    ensures RawBit(Combine(b, other, op), i) == ApplyBool(op, RawBit(b, i), Bit(OtherWord(other, i / W), i % W))
  {
    ApplyBit(op, b.storage[i / W], OtherWord(other, i / W), i % W);
  }

  /** Word k of the other set as `OtherOp` reads it: masked, or zero past its storage. */
  function OtherWord(b: Bitv, k: nat): Word
  {
    if k < |b.storage| then Masked(b, k) else 0
  }

  lemma OtherWordBit(o: BitvSet, i: nat)
    requires Tidy(o)
    ensures Bit(OtherWord(o.bitv, i / W), i % W) == (i < Capacity(o) && Contains(o, i))
  {
    if i < Capacity(o) {
      TidyMasked(o, i);
    } else {
      BitConst(i % W);
    }
  }

  lemma OtherOpKeeps(s: BitvSet, other: BitvSet, op: WordOp)
    requires Tidy(s) && Tidy(other)
    ensures var g := Grow(s, Capacity(other));
            var r := BitvSet(Combine(Lengthen(g.bitv, Max(s.bitv.nbits, other.bitv.nbits)), other.bitv, op));
            Tidy(r) && forall i: nat :: i in Members(r) <==> ApplyBool(op, i in Members(s), i in Members(other))
  {
    var g := Grow(s, Capacity(other));
    WordsForWhole(|other.bitv.storage|);

    var n := Max(s.bitv.nbits, other.bitv.nbits);
    var l := Lengthen(g.bitv, n);
    var r := BitvSet(Combine(l, other.bitv, op));
    forall i | 0 <= i < Capacity(r)
      ensures RawBit(r.bitv, i) == ApplyBool(op, Contains(s, i), Contains(other, i))
    {
      GrowRemask(s, Capacity(other), i);
      OtherWordBit(other, i);
      CombineBit(l, other.bitv, op, i);
    }
    forall i: nat
      ensures i in Members(r) <==> ApplyBool(op, i in Members(s), i in Members(other))
    {
    }
  }

  /** `union_with`, with `OtherOp`: the members of either set. */
  function UnionWith(s: BitvSet, other: BitvSet): (r: BitvSet)
    requires Covers(s.bitv)
    ensures Tidy(s) && Tidy(other) ==> Tidy(r) && Members(r) == Members(s) + Members(other)
  {
    OtherOp(s, other, Or)
  }

  /** `intersect_with`, with `OtherOp`: the members of both sets. */
  function IntersectWith(s: BitvSet, other: BitvSet): (r: BitvSet)
    requires Covers(s.bitv)
    ensures Tidy(s) && Tidy(other) ==> Tidy(r) && Members(r) == Members(s) * Members(other)
  {
    OtherOp(s, other, And)
  }

  /** `difference_with`, with `OtherOp`: the members of self not in other. */
  function DifferenceWith(s: BitvSet, other: BitvSet): (r: BitvSet)
    requires Covers(s.bitv)
    ensures Tidy(s) && Tidy(other) ==> Tidy(r) && Members(r) == Members(s) - Members(other)
  {
    OtherOp(s, other, AndNot)
  }

  /** `symmetric_difference_with`, with `OtherOp`: the members of exactly one set. */
  function SymmetricDifferenceWith(s: BitvSet, other: BitvSet): (r: BitvSet)
    requires Covers(s.bitv)
    ensures Tidy(s) && Tidy(other) ==> Tidy(r) && Members(r) == (Members(s) - Members(other)) + (Members(other) - Members(s))
  {
    OtherOp(s, other, Xor)
  }

  /** The code's `union_with` loses a member of the other set above self's `nbits`. */
  lemma UnionWithLosesMembers()
    ensures var s := BitvSet(Bitv([0x200], 10));
            var o := BitvSet(Bitv([0, 0x10_0000_0000], 101));
            var r := OtherOpAsWritten(s, o, Or);
            Tidy(s) && Tidy(o) && Members(s) == {9} && 100 in Members(o) &&
            Covers(r.bitv) && !Contains(r, 100)
  {
    var s := BitvSet(Bitv([0x200], 10));
    var o := BitvSet(Bitv([0, 0x10_0000_0000], 101));
    assert Members(s) == {9} by {
      forall i: nat
        ensures i in Members(s) <==> i == 9
      {
        if i < 10 {
          assert Pow2(9) == 0x200 by {
            assert Pow2(8) == 0x100;
          }
          Pow2Bit(9, i);
        }
      }
    }
    assert Contains(o, 100) by {
      Bit36();
    }
  }

  /** The code's `intersect_with` keeps self's words past the other's storage. */
  lemma IntersectWithKeepsMembers()
    ensures var s := BitvSet(Bitv([0, 0x10_0000_0000], 101));
            var o := BitvSet(Bitv([0x200], 10));
            var r := OtherOpAsWritten(s, o, And);
            Tidy(s) && Tidy(o) && 100 in Members(s) && 100 !in Members(o) &&
            Covers(r.bitv) && Contains(r, 100)
  {
    Bit36();
  }

  /** The word 0x10_0000_0000 of the examples above holds bit 36. */
  lemma Bit36()
    ensures Bit(0x10_0000_0000, 36)
  {
    Pow2Width();
    Pow2Add(32, 4);
    assert Pow2(4) == 16;
    Pow2Bit(36, 36);
  }

  /**
   * Growing under the code's `other_op` turns the stale bits of
   * `from_bitv(Bitv::new(10, true))` into unmasked bits of a word that is no
   * longer the last: `MaskWords` then yields bit 20, which is not a member.
   */
  lemma OtherOpExposesStaleBits()
    ensures var s := FromBitv(New(10, true));
            var o := BitvSet(Bitv([0, 0x10_0000_0000], 101));
            var r := OtherOpAsWritten(s, o, AndNot);
            Tidy(s) && Tidy(o) && Covers(r.bitv) && |r.bitv.storage| == 2 &&
            Bit(Masked(r.bitv, 0), 20) && !Contains(r, 20)
  {
    var s := FromBitv(New(10, true));
    assert s.bitv.storage == [Ones];
    var o := BitvSet(Bitv([0, 0x10_0000_0000], 101));
    var r := OtherOpAsWritten(s, o, AndNot);
    assert Masked(o.bitv, 0) == 0;
    ApplyZero(AndNot, Ones);
    assert r.bitv.storage[0] == Ones;
    BitConst(20);
  }
}
