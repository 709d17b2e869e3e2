/**
 * The packed bit vector `Bitv`: a sequence of 64-bit storage words and the
 * number `nbits` of bits that are meaningful.  Bit i lives in word i / 64 at
 * position i % 64.  Bits of the storage past `nbits` are "don't care": the
 * whole-word operations may leave anything there, and every reader that
 * looks at whole words goes through `MaskWords`, which clears the unused
 * high bits of the final storage word.
 */
module Bitvs {

  import opened Words
  import opened Options

  datatype Bitv = Bitv(storage: seq<Word>, nbits: nat)

  /** The shape `Bitv::new` produces: exactly enough words for `nbits` bits. */
  predicate Valid(b: Bitv)
  {
    |b.storage| == WordsFor(b.nbits)
  }

  /** Every meaningful bit has a storage word (the weaker shape a bit set keeps). */
  predicate Covers(b: Bitv)
  {
    b.nbits <= |b.storage| * W
  }

  /** Bit i of the storage, meaningful or not. */
  predicate RawBit(b: Bitv, i: nat)
    requires i < |b.storage| * W
  {
    Bit(b.storage[i / W], i % W)
  }

  /**
   * `get(i)`: the source asserts i < nbits, and the word must exist.  For a
   * vector of the `new` shape it reads the same bit the masked words hold.
   */
  function Get(b: Bitv, i: nat): (r: bool)
    requires i < b.nbits && i < |b.storage| * W
    ensures Valid(b) ==> r == Bit(Masked(b, i / W), i % W)
  {
    if Valid(b) then ValidMaskedBit(b, i); RawBit(b, i) else RawBit(b, i)
  }

  /** The abstract value of a vector: its meaningful bits in order. */
  function View(b: Bitv): (v: seq<bool>)
    requires Covers(b)
    ensures |v| == b.nbits
  {
    seq(b.nbits, i requires 0 <= i < b.nbits && i < |b.storage| * W => Get(b, i))
  }

  lemma ValidCovers(b: Bitv)
    requires Valid(b)
    ensures Covers(b)
  {
    WordsForCovers(b.nbits);
  }

  // ---------------------------------------------------------------------------
  // Construction and single bits.

  /** `Bitv::new(nbits, init)`: ceil(nbits / 64) words, all zero or all ones. */
  function New(nbits: nat, init: bool): (r: Bitv)
    ensures Valid(r) && Covers(r) && r.nbits == nbits
    ensures forall i :: 0 <= i < nbits ==> Get(r, i) == init
  {
    var r := Bitv(seq(WordsFor(nbits), _ => if init then Ones else 0), nbits);
    WordsForCovers(nbits);
    assert forall i :: 0 <= i < nbits ==> Get(r, i) == init by {
      forall i | 0 <= i < nbits
        ensures Get(r, i) == init
      {
        BitConst(i % W);
      }
    }
    r
  }

  /**
   * `set(i, x)`: ORs in or ANDs out the flag `1 << (i % 64)` of word i / 64.
   * Exactly storage bit i changes; every other storage bit, meaningful or
   * not, keeps its value.
   */
  function Set(b: Bitv, i: nat, x: bool): (r: Bitv)
    requires i < b.nbits && i < |b.storage| * W
    ensures |r.storage| == |b.storage| && r.nbits == b.nbits
    ensures forall j :: 0 <= j < |b.storage| * W ==>
              RawBit(r, j) == if j == i then x else RawBit(b, j)
  {
    var w := i / W;
    var r := b.(storage := b.storage[w := SetWord(b.storage[w], i % W, x)]);
    assert forall j :: 0 <= j < |b.storage| * W ==>
             RawBit(r, j) == if j == i then x else RawBit(b, j) by {
      forall j | 0 <= j < |b.storage| * W
        ensures RawBit(r, j) == if j == i then x else RawBit(b, j)
      {
        SetRawBit(b, i, x, j);
      }
    }
    r
  }

  /** The word with flag c forced to x. */
  function SetWord(w: Word, c: nat, x: bool): Word
    requires c < W
  {
    if x then Apply(Or, w, Flag(c)) else Apply(AndNot, w, Flag(c))
  }

  lemma SetWordBit(w: Word, c: nat, x: bool, d: nat)
    requires c < W && d < W
    ensures Bit(SetWord(w, c, x), d) == if d == c then x else Bit(w, d)
  {
    if x {
      BitFlagSet(w, c, d);
    } else {
      BitFlagClear(w, c, d);
    }
  }

  lemma SetRawBit(b: Bitv, i: nat, x: bool, j: nat)
    requires i < |b.storage| * W && j < |b.storage| * W
    ensures var r := b.(storage := b.storage[i / W := SetWord(b.storage[i / W], i % W, x)]);
            RawBit(r, j) == if j == i then x else RawBit(b, j)
  {
    if j / W == i / W {
      SetWordBit(b.storage[i / W], i % W, x, j % W);
      assert j == i <==> j % W == i % W;
    }
  }

  /** Reading back a bit just set gives the value written; the others are unchanged. */
  lemma GetSet(b: Bitv, i: nat, x: bool, j: nat)
    requires i < b.nbits && i < |b.storage| * W
    requires j < b.nbits && j < |b.storage| * W
    ensures Get(Set(b, i, x), j) == if j == i then x else Get(b, j)
  {
  }

  // ---------------------------------------------------------------------------
  // Masked words.

  /**
   * Word k as the masking iterator yields it: the final storage word is ANDed
   * with `LastWordMask(nbits)`, every other word passes unchanged.
   */
  function Masked(b: Bitv, k: nat): Word
    requires k < |b.storage|
  {
    if k + 1 == |b.storage| then Apply(And, b.storage[k], LastWordMask(b.nbits)) else b.storage[k]
  }

  /**
   * `mask_words(start)`: the pairs (offset, masked word) from word `start`
   * (clamped to the storage length) to the end.
   */
  function MaskWords(b: Bitv, start: nat): (r: seq<(nat, Word)>)
    ensures |r| == |b.storage| - Min(start, |b.storage|)
    ensures forall j :: 0 <= j < |r| ==>
              r[j].0 == Min(start, |b.storage|) + j && r[j].0 < |b.storage| &&
              r[j].1 == Masked(b, r[j].0)
  {
    var s := Min(start, |b.storage|);
    seq(|b.storage| - s, (j: nat) requires j < |b.storage| - s => var k: nat := s + j; (k, Masked(b, k)))
  }

  /**
   * A bit of a masked word: the storage bit, cleared when it lies in the
   * final storage word at or above `nbits % 64`.
   */
  lemma MaskedBit(b: Bitv, i: nat)
    requires i < |b.storage| * W
    ensures Bit(Masked(b, i / W), i % W) ==
            (RawBit(b, i) && (i / W + 1 < |b.storage| || b.nbits % W == 0 || i % W < b.nbits % W))
  {
    MaskedWordBit(b, i / W, i % W);
  }

  lemma MaskedWordBit(b: Bitv, k: nat, c: nat)
    requires k < |b.storage| && c < W
    ensures Bit(Masked(b, k), c) ==
            (Bit(b.storage[k], c) && (k + 1 < |b.storage| || b.nbits % W == 0 || c < b.nbits % W))
  {
    if k + 1 == |b.storage| {
      ApplyBit(And, b.storage[k], LastWordMask(b.nbits), c);
      BitLastWordMask(b.nbits, c);
    }
  }

  /** For a vector of the `new` shape, masking keeps exactly the meaningful bits. */
  lemma ValidMaskedBit(b: Bitv, i: nat)
    requires Valid(b) && i < |b.storage| * W
    ensures Bit(Masked(b, i / W), i % W) == (i < b.nbits && RawBit(b, i))
  {
    MaskedBit(b, i);
    WordsForLast(b.nbits, i);
  }

  // ---------------------------------------------------------------------------
  // The `MaskWords` iterator.

  /**
   * The iterator state: the words not yet looked at, the word to be yielded
   * next, the mask for the final word and the offset of the next word.
   */
  datatype MaskWordsIter = MaskWordsIter(iter: seq<Word>, nextWord: Option<Word>, lastWordMask: Word, offset: nat)

  /** `mask_words(start)`: clamps start and primes the iterator with its first word. */
  function MaskWordsOf(b: Bitv, start: nat): MaskWordsIter
  {
    var s := Min(start, |b.storage|);
    var rest := b.storage[s..];
    MaskWordsIter(if |rest| > 0 then rest[1..] else [],
                  if |rest| > 0 then Some(rest[0]) else None,
                  LastWordMask(b.nbits), s)
  }

  /**
   * `MaskWords::next`: yields (offset, word), masking the word when no word
   * follows it, and advances by one word.
   */
  function MaskWordsNext(it: MaskWordsIter): (r: (Option<(nat, Word)>, MaskWordsIter))
    ensures r.0.None? <==> it.nextWord.None?
    ensures r.0.Some? ==> Remaining(r.1) < Remaining(it) && r.0.value.0 == it.offset
  {
    match it.nextWord
    case None => (None, it)
    case Some(w) =>
      var following := if |it.iter| > 0 then Some(it.iter[0]) else None;
      var it' := it.(iter := if |it.iter| > 0 then it.iter[1..] else [],
                     nextWord := following, offset := it.offset + 1);
      if following.None? then (Some((it.offset, Apply(And, w, it.lastWordMask))), it')
      else (Some((it.offset, w)), it')
  }

  /** Words the iterator has still to yield. */
  function Remaining(it: MaskWordsIter): nat
  {
    |it.iter| + if it.nextWord.Some? then 1 else 0
  }

  /** Everything the iterator yields, calling `next` until it answers None. */
  function Drain(it: MaskWordsIter): seq<(nat, Word)>
    decreases Remaining(it)
  {
    var step := MaskWordsNext(it);
    if step.0.None? then [] else [step.0.value] + Drain(step.1)
  }

  /** Draining the iterator gives exactly `MaskWords`. */
  lemma DrainMaskWords(b: Bitv, start: nat)
    ensures Drain(MaskWordsOf(b, start)) == MaskWords(b, start)
  {
    var s := Min(start, |b.storage|);
    if s < |b.storage| {
      assert b.storage[s..][1..] == b.storage[s + 1..];
      DrainFrom(b, s);
    }
  }

  lemma {:induction false} DrainFrom(b: Bitv, j: nat)
    requires j < |b.storage|
    ensures Drain(MaskWordsIter(b.storage[j + 1..], Some(b.storage[j]), LastWordMask(b.nbits), j)) ==
            MaskWords(b, j)
    decreases |b.storage| - j
  {
    DrainStep(b, j);
    MaskWordsCons(b, j);
    if j + 1 < |b.storage| {
      DrainFrom(b, j + 1);
    }
  }

  /** One call of `next` on the iterator positioned at word j. */
  lemma DrainStep(b: Bitv, j: nat)
    requires j < |b.storage|
    ensures var mask := LastWordMask(b.nbits);
            Drain(MaskWordsIter(b.storage[j + 1..], Some(b.storage[j]), mask, j)) ==
            [(j, Masked(b, j))] +
            if j + 1 < |b.storage|
            then Drain(MaskWordsIter(b.storage[j + 2..], Some(b.storage[j + 1]), mask, j + 1))
            else []
  {
    if j + 1 < |b.storage| {
      DrainStepInner(b, j);
    } else {
      DrainStepLast(b, j);
    }
  }

  lemma DrainStepInner(b: Bitv, j: nat)
    requires j + 1 < |b.storage|
    ensures var mask := LastWordMask(b.nbits);
            Drain(MaskWordsIter(b.storage[j + 1..], Some(b.storage[j]), mask, j)) ==
            [(j, b.storage[j])] + Drain(MaskWordsIter(b.storage[j + 2..], Some(b.storage[j + 1]), mask, j + 1))
  {
    assert b.storage[j + 1..][1..] == b.storage[j + 2..];
    NextInner(b.storage[j + 1..], b.storage[j], LastWordMask(b.nbits), j);
  }

  lemma NextInner(rest: seq<Word>, w: Word, mask: Word, j: nat)
    requires |rest| > 0
    ensures Drain(MaskWordsIter(rest, Some(w), mask, j)) ==
            [(j, w)] + Drain(MaskWordsIter(rest[1..], Some(rest[0]), mask, j + 1))
  {
    var it := MaskWordsIter(rest, Some(w), mask, j);
    assert MaskWordsNext(it) == (Some((j, w)), MaskWordsIter(rest[1..], Some(rest[0]), mask, j + 1));
  }

  lemma DrainStepLast(b: Bitv, j: nat)
    requires j + 1 == |b.storage|
    ensures var mask := LastWordMask(b.nbits);
            Drain(MaskWordsIter(b.storage[j + 1..], Some(b.storage[j]), mask, j)) ==
            [(j, Apply(And, b.storage[j], mask))]
  {
    assert b.storage[j + 1..] == [];
    NextLast(b.storage[j], LastWordMask(b.nbits), j);
  }

  lemma NextLast(w: Word, mask: Word, j: nat)
    ensures Drain(MaskWordsIter([], Some(w), mask, j)) == [(j, Apply(And, w, mask))]
  {
    var it := MaskWordsIter([], Some(w), mask, j);
    var it' := MaskWordsIter([], None, mask, j + 1);
    assert MaskWordsNext(it) == (Some((j, Apply(And, w, mask))), it');
    assert Drain(it') == [];
  }

  lemma MaskWordsCons(b: Bitv, j: nat)
    requires j < |b.storage|
    ensures MaskWords(b, j) == [(j, Masked(b, j))] + MaskWords(b, j + 1)
  {
    var m0, m1 := MaskWords(b, j), MaskWords(b, j + 1);
    assert |m0| == |m1| + 1;
    forall t | 0 <= t < |m0|
      ensures m0[t] == ([(j, Masked(b, j))] + m1)[t]
    {
      if t > 0 {
        assert m0[t] == m1[t - 1];
      }
    }
  }

  // ---------------------------------------------------------------------------
  // Whole-word binary operations.

  /**
   * `process(other, op)`: the storage lengths must agree.  Each word of self
   * is replaced by op(word, masked word of other); the answer says whether
   * any stored word changed.
   */
  method Process(b: Bitv, other: Bitv, op: WordOp) returns (r: Bitv, changed: bool)
    requires |b.storage| == |other.storage|
    ensures r.nbits == b.nbits && |r.storage| == |b.storage|
    ensures forall k :: 0 <= k < |b.storage| ==> r.storage[k] == Apply(op, b.storage[k], Masked(other, k))
    ensures changed <==> exists k :: 0 <= k < |b.storage| && r.storage[k] != b.storage[k]
  {
    var ws := MaskWords(other, 0);
    var storage := b.storage;
    changed := false;
    var k := 0;
    while k < |storage|
      invariant 0 <= k <= |storage| == |b.storage|
      invariant forall j :: 0 <= j < k ==> storage[j] == Apply(op, b.storage[j], Masked(other, j))
      invariant forall j :: k <= j < |storage| ==> storage[j] == b.storage[j]
      invariant changed <==> exists j :: 0 <= j < k && storage[j] != b.storage[j]
    {
      var w := Apply(op, storage[k], ws[k].1);
      if storage[k] != w {
        changed := true;
        storage := storage[k := w];
      }
      k := k + 1;
    }
    r := b.(storage := storage);
  }

  /**
   * After `process` with two `new`-shaped vectors, each meaningful bit of the
   * result is op applied to the old bit and the other's bit, the other's bit
   * reading false past its own length.
   */
  lemma ProcessBits(b: Bitv, other: Bitv, op: WordOp, r: Bitv, i: nat)
    requires |b.storage| == |other.storage| && Valid(other)
    requires r.nbits == b.nbits && |r.storage| == |b.storage|
    requires forall k :: 0 <= k < |b.storage| ==> r.storage[k] == Apply(op, b.storage[k], Masked(other, k))
    requires i < |b.storage| * W
    ensures RawBit(r, i) == ApplyBool(op, RawBit(b, i), i < other.nbits && RawBit(other, i))
  {
    ApplyBit(op, b.storage[i / W], Masked(other, i / W), i % W);
    ValidMaskedBit(other, i);
  }

  /** The operation behind `union`, `intersect`, `difference` and `assign`. */
  method BinaryOp(b: Bitv, other: Bitv, op: WordOp) returns (r: Bitv, changed: bool)
    requires |b.storage| == |other.storage|
    ensures r.nbits == b.nbits && |r.storage| == |b.storage|
    ensures Valid(other) ==>
              forall i :: 0 <= i < |b.storage| * W ==>
                RawBit(r, i) == ApplyBool(op, RawBit(b, i), i < other.nbits && RawBit(other, i))
    ensures changed <==> r != b
  {
    r, changed := Process(b, other, op);
    if Valid(other) {
      forall i | 0 <= i < |b.storage| * W
        ensures RawBit(r, i) == ApplyBool(op, RawBit(b, i), i < other.nbits && RawBit(other, i))
      {
        ProcessBits(b, other, op, r, i);
      }
    }
    if changed {
      var k :| 0 <= k < |b.storage| && r.storage[k] != b.storage[k];
      assert r.storage != b.storage;
    } else {
      assert r.storage == b.storage;
    }
  }

  /** `union`: each bit becomes the OR of the two; the answer says whether self changed. */
  method Union(b: Bitv, other: Bitv) returns (r: Bitv, changed: bool)
    requires |b.storage| == |other.storage|
    ensures r.nbits == b.nbits && |r.storage| == |b.storage|
    ensures Valid(other) ==>
              forall i :: 0 <= i < |b.storage| * W ==>
                RawBit(r, i) == (RawBit(b, i) || (i < other.nbits && RawBit(other, i)))
    ensures changed <==> r != b
  {
    r, changed := BinaryOp(b, other, Or);
  }

  /** `intersect`: each bit becomes the AND of the two. */
  method Intersect(b: Bitv, other: Bitv) returns (r: Bitv, changed: bool)
    requires |b.storage| == |other.storage|
    ensures r.nbits == b.nbits && |r.storage| == |b.storage|
    ensures Valid(other) ==>
              forall i :: 0 <= i < |b.storage| * W ==>
                RawBit(r, i) == (RawBit(b, i) && i < other.nbits && RawBit(other, i))
    ensures changed <==> r != b
  {
    r, changed := BinaryOp(b, other, And);
  }

  /** `difference`: each bit stays set only where the other's bit is clear. */
  method Difference(b: Bitv, other: Bitv) returns (r: Bitv, changed: bool)
    requires |b.storage| == |other.storage|
    ensures r.nbits == b.nbits && |r.storage| == |b.storage|
    ensures Valid(other) ==>
              forall i :: 0 <= i < |b.storage| * W ==>
                RawBit(r, i) == (RawBit(b, i) && !(i < other.nbits && RawBit(other, i)))
    ensures changed <==> r != b
  {
    r, changed := BinaryOp(b, other, AndNot);
  }

  /** `assign`: each bit becomes the other's bit. */
  method Assign(b: Bitv, other: Bitv) returns (r: Bitv, changed: bool)
    requires |b.storage| == |other.storage|
    ensures r.nbits == b.nbits && |r.storage| == |b.storage|
    ensures Valid(other) ==>
              forall i :: 0 <= i < |b.storage| * W ==>
                RawBit(r, i) == (i < other.nbits && RawBit(other, i))
    ensures changed <==> r != b
  {
    r, changed := BinaryOp(b, other, Copy);
  }

  // ---------------------------------------------------------------------------
  // Whole-word rewrites.  They touch every storage word, meaningful bits and
  // stale bits alike.

  /** `clear`: every word becomes zero. */
  function Clear(b: Bitv): (r: Bitv)
    ensures |r.storage| == |b.storage| && r.nbits == b.nbits
    ensures forall i :: 0 <= i < |b.storage| * W ==> !RawBit(r, i)
  {
    var r := b.(storage := seq(|b.storage|, _ => 0));
    assert forall i :: 0 <= i < |b.storage| * W ==> !RawBit(r, i) by {
      forall i | 0 <= i < |b.storage| * W
        ensures !RawBit(r, i)
      {
        BitConst(i % W);
      }
    }
    r
  }

  /** `set_all`: every word becomes all ones. */
  function SetAll(b: Bitv): (r: Bitv)
    ensures |r.storage| == |b.storage| && r.nbits == b.nbits
    ensures forall i :: 0 <= i < |b.storage| * W ==> RawBit(r, i)
  {
    var r := b.(storage := seq(|b.storage|, _ => Ones));
    assert forall i :: 0 <= i < |b.storage| * W ==> RawBit(r, i) by {
      forall i | 0 <= i < |b.storage| * W
        ensures RawBit(r, i)
      {
        BitConst(i % W);
      }
    }
    r
  }

  /** `negate`: every word is complemented. */
  function Negate(b: Bitv): (r: Bitv)
    ensures |r.storage| == |b.storage| && r.nbits == b.nbits
    ensures forall i :: 0 <= i < |b.storage| * W ==> RawBit(r, i) == !RawBit(b, i)
  {
    var r := b.(storage := seq(|b.storage|, k requires 0 <= k < |b.storage| => Not(b.storage[k])));
    assert forall i :: 0 <= i < |b.storage| * W ==> RawBit(r, i) == !RawBit(b, i) by {
      forall i | 0 <= i < |b.storage| * W
        ensures RawBit(r, i) == !RawBit(b, i)
      {
        BitNot(b.storage[i / W], i % W);
      }
    }
    r
  }

  /** Negating twice gives back the same storage. */
  lemma NegateTwice(b: Bitv)
    ensures Negate(Negate(b)) == b
  {
    var r := Negate(Negate(b));
    forall k | 0 <= k < |b.storage|
      ensures r.storage[k] == b.storage[k]
    {
      forall c | 0 <= c < W
        ensures Bit(r.storage[k], c) == Bit(b.storage[k], c)
      {
        DivMod(k, c);
        assert RawBit(r, k * W + c) == RawBit(b, k * W + c);
      }
      WordExt(r.storage[k], b.storage[k]);
    }
  }
}
