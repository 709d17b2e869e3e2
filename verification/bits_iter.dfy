/**
 * `Bits`, the double-ended, random-access iterator over the bits of a
 * `Bitv`.  Its state is the window [nextIdx, endIdx) of bit indices still to
 * be yielded; `next` takes from the front of the window and `next_back` from
 * the back.
 */
module BitsIter {

  import opened Words
  import opened Options
  import opened Bitvs

  datatype Bits = Bits(bitv: Bitv, nextIdx: nat, endIdx: nat)

  /** The window lies inside the vector, whose bits all have storage. */
  predicate Inv(it: Bits)
  {
    Covers(it.bitv) && it.nextIdx <= it.endIdx <= it.bitv.nbits
  }

  /** The bits still to be yielded, in order. */
  function Window(it: Bits): seq<bool>
    requires Inv(it)
  {
    View(it.bitv)[it.nextIdx..it.endIdx]
  }

  /** `Bitv::iter`: the window is the whole vector. */
  function Iter(b: Bitv): (it: Bits)
    requires Covers(b)
    ensures Inv(it) && Window(it) == View(b)
  {
    Bits(b, 0, b.nbits)
  }

  /** `next`: yields the bit at the front of the window and drops it. */
  function Next(it: Bits): (r: (Option<bool>, Bits))
    requires Inv(it)
    ensures Inv(r.1) && r.1.bitv == it.bitv
    ensures |Window(it)| == 0 ==> r.0 == None && Window(r.1) == Window(it)
    ensures |Window(it)| > 0 ==> r.0 == Some(Window(it)[0]) && Window(r.1) == Window(it)[1..]
  {
    if it.nextIdx != it.endIdx then
      (Some(Get(it.bitv, it.nextIdx)), it.(nextIdx := it.nextIdx + 1))
    else
      (None, it)
  }

  /** `next_back`: yields the bit at the back of the window and drops it. */
  function NextBack(it: Bits): (r: (Option<bool>, Bits))
    requires Inv(it)
    ensures Inv(r.1) && r.1.bitv == it.bitv
    ensures |Window(it)| == 0 ==> r.0 == None && Window(r.1) == Window(it)
    ensures |Window(it)| > 0 ==>
              r.0 == Some(Window(it)[|Window(it)| - 1]) && Window(r.1) == Window(it)[..|Window(it)| - 1]
  {
    if it.nextIdx != it.endIdx then
      WindowBack(it);
      (Some(Get(it.bitv, it.endIdx - 1)), it.(endIdx := it.endIdx - 1))
    else
      (None, it)
  }

  /** Dropping the back of a non-empty window drops the last bit of its sequence. */
  lemma WindowBack(it: Bits)
    requires Inv(it) && it.nextIdx < it.endIdx
    ensures var w := Window(it);
            |w| > 0 && w[|w| - 1] == Get(it.bitv, it.endIdx - 1) &&
            Window(it.(endIdx := it.endIdx - 1)) == w[..|w| - 1]
  {
    var v := View(it.bitv);
    var w := v[it.nextIdx..it.endIdx];
    assert |w| == it.endIdx - it.nextIdx;
    assert w[|w| - 1] == v[it.endIdx - 1];
    assert v[it.nextIdx..it.endIdx - 1] == w[..|w| - 1];
  }

  /** `size_hint`: exact lower and upper bounds. */
  function SizeHint(it: Bits): (r: (nat, Option<nat>))
    requires Inv(it)
    ensures r.0 == |Window(it)| && r.1.Some? && r.1.value == |Window(it)|
  {
    (it.endIdx - it.nextIdx, Some(it.endIdx - it.nextIdx))
  }

  /** `indexable`: the number of bits still to be yielded. */
  function Indexable(it: Bits): (n: nat)
    requires Inv(it)
    ensures n == |Window(it)|
  {
    it.endIdx - it.nextIdx
  }

  /**
   * `idx(index)` as written: for an index inside the window's length it
   * reads bit `index` of the vector, counted from bit 0 rather than from the
   * front of the window.  It agrees with `Idx` until `next` has moved the
   * front.
   */
  function IdxAsWritten(it: Bits, index: nat): (r: Option<bool>)
    requires Inv(it)
    ensures index < |Window(it)| ==> r == Some(View(it.bitv)[index])
    ensures index >= |Window(it)| ==> r == None
    ensures it.nextIdx == 0 ==> r == Idx(it, index)
  {
    if index >= Indexable(it) then None else Some(Get(it.bitv, index))
  }

  /** `idx(index)` reading the index-th bit still to be yielded. */
  function Idx(it: Bits, index: nat): (r: Option<bool>)
    requires Inv(it)
    ensures index < |Window(it)| ==> r == Some(Window(it)[index])
    ensures index >= |Window(it)| ==> r == None
  {
    if index >= Indexable(it) then None else Some(Get(it.bitv, it.nextIdx + index))
  }

  /** Everything `next` yields until it answers None. */
  function Collect(it: Bits): (r: seq<bool>)
    requires Inv(it)
    ensures r == Window(it)
    decreases it.endIdx - it.nextIdx
  {
    var (x, it') := Next(it);
    match x
    case None => []
    case Some(v) => [v] + Collect(it')
  }

  /** `idx(j)` and the j-th call of `next` agree once the front has moved. */
  lemma IdxAsWrittenDisagrees()
    ensures var b := Bitv([1], 2);
            var it := Next(Iter(b)).1;
            IdxAsWritten(it, 0) == Some(true) && Collect(it) == [false]
  {
    var b := Bitv([1], 2);
    BitConst(0);
    assert RawBit(b, 0) by {
      assert Bit(1, 0);
    }
    assert !RawBit(b, 1) by {
      assert !Bit(1, 1);
    }
    assert View(b) == [true, false];
  }
}
