/**
 * Whole-vector queries of `Bitv`: `all`, `none`, `any`, equality and
 * `eq_vec`.  The word-scanning ones read the storage through `MaskWords`, so
 * stale bits past `nbits` never influence an answer.
 */
module BitvQueries {

  import opened Words
  import opened Bitvs

  // ---------------------------------------------------------------------------
  // Bits of masked words.

  /**
   * Inside the storage of a `new`-shaped vector, position k * 64 + c is
   * meaningful exactly when word k is not the last one or c is kept by the
   * final word's mask.
   */
  lemma InRange(b: Bitv, k: nat, c: nat)
    requires Valid(b) && k < |b.storage| && c < W
    ensures (k * W + c < b.nbits) == (k + 1 < |b.storage| || Bit(LastWordMask(b.nbits), c))
  {
    DivMod(k, c);
    WordsForLast(b.nbits, k * W + c);
    BitLastWordMask(b.nbits, c);
  }

  /** Bit c of masked word k, as a meaningful bit of the vector. */
  lemma MaskedWordGet(b: Bitv, k: nat, c: nat)
    requires Valid(b) && k < |b.storage| && c < W
    ensures Bit(Masked(b, k), c) == (k * W + c < b.nbits && RawBit(b, k * W + c))
  {
    DivMod(k, c);
    ValidMaskedBit(b, k * W + c);
  }

  // ---------------------------------------------------------------------------
  // `all`.

  /**
   * The state `all` threads through its closure: whether the scan is still
   * succeeding, and the word it saw last.
   */
  datatype Scan = Scan(ok: bool, lastWord: Word)

  /**
   * The closure of `all` over the masked words: each step remembers the
   * current word and answers whether the previously remembered one was all
   * ones; the scan stops at the first false answer.
   */
  function AllScan(ws: seq<(nat, Word)>, lastWord: Word): (r: Scan)
    ensures r.ok <==> |ws| == 0 || (lastWord == Ones && forall j :: 0 <= j < |ws| - 1 ==> ws[j].1 == Ones)
    ensures r.ok ==> r.lastWord == if |ws| == 0 then lastWord else ws[|ws| - 1].1
  {
    if |ws| == 0 then Scan(true, lastWord)
    else if lastWord != Ones then Scan(false, ws[0].1)
    else AllScan(ws[1..], ws[0].1)
  }

  /**
   * `all` as written: every masked word but the last is all ones, and the
   * last one equals `(1 << nbits % 64) - 1` or is all ones.
   */
  function AllAsWritten(b: Bitv): (r: bool)
    ensures AllSet(b) ==> r
    ensures Valid(b) && b.nbits % W != 0 ==> (r <==> AllSet(b))
  {
    var s := AllScan(MaskWords(b, 0), Ones);
    var r := s.ok && (s.lastWord == Pow2(b.nbits % W) - 1 || s.lastWord == Ones);
    if Valid(b) && b.nbits % W != 0 then
      AllScanWords(b);
      LastMaskedNotOnes(b);
      r
    else
      r
  }

  /**
   * `all`, comparing the last masked word with the mask `MaskWords` applied to
   * it.  This differs from the code only when `nbits` is a positive multiple
   * of 64, where the code also accepts an all-zero last word.
   */
  function AllSet(b: Bitv): bool
  {
    var s := AllScan(MaskWords(b, 0), Ones);
    s.ok && s.lastWord == LastWordMask(b.nbits)
  }

  /** What the scan of `all` establishes about the masked words of a vector. */
  lemma AllScanWords(b: Bitv)
    ensures var s := AllScan(MaskWords(b, 0), Ones);
            (s.ok <==> forall k :: 0 <= k < |b.storage| - 1 ==> Masked(b, k) == Ones) &&
            (s.ok ==> s.lastWord == if |b.storage| == 0 then Ones else Masked(b, |b.storage| - 1))
  {
    var ws := MaskWords(b, 0);
    if forall k :: 0 <= k < |b.storage| - 1 ==> Masked(b, k) == Ones {
      assert forall j :: 0 <= j < |ws| - 1 ==> ws[j].1 == Ones;
    } else {
      var k :| 0 <= k < |b.storage| - 1 && Masked(b, k) != Ones;
      assert ws[k].1 != Ones;
    }
  }

  /** `all` holds exactly when every meaningful bit is set. */
  lemma AllSetMeaning(b: Bitv)
    requires Valid(b)
    ensures Covers(b)
    ensures AllSet(b) <==> forall i :: 0 <= i < b.nbits ==> Get(b, i)
  {
    ValidCovers(b);
    var n := |b.storage|;
    AllScanWords(b);
    if forall i :: 0 <= i < b.nbits ==> Get(b, i) {
      forall k | 0 <= k < n
        ensures Masked(b, k) == if k + 1 < n then Ones else LastWordMask(b.nbits)
      {
        forall c | 0 <= c < W
          ensures Bit(Masked(b, k), c) == Bit(if k + 1 < n then Ones else LastWordMask(b.nbits), c)
        {
          MaskedWordGet(b, k, c);
          InRange(b, k, c);
          BitConst(c);
          if k * W + c < b.nbits {
            assert Get(b, k * W + c);
          }
        }
        WordExt(Masked(b, k), if k + 1 < n then Ones else LastWordMask(b.nbits));
      }
      if n == 0 {
        assert LastWordMask(b.nbits) == Ones;
      }
    }
    if AllSet(b) {
      forall i | 0 <= i < b.nbits
        ensures Get(b, i)
      {
        var k, c := i / W, i % W;
        assert i == k * W + c;
        MaskedWordGet(b, k, c);
        InRange(b, k, c);
        if k + 1 < n {
          BitConst(c);
        }
      }
    }
  }

  /**
   * When `nbits` is not a multiple of 64, the last masked word of a
   * `new`-shaped vector has its top bit clear, so it is not all ones.
   */
  lemma LastMaskedNotOnes(b: Bitv)
    requires Valid(b) && b.nbits % W != 0
    ensures |b.storage| > 0 && Masked(b, |b.storage| - 1) != Ones
    ensures Pow2(b.nbits % W) - 1 == LastWordMask(b.nbits)
  {
    var n := |b.storage|;
    assert n > 0;
    BitLastWordMask(b.nbits, W - 1);
    MaskedWordBit(b, n - 1, W - 1);
    BitConst(W - 1);
  }

  /**
   * With `nbits` a positive multiple of 64 the code's `all` compares the last
   * word with `(1 << 0) - 1`, which is zero: a vector of 64 clear bits passes.
   */
  lemma AllAsWrittenAcceptsClear()
    ensures var b := New(W, false);
            AllAsWritten(b) && !AllSet(b)
  {
    var b := New(W, false);
    assert WordsFor(W) == 1;
    assert b.storage == [0];
    AllScanWords(b);
    ApplyZero(And, LastWordMask(W));
    assert Masked(b, 0) == 0;
    AllSetMeaning(b);
    assert !Get(b, 0);
  }

  // ---------------------------------------------------------------------------
  // `none` and `any`.

  /** Every word of ws is zero. */
  predicate ZeroWords(ws: seq<(nat, Word)>)
  {
    forall j :: 0 <= j < |ws| ==> ws[j].1 == 0
  }

  /**
   * `none`: every masked word is zero.  For a vector of the `new` shape this
   * holds exactly when no meaningful bit is set.
   */
  function NoneSet(b: Bitv): (r: bool)
    ensures Valid(b) ==> Covers(b) && (r <==> forall i :: 0 <= i < b.nbits ==> !Get(b, i))
  {
    var r := ZeroWords(MaskWords(b, 0));
    if Valid(b) then ZeroWordsMeaning(b); r else r
  }

  /** `any`: the negation of `none`, so some meaningful bit is set. */
  function AnySet(b: Bitv): (r: bool)
    ensures Valid(b) ==> Covers(b) && (r <==> exists i :: 0 <= i < b.nbits && Get(b, i))
  {
    !NoneSet(b)
  }

  lemma ZeroWordsMeaning(b: Bitv)
    requires Valid(b)
    ensures Covers(b)
    ensures ZeroWords(MaskWords(b, 0)) <==> forall i :: 0 <= i < b.nbits ==> !Get(b, i)
  {
    ValidCovers(b);
    var ws := MaskWords(b, 0);
    if forall i :: 0 <= i < b.nbits ==> !Get(b, i) {
      forall j | 0 <= j < |ws|
        ensures ws[j].1 == 0
      {
        forall c | 0 <= c < W
          ensures !Bit(Masked(b, j), c)
        {
          MaskedWordGet(b, j, c);
          if j * W + c < b.nbits {
            assert !Get(b, j * W + c);
          }
        }
        ZeroWord(Masked(b, j));
      }
    }
    if ZeroWords(ws) {
      forall i | 0 <= i < b.nbits
        ensures !Get(b, i)
      {
        var k, c := i / W, i % W;
        assert i == k * W + c;
        assert ws[k].1 == 0;
        MaskedWordGet(b, k, c);
        ZeroWord(Masked(b, k));
      }
    }
  }

  /**
   * A fresh vector of zeros has no bit set; one of ones has every bit set,
   * and the code's `all` accepts it too.
   */
  lemma NewNoneAll(n: nat)
    ensures NoneSet(New(n, false)) && !AnySet(New(n, false))
    ensures AllSet(New(n, true)) && AllAsWritten(New(n, true))
  {
    AllSetMeaning(New(n, true));
  }

  // ---------------------------------------------------------------------------
  // Equality.

  /** The masked words agree pairwise (the zip stops at the shorter storage). */
  predicate MaskedAgree(a: Bitv, b: Bitv)
  {
    var xs, ys := MaskWords(a, 0), MaskWords(b, 0);
    forall j :: 0 <= j < |xs| && j < |ys| ==> xs[j].1 == ys[j].1
  }

  /**
   * `eq`: equal `nbits` and pairwise equal masked words.  Two `new`-shaped
   * vectors are equal exactly when they have the same meaningful bits; stale
   * bits past `nbits` do not matter.
   */
  function Eq(a: Bitv, b: Bitv): (r: bool)
    ensures Valid(a) && Valid(b) ==> Covers(a) && Covers(b) && (r <==> View(a) == View(b))
  {
    var r := a.nbits == b.nbits && MaskedAgree(a, b);
    if Valid(a) && Valid(b) then
      ValidCovers(a);
      ValidCovers(b);
      if r then EqSameBits(a, b); r
      else if View(a) == View(b) then SameBitsEq(a, b); r
      else r
    else
      r
  }

  /** Agreeing masked words give the same meaningful bits. */
  lemma EqSameBits(a: Bitv, b: Bitv)
    requires Valid(a) && Valid(b) && Covers(a) && Covers(b)
    requires a.nbits == b.nbits && MaskedAgree(a, b)
    ensures View(a) == View(b)
  {
    var xs, ys := MaskWords(a, 0), MaskWords(b, 0);
    forall i | 0 <= i < a.nbits
      ensures View(a)[i] == View(b)[i]
    {
      var k, c := i / W, i % W;
      assert i == k * W + c;
      assert xs[k].1 == ys[k].1;
      MaskedWordGet(a, k, c);
      MaskedWordGet(b, k, c);
    }
  }

  /** The same meaningful bits give agreeing masked words. */
  lemma SameBitsEq(a: Bitv, b: Bitv)
    requires Valid(a) && Valid(b) && Covers(a) && Covers(b)
    requires View(a) == View(b)
    ensures a.nbits == b.nbits && MaskedAgree(a, b)
  {
    var xs, ys := MaskWords(a, 0), MaskWords(b, 0);
    forall j | 0 <= j < |xs| && j < |ys|
      ensures xs[j].1 == ys[j].1
    {
      forall c | 0 <= c < W
        ensures Bit(Masked(a, j), c) == Bit(Masked(b, j), c)
      {
        MaskedWordGet(a, j, c);
        MaskedWordGet(b, j, c);
        if j * W + c < a.nbits {
          assert View(a)[j * W + c] == View(b)[j * W + c];
        }
      }
      WordExt(Masked(a, j), Masked(b, j));
    }
  }

  /**
   * `eq_vec`: the lengths must agree; compares bit by bit and stops at the
   * first difference.
   */
  method EqVec(b: Bitv, v: seq<bool>) returns (r: bool)
    requires b.nbits == |v| && Covers(b)
    ensures r <==> View(b) == v
  {
    var i := 0;
    while i < b.nbits
      invariant 0 <= i <= b.nbits
      invariant forall j :: 0 <= j < i ==> View(b)[j] == v[j]
    {
      if Get(b, i) != v[i] {
        assert View(b)[i] != v[i];
        return false;
      }
      i := i + 1;
    }
    return true;
  }
}
