/**
 * The visitor-driven enumerations of `BitvSet` (`union`, `intersection`,
 * `difference`, `symmetric_difference`), the subset and disjointness tests
 * built on the same word walks, and the `BitPositions` iterator.
 *
 * The enumerations walk the masked words of both sets in two phases: the
 * words both storages have (`commons`), then the words only the longer
 * storage has (`outliers`).  Under the set invariant each of them offers the
 * members of the resulting set to the visitor in ascending order, stopping
 * at the first one the visitor rejects, and answers whether it ran to
 * completion.
 */
module BitvSetOps {

  import opened Sorted
  import opened Options
  import opened Words
  import opened Bitvs
  import opened BitvSets

  // ---------------------------------------------------------------------------
  // Word walks.

  /**
   * `iterate_bits(base, bits, f)`: offers base + i to f for each set bit i of
   * bits, low to high, returning at once for a zero word.
   */
  function IterateBits(base: nat, bits: Word, f: nat -> bool): Visit
  {
    if bits == 0 then Visit([], true) else Walk(BitsOf(base, bits), f)
  }

  /** Returning at once for a zero word is only a shortcut: the visit is the walk over the word's positions. */
  lemma IterateBitsWalk(base: nat, bits: Word, f: nat -> bool)
    ensures IterateBits(base, bits, f) == Walk(BitsOf(base, bits), f)
  {
    if bits == 0 {
      BitsFromZero(base, 0);
    }
  }

  /**
   * `commons`: for each word index both storages have, the bit offset and the
   * two masked words.
   */
  function Commons(s: BitvSet, o: BitvSet): (r: seq<(nat, Word, Word)>)
    ensures |r| == Min(|s.bitv.storage|, |o.bitv.storage|)
    ensures forall k :: 0 <= k < |r| ==> r[k] == (k * W, Masked(s.bitv, k), Masked(o.bitv, k))
  {
    var xs, ys := MaskWords(s.bitv, 0), MaskWords(o.bitv, 0);
    var n := Min(|xs|, |ys|);
    seq(n, k requires 0 <= k < n => (xs[k].0 * W, xs[k].1, ys[k].1))
  }

  /**
   * `outliers`: the masked words only the longer storage has, each with a
   * flag saying whether it is self's, and its bit offset.
   */
  function Outliers(s: BitvSet, o: BitvSet): (r: seq<(bool, nat, Word)>)
    ensures |r| == Max(|s.bitv.storage|, |o.bitv.storage|) - Min(|s.bitv.storage|, |o.bitv.storage|)
    ensures |o.bitv.storage| < |s.bitv.storage| ==>
              forall j :: 0 <= j < |r| ==> r[j] == (true, (|o.bitv.storage| + j) * W, Masked(s.bitv, |o.bitv.storage| + j))
    ensures |s.bitv.storage| <= |o.bitv.storage| ==>
              forall j :: 0 <= j < |r| ==> r[j] == (false, (|s.bitv.storage| + j) * W, Masked(o.bitv, |s.bitv.storage| + j))
  {
    var slen := Capacity(s) / W;
    var olen := Capacity(o) / W;
    assert slen == |s.bitv.storage| && olen == |o.bitv.storage|;
    if olen < slen then
      var ws := MaskWords(s.bitv, olen);
      seq(|ws|, j requires 0 <= j < |ws| => (true, ws[j].0 * W, ws[j].1))
    else
      var ws := MaskWords(o.bitv, slen);
      seq(|ws|, j requires 0 <= j < |ws| => (false, ws[j].0 * W, ws[j].1))
  }


  /**
   * `advance` over a run of steps, each given by its visit: the steps run in
   * order, and the run stops after the first that does not complete.
   */
  function Advance(vs: seq<Visit>): Visit
  {
    if |vs| == 0 then Visit([], true) else Then(vs[0], Advance(vs[1..]))
  }

  /**
   * The commons loop of the enumerations: for each (offset, w1, w2) it runs
   * `iterate_bits(offset, w1 op w2, f)`.
   */
  function WalkCommons(cs: seq<(nat, Word, Word)>, op: WordOp, f: nat -> bool): Visit
  {
    Advance(CommonVisits(cs, op, f))
  }

  /** The visits of the steps of the commons loop. */
  function CommonVisits(cs: seq<(nat, Word, Word)>, op: WordOp, f: nat -> bool): (vs: seq<Visit>)
    ensures |vs| == |cs|
    ensures forall j :: 0 <= j < |cs| ==> vs[j] == IterateBits(cs[j].0, Apply(op, cs[j].1, cs[j].2), f)
  {
    seq(|cs|, j requires 0 <= j < |cs| => IterateBits(cs[j].0, Apply(op, cs[j].1, cs[j].2), f))
  }

  /**
   * One step of the outlier loop: `iterate_bits(offset, w, f)`, except that
   * with onlyMine set (the `!mine || …` of `difference`) a word of other's
   * completes at once without visiting anything.
   */
  function OutlierVisit(t: (bool, nat, Word), onlyMine: bool, f: nat -> bool): Visit
  {
    if onlyMine && !t.0 then Visit([], true) else IterateBits(t.1, t.2, f)
  }

  /** The outlier loop of the enumerations. */
  function WalkOutliers(os: seq<(bool, nat, Word)>, onlyMine: bool, f: nat -> bool): Visit
  {
    Advance(OutlierVisits(os, onlyMine, f))
  }

  /** The visits of the steps of the outlier loop. */
  function OutlierVisits(os: seq<(bool, nat, Word)>, onlyMine: bool, f: nat -> bool): (vs: seq<Visit>)
    ensures |vs| == |os|
    ensures forall j :: 0 <= j < |os| ==> vs[j] == OutlierVisit(os[j], onlyMine, f)
  {
    seq(|os|, j requires 0 <= j < |os| => OutlierVisit(os[j], onlyMine, f))
  }

  /** Step j's visit is `iterate_bits` over word j, which holds positions (k + j) * 64 onwards. */
  predicate WalksWords(vs: seq<Visit>, ws: seq<Word>, k: nat, f: nat -> bool)
  {
    |vs| == |ws| && forall j :: 0 <= j < |vs| ==> vs[j] == IterateBits((k + j) * W, ws[j], f)
  }

  /** Steps that walk consecutive words make one walk over the positions of all the words. */
  lemma {:induction false} AdvanceFlat(vs: seq<Visit>, ws: seq<Word>, k: nat, f: nat -> bool)
    requires WalksWords(vs, ws, k, f)
    ensures Advance(vs) == Walk(FlatWords(ws, k), f)
    decreases |vs|
  {
    if |vs| > 0 {
      AdvanceTail(vs, ws, k, f);
      AdvanceFlat(vs[1..], ws[1..], k + 1, f);
      AdvanceHead(vs, ws, k, f);
      WalkAppend(BitsOf(k * W, ws[0]), FlatWords(ws[1..], k + 1), f);
    }
  }

  lemma AdvanceHead(vs: seq<Visit>, ws: seq<Word>, k: nat, f: nat -> bool)
    requires |vs| == |ws| > 0
    requires vs[0] == IterateBits((k + 0) * W, ws[0], f)
    ensures Advance(vs) == Then(Walk(BitsOf(k * W, ws[0]), f), Advance(vs[1..]))
    ensures FlatWords(ws, k) == BitsOf(k * W, ws[0]) + FlatWords(ws[1..], k + 1)
  {
    IterateBitsWalk(k * W, ws[0], f);
  }

  lemma AdvanceTail(vs: seq<Visit>, ws: seq<Word>, k: nat, f: nat -> bool)
    requires WalksWords(vs, ws, k, f) && |vs| > 0
    ensures WalksWords(vs[1..], ws[1..], k + 1, f)
    ensures vs[0] == IterateBits((k + 0) * W, ws[0], f)
  {
    forall j | 0 <= j < |vs[1..]|
      ensures vs[1..][j] == IterateBits((k + 1 + j) * W, ws[1..][j], f)
    {
      assert vs[1..][j] == vs[j + 1] && ws[1..][j] == ws[j + 1];
      assert k + (j + 1) == k + 1 + j;
    }
  }

  /**
   * Word k of the result of combining two sets with op, each set reading as
   * zero past its storage.
   */
  function Combined(s: BitvSet, o: BitvSet, op: WordOp): (ws: seq<Word>)
    ensures |ws| == Max(|s.bitv.storage|, |o.bitv.storage|)
    ensures forall k :: 0 <= k < |ws| ==> ws[k] == Apply(op, OtherWord(s.bitv, k), OtherWord(o.bitv, k))
  {
    var n := Max(|s.bitv.storage|, |o.bitv.storage|);
    seq(n, k requires 0 <= k < n => Apply(op, OtherWord(s.bitv, k), OtherWord(o.bitv, k)))
  }

  lemma MemberBelowCapacity(s: BitvSet, x: nat)
    requires Tidy(s)
    ensures x in Members(s) ==> x < Capacity(s) && Contains(s, x)
    ensures x < Capacity(s) ==> (x in Members(s) <==> Contains(s, x))
  {
  }

  /** Under the invariant, bit x of the combined words is op applied to the two memberships. */
  lemma CombinedBit(s: BitvSet, o: BitvSet, op: WordOp, x: nat)
    requires Tidy(s) && Tidy(o) && x < Max(|s.bitv.storage|, |o.bitv.storage|) * W
    ensures Bit(Combined(s, o, op)[x / W], x % W) == ApplyBool(op, x in Members(s), x in Members(o))
  {
    ApplyBit(op, OtherWord(s.bitv, x / W), OtherWord(o.bitv, x / W), x % W);
    OtherWordBit(s, x);
    OtherWordBit(o, x);
    MemberBelowCapacity(s, x);
    MemberBelowCapacity(o, x);
  }

  /** An outlier of self's, combined with zero, is the word at its place in the combination. */
  lemma OutlierMine(s: BitvSet, o: BitvSet, op: WordOp, j: nat)
    requires j < |Outliers(s, o)| && |o.bitv.storage| < |s.bitv.storage|
    ensures var m, t := Min(|s.bitv.storage|, |o.bitv.storage|), Outliers(s, o)[j];
            t.0 && t.1 == (m + j) * W && Combined(s, o, op)[m + j] == Apply(op, t.2, 0)
  {
    var m := Min(|s.bitv.storage|, |o.bitv.storage|);
    assert Outliers(s, o)[j] == (true, (m + j) * W, Masked(s.bitv, m + j));
    assert OtherWord(o.bitv, m + j) == 0;
    assert OtherWord(s.bitv, m + j) == Masked(s.bitv, m + j);
  }

  /** An outlier of other's, with zero as self's side, is the word at its place in the combination. */
  lemma OutlierOther(s: BitvSet, o: BitvSet, op: WordOp, j: nat)
    requires j < |Outliers(s, o)| && |s.bitv.storage| <= |o.bitv.storage|
    ensures var m, t := Min(|s.bitv.storage|, |o.bitv.storage|), Outliers(s, o)[j];
            !t.0 && t.1 == (m + j) * W && Combined(s, o, op)[m + j] == Apply(op, 0, t.2)
  {
    var m := Min(|s.bitv.storage|, |o.bitv.storage|);
    assert Outliers(s, o)[j] == (false, (m + j) * W, Masked(o.bitv, m + j));
    assert OtherWord(s.bitv, m + j) == 0;
    assert OtherWord(o.bitv, m + j) == Masked(o.bitv, m + j);
  }

  /**
   * Under the invariant, the positions of the combined words are the members
   * of S in ascending order, where S holds x exactly when op combines the two
   * memberships of x to true.
   */
  lemma CombinedPositions(s: BitvSet, o: BitvSet, op: WordOp, S: set<nat>)
    requires Tidy(s) && Tidy(o)
    requires forall x: nat :: x in S <==> ApplyBool(op, x in Members(s), x in Members(o))
    ensures var ws, m := Combined(s, o, op), Min(|s.bitv.storage|, |o.bitv.storage|);
            FlatWords(ws[..m], 0) + FlatWords(ws[m..], m) == Enumerate(S, 0, Max(Capacity(s), Capacity(o)))
  {
    var ws := Combined(s, o, op);
    var m, n := Min(|s.bitv.storage|, |o.bitv.storage|), |ws|;
    var a, b := FlatWords(ws[..m], 0), FlatWords(ws[m..], m);
    IncreasingConcat(a, b);
    var e := Enumerate(S, 0, n * W);
    forall x: nat
      ensures x in a + b <==> x in e
    {
      CombinedMember(s, o, op, S, x);
    }
    IncreasingUnique(a + b, e);
  }

  lemma CombinedMember(s: BitvSet, o: BitvSet, op: WordOp, S: set<nat>, x: nat)
    requires Tidy(s) && Tidy(o)
    requires forall x: nat :: x in S <==> ApplyBool(op, x in Members(s), x in Members(o))
    ensures var ws, m := Combined(s, o, op), Min(|s.bitv.storage|, |o.bitv.storage|);
            x in FlatWords(ws[..m], 0) + FlatWords(ws[m..], m) <==> x in Enumerate(S, 0, |ws| * W)
  {
    var ws := Combined(s, o, op);
    var m, n := Min(|s.bitv.storage|, |o.bitv.storage|), |ws|;
    var low, high := FlatWords(ws[..m], 0), FlatWords(ws[m..], m);
    assert x in low + high <==> x in low || x in high;
    MemberBelowCapacity(s, x);
    MemberBelowCapacity(o, x);
    if x < n * W {
      CombinedBit(s, o, op, x);
      if x < m * W {
        assert ws[..m][x / W - 0] == ws[x / W];
        assert x in low <==> RunBit(ws[..m], 0, x);
        assert x !in high;
      } else {
        assert ws[m..][x / W - m] == ws[x / W];
        assert x in high <==> RunBit(ws[m..], m, x);
        assert x !in low;
      }
    } else {
      assert x !in Members(s) && x !in Members(o);
      assert !ApplyBool(op, false, false);
    }
  }

  /** Walking the commons visits the positions of the first words of the combination. */
  lemma CommonsWalk(s: BitvSet, o: BitvSet, op: WordOp, f: nat -> bool)
    ensures WalkCommons(Commons(s, o), op, f) ==
            Walk(FlatWords(Combined(s, o, op)[..Min(|s.bitv.storage|, |o.bitv.storage|)], 0), f)
  {
    var ws := Combined(s, o, op);
    var m := Min(|s.bitv.storage|, |o.bitv.storage|);
    var cs := Commons(s, o);
    var vs := CommonVisits(cs, op, f);
    forall j | 0 <= j < |vs|
      ensures vs[j] == IterateBits((0 + j) * W, ws[..m][j], f)
    {
      assert ws[..m][j] == ws[j];
    }
    assert WalksWords(vs, ws[..m], 0, f);
    AdvanceFlat(vs, ws[..m], 0, f);
  }

  /** One outlier step visits the positions of its word of the combination. */
  lemma OutlierStep(s: BitvSet, o: BitvSet, op: WordOp, onlyMine: bool, f: nat -> bool, j: nat)
    requires op == Or || op == Xor || op == AndNot
    requires onlyMine == (op == AndNot)
    requires j < |Outliers(s, o)|
    ensures OutlierVisit(Outliers(s, o)[j], onlyMine, f) ==
            IterateBits((Min(|s.bitv.storage|, |o.bitv.storage|) + j) * W,
                        Combined(s, o, op)[Min(|s.bitv.storage|, |o.bitv.storage|) + j], f)
  {
    var t := Outliers(s, o)[j];
    ApplyZero(op, t.2);
    if |o.bitv.storage| < |s.bitv.storage| {
      OutlierMine(s, o, op, j);
    } else {
      OutlierOther(s, o, op, j);
      assert IterateBits(t.1, 0, f) == Visit([], true);
    }
  }

  /** Walking the outliers visits the positions of the remaining words of the combination. */
  lemma OutliersWalk(s: BitvSet, o: BitvSet, op: WordOp, onlyMine: bool, f: nat -> bool)
    requires op == Or || op == Xor || op == AndNot
    requires onlyMine == (op == AndNot)
    ensures WalkOutliers(Outliers(s, o), onlyMine, f) ==
            Walk(FlatWords(Combined(s, o, op)[Min(|s.bitv.storage|, |o.bitv.storage|)..],
                           Min(|s.bitv.storage|, |o.bitv.storage|)), f)
  {
    var m := Min(|s.bitv.storage|, |o.bitv.storage|);
    OutlierVisitsAll(s, o, op, onlyMine, f);
    AdvanceFlat(OutlierVisits(Outliers(s, o), onlyMine, f), Combined(s, o, op)[m..], m, f);
  }

  lemma OutlierVisitsAll(s: BitvSet, o: BitvSet, op: WordOp, onlyMine: bool, f: nat -> bool)
    requires op == Or || op == Xor || op == AndNot
    requires onlyMine == (op == AndNot)
    ensures var m := Min(|s.bitv.storage|, |o.bitv.storage|);
            WalksWords(OutlierVisits(Outliers(s, o), onlyMine, f), Combined(s, o, op)[m..], m, f)
  {
    forall j | 0 <= j < |Outliers(s, o)|
      ensures var m := Min(|s.bitv.storage|, |o.bitv.storage|);
              OutlierVisits(Outliers(s, o), onlyMine, f)[j] == IterateBits((m + j) * W, Combined(s, o, op)[m..][j], f)
    {
      OutlierVisitAt(s, o, op, onlyMine, f, j);
    }
  }

  lemma OutlierVisitAt(s: BitvSet, o: BitvSet, op: WordOp, onlyMine: bool, f: nat -> bool, j: nat)
    requires op == Or || op == Xor || op == AndNot
    requires onlyMine == (op == AndNot)
    requires j < |Outliers(s, o)|
    ensures var m := Min(|s.bitv.storage|, |o.bitv.storage|);
            OutlierVisits(Outliers(s, o), onlyMine, f)[j] == IterateBits((m + j) * W, Combined(s, o, op)[m..][j], f)
  {
    var m := Min(|s.bitv.storage|, |o.bitv.storage|);
    var os, ws := Outliers(s, o), Combined(s, o, op);
    assert OutlierVisits(os, onlyMine, f)[j] == OutlierVisit(os[j], onlyMine, f);
    OutlierStep(s, o, op, onlyMine, f, j);
    assert ws[m..][j] == ws[m + j];
  }

  /** Zero words have no positions. */
  lemma {:induction false} FlatZero(ws: seq<Word>, k: nat)
    requires forall j :: 0 <= j < |ws| ==> ws[j] == 0
    ensures FlatWords(ws, k) == []
    decreases |ws|
  {
    if |ws| > 0 {
      BitsFromZero(k * W, 0);
      assert BitsOf(k * W, ws[0]) == [];
      FlatZero(ws[1..], k + 1);
    }
  }

  /** The words of an intersection past the shorter storage are zero, so they visit nothing. */
  lemma IntersectionOutliersEmpty(s: BitvSet, o: BitvSet, f: nat -> bool)
    ensures Walk(FlatWords(Combined(s, o, And)[Min(|s.bitv.storage|, |o.bitv.storage|)..],
                           Min(|s.bitv.storage|, |o.bitv.storage|)), f) == Visit([], true)
  {
    var m := Min(|s.bitv.storage|, |o.bitv.storage|);
    var ws := Combined(s, o, And);
    forall j | 0 <= j < |ws[m..]|
      ensures ws[m..][j] == 0
    {
      assert ws[m..][j] == ws[m + j];
      assert OtherWord(s.bitv, m + j) == 0 || OtherWord(o.bitv, m + j) == 0;
      ApplyZero(And, OtherWord(s.bitv, m + j));
      ApplyZero(And, OtherWord(o.bitv, m + j));
    }
    FlatZero(ws[m..], m);
  }

  /**
   * The common shape of the four enumerations: under the invariant, the
   * commons loop followed by a walk over the positions of the remaining
   * combined words offers the members of S in ascending order.
   */
  lemma EnumerationMeaning(s: BitvSet, o: BitvSet, op: WordOp, rest: Visit, f: nat -> bool, S: set<nat>)
    requires Tidy(s) && Tidy(o)
    requires rest == Walk(FlatWords(Combined(s, o, op)[Min(|s.bitv.storage|, |o.bitv.storage|)..],
                                    Min(|s.bitv.storage|, |o.bitv.storage|)), f)
    requires forall x: nat :: x in S <==> ApplyBool(op, x in Members(s), x in Members(o))
    ensures Then(WalkCommons(Commons(s, o), op, f), rest) ==
            Walk(Enumerate(S, 0, Max(Capacity(s), Capacity(o))), f)
  {
    var ws, m := Combined(s, o, op), Min(|s.bitv.storage|, |o.bitv.storage|);
    CommonsWalk(s, o, op, f);
    CombinedPositions(s, o, op, S);
    WalkAppend(FlatWords(ws[..m], 0), FlatWords(ws[m..], m), f);
  }

  // ---------------------------------------------------------------------------
  // The four enumerations.

  /** `union(f)`: the members of either set, ascending. */
  function Union(s: BitvSet, o: BitvSet, f: nat -> bool): (v: Visit)
    ensures Tidy(s) && Tidy(o) ==>
              v == Walk(Enumerate(Members(s) + Members(o), 0, Max(Capacity(s), Capacity(o))), f)
  {
    var rest := WalkOutliers(Outliers(s, o), false, f);
    var v := Then(WalkCommons(Commons(s, o), Or, f), rest);
    if Tidy(s) && Tidy(o) then
      OutliersWalk(s, o, Or, false, f);
      EnumerationMeaning(s, o, Or, rest, f, Members(s) + Members(o));
      v
    else
      v
  }

  /** `intersection(f)`: the members of both sets, ascending; only the commons are walked. */
  function Intersection(s: BitvSet, o: BitvSet, f: nat -> bool): (v: Visit)
    ensures Tidy(s) && Tidy(o) ==>
              v == Walk(Enumerate(Members(s) * Members(o), 0, Max(Capacity(s), Capacity(o))), f)
  {
    var v := WalkCommons(Commons(s, o), And, f);
    if Tidy(s) && Tidy(o) then
      IntersectionOutliersEmpty(s, o, f);
      EnumerationMeaning(s, o, And, Visit([], true), f, Members(s) * Members(o));
      assert v.calls + [] == v.calls;
      v
    else
      v
  }

  /** `difference(f)`: the members of self not in other, ascending; other's outliers are skipped. */
  function Difference(s: BitvSet, o: BitvSet, f: nat -> bool): (v: Visit)
    ensures Tidy(s) && Tidy(o) ==>
              v == Walk(Enumerate(Members(s) - Members(o), 0, Max(Capacity(s), Capacity(o))), f)
  {
    var rest := WalkOutliers(Outliers(s, o), true, f);
    var v := Then(WalkCommons(Commons(s, o), AndNot, f), rest);
    if Tidy(s) && Tidy(o) then
      OutliersWalk(s, o, AndNot, true, f);
      EnumerationMeaning(s, o, AndNot, rest, f, Members(s) - Members(o));
      v
    else
      v
  }

  /** `symmetric_difference(f)`: the members of exactly one set, ascending. */
  function SymmetricDifference(s: BitvSet, o: BitvSet, f: nat -> bool): (v: Visit)
    ensures Tidy(s) && Tidy(o) ==>
              v == Walk(Enumerate((Members(s) - Members(o)) + (Members(o) - Members(s)), 0,
                                  Max(Capacity(s), Capacity(o))), f)
  {
    var rest := WalkOutliers(Outliers(s, o), false, f);
    var v := Then(WalkCommons(Commons(s, o), Xor, f), rest);
    if Tidy(s) && Tidy(o) then
      OutliersWalk(s, o, Xor, false, f);
      EnumerationMeaning(s, o, Xor, rest, f, (Members(s) - Members(o)) + (Members(o) - Members(s)));
      v
    else
      v
  }

  // ---------------------------------------------------------------------------
  // Subset and disjointness.

  /** The test of the commons loop of `is_subset`: `w1 & w2 == w1`. */
  predicate Covered(c: (nat, Word, Word))
  {
    Apply(And, c.1, c.2) == c.1
  }

  /** The commons loop of `is_subset`: false at the first triple that is not covered. */
  function CommonsCovered(cs: seq<(nat, Word, Word)>): (r: bool)
    ensures r <==> forall k :: 0 <= k < |cs| ==> Covered(cs[k])
  {
    if |cs| == 0 then true
    else if !Covered(cs[0]) then false
    else
      var r := CommonsCovered(cs[1..]);
      assert forall k :: 1 <= k < |cs| ==> cs[k] == cs[1..][k - 1];
      r
  }

  /**
   * The outlier loop of `is_subset`: true at the first word of other's,
   * false at the first nonzero word of self's, true at the end.
   */
  function OutliersOk(os: seq<(bool, nat, Word)>): (r: bool)
    ensures (forall j :: 0 <= j < |os| ==> os[j].0 == (|os| > 0 && os[0].0)) ==>
              (r <==> |os| == 0 || !os[0].0 || forall j :: 0 <= j < |os| ==> os[j].2 == 0)
  {
    if |os| == 0 then true
    else if !os[0].0 then true
    else if os[0].2 != 0 then false
    else OutliersOk(os[1..])
  }

  /** Every member of self in word k of the positions is a member of other. */
  predicate WordSubset(s: BitvSet, o: BitvSet, k: nat)
    requires Covers(s.bitv) && Covers(o.bitv)
  {
    forall x: nat :: k * W <= x < k * W + W ==> x in Members(s) ==> x in Members(o)
  }

  /** Inclusion, word by word over self's storage. */
  lemma SubsetByWords(s: BitvSet, o: BitvSet)
    requires Tidy(s) && Tidy(o)
    ensures Members(s) <= Members(o) <==> forall k :: 0 <= k < |s.bitv.storage| ==> WordSubset(s, o, k)
  {
    if forall k :: 0 <= k < |s.bitv.storage| ==> WordSubset(s, o, k) {
      forall x | x in Members(s)
        ensures x in Members(o)
      {
        MemberBelowCapacity(s, x);
        assert WordSubset(s, o, x / W);
      }
    }
  }

  /** Under the invariant, bit c of masked word k is membership of its position. */
  lemma WordMember(s: BitvSet, k: nat, c: nat)
    requires Tidy(s) && k < |s.bitv.storage| && c < W
    ensures Bit(Masked(s.bitv, k), c) == (k * W + c in Members(s))
  {
    DivMod(k, c);
    TidyMasked(s, k * W + c);
    MemberBelowCapacity(s, k * W + c);
  }

  /** Under the invariant, a common word of self whose members are in other is covered by other's. */
  lemma SubsetCovers(s: BitvSet, o: BitvSet, k: nat, a: Word, b: Word)
    requires Tidy(s) && Tidy(o) && k < |s.bitv.storage| && k < |o.bitv.storage|
    requires a == Masked(s.bitv, k) && b == Masked(o.bitv, k)
    ensures WordSubset(s, o, k) ==> Apply(And, a, b) == a
  {
    if WordSubset(s, o, k) {
      forall c | 0 <= c < W
        ensures Bit(Apply(And, a, b), c) == Bit(a, c)
      {
        WordMember(s, k, c);
        WordMember(o, k, c);
        ApplyBit(And, a, b, c);
      }
      WordExt(Apply(And, a, b), a);
    }
  }

  /** Under the invariant, a common word of self covered by other's has its members in other. */
  lemma CoverSubset(s: BitvSet, o: BitvSet, k: nat, a: Word, b: Word)
    requires Tidy(s) && Tidy(o) && k < |s.bitv.storage| && k < |o.bitv.storage|
    requires a == Masked(s.bitv, k) && b == Masked(o.bitv, k)
    ensures Apply(And, a, b) == a ==> WordSubset(s, o, k)
  {
    if Apply(And, a, b) == a {
      forall x: nat | k * W <= x < k * W + W && x in Members(s)
        ensures x in Members(o)
      {
        var c := x - k * W;
        WordMember(s, k, c);
        WordMember(o, k, c);
        ApplyBit(And, a, b, c);
      }
    }
  }

  /** Under the invariant, a word of self past other's storage is zero exactly when its members are in other. */
  lemma WordBeyond(s: BitvSet, o: BitvSet, k: nat)
    requires Tidy(s) && Tidy(o) && |o.bitv.storage| <= k < |s.bitv.storage|
    ensures Masked(s.bitv, k) == 0 <==> WordSubset(s, o, k)
  {
    var a := Masked(s.bitv, k);
    if a == 0 {
      forall x: nat | k * W <= x < k * W + W
        ensures x !in Members(s)
      {
        var c := x - k * W;
        WordMember(s, k, c);
        BitConst(c);
      }
    }
    if WordSubset(s, o, k) {
      forall c | 0 <= c < W
        ensures !Bit(a, c)
      {
        WordMember(s, k, c);
        MemberBelowCapacity(o, k * W + c);
      }
      ZeroWord(a);
    }
  }

  /** When the commons loop of `is_subset` passes, the common words of self are subsets word by word. */
  lemma CommonsSubset(s: BitvSet, o: BitvSet)
    requires Tidy(s) && Tidy(o)
    ensures CommonsCovered(Commons(s, o)) ==>
            forall k :: 0 <= k < Min(|s.bitv.storage|, |o.bitv.storage|) ==> WordSubset(s, o, k)
  {
    var cs := Commons(s, o);
    if CommonsCovered(cs) {
      forall k | 0 <= k < |cs|
        ensures WordSubset(s, o, k)
      {
        assert Covered(cs[k]);
        CoverSubset(s, o, k, cs[k].1, cs[k].2);
      }
    }
  }

  /** When the common words of self are subsets word by word, the commons loop of `is_subset` passes. */
  lemma SubsetCommons(s: BitvSet, o: BitvSet)
    requires Tidy(s) && Tidy(o)
    ensures (forall k :: 0 <= k < Min(|s.bitv.storage|, |o.bitv.storage|) ==> WordSubset(s, o, k)) ==>
            CommonsCovered(Commons(s, o))
  {
    var cs := Commons(s, o);
    if forall k :: 0 <= k < |cs| ==> WordSubset(s, o, k) {
      forall k | 0 <= k < |cs|
        ensures Covered(cs[k])
      {
        SubsetCovers(s, o, k, cs[k].1, cs[k].2);
      }
    }
  }

  /** The outlier loop of `is_subset` answers whether self's remaining words are subsets. */
  lemma OutliersSubset(s: BitvSet, o: BitvSet)
    requires Tidy(s) && Tidy(o)
    ensures OutliersOk(Outliers(s, o)) <==>
            forall k :: Min(|s.bitv.storage|, |o.bitv.storage|) <= k < |s.bitv.storage| ==> WordSubset(s, o, k)
  {
    var os := Outliers(s, o);
    var m := Min(|s.bitv.storage|, |o.bitv.storage|);
    if |o.bitv.storage| < |s.bitv.storage| {
      assert os[0].0;
      forall k | m <= k < |s.bitv.storage|
        ensures (os[k - m].2 == 0) == WordSubset(s, o, k)
      {
        WordBeyond(s, o, k);
      }
      if OutliersOk(os) {
        forall k | m <= k < |s.bitv.storage|
          ensures WordSubset(s, o, k)
        {
          assert os[k - m].2 == 0;
        }
      }
      if forall k :: m <= k < |s.bitv.storage| ==> WordSubset(s, o, k) {
        forall j | 0 <= j < |os|
          ensures os[j].2 == 0
        {
          assert WordSubset(s, o, m + j);
          assert os[m + j - m] == os[j];
        }
      }
    }
  }

  /**
   * `is_subset`: every common word of self is covered by other's, and self's
   * words past other's storage, if it has the longer one, are zero.
   */
  function IsSubset(s: BitvSet, o: BitvSet): (r: bool)
    ensures Tidy(s) && Tidy(o) ==> (r <==> Members(s) <= Members(o))
  {
    var r := CommonsCovered(Commons(s, o)) && OutliersOk(Outliers(s, o));
    if Tidy(s) && Tidy(o) then
      SubsetByWords(s, o);
      CommonsSubset(s, o);
      SubsetCommons(s, o);
      OutliersSubset(s, o);
      r
    else
      r
  }


  /** `is_superset`: other is a subset of self. */
  function IsSuperset(s: BitvSet, o: BitvSet): (r: bool)
    ensures Tidy(s) && Tidy(o) ==> (r <==> Members(o) <= Members(s))
  {
    IsSubset(o, s)
  }

  /** `is_disjoint`: an intersection walk with a visitor rejecting everything completes. */
  function IsDisjoint(s: BitvSet, o: BitvSet): (r: bool)
    ensures Tidy(s) && Tidy(o) ==> (r <==> Members(s) * Members(o) == {})
  {
    var v := Intersection(s, o, _ => false);
    if Tidy(s) && Tidy(o) then DisjointMeaning(s, o, v); v.completed else v.completed
  }

  lemma DisjointMeaning(s: BitvSet, o: BitvSet, v: Visit)
    requires Tidy(s) && Tidy(o)
    requires v == Walk(Enumerate(Members(s) * Members(o), 0, Max(Capacity(s), Capacity(o))), _ => false)
    ensures v.completed <==> Members(s) * Members(o) == {}
  {
    var e := Enumerate(Members(s) * Members(o), 0, Max(Capacity(s), Capacity(o)));
    if Members(s) * Members(o) != {} {
      var x :| x in Members(s) * Members(o);
      MemberBelowCapacity(s, x);
      assert x in e;
    }
    HeadIn(e);
  }

  // ---------------------------------------------------------------------------
  // `BitPositions`.

  /** `iter`'s iterator: the next index to test. */
  datatype BitPositions = BitPositions(bset: BitvSet, nextIdx: nat)

  /** `BitvSet::iter`. */
  function Iter(s: BitvSet): (it: BitPositions)
    ensures it.bset == s && it.nextIdx == 0
  {
    BitPositions(s, 0)
  }

  /**
   * `next`: tests indices from `nextIdx` up to the capacity and yields the
   * first member; when there is none the index is left at the capacity.
   */
  function Next(it: BitPositions): (r: (Option<nat>, BitPositions))
    requires Covers(it.bset.bitv)
    ensures r.1.bset == it.bset
    ensures r.0.Some? ==>
              var v := r.0.value;
              it.nextIdx <= v && v in Members(it.bset) && r.1.nextIdx == v + 1 &&
              forall j :: it.nextIdx <= j < v ==> j !in Members(it.bset)
    ensures r.0.None? ==>
              r.1.nextIdx == Max(it.nextIdx, Capacity(it.bset)) &&
              forall j :: it.nextIdx <= j ==> j !in Members(it.bset)
    decreases Capacity(it.bset) - it.nextIdx
  {
    if it.nextIdx < Capacity(it.bset) then
      var idx := it.nextIdx;
      var it' := it.(nextIdx := idx + 1);
      if Contains(it.bset, idx) then (Some(idx), it') else Next(it')
    else
      (None, it)
  }

  /** `size_hint`: no lower bound; at most the indices not yet examined remain. */
  function SizeHint(it: BitPositions): (r: (nat, Option<nat>))
    requires Covers(it.bset.bitv) && it.nextIdx <= Capacity(it.bset)
    ensures r.0 == 0 && r.1.Some? && |Collect(it)| <= r.1.value
  {
    IncreasingWithin(Collect(it), it.nextIdx, Capacity(it.bset));
    (0, Some(Capacity(it.bset) - it.nextIdx))
  }

  /** Everything `next` yields until it answers None. */
  function Collect(it: BitPositions): (r: seq<nat>)
    requires Covers(it.bset.bitv)
    ensures Increasing(r)
    ensures forall x :: x in r <==> it.nextIdx <= x && x in Members(it.bset)
    ensures forall x :: x in r ==> x < Capacity(it.bset)
    decreases Capacity(it.bset) - it.nextIdx
  {
    var (x, it') := Next(it);
    match x
    case None => []
    case Some(v) =>
      var rest := Collect(it');
      Prepend(v, rest);
      [v] + rest
  }

  /** Iterating a set yields its members in ascending order. */
  lemma IterYieldsMembers(s: BitvSet)
    requires Covers(s.bitv)
    ensures Collect(Iter(s)) == Enumerate(Members(s), 0, Capacity(s))
  {
    IncreasingUnique(Collect(Iter(s)), Enumerate(Members(s), 0, Capacity(s)));
  }
}
