/**
 * Storage words of the packed bit vector and the bit-level facts about them.
 *
 * A word is a 64-bit unsigned integer, modelled as a natural number below
 * 2^64; bit i of a word is `(w >> i) & 1`, the remainder after halving it i
 * times.  The bitwise operators the vector uses (`|`, `&`, `& !`, `^` and
 * `!`) are defined bit by bit on that representation.  Everything above this
 * module reads words only through `Bit`, so the lemmas here are the single
 * bridge between machine words and the abstract bit sequences and integer
 * sets the other modules reason about.
 */
module Words {

  import opened Sorted

  /** Bits per storage word (the platform's `uint::BITS`, fixed here to 64). */
  const W: nat := 64

  /** 2^64: one more than the largest word. */
  const WordLimit: nat := 0x1_0000_0000_0000_0000

  type Word = w: nat | w < WordLimit

  /** The all-ones word `!0u`. */
  const Ones: Word := 0xFFFF_FFFF_FFFF_FFFF

  function Pow2(n: nat): (r: nat)
    ensures r > 0
  {
    if n == 0 then 1 else 2 * Pow2(n - 1)
  }

  /** Bit i of w, counted from the least significant bit: `(w >> i) & 1 == 1`. */
  predicate Bit(w: nat, i: nat)
  {
    if i == 0 then w % 2 == 1 else Bit(w / 2, i - 1)
  }

  /** The word operations of the bit vector and the bit set. */
  datatype WordOp = Or | And | AndNot | Xor | Copy

  /** What an operation does to one pair of bits. */
  function ApplyBool(op: WordOp, x: bool, y: bool): bool
  {
    match op
    case Or => x || y
    case And => x && y
    case AndNot => x && !y
    case Xor => x != y
    case Copy => y
  }

  /** An n-bit operation: bit j of the result is op applied to bit j of a and bit j of c. */
  function Bitwise(op: WordOp, a: nat, c: nat, n: nat): (r: nat)
    requires a < Pow2(n) && c < Pow2(n)
    ensures r < Pow2(n)
  {
    if n == 0 then 0
    else 2 * Bitwise(op, a / 2, c / 2, n - 1) + if ApplyBool(op, a % 2 == 1, c % 2 == 1) then 1 else 0
  }

  /** `a | c`, `a & c`, `a & !c`, `a ^ c`, or c itself, on words. */
  function Apply(op: WordOp, a: Word, c: Word): Word
  {
    Pow2Width();
    Bitwise(op, a, c, W)
  }

  /** `!a`: every bit of the word flipped. */
  function Not(a: Word): Word
  {
    Ones - a
  }

  /** The single-bit word `1 << i`. */
  function Flag(i: nat): Word
    requires i < W
  {
    Pow2Width();
    Pow2Less(i, W);
    Pow2(i)
  }

  /** The word `(1 << r) - 1`, whose low r bits are set. */
  function LowMask(r: nat): Word
    requires 0 < r < W
  {
    Pow2Width();
    Pow2Less(r, W);
    Pow2(r) - 1
  }

  /**
   * The mask the masking iterator applies to the final word of a vector of
   * `nbits` bits: the low `nbits % W` bits, or every bit when `nbits` is a
   * multiple of W.
   */
  function LastWordMask(nbits: nat): Word
  {
    var rem := nbits % W;
    if rem > 0 then LowMask(rem) else Ones
  }

  /** Number of words that hold n bits: `(n + W - 1) / W`. */
  function WordsFor(n: nat): nat
  {
    (n + W - 1) / W
  }

  function Max(a: nat, b: nat): nat
  {
    if a < b then b else a
  }

  function Min(a: nat, b: nat): nat
  {
    if a < b then a else b
  }

  /** The words allocated for n bits hold all n of them. */
  lemma WordsForCovers(n: nat)
    ensures n <= WordsFor(n) * W
  {
  }

  /**
   * Inside the words allocated for n bits, position i is below n exactly when
   * it is in a word before the last, or the last word is full, or it is below
   * `n % 64` in the last word.
   */
  lemma WordsForLast(n: nat, i: nat)
    requires i < WordsFor(n) * W
    ensures (i / W + 1 < WordsFor(n) || n % W == 0 || i % W < n % W) == (i < n)
  {
    var q, r := n / W, n % W;
    assert n == q * W + r;
    assert i == (i / W) * W + i % W;
    if r == 0 {
      assert WordsFor(n) == q;
    } else {
      assert WordsFor(n) == q + 1;
    }
  }

  /** Fewer than m words' worth of bits need at most m words. */
  lemma WordsForBound(n: nat, m: nat)
    requires n <= m * W
    ensures WordsFor(n) <= m
  {
  }

  /** A position below n lies in one of the words allocated for n bits. */
  lemma WordOfIndex(n: nat, i: nat)
    requires i < n
    ensures i / W < WordsFor(n)
  {
  }

  /** m whole words hold exactly m * 64 bits. */
  lemma WordsForWhole(m: nat)
    ensures WordsFor(m * W) == m
  {
  }

  /** Position k * 64 + j lies in word k at offset j. */
  lemma DivMod(k: nat, j: nat)
    requires j < W
    ensures (k * W + j) / W == k && (k * W + j) % W == j
  {
  }

  // ---------------------------------------------------------------------------
  // Powers of two.

  lemma {:induction false} Pow2Add(a: nat, b: nat)
    ensures Pow2(a + b) == Pow2(a) * Pow2(b)
    decreases a
  {
    if a > 0 {
      Pow2Add(a - 1, b);
      assert Pow2(a + b) == 2 * Pow2(a - 1 + b);
    }
  }

  lemma {:induction false} Pow2Less(i: nat, n: nat)
    requires i < n
    ensures Pow2(i) < Pow2(n)
    decreases n
  {
    if i < n - 1 {
      Pow2Less(i, n - 1);
    }
  }

  /** 2^64 words. */
  lemma Pow2Width()
    ensures Pow2(32) == 0x1_0000_0000 && Pow2(W) == WordLimit
  {
    assert Pow2(8) == 0x100;
    Pow2Add(8, 8);
    assert Pow2(16) == 0x1_0000;
    Pow2Add(16, 16);
    assert Pow2(32) == 0x1_0000_0000;
    Pow2Add(32, 32);
  }

  // ---------------------------------------------------------------------------
  // Bitwise operations, bit by bit.

  /** Each bit of an n-bit operation's result is the operation applied to the operands' bits. */
  lemma {:induction false} BitwiseBit(op: WordOp, a: nat, c: nat, n: nat, i: nat)
    requires a < Pow2(n) && c < Pow2(n) && i < n
    ensures Bit(Bitwise(op, a, c, n), i) == ApplyBool(op, Bit(a, i), Bit(c, i))
    decreases n
  {
    var rest := Bitwise(op, a / 2, c / 2, n - 1);
    var low := if ApplyBool(op, a % 2 == 1, c % 2 == 1) then 1 else 0;
    assert Bitwise(op, a, c, n) == 2 * rest + low;
    if i == 0 {
      assert (2 * rest + low) % 2 == low;
    } else {
      assert (2 * rest + low) / 2 == rest;
      BitwiseBit(op, a / 2, c / 2, n - 1, i - 1);
    }
  }

  /** Each word operation acts bit by bit. */
  lemma ApplyBit(op: WordOp, a: Word, c: Word, i: nat)
    requires i < W
    ensures Bit(Apply(op, a, c), i) == ApplyBool(op, Bit(a, i), Bit(c, i))
  {
    Pow2Width();
    BitwiseBit(op, a, c, W, i);
  }

  /** Below bit n, 2^n - 1 - a has exactly the bits a lacks. */
  lemma {:induction false} ComplementBit(a: nat, n: nat, i: nat)
    requires a < Pow2(n) && i < n
    ensures Bit(Pow2(n) - 1 - a, i) == !Bit(a, i)
    decreases n
  {
    if i > 0 {
      ComplementBit(a / 2, n - 1, i - 1);
      assert (Pow2(n) - 1 - a) / 2 == Pow2(n - 1) - 1 - a / 2;
    }
  }

  lemma BitNot(a: Word, i: nat)
    requires i < W
    ensures Bit(Not(a), i) == !Bit(a, i)
  {
    Pow2Width();
    ComplementBit(a, W, i);
  }

  lemma {:induction false} ZeroBit(i: nat)
    ensures !Bit(0, i)
  {
    if i > 0 {
      ZeroBit(i - 1);
    }
  }

  /** 2^n - 1 has exactly the bits below n. */
  lemma {:induction false} LowBits(n: nat, i: nat)
    ensures Bit(Pow2(n) - 1, i) == (i < n)
    decreases n
  {
    if n == 0 {
      ZeroBit(i);
    } else if i > 0 {
      LowBits(n - 1, i - 1);
      assert (Pow2(n) - 1) / 2 == Pow2(n - 1) - 1;
    }
  }

  lemma BitConst(i: nat)
    requires i < W
    ensures !Bit(0, i) && Bit(Ones, i)
  {
    ZeroBit(i);
    Pow2Width();
    LowBits(W, i);
  }

  /** 2^b has bit b and no other. */
  lemma {:induction false} Pow2Bit(b: nat, i: nat)
    ensures Bit(Pow2(b), i) == (i == b)
    decreases i
  {
    if i > 0 {
      if b > 0 {
        Pow2Bit(b - 1, i - 1);
      } else {
        ZeroBit(i - 1);
      }
    }
  }

  lemma BitFlag(b: nat, i: nat)
    requires b < W
    ensures Bit(Flag(b), i) == (i == b)
  {
    Pow2Bit(b, i);
  }

  lemma BitLowMask(r: nat, i: nat)
    requires 0 < r < W
    ensures Bit(LowMask(r), i) == (i < r)
  {
    LowBits(r, i);
  }

  lemma BitLastWordMask(nbits: nat, i: nat)
    requires i < W
    ensures Bit(LastWordMask(nbits), i) == (nbits % W == 0 || i < nbits % W)
  {
    if nbits % W > 0 {
      BitLowMask(nbits % W, i);
    } else {
      BitConst(i);
    }
  }

  /** Setting and clearing one flag changes exactly that bit. */
  lemma BitFlagSet(w: Word, b: nat, i: nat)
    requires b < W && i < W
    ensures Bit(Apply(Or, w, Flag(b)), i) == (i == b || Bit(w, i))
  {
    ApplyBit(Or, w, Flag(b), i);
    BitFlag(b, i);
  }

  lemma BitFlagClear(w: Word, b: nat, i: nat)
    requires b < W && i < W
    ensures Bit(Apply(AndNot, w, Flag(b)), i) == (i != b && Bit(w, i))
  {
    ApplyBit(AndNot, w, Flag(b), i);
    BitFlag(b, i);
  }

  /** Or, xor and and-not with a zero operand give back the other operand, or zero. */
  lemma {:induction false} BitwiseZero(op: WordOp, a: nat, n: nat)
    requires op != Copy
    requires a < Pow2(n)
    ensures Bitwise(op, a, 0, n) == if op == And then 0 else a
    ensures Bitwise(op, 0, a, n) == if op == And || op == AndNot then 0 else a
    decreases n
  {
    if n > 0 {
      BitwiseZero(op, a / 2, n - 1);
    }
  }

  lemma ApplyZero(op: WordOp, w: Word)
    requires op != Copy
    ensures Apply(op, w, 0) == if op == And then 0 else w
    ensures Apply(op, 0, w) == if op == And || op == AndNot then 0 else w
  {
    Pow2Width();
    BitwiseZero(op, w, W);
  }

  // ---------------------------------------------------------------------------
  // Extensionality: a word is determined by its 64 bits.

  /** Two numbers below 2^n with the same n low bits are equal. */
  lemma {:induction false} BitsDetermine(a: nat, b: nat, n: nat)
    requires a < Pow2(n) && b < Pow2(n)
    requires forall i :: 0 <= i < n ==> Bit(a, i) == Bit(b, i)
    ensures a == b
    decreases n
  {
    if n > 0 {
      assert Bit(a, 0) == Bit(b, 0);
      forall i | 0 <= i < n - 1
        ensures Bit(a / 2, i) == Bit(b / 2, i)
      {
        assert Bit(a, i + 1) == Bit(b, i + 1);
      }
      BitsDetermine(a / 2, b / 2, n - 1);
    }
  }

  lemma WordExt(a: Word, b: Word)
    requires forall i :: 0 <= i < W ==> Bit(a, i) == Bit(b, i)
    ensures a == b
  {
    Pow2Width();
    BitsDetermine(a, b, W);
  }

  /** Some bit tells two different words apart. */
  lemma WordsDiffer(a: Word, b: Word) returns (i: nat)
    requires a != b
    ensures i < W && Bit(a, i) != Bit(b, i)
  {
    i := 0;
    if exists j :: 0 <= j < W && Bit(a, j) != Bit(b, j) {
      i :| 0 <= i < W && Bit(a, i) != Bit(b, i);
    } else {
      WordExt(a, b);
      assert false;
    }
  }

  /** A word is zero exactly when none of its bits is set. */
  lemma ZeroWord(w: Word)
    ensures w == 0 <==> forall i :: 0 <= i < W ==> !Bit(w, i)
  {
    if w == 0 {
      forall i | 0 <= i < W
        ensures !Bit(w, i)
      {
        ZeroBit(i);
      }
    } else {
      var i := WordsDiffer(w, 0);
      ZeroBit(i);
    }
  }

  // ---------------------------------------------------------------------------
  // The positions `iterate_bits` visits.

  /**
   * The positions `base + j` for set bits j of w with i <= j < W, in the order
   * `iterate_bits` scans them (j from low to high).
   */
  function BitsFrom(base: nat, w: Word, i: nat): (r: seq<nat>)
    requires i <= W
    ensures Increasing(r)
    ensures forall k :: 0 <= k < |r| ==> base + i <= r[k] < base + W
    ensures forall x :: x in r <==> base + i <= x < base + W && Bit(w, x - base)
    decreases W - i, 1
  {
    if i == W then []
    else
      BitsFromSorted(base, w, i);
      if Bit(w, i) then [base + i] + BitsFrom(base, w, i + 1) else BitsFrom(base, w, i + 1)
  }

  /** Bit i, if set, goes in front of the positions above it, which keeps them ascending. */
  lemma BitsFromSorted(base: nat, w: Word, i: nat)
    requires i < W
    ensures var rest := BitsFrom(base, w, i + 1);
            Increasing([base + i] + rest)
    decreases W - i, 0
  {
    var rest := BitsFrom(base, w, i + 1);
    assert forall y :: y in rest ==> base + i < y;
    Prepend(base + i, rest);
  }

  /** The positions of the set bits of w, offset by base, ascending. */
  function BitsOf(base: nat, w: Word): seq<nat>
  {
    BitsFrom(base, w, 0)
  }

  lemma {:induction false} BitsFromZero(base: nat, i: nat)
    requires i <= W
    ensures BitsFrom(base, 0, i) == []
    decreases W - i
  {
    if i < W {
      BitConst(i);
      BitsFromZero(base, i + 1);
    }
  }

  lemma {:induction false} BitsFromLength(b1: nat, b2: nat, w: Word, i: nat)
    requires i <= W
    ensures |BitsFrom(b1, w, i)| == |BitsFrom(b2, w, i)|
    decreases W - i
  {
    if i < W {
      BitsFromLength(b1, b2, w, i + 1);
    }
  }

  /** `count_ones`: the number of set bits of w. */
  function CountOnes(w: Word): nat
  {
    |BitsOf(0, w)|
  }

  lemma CountOnesAnyBase(base: nat, w: Word)
    ensures |BitsOf(base, w)| == CountOnes(w)
  {
    BitsFromLength(base, 0, w, 0);
  }

  // ---------------------------------------------------------------------------
  // Positions of the set bits of a run of words.

  /** Bit x of the run of words ws whose first word holds positions k * 64 to k * 64 + 63. */
  predicate RunBit(ws: seq<Word>, k: nat, x: nat)
    requires k * W <= x < (k + |ws|) * W
  {
    Bit(ws[x / W - k], x % W)
  }

  /**
   * The positions of the set bits of ws, word j standing for positions
   * (k + j) * 64 to (k + j) * 64 + 63, ascending.
   */
  function FlatWords(ws: seq<Word>, k: nat): (r: seq<nat>)
    ensures Increasing(r)
    ensures forall x :: x in r ==> k * W <= x < (k + |ws|) * W
    ensures forall x :: k * W <= x < (k + |ws|) * W ==> (x in r <==> RunBit(ws, k, x))
    decreases |ws|, 2
  {
    if |ws| == 0 then []
    else
      FlatJoinSorted(ws, k);
      FlatJoinMembers(ws, k);
      BitsOf(k * W, ws[0]) + FlatWords(ws[1..], k + 1)
  }

  /** The positions of word k followed by those of the words after it ascend and stay in range. */
  lemma FlatJoinSorted(ws: seq<Word>, k: nat)
    requires |ws| > 0
    ensures var r := BitsOf(k * W, ws[0]) + FlatWords(ws[1..], k + 1);
            Increasing(r) && forall x :: x in r ==> k * W <= x < (k + |ws|) * W
    decreases |ws|, 0
  {
    IncreasingConcat(BitsOf(k * W, ws[0]), FlatWords(ws[1..], k + 1));
  }

  /** The positions of word k followed by those of the words after it are the set bits of the run. */
  lemma FlatJoinMembers(ws: seq<Word>, k: nat)
    requires |ws| > 0
    ensures var r := BitsOf(k * W, ws[0]) + FlatWords(ws[1..], k + 1);
            forall x :: k * W <= x < (k + |ws|) * W ==> (x in r <==> RunBit(ws, k, x))
    decreases |ws|, 1
  {
    forall x | k * W <= x < (k + |ws|) * W
      ensures x in BitsOf(k * W, ws[0]) + FlatWords(ws[1..], k + 1) <==> RunBit(ws, k, x)
    {
      if x < (k + 1) * W {
        FlatJoinHead(ws, k, x);
      } else {
        FlatJoinTail(ws, k, x);
      }
    }
  }

  /** A position in word k is among the joined positions exactly when its bit is set. */
  lemma FlatJoinHead(ws: seq<Word>, k: nat, x: nat)
    requires |ws| > 0 && k * W <= x < (k + 1) * W
    ensures x in BitsOf(k * W, ws[0]) + FlatWords(ws[1..], k + 1) <==> RunBit(ws, k, x)
    decreases |ws|, 0
  {
    var first, rest := BitsOf(k * W, ws[0]), FlatWords(ws[1..], k + 1);
    assert x !in rest;
    assert x in first + rest <==> x in first;
    HeadBit(ws, k, x);
  }

  /** A position in word k is a position of that word exactly when its bit of the run is set. */
  lemma HeadBit(ws: seq<Word>, k: nat, x: nat)
    requires |ws| > 0 && k * W <= x < (k + 1) * W
    ensures x in BitsOf(k * W, ws[0]) <==> RunBit(ws, k, x)
  {
    var j := x - k * W;
    BitsOfMember(k * W, ws[0], x);
    DivMod(k, j);
    assert x / W - k == 0 && x % W == j;
  }

  lemma BitsOfMember(base: nat, w: Word, x: nat)
    requires base <= x < base + W
    ensures x in BitsOf(base, w) <==> Bit(w, x - base)
  {
  }

  /** A position past word k is among the joined positions exactly when its bit is set. */
  lemma FlatJoinTail(ws: seq<Word>, k: nat, x: nat)
    requires |ws| > 0 && (k + 1) * W <= x < (k + |ws|) * W
    ensures x in BitsOf(k * W, ws[0]) + FlatWords(ws[1..], k + 1) <==> RunBit(ws, k, x)
    decreases |ws|, 0
  {
    var first, rest := BitsOf(k * W, ws[0]), FlatWords(ws[1..], k + 1);
    assert x !in first;
    assert x in first + rest <==> x in rest;
    assert ws[1..][x / W - (k + 1)] == ws[x / W - k];
  }

  /** The fold `acc + count_ones(w)` over the words, as `len` computes it. */
  function OnesFold(acc: nat, ws: seq<Word>): nat
    decreases |ws|
  {
    if |ws| == 0 then acc else OnesFold(acc + CountOnes(ws[0]), ws[1..])
  }

  /** The fold counts the set-bit positions of the words. */
  lemma {:induction false} OnesFoldFlat(acc: nat, ws: seq<Word>, k: nat)
    ensures OnesFold(acc, ws) == acc + |FlatWords(ws, k)|
    decreases |ws|
  {
    if |ws| > 0 {
      var first, rest := BitsOf(k * W, ws[0]), FlatWords(ws[1..], k + 1);
      assert FlatWords(ws, k) == first + rest;
      assert |FlatWords(ws, k)| == |first| + |rest|;
      CountOnesAnyBase(k * W, ws[0]);
      OnesFoldFlat(acc + CountOnes(ws[0]), ws[1..], k + 1);
    }
  }
}
