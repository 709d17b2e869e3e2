# Bitv and BitvSet: a verified model

This project models the word-packed bit vector `Bitv` and the bit set
`BitvSet` of the Rust collections library (`src/libcollections/bitv.rs`).
It then proves what their operations compute.

A `Bitv` is a sequence of 64-bit storage words plus a length `nbits`. Bit `i`
lives in word `i / 64` at position `i % 64`. Storage bits at or above `nbits`
are stale: whole-word operations may leave anything there. Every whole-word
reader therefore goes through the `MaskWords` iterator, which clears the
unused high bits of the final storage word.

A `BitvSet` is a set of naturals held in a `Bitv`, value `v` being bit `v`.
Insertion grows the storage by at least doubling, but sets `nbits` only to
just past the new member. So a set's storage may run ahead of `nbits`.

Every operation has a partner stated against an abstract value:

* for a vector, `View(b)`, the sequence of its `nbits` meaningful bits;
* for a set, `Members(s)`, the set of naturals it contains;
* for an enumeration, `Walk(Enumerate(S, 0, cap), f)`, the early-stopping
  visit of the ascending members of a reference set `S`.

The set-level properties hold under the representation invariant
`BitvSets.Tidy`. It says one of two things:

* the vector has exactly the storage `Bitv::new` gives it (as after
  `from_bitv`); or
* every storage bit at or above `nbits` is zero.

Modules and files:

* `sorted.dfy` (`Sorted`, `Options`): ascending sequences, the reference
  enumeration `Enumerate`, the visitor protocol `Walk`, and `Option`.
* `words.dfy` (`Words`): 64-bit words as naturals below 2^64. It defines the
  bitwise operations through a single bit-by-bit definition, the bit
  positions of a word, and population counts.
* `bitv.dfy` (`Bitvs`): `new`, `get`, `set`, the `MaskWords` iterator,
  `process`, `union`, `intersect`, `difference`, `assign`, `clear`,
  `set_all` and `negate`.
* `bitv_query.dfy` (`BitvQueries`): `all`, `none`, `any`, `eq` and `eq_vec`.
* `bits_iter.dfy` (`BitsIter`): the double-ended, random-access `Bits`
  iterator.
* `bitv_bytes.dfy` (`BitvBytes`): `to_bytes`, `from_bytes`, `from_bools` and
  `from_fn`.
* `bitv_set.dfy` (`BitvSets`): the set, `grow`, `insert`, `remove`, `clear`,
  `len`, `shrink_to_fit`, `other_op` and the four `*_with` operations.
* `bitv_set_ops.dfy` (`BitvSetOps`): `iterate_bits`, `commons`, `outliers`,
  the four visitor enumerations, `is_subset`, `is_superset`, `is_disjoint`
  and the `BitPositions` iterator.

## Model

| member | source | states |
|---|---|---|
| Bitvs.New | src/libcollections/bitv.rs:131-137 | A new vector has exactly ceil(nbits / 64) words, and every one of its nbits bits reads `init`. |
| Bitvs.Get | src/libcollections/bitv.rs:174-181 | For a vector shaped as `new` builds it, `get(i)` on the raw storage word reads the same as bit i % 64 of the masked word i / 64: below nbits it never sees a stale bit. |
| Bitvs.Set | src/libcollections/bitv.rs:188-195 | Setting bit i to x changes exactly storage bit i to x. Every other storage bit, meaningful or stale, keeps its value; the length and word count stay the same. |
| Bitvs.GetSet | src/libcollections/bitv.rs:174-195 | `get(j)` after `set(i, x)` reads x when j = i, and the old `get(j)` otherwise. |
| Bitvs.MaskWords | src/libcollections/bitv.rs:111-127 | `mask_words(start)` yields one pair per word from the clamped start to the end. Each pair holds the word's index and the word, masked when it is the last. |
| Bitvs.MaskWordsNext | src/libcollections/bitv.rs:69-87 | `next` answers None exactly when no word is pending. Otherwise it yields the current offset and strictly reduces the words left. |
| Bitvs.DrainMaskWords | src/libcollections/bitv.rs:62-87 | Calling `next` on the iterator until it answers None yields exactly `MaskWords(b, start)`. |
| Bitvs.MaskedBit | src/libcollections/bitv.rs:69-87 | A bit of a masked word is its storage bit, cleared when it lies in the final word at or above nbits % 64. |
| Bitvs.ValidMaskedBit | src/libcollections/bitv.rs:111-127 | For a vector shaped as `new` builds it, masking keeps exactly the meaningful bits: bit i is set iff i < nbits and storage bit i is set. |
| Bitvs.Process | src/libcollections/bitv.rs:91-108 | Word k becomes op(word k, masked word k of other). The answer is true iff some word changed. |
| Bitvs.ProcessBits | src/libcollections/bitv.rs:91-108 | After `process`, each storage bit is op of the old bit and the other's bit, which reads false at or past the other's nbits. |
| Bitvs.BinaryOp | src/libcollections/bitv.rs:91-108 | The bit-level result of `process` for any op. The answer is true iff the vector changed. |
| Bitvs.Union | src/libcollections/bitv.rs:146-148 | Each bit becomes the OR of the two bits. The answer says whether self changed. |
| Bitvs.Intersect | src/libcollections/bitv.rs:157-159 | Each bit becomes the AND of the two bits. The answer says whether self changed. |
| Bitvs.Assign | src/libcollections/bitv.rs:168-170 | Each bit becomes the other's bit. The answer says whether self changed. |
| Bitvs.Difference | src/libcollections/bitv.rs:225-227 | A bit stays set only where the other's bit is clear. The answer says whether self changed. |
| Bitvs.Clear | src/libcollections/bitv.rs:199-201 | Every storage bit is clear; the length is kept. |
| Bitvs.SetAll | src/libcollections/bitv.rs:205-207 | Every storage bit is set; the length is kept. |
| Bitvs.Negate | src/libcollections/bitv.rs:211-213 | Every storage bit is flipped; the length is kept. |
| Bitvs.NegateTwice | src/libcollections/bitv.rs:211-213 | Negating twice gives back the same vector. |
| BitvQueries.AllScan | src/libcollections/bitv.rs:230-237 | The scan in `all` succeeds iff every masked word but the last is all ones. When it succeeds, it remembers the last word. |
| BitvQueries.AllSetMeaning | src/libcollections/bitv.rs:230-237 | The corrected `all` holds iff every meaningful bit is set. |
| BitvQueries.AllAsWritten | src/libcollections/bitv.rs:230-237 | The code's `all` holds whenever every meaningful bit is set; when nbits is not a multiple of 64 it holds exactly then. |
| BitvQueries.AllAsWrittenAcceptsClear | src/libcollections/bitv.rs:230-237 | The code's `all` holds for 64 clear bits, for which the corrected `all` is false. |
| BitvQueries.NoneSet | src/libcollections/bitv.rs:261-263 | For a vector shaped as `new` builds it, `none` holds iff no meaningful bit is set. |
| BitvQueries.AnySet | src/libcollections/bitv.rs:267-269 | For a vector shaped as `new` builds it, `any` holds iff some meaningful bit is set. |
| BitvQueries.NewNoneAll | src/libcollections/bitv.rs:131-137 | `new(n, false)` has no bit set (`none` holds, `any` fails). `new(n, true)` has every bit set, and the code's `all` accepts it. |
| BitvQueries.Eq | src/libcollections/bitv.rs:373-381 | Two vectors shaped as `new` builds them are `eq` iff they have the same meaningful bits (so the same length), whatever their stale bits. |
| BitvQueries.EqVec | src/libcollections/bitv.rs:306-315 | With equal lengths, `eq_vec` answers true iff the vector's bits are exactly the given booleans. |
| BitsIter.Iter | src/libcollections/bitv.rs:256-258 | A fresh iterator's remaining window is the whole vector. |
| BitsIter.Next | src/libcollections/bitv.rs:409-417 | `next` yields the first bit of the window and drops it. On an empty window it yields None and keeps the window. |
| BitsIter.NextBack | src/libcollections/bitv.rs:427-435 | `next_back` yields the last bit of the window and drops it. On an empty window it yields None. |
| BitsIter.SizeHint | src/libcollections/bitv.rs:419-422 | Both bounds are exactly the number of bits left. |
| BitsIter.Indexable | src/libcollections/bitv.rs:441-443 | `indexable` is the number of bits left. |
| BitsIter.Idx | src/libcollections/bitv.rs:446-451 | The corrected `idx(j)` is the j-th remaining bit, or None past the window. |
| BitsIter.IdxAsWritten | src/libcollections/bitv.rs:446-451 | The code's `idx(j)` reads bit j of the whole vector while j is below the number of bits left, and None past it. It agrees with the corrected `idx` while no `next` has moved the front. |
| BitsIter.IdxAsWrittenDisagrees | src/libcollections/bitv.rs:446-451 | After one `next` on the bits [true, false], the code's `idx(0)` yields true but the only remaining bit is false. |
| BitsIter.Collect | src/libcollections/bitv.rs:409-417 | Calling `next` until None yields exactly the window. |
| BitvBytes.ByteAtBit | src/libcollections/bitv.rs:277-300 | Bit 7 - t of byte i is vector bit 8i + t, and reads 0 past nbits. The most significant bit comes first. |
| BitvBytes.ToBytes | src/libcollections/bitv.rs:277-300 | `to_bytes` gives ceil(nbits / 8) bytes. Position p, counted most significant bit first, is bit p of the vector, or 0 past nbits. |
| BitvBytes.FromFnUpTo | src/libcollections/bitv.rs:341-347 | After the loop of `from_fn` has set the first i bits, bits below i read f and the rest read false. |
| BitvBytes.FromFn | src/libcollections/bitv.rs:341-347 | `from_fn(len, f)` has length len, and bit j reads f(j). |
| BitvBytes.FromBools | src/libcollections/bitv.rs:333-335 | The bits of `from_bools(bs)` are exactly bs. |
| BitvBytes.FromBytes | src/libcollections/bitv.rs:321-328 | `from_bytes` gives 8 bits per byte, the most significant first. |
| BitvBytes.ToBytesFromBytes | src/libcollections/bitv.rs:321-328 | `to_bytes(from_bytes(bs))` is bs. |
| BitvBytes.FromBytesToBytes | src/libcollections/bitv.rs:277-300 | `from_bytes(to_bytes(b))` is b padded with clear bits to a whole number of bytes. |
| BitvSets.Empty | src/libcollections/bitv.rs:471-473 | `BitvSet::new` is tidy, has no members and has capacity zero. |
| BitvSets.FromBitv | src/libcollections/bitv.rs:476-478 | For a vector built by `new`, the set is tidy and its members are exactly the set bits. |
| BitvSets.Capacity | src/libcollections/bitv.rs:482-485 | `capacity` is a whole number of words, and every member lies below it. |
| BitvSets.Contains | src/libcollections/bitv.rs:631-634 | `contains(v)` holds iff v is a member. |
| BitvSets.Grow | src/libcollections/bitv.rs:495-502 | `grow` appends zero words up to ceil(size / 64) words and never shrinks. The old words and nbits are kept. |
| BitvSets.GrowKeeps | src/libcollections/bitv.rs:495-502 | Growing keeps the members and leaves room for size bits. |
| BitvSets.Remask | src/libcollections/bitv.rs:674-680 | The masking step of `insert` clears exactly the storage bits from nbits to the end of the last meaningful word. |
| BitvSets.InsertNew | src/libcollections/bitv.rs:669-683 | `insert` of a non-member raises nbits to at least v + 1. Capacity grows to max(v + 1, twice the old capacity) only when v does not fit, and v becomes a member. |
| BitvSets.Insert | src/libcollections/bitv.rs:665-685 | The answer is true iff v was not a member; on false nothing changes. Otherwise v fits and is a member, and capacity at least doubles when v did not fit. A tidy set stays tidy and gains exactly v. |
| BitvSets.InsertKeeps | src/libcollections/bitv.rs:665-685 | Inserting a non-member into a tidy set keeps it tidy and adds exactly v. |
| BitvSets.Remove | src/libcollections/bitv.rs:687-694 | The answer is true iff v was a member; on false nothing changes. v is not a member afterwards, capacity is kept, and a tidy set loses exactly v. |
| BitvSets.SetClear | src/libcollections/bitv.rs:624-627 | `clear` empties the set, keeps it tidy and keeps its capacity. |
| BitvSets.Len | src/libcollections/bitv.rs:617-620 | The corrected `len`, counting the masked words, is the number of members of a tidy set. |
| BitvSets.LenAsWritten | src/libcollections/bitv.rs:617-620 | The code's `len` is the number of set storage bits, meaningful or stale. It is the number of members when no bit at or above nbits is set. |
| BitvSets.LenAsWrittenOvercounts | src/libcollections/bitv.rs:617-620 | For `from_bitv(Bitv::new(10, true))`, the code's `len` exceeds the 10 members. |
| BitvSets.TrailingZeros | src/libcollections/bitv.rs:525 | The count of trailing zero words stops at the first nonzero word from the end. |
| BitvSets.ShrinkToFitAsWritten | src/libcollections/bitv.rs:520-530 | The code's `shrink_to_fit` keeps a prefix of the storage and drops only zero words; when it keeps more than one word, the last is nonzero. nbits becomes a positive multiple of 64, equal to the capacity kept iff the storage was not empty. |
| BitvSets.ShrinkAsWrittenKeeps | src/libcollections/bitv.rs:520-530 | On a tidy set with storage, the code's `shrink_to_fit` sets nbits to the positive capacity kept and keeps every member. |
| BitvSets.ShrinkToFit | src/libcollections/bitv.rs:520-530 | The corrected `shrink_to_fit` masks the stale bits first, then drops trailing zero words (keeping at least one when there is one) and sets nbits to the capacity kept. A tidy set stays tidy and keeps exactly its members. |
| BitvSets.ShrinkKeeps | src/libcollections/bitv.rs:520-530 | The corrected `shrink_to_fit`: truncating the re-masked storage keeps exactly the members of a tidy set. |
| BitvSets.ShrinkEmptyOverruns | src/libcollections/bitv.rs:520-530 | The code's `shrink_to_fit` on an empty set leaves nbits = 64 with no storage. |
| BitvSets.ShrinkAddsMembers | src/libcollections/bitv.rs:520-530 | The code's `shrink_to_fit` turns the stale bit 20 of `from_bitv(Bitv::new(10, true))` into a member. |
| BitvSets.OtherOpAsWritten | src/libcollections/bitv.rs:505-516 | The code's `other_op` grows self to the other's capacity. It combines every word the other has with op and never changes nbits. |
| BitvSets.OtherOpAsWrittenAgrees | src/libcollections/bitv.rs:505-550 | When other's nbits is at most self's, the code's `other_op` is exact for tidy sets: x is a member afterwards iff op of its two memberships holds. This covers or, and-not and xor, and also and when other's storage is at least as long as self's. |
| BitvSets.OtherOp | src/libcollections/bitv.rs:505-516 | The corrected `other_op` raises nbits to the larger of the two. For tidy sets it stays tidy, and x is a member iff op of the two memberships of x holds. |
| BitvSets.OtherOpKeeps | src/libcollections/bitv.rs:505-516 | The membership law of the corrected `other_op`, for tidy sets. |
| BitvSets.UnionWith | src/libcollections/bitv.rs:533-535 | The corrected `union_with`, through the corrected `other_op`: for tidy sets, the members afterwards are the union. |
| BitvSets.IntersectWith | src/libcollections/bitv.rs:538-540 | The corrected `intersect_with`, through the corrected `other_op`: for tidy sets, the members afterwards are the intersection. |
| BitvSets.DifferenceWith | src/libcollections/bitv.rs:543-545 | The corrected `difference_with`, through the corrected `other_op`: for tidy sets, the members afterwards are self minus other. |
| BitvSets.SymmetricDifferenceWith | src/libcollections/bitv.rs:548-550 | The corrected `symmetric_difference_with`, through the corrected `other_op`: for tidy sets, the members afterwards are those of exactly one set. |
| BitvSets.UnionWithLosesMembers | src/libcollections/bitv.rs:533-535 | The code's `union_with` of {9} (nbits 10) with a set holding 100 leaves 100 out. |
| BitvSets.IntersectWithKeepsMembers | src/libcollections/bitv.rs:538-540 | The code's `intersect_with` of a set holding 100 with {9} keeps 100. |
| BitvSets.OtherOpExposesStaleBits | src/libcollections/bitv.rs:505-516 | After the code's `other_op` grows `from_bitv(Bitv::new(10, true))`, `mask_words` yields bit 20, which `contains` rejects. |
| BitvSetOps.IterateBitsWalk | src/libcollections/bitv.rs:386-398 | `iterate_bits` offers base + i for each set bit i, ascending, and stops at the first rejection. The zero-word shortcut changes nothing. |
| BitvSetOps.Commons | src/libcollections/bitv.rs:702-709 | `commons` yields one triple per word both storages have: k * 64 and the two masked words k. |
| BitvSetOps.Outliers | src/libcollections/bitv.rs:718-732 | `outliers` yields the masked words past the shorter storage, from the longer one, flagged by whose they are and offset by k * 64. |
| BitvSetOps.AdvanceFlat | src/libcollections/bitv.rs:568-576 | Running `iterate_bits` over consecutive words with `advance` is one walk over the positions of all those words. |
| BitvSetOps.CombinedPositions | src/libcollections/bitv.rs:702-732 | For tidy sets, the positions of the combined common and outlier words are the ascending members of the result set. |
| BitvSetOps.EnumerationMeaning | src/libcollections/bitv.rs:556-589 | The commons loop followed by the outlier walk offers the members of the result set in ascending order. |
| BitvSetOps.Union | src/libcollections/bitv.rs:582-589 | For tidy sets, `union(f)` visits the members of either set in ascending order and stops at the first rejection. |
| BitvSetOps.Intersection | src/libcollections/bitv.rs:578-580 | For tidy sets, `intersection(f)` visits the members of both sets in ascending order. |
| BitvSetOps.Difference | src/libcollections/bitv.rs:556-566 | For tidy sets, `difference(f)` visits the members of self not in other in ascending order; other's outliers are skipped. |
| BitvSetOps.SymmetricDifference | src/libcollections/bitv.rs:568-576 | For tidy sets, `symmetric_difference(f)` visits the members of exactly one set in ascending order. |
| BitvSetOps.CommonsCovered | src/libcollections/bitv.rs:641-645 | The commons loop of `is_subset` passes iff w1 & w2 == w1 for every common word. |
| BitvSetOps.OutliersOk | src/libcollections/bitv.rs:649-656 | The outlier loop of `is_subset` passes iff the outliers are other's, or all of self's are zero. |
| BitvSetOps.SubsetByWords | src/libcollections/bitv.rs:640-657 | Inclusion of tidy sets holds iff it holds word by word over self's storage. |
| BitvSetOps.OutliersSubset | src/libcollections/bitv.rs:649-656 | The outlier loop passes iff self's words past the other's storage hold no member outside other. |
| BitvSetOps.IsSubset | src/libcollections/bitv.rs:640-657 | For tidy sets, `is_subset` holds iff Members(self) <= Members(other). |
| BitvSetOps.IsSuperset | src/libcollections/bitv.rs:659-661 | For tidy sets, `is_superset` holds iff Members(other) <= Members(self). |
| BitvSetOps.IsDisjoint | src/libcollections/bitv.rs:636-638 | For tidy sets, `is_disjoint` holds iff the sets share no member. |
| BitvSetOps.DisjointMeaning | src/libcollections/bitv.rs:636-638 | An intersection walk whose visitor rejects everything completes iff the intersection is empty. |
| BitvSetOps.Iter | src/libcollections/bitv.rs:552-554 | `iter` starts at index 0 over the same set. |
| BitvSetOps.Next | src/libcollections/bitv.rs:742-753 | `next` yields the least member at or above the index and moves past it. When there is none, it answers None with the index at the capacity. |
| BitvSetOps.SizeHint | src/libcollections/bitv.rs:755-757 | The lower bound is 0, and the upper bound covers everything still to be yielded. |
| BitvSetOps.Collect | src/libcollections/bitv.rs:742-753 | Repeated `next` yields, in ascending order, exactly the members at or above the starting index. |
| BitvSetOps.IterYieldsMembers | src/libcollections/bitv.rs:552-554 | Iterating a set yields its members in ascending order. |

## Left out

- The `Show`, `Hash` and `Default` impls (bitv.rs:355-371, 464-467, 592-613) and `to_str`: formatting and hashing are outside the model.
- `unwrap` (bitv.rs:488-491) and `Index::index` (bitv.rs:349-353): the first only returns the wrapped vector and the second only calls `get`.
- The `#[cfg(test)]` tests and benchmarks are not part of the model.
- Lifetimes, borrows and the iterator adaptor machinery (`zip`, `map`, `advance`) are not modelled. They are unfolded into explicit sequences and visits.
- Closures are modelled as pure functions `nat -> bool` (visitors) or as a `WordOp` tag (`process`, `other_op`), so their side effects are not modelled.
- `uint` is taken to be 64 bits. Words are naturals below 2^64, and index arithmetic is unbounded: overflow of `value + 1` or `capacity() * 2` near 2^64 is not modelled.
- Bytes are 8-bit bit-vectors; `to_bytes` builds its result as a sequence rather than through `Vec::from_fn`.
- Panics become preconditions: the index asserts of `get`/`set`, the length assert of `process` and `eq_vec`, and vector indexing past the storage.
- The mutating operations return a new value instead of updating `self` in place.
- BitvSetOps.Union: stated only for tidy sets; stale bits of an untidy set would be visited.
- BitvSetOps.Intersection: stated only for tidy sets, for the same reason.
- BitvSetOps.Difference: stated only for tidy sets, for the same reason.
- BitvSetOps.SymmetricDifference: stated only for tidy sets, for the same reason.
- BitvSetOps.IsSubset: stated only for tidy sets, since the code reads the masked words and not the members.
- BitvSetOps.IsDisjoint: stated only for tidy sets, for the same reason.
- BitvSets.UnionWith: the membership law is stated only for tidy sets; every constructor of the model produces one.
- BitvSets.IntersectWith: likewise only for tidy sets.
- BitvSets.DifferenceWith: likewise only for tidy sets.
- BitvSets.SymmetricDifferenceWith: likewise only for tidy sets.
- BitvSetOps.SizeHint: states only that the upper bound covers what is left, as the code promises no more.
- Bitvs.Union: the bit law is stated only when the other vector has the shape `new` builds, which every `Bitv` constructor gives.
- Bitvs.Intersect: likewise.
- Bitvs.Difference: likewise.
- Bitvs.Assign: likewise.

## Findings

| source | as written | input that shows it | evidently intended | confidence | as-written member | corrected member |
|---|---|---|---|---|---|---|
| src/libcollections/bitv.rs:237 | The last word is compared with `(1 << nbits % 64) - 1`, which is 0 when nbits is a positive multiple of 64. | `Bitv::new(64, false).all()` is true. | `all` is false when any meaningful bit is clear. | not executed | BitvQueries.AllAsWrittenAcceptsClear | BitvQueries.AllSetMeaning |
| src/libcollections/bitv.rs:617-620 | `len` counts the ones of every storage word, stale bits included. | `BitvSet::from_bitv(Bitv::new(10, true)).len()` counts 64, not 10. | `len` is the number of members. | not executed | BitvSets.LenAsWrittenOvercounts | BitvSets.Len |
| src/libcollections/bitv.rs:527-529 | `nbits` becomes `max(len - zeros, 1) * 64` even when the storage is empty. | `BitvSet::new()` then `shrink_to_fit()` gives nbits 64 with no words, so `contains(&5)` indexes past the storage. | nbits never exceeds the capacity. | not executed | BitvSets.ShrinkEmptyOverruns | BitvSets.ShrinkToFit |
| src/libcollections/bitv.rs:527-529 | `nbits` is raised to the whole kept capacity without masking the stale bits first. | `from_bitv(Bitv::new(10, true))` then `shrink_to_fit()` makes `contains(&20)` true. | Shrinking keeps the members. | not executed | BitvSets.ShrinkAddsMembers | BitvSets.ShrinkKeeps |
| src/libcollections/bitv.rs:505-516 | `other_op` grows the storage but never raises `nbits`. | `union_with` of {9} (nbits 10) with a set holding 100: `contains(&100)` is false afterwards. | The result holds the union. | not executed | BitvSets.UnionWithLosesMembers | BitvSets.UnionWith |
| src/libcollections/bitv.rs:505-516 | Words of self past the other's storage are left untouched. | `intersect_with` of a two-word set holding 100 with {9}: 100 stays a member. | The result holds the intersection. | not executed | BitvSets.IntersectWithKeepsMembers | BitvSets.IntersectWith |
| src/libcollections/bitv.rs:507 | Growing makes the old last word an inner word, so `mask_words` stops masking its stale bits. | `from_bitv(Bitv::new(10, true))` with `difference_with` of a two-word set: `mask_words` yields bit 20, which `contains` rejects. | Word-level readers see only members. | not executed | BitvSets.OtherOpExposesStaleBits | BitvSets.OtherOpKeeps |
| src/libcollections/bitv.rs:450 | `idx(index)` reads `bitv.get(index)`, counting from bit 0 and not from `next_idx`. | On `[true, false]` after one `next`, `idx(0)` is true but the only bit left is false. | `idx(j)` is the j-th bit still to be yielded. | not executed | BitsIter.IdxAsWrittenDisagrees | BitsIter.Idx |
