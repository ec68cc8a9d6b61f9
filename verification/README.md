# RDKit Dict and rankVect in Dafny

This project models two pieces of RDKit's general-purpose layer and proves
properties of the model.

- **`Dict`** (`Code/RDGeneral/Dict.h`) is the string-keyed property store of
  molecules, atoms and bonds. Each key maps to an `RDValue` cell. A cell is
  empty, a plain-old-data (POD) scalar stored inline, or a reference to a heap
  object the dictionary owns. A single flag, `_hasNonPodData`, tells the
  copy, clear and destroy paths whether any cell may own heap memory. When
  the flag is false they skip the per-cell copy or clean-up.
- **`PairHolder`** (same file) is a key/cell pair that owns its cell.
- **`rankVect`** (`Code/RDGeneral/Ranking.h`) gives each entry of a vector
  its dense rank. It first orders an index permutation by value, either from
  scratch or by re-sorting only the runs that were tied under the previous
  ranks. It then walks the permutation and increases the rank at every
  change of value. The file also defines the `pairGreater`, `pairLess` and
  `argless` comparators.

The project has three modules:

- `Cells` (`cells.dfy`) covers the tagged value cell and a heap of live box
  ids with an allocation watermark. Constructing a heap value allocates a
  box. `cleanup_rdvalue` frees it, and it requires the box to be live, so a
  double free cannot be expressed. `copy_rdvalue` allocates a fresh box.
- `Dicts` (`dicts.dfy`) holds every `Dict` member and `PairHolder`. Each
  operation is a pure function over `(Dict, Heap)` that returns the new
  dictionary and heap. Three predicates carry the ownership story:
  - `FlagInvariant`: an unflagged dictionary holds only POD cells.
  - `Valid`: the invariant plus exclusive ownership of live boxes.
  - `Framed`: the heap outside the dictionary is unchanged, so nothing
    leaked and nothing was freed twice.
- `Rankers` (`rankers.dfy`) works on sequences. Each method returns the
  new contents of the vectors the C++ code updates in place. The
  reference semantics is `DenseRank`: the number of distinct values below an
  entry.

## Model

| member | source | states |
|---|---|---|
| Dicts.DefaultDictValid | Code/RDGeneral/Dict.h:42 | the default dictionary satisfies the class invariant on any well-formed heap, holds no key, and destroying it frees nothing |
| Dicts.DefaultPairOwnsNothing | Code/RDGeneral/Dict.h:360 | the default PairHolder owns no box, so its destructor leaves the heap as it was |
| Dicts.HasVal | Code/RDGeneral/Dict.h:107-109 | a key is reported present exactly when getVal would succeed on it |
| Dicts.GetVal | Code/RDGeneral/Dict.h:145-151 | a present key yields its stored cell; an absent key yields the key error carrying that key, and nothing else |
| Dicts.GetValIfPresent | Code/RDGeneral/Dict.h:177-184 | returns true exactly for present keys and then agrees with getVal; for an absent key returns false and leaves the caller's variable as it was |
| Dicts.Keys | Code/RDGeneral/Dict.h:116-123 | the result lists every key of the map and no other, each once, in strictly ascending std::string order, so its length is the map's size |
| Dicts.SetVal | Code/RDGeneral/Dict.h:208-221 | after setVal the key holds the given value and every other key is unchanged; the flag is set; the old cell's box is freed and the new one is owned, so the rest of the heap is untouched and the invariant holds |
| Dicts.SetText | Code/RDGeneral/Dict.h:265-268 | a C string is stored as a heap-held std::string under the key, with the same frame and flag effects as setVal |
| Dicts.SetPodVal | Code/RDGeneral/Dict.h:223-242 | the POD setters store the scalar inline and never change the flag, yet the invariant still holds and the replaced cell's box is freed |
| Dicts.MoveInsert | Code/RDGeneral/Dict.h:246-262 | the caller's cell is stored itself (no copy); the flag becomes "old flag or the cell is not POD"; the caller's box passes to the map |
| Dicts.ClearVal | Code/RDGeneral/Dict.h:273-281 | removes exactly the given key and keeps the rest; an absent key changes nothing; skipping the clean-up when unflagged still frees every box the removed cell owned |
| Dicts.Reset | Code/RDGeneral/Dict.h:285-292 | the map becomes empty, exactly the dictionary's boxes are freed, the flag is kept, and an unflagged reset leaves the heap as it was |
| Dicts.Destroy | Code/RDGeneral/Dict.h:95-97 | the destructor frees exactly the boxes the dictionary owned |
| Dicts.CopyConstruct | Code/RDGeneral/Dict.h:44-55 | the copy has the source's keys, values and flag; a flagged source gets fresh boxes for all heap values, so both dictionaries are valid on the new heap; an unflagged one is shared bitwise with no allocation |
| Dicts.CopyAssign | Code/RDGeneral/Dict.h:62-80 | as written: self-assignment is a no-op; the flag becomes the source's; an unflagged source replaces the map; a flagged source is emplaced over the target's surviving entries, which win; the heap stays framed exactly when no leak (AssignLeaks) occurs |
| Dicts.CopyAssignCorrected | Code/RDGeneral/Dict.h:62-80 | with the target always reset first, the result holds exactly the source's keys and values, owns boxes disjoint from the source's, and leaks nothing |
| Dicts.MoveConstruct | Code/RDGeneral/Dict.h:57-60 | the new dictionary takes the entries and flag; the source is left empty and unflagged; the invariant carries over to both |
| Dicts.MoveAssign | Code/RDGeneral/Dict.h:82-93 | self-move is a no-op; otherwise the target takes the source's entries and flag, the source is left empty and unflagged, and only the target's old boxes are freed |
| Dicts.Update | Code/RDGeneral/Dict.h:299-319 | without preserveExisting, update is exactly the copy assignment; with it, the keys are the union, existing entries are kept untouched, missing keys get deep copies of the source's values, the flags are OR-ed, and nothing leaks |
| Dicts.PairFromRef | Code/RDGeneral/Dict.h:362-364 | the holder has the key and a deep copy of the cell in a fresh box |
| Dicts.PairFromOwned | Code/RDGeneral/Dict.h:366-369 | the holder takes the cell itself and the source cell is left empty, so the box changes owner and is not duplicated |
| Dicts.PairDestroy | Code/RDGeneral/Dict.h:371 | the destructor frees exactly the held cell's box |
| Dicts.SetThenGet | Code/RDGeneral/Dict.h:145-151 | a value stored with setVal is read back by getVal, and lookups of other keys are unaffected |
| Dicts.SetPodThenGet | Code/RDGeneral/Dict.h:223-236 | the same round trip for the POD setters |
| Dicts.FlagStaysSet | Code/RDGeneral/Dict.h:276-290 | the flag is conservative: after storing and clearing a heap value, the flag remains set through a reset |
| Dicts.CopyIsIndependent | Code/RDGeneral/Dict.h:44-51 | after a deep copy, overwriting a key of the original frees none of the copy's boxes |
| Dicts.ClearThenDestroyFreesEverything | Code/RDGeneral/Dict.h:273-292 | clearVal followed by the destructor frees exactly the boxes the dictionary owned at the start |
| Dicts.UpdateReplacesExample | Code/RDGeneral/Dict.h:299-301 | update(B, false) on {x, y} makes the receiver exactly B, dropping x |
| Dicts.UpdatePreservesExample | Code/RDGeneral/Dict.h:302-318 | update(B, true) adds only B's missing key z and keeps y's old value |
| Dicts.CopyAssignLeaksExample | Code/RDGeneral/Dict.h:66-78 | on a POD-only {a, b} and a flagged {a: text}, the assignment keeps the target's entries and leaves the deep copy of "a" live and unowned |
| Rankers.PairOrders | Code/RDGeneral/Ranking.h:31-49 | pairLess and pairGreater are converse strict orders that ignore the second component |
| Rankers.ArgLessSorted | Code/RDGeneral/Ranking.h:51-59 | a sequence of indices is sorted by value exactly when no index comes after one that argless places before it |
| Rankers.InsertByValue | Code/RDGeneral/Ranking.h:75 | inserting an index into an argless-sorted sequence keeps it sorted and adds exactly that index |
| Rankers.SortByValue | Code/RDGeneral/Ranking.h:74-75 | the std::sort with argless yields a rearrangement of the indices ordered by value |
| Rankers.SortRange | Code/RDGeneral/Ranking.h:86 | sorting indices [lo, hi) rearranges only that block, orders it by value and keeps the whole multiset |
| Rankers.SortTiedRuns | Code/RDGeneral/Ranking.h:76-90 | as written: a permutation of the indices that keeps every position's previous rank and leaves untied positions alone, keeps each whole run's set of indices, but orders only the pairs inside a run that do not involve its last position |
| Rankers.SortTiedRunsCorrected | Code/RDGeneral/Ranking.h:80-89 | sorting whole runs orders every tied pair, keeps previous ranks per position and each whole run's set of indices, and leaves positions outside all runs alone |
| Rankers.RankStep | Code/RDGeneral/Ranking.h:94-101 | writing the rank of position i keeps every rank already written, since the indices are distinct |
| Rankers.CountRanks | Code/RDGeneral/Ranking.h:93-101 | the loop gives each index after the first the number of value changes so far, and touches neither the first index's entry nor entries past n |
| Rankers.AssignRanks | Code/RDGeneral/Ranking.h:92-101 | as written: ranks are the change counts for every index but the first; the first index's entry is 0 only when it is index 0 and is otherwise stale; with n = 0 entry 0 is still overwritten |
| Rankers.AssignRanksCorrected | Code/RDGeneral/Ranking.h:92-101 | with the first index's entry set to 0, every index's entry is its change count and entries past n are kept |
| Rankers.DenseRankOrder | Code/RDGeneral/Ranking.h:61-65 | dense ranks order entries exactly as their values do, both for < and for ties |
| Rankers.PrefixSize | Code/RDGeneral/Ranking.h:93-100 | along a sorted order, the first i+1 positions hold one more distinct value than there are changes up to i |
| Rankers.ChangesAreDenseRanks | Code/RDGeneral/Ranking.h:93-101 | along a sorted permutation, the change count at each position is the dense rank of the entry there |
| Rankers.WholeRunsSortAll | Code/RDGeneral/Ranking.h:77-89 | if the previous ranks order the indices and are refined by the new values, sorting whole tied runs sorts the whole permutation |
| Rankers.RankVect | Code/RDGeneral/Ranking.h:66-102 | as written: the indices stay a permutation, sorted when reset; without reset, each whole run of previous ranks keeps its own indices; ranks follow the change counts except at the first index; with reset, every entry is its dense rank except the first index's when it is not 0, which keeps its old value |
| Rankers.RankVectCorrected | Code/RDGeneral/Ranking.h:66-102 | with both repairs, after a reset or from a consistent previous state, the indices are sorted and every entry is its dense rank |
| Rankers.RankVectAll | Code/RDGeneral/Ranking.h:104-112 | the two-argument overload: every entry is its dense rank except at most one; a stale entry is not entry 0, has the smallest value, and keeps its old value |
| Rankers.RankVectAllCorrected | Code/RDGeneral/Ranking.h:104-112 | with the first rank written to the right entry, every entry is its dense rank and entries past n are kept |
| Rankers.StaleFirstRankExample | Code/RDGeneral/Ranking.h:92 | vect [1, 0] with res [7, 7]: the result is [1, 7], and entry 1 is not its dense rank 0 |
| Rankers.UnsortedRunExample | Code/RDGeneral/Ranking.h:86 | vect [1, 0], indices [0, 1] and res [0, 0], a consistent previous state: the indices do not move and the ranks come out [0, 1], reversed |
| Rankers.RunsStayApartExample | Code/RDGeneral/Ranking.h:80-101 | vect [1, 5, 5, 0, 5], indices [0, 1, 2, 3, 4] and res [0, 0, 1, 0, 0] without reset: the two runs of previous rank 0 are sorted in place, so no index crosses into the other run; the indices stay [0, 1, 2, 3, 4] and the ranks come out [0, 1, 1, 2, 3] |

## Left out

- `RDValue.h` is not part of this model. A cell keeps only what `Dict`
  relies on: its tag, whether it owns a box, and its payload as an opaque
  value. `from_rdvalue`, `rdvalue_tostring` and the `boost::lexical_cast`
  conversions inside `getVal` and `getValIfPresent` are not modelled. The
  lookups return the stored cell, and the typed and string overloads
  collapse into one.
- Floating-point payloads are not modelled. A POD cell carries a tag and
  an integer, because the dictionary never looks at the bits.
- `getNonPODStatus` hands out a mutable reference to the flag for bulk
  updates. It is left out because it lets a caller break the invariant
  the rest of the model maintains.
- `iterKeys`, `iterValues`, `unstableItems` and `DictIter.h` are left out.
  They are read-only views over the map.
- Exceptions are modelled as values. `KeyErrorException` is the `KeyError`
  result, and the `PRECONDITION` checks of `rankVect` are `requires`
  clauses.
- Allocation: box ids are chosen by a fixed relocation rule: the copy of
  box `id` goes to `next + id`. The real allocator's addresses are not
  observable, so no property depends on this choice.
- Dicts.SetPodVal: the model's value is one of the five scalar kinds that
  the `setVal` overloads at Dict.h:238-242 pass. `setPODVal<T>` is a
  public template that excludes only `string_view`; called with a heap
  type it would store a boxed cell without setting `_hasNonPodData`,
  breaking the flag invariant like `getNonPODStatus` can. That misuse is
  not modelled.
- Dicts.Keys: keys are Dafny strings compared by code point, while
  `std::string` compares bytes as `unsigned char`. The two orders agree
  for UTF-8 keys; keys that are not valid UTF-8 cannot be expressed.
- Dicts.Reset: the source re-tags each cleaned cell empty before clearing
  the map. The model returns only the heap effect, because every cleaned
  cell is discarded immediately.
- Dicts.MoveAssign: the source leaves `other._data` in a valid but
  unspecified state after `std::move`. The model takes it to be empty, as
  `std::map`'s move leaves it.
- Dicts.MoveConstruct: the same holds for `_data(std::move(other._data))`
  in the move constructor; the moved-from map is taken to be empty.
- Dicts.MoveInsert: the caller's cell is not returned re-tagged empty
  (`val.type = EmptyTag`), because `val` is a by-value parameter and the
  caller never sees the change.
- PairHolder's implicit copy constructor and copy assignment are not
  modelled. The class declares a destructor that cleans its cell but no
  copy operations, so an implicit copy would share the box and the two
  destructors would free it twice. The model offers only the constructors
  the class declares.
- Self-assignment (`this == &other`) is a boolean parameter `aliased` that
  requires the two dictionaries to be equal. Object identity has no
  counterpart in a value model.
- Rankers.SortByValue: `std::sort` leaves the order of equal values
  unspecified. The model's insertion sort is one admissible order, and
  the contract states only sortedness and the multiset.
- Rankers.RankVect: vector values are `int` and ranks are `nat`.
  `rankVect` is generic in `T1`/`T2`, and the proofs need only a total
  order with equality on `T1`.
- Rankers.RankVect: without `reset_indices`, the indices must already be a
  permutation of 0..n-1. Reading `res[indices[k]]` in the source needs
  only indices in range; distinctness is what makes every entry receive a
  rank, and the contracts are stated for that case.
- Rankers.RankVect: it requires `|res| >= 1`, because `res[0] = 0` is
  written even when `vect` is empty. `RankVectCorrected` does not need
  this.
- Rankers.RankVect: the counter `int currRank` (Ranking.h:93) and the
  `unsigned int` indices filled by `std::iota` (Ranking.h:74) are
  unbounded here; the source overflows them past 2^31 and 2^32 entries.
- Rankers.RankVectAll: the `rdcast<unsigned int>` overflow check of the
  size is not modelled, because sequence lengths are unbounded.

## Findings

| source | as written | input that shows it | evidently intended | confidence | as-written member | corrected member |
|---|---|---|---|---|---|---|
| Code/RDGeneral/Ranking.h:92 | `res[0] = 0` sets the rank of entry 0, not of the first index in sorted order; that entry keeps its old value | vect = [1, 0], res = [7, 7], reset: res becomes [1, 7] instead of [1, 0] | `res[indices[0]] = 0` (and nothing written when n = 0) | high; not executed | Rankers.AssignRanks, Rankers.RankVect, Rankers.StaleFirstRankExample | Rankers.AssignRanksCorrected, Rankers.RankVectCorrected |
| Code/RDGeneral/Ranking.h:86 | `std::sort(begin+start, begin+end)` excludes position `end`, the last member of the tied run, so the incremental order need not be sorted | vect = [1, 0], indices = [0, 1], res = [0, 0], no reset: indices stay [0, 1] and ranks become [0, 1] instead of [1, 0] | sort `[start, end]`, i.e. up to `begin+end+1` | high; not executed | Rankers.SortTiedRuns, Rankers.UnsortedRunExample | Rankers.SortTiedRunsCorrected, Rankers.WholeRunsSortAll |
| Code/RDGeneral/Dict.h:66-78 | copy assignment resets the target only if the target is flagged, then `emplace`s a flagged source's deep copies, and `emplace` keeps existing keys | target {a: 1, b: 2} unflagged, source {a: "t"} flagged: the target stays {a: 1, b: 2} and the copy of "t" is never freed | the target becomes a copy of the source and nothing leaks (reset, or clear the map, whatever the flag) | high; not executed | Dicts.CopyAssign, Dicts.CopyAssignLeaksExample | Dicts.CopyAssignCorrected |
