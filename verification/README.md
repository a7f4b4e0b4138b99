# Leaderboard core, modelled in Dafny

The leaderboard keeps rankable entities in two indexes. An ordered set holds
them ascending by rank, with ties broken by the id's string form. A map finds
each one by its id. A counter tracks how many distinct ids have been added.
`getRange(from, to)` turns a 1-indexed window of rank positions into a
contiguous run of the ordered set. `getTop(n)` is `getRange(1, n)`.

The model has five modules.

- `Outcomes`: Java `null` becomes `None`, and a thrown exception becomes
  `Thrown(...)`. The exceptions are `IndexOutOfBounds`, `NullPointer` and
  `IllegalArgument`.
- `Ranking`: `Rankable.compareTo` over entities with a string rank and a
  string id.
  - Java's `String.compareTo` is written out as `CompareStrings`.
  - It is proved negative exactly on lexicographic order, and zero exactly
    on equal strings.
  - It is proved antisymmetric and transitive.
  - The entity order is therefore a strict total order: rank first, then id
    string.
- `SkipListSet`: the `ConcurrentSkipListSet` as a strictly ascending
  sequence.
  - It has `add`, `remove` and the inclusive `subSet(lo, true, hi, true)`.
  - `subSet` throws `IllegalArgumentException` when `lo > hi`.
  - Lemmas pin down where `add` puts an element and what `remove` takes out.
  - Another lemma shows that the subset between two elements of the set is
    exactly the slice between their positions.
- `Board`: `LeaderBoardImpl` as a class with three fields.
  - `entries` is the set, `byId` is the map, and `size` is the counter.
  - `Valid()` is the invariant that `add` and `remove` keep:
    - the counter is the number of map keys;
    - every map value carries its own key as id and is in the set;
    - the set is strictly ascending.
  - It follows that the set never holds fewer elements than the counter.
  - `getElementInPos` is the same counting loop as the source.
  - `getRange` clamps `from` and `to` step by step as the source does.
  - `GetElementInPos` is proved against the function `ElementInPos`, and
    `GetRange` against `RangeOf`, both functions of the state. Lemmas about
    `RangeOf` give its error cases and its success case (the slice of
    positions `from - 1 .. to - 1`). They also cover the `getTop` case and
    the `Integer.MIN_VALUE` corner.
- `Scenarios`: the unit tests replayed against the class, starting from the
  fixture of ids 0..9 with ranks "0".."9".

Java `int` arithmetic appears where it matters. `getRange` computes
`to - 1`, and for `to == Integer.MIN_VALUE` this wraps round to
`Integer.MAX_VALUE`. `Sub32` models that wrap-around. As a result,
`getRange(MIN_VALUE, MIN_VALUE)` on a non-empty board does not throw
`IndexOutOfBoundsException` like `getRange(0, 0)` does. Instead
`getElementInPos` returns null, and `subSet` throws `NullPointerException`.
`RangeOfIntMinValue` states this.

`add` does not evict an id's previous entity from the ordered set. It only
inserts the new entity and overwrites the map entry
(`LeaderBoardImpl.java:46-47`). The model keeps this behaviour.

- Re-adding an id with another rank leaves the old entity in the set.
- The set can then hold more elements than the counter.
- `getRange` clamps to the counter, not to the set's real length.
- `ReAddSameId` shows this concretely: after ranks "190" and "778" are added
  for id 0, the counter is 10 but the set holds 12 entities.

## Model

| member | source | states |
|---|---|---|
| Ranking.CompareStringsIsLexicographic | src/main/java/com/amimagid/leaderboard/entity/Rankable.java:15-16 | The string comparison used for ranks and ids is negative exactly when the first string is a proper prefix of the second, or has the smaller character where they first differ. |
| Ranking.CompareStringsZeroIffEqual | src/main/java/com/amimagid/leaderboard/entity/Rankable.java:15-16 | The string comparison is zero exactly on equal strings. |
| Ranking.CompareStringsAntisymmetric | src/main/java/com/amimagid/leaderboard/entity/Rankable.java:15-16 | Swapping the two strings negates the comparison. |
| Ranking.CompareStringsTransitive | src/main/java/com/amimagid/leaderboard/entity/Rankable.java:15-16 | The string comparison is transitive. |
| Ranking.CompareToZeroIffSame | src/main/java/com/amimagid/leaderboard/entity/Rankable.java:14-18 | compareTo is zero exactly when both the rank and the id string are equal. |
| Ranking.CompareToAntisymmetric | src/main/java/com/amimagid/leaderboard/entity/Rankable.java:14-18 | a.compareTo(b) == -b.compareTo(a), so one is negative exactly when the other is positive. |
| Ranking.CompareToTransitive | src/main/java/com/amimagid/leaderboard/entity/Rankable.java:14-18 | If a sorts before b and b before c, then a sorts before c. |
| Ranking.LessTotal | src/main/java/com/amimagid/leaderboard/entity/Rankable.java:14-18 | Two entities are ordered one way or the other exactly when they differ. |
| Ranking.LessIsRankThenId | src/main/java/com/amimagid/leaderboard/entity/Rankable.java:14-18 | a sorts before b exactly when a's rank is lexicographically smaller, or the ranks are equal and a's id string is lexicographically smaller. |
| SkipListSet.Insert | src/main/java/com/amimagid/leaderboard/datastructure/LeaderBoardImpl.java:46 | set.add keeps the set strictly ascending. Its elements become the old ones plus the new one, and it grows by one unless an equal element was already there. |
| SkipListSet.InsertAt | src/main/java/com/amimagid/leaderboard/datastructure/LeaderBoardImpl.java:46 | The new element goes exactly between its neighbours in the order, and all other elements keep their order. |
| SkipListSet.Delete | src/main/java/com/amimagid/leaderboard/datastructure/LeaderBoardImpl.java:91 | set.remove keeps the set strictly ascending. Its elements become the old ones minus the removed one, and it shrinks by one exactly when that element was present. |
| SkipListSet.DeleteAt | src/main/java/com/amimagid/leaderboard/datastructure/LeaderBoardImpl.java:91 | Removing the element at position i leaves the elements before and after it, in order. |
| SkipListSet.Between | src/main/java/com/amimagid/leaderboard/datastructure/LeaderBoardImpl.java:77 | The inclusive range view is ascending and holds exactly the set's elements between the two bounds. |
| SkipListSet.SubSet | src/main/java/com/amimagid/leaderboard/datastructure/LeaderBoardImpl.java:77 | subSet throws IllegalArgument exactly when the low bound sorts above the high bound. Otherwise it returns an ascending view. |
| SkipListSet.BetweenIsSlice | src/main/java/com/amimagid/leaderboard/datastructure/LeaderBoardImpl.java:75-77 | The inclusive range between the elements at positions i <= j is exactly the slice of positions i..j. |
| Board.Sub32 | src/main/java/com/amimagid/leaderboard/datastructure/LeaderBoardImpl.java:75-76 | Java int subtraction is the exact difference when it fits, and otherwise that difference shifted by 2^32. |
| Board.MapFitsInSet | src/main/java/com/amimagid/leaderboard/datastructure/LeaderBoardImpl.java:46-47 | A map whose values carry their keys as ids and all lie in a strictly sorted set has no more keys than the set has elements. |
| Board.CounterAtMostSetSize | src/main/java/com/amimagid/leaderboard/datastructure/LeaderBoardImpl.java:25-27 | Under the invariant, 0 <= counter <= number of set elements. The two need not be equal. |
| Board.ClampFrom | src/main/java/com/amimagid/leaderboard/datastructure/LeaderBoardImpl.java:72-73 | On a non-empty board the clamped `from` lies in [1, size]. It is either 1 or no more than the given `from`. It is unchanged when already in range, and equals size when the given `from` is above size. |
| Board.ClampTo | src/main/java/com/amimagid/leaderboard/datastructure/LeaderBoardImpl.java:74 | The clamped `to` is at most both size and the given `to`. It is unchanged when no more than size, and equals size otherwise. |
| Board.ResolveSlice | src/main/java/com/amimagid/leaderboard/datastructure/LeaderBoardImpl.java:75-77 | For 1 <= from <= to <= set length, the two position lookups and subSet give exactly the slice from-1..to-1. |
| Board.RangeOfErrorCases | src/main/java/com/amimagid/leaderboard/datastructure/LeaderBoardImpl.java:69-76 | `to < from` throws IndexOutOfBounds. An empty board gives null. On a non-empty board, a window with from <= to < 1 throws IndexOutOfBounds (except `to == MIN_VALUE`, see RangeOfIntMinValue). |
| Board.RangeOfWindow | src/main/java/com/amimagid/leaderboard/datastructure/LeaderBoardImpl.java:68-79 | With from <= to and 1 <= to on a non-empty board, the clamped window satisfies 1 <= from <= to <= size. The result is exactly the ascending run of set positions from-1..to-1. |
| Board.RangeOfIntMinValue | src/main/java/com/amimagid/leaderboard/datastructure/LeaderBoardImpl.java:75-77 | getRange(MIN_VALUE, MIN_VALUE) on a non-empty board throws NullPointer, because `to - 1` wraps to MAX_VALUE. |
| Board.RangeOfTop | src/main/java/com/amimagid/leaderboard/datastructure/LeaderBoardImpl.java:111-113 | getRange(1, k) with k >= 1 on a non-empty board is the first min(k, size) set elements. |
| Board.LeaderBoardImpl.constructor | src/main/java/com/amimagid/leaderboard/datastructure/LeaderBoardImpl.java:29-33 | A new board has an empty set, an empty map and a zero counter, and satisfies the invariant. |
| Board.LeaderBoardImpl.GetById | src/main/java/com/amimagid/leaderboard/datastructure/LeaderBoardImpl.java:57-59 | The result is present exactly when the id is in the map, and then it is the map's entry for the id. That entity has the id and is in the set. |
| Board.LeaderBoardImpl.Size | src/main/java/com/amimagid/leaderboard/datastructure/LeaderBoardImpl.java:103-105 | The counter equals the number of ids in the map, and is between 0 and the number of set elements. |
| Board.LeaderBoardImpl.Add | src/main/java/com/amimagid/leaderboard/datastructure/LeaderBoardImpl.java:41-49 | add keeps the invariant. The counter grows by one exactly when the id is new. The map maps the id to v (last write wins). The set is the old set with v inserted, so earlier entries, stale ones included, stay. getById(v.id) returns v. |
| Board.LeaderBoardImpl.Remove | src/main/java/com/amimagid/leaderboard/datastructure/LeaderBoardImpl.java:88-95 | remove keeps the invariant, returns the map's entity for the id (or null), and drops the id from the map. When the id was present it also deletes that entity from the set and decrements the counter. When the id was absent nothing changes. |
| Board.LeaderBoardImpl.GetElementInPos | src/main/java/com/amimagid/leaderboard/datastructure/LeaderBoardImpl.java:115-125 | The counting loop agrees with ElementInPos. A negative position throws IndexOutOfBounds. A position inside the set gives the element there in ascending order. A position past the end gives null. |
| Board.LeaderBoardImpl.GetRange | src/main/java/com/amimagid/leaderboard/datastructure/LeaderBoardImpl.java:68-79 | The step-by-step clamping and lookups agree with RangeOf. A successful call returns the slice of clamped positions. The error and null cases are those of RangeOfErrorCases. |
| Board.LeaderBoardImpl.GetTop | src/main/java/com/amimagid/leaderboard/datastructure/LeaderBoardImpl.java:111-113 | getTop(n) is getRange(1, n). n < 1 throws, an empty board gives null, and otherwise the result is the first min(n, size) set elements. |
| Scenarios.Fixture | src/test/java/com/amimagid/leaderboard/datastructure/LeaderBoardImplTest.java:17-22 | Adding ids 0..9 with ranks "0".."9" gives the set in id order, a counter of 10, and each id mapped to its entity. |
| Scenarios.TopFive | src/test/java/com/amimagid/leaderboard/datastructure/LeaderBoardImplTest.java:119-128 | getTop(5) on the fixture is the five entities ranked "0".."4", in order. |
| Scenarios.ReversedAndZeroWindows | src/test/java/com/amimagid/leaderboard/datastructure/LeaderBoardImplTest.java:85-94 | getRange(6, 4) and getRange(0, 0) on the fixture both throw IndexOutOfBounds. |
| Scenarios.TextualRankOrder | src/test/java/com/amimagid/leaderboard/datastructure/LeaderBoardImplTest.java:32-43 | Ranks compare as text: "10" < "2", and ranks "10" and "11" fall between "1" and "2". Equal ranks fall back to the id text, so ids 0, 11, 12 of rank "0" come in that order. |
| Scenarios.AddAboveAll | src/test/java/com/amimagid/leaderboard/datastructure/LeaderBoardImplTest.java:24-30 | After adding id 11 with rank "999": the count is 11, getById(11) finds it, and getRange(11, 1000) is that entity alone. |
| Scenarios.AppendedLast | src/test/java/com/amimagid/leaderboard/datastructure/LeaderBoardImplTest.java:24-30 | Rank "999" sorts after all fixture ranks, so add appends it. |
| Scenarios.RangeOverTiedRanks | src/test/java/com/amimagid/leaderboard/datastructure/LeaderBoardImplTest.java:32-43 | After adding ids 11 and 12 with rank "0": the count is 12, and getRange(1, 3) is exactly the three rank-"0" entities, ids 0, 11, 12. |
| Scenarios.TiedRanksLand | src/test/java/com/amimagid/leaderboard/datastructure/LeaderBoardImplTest.java:32-43 | Ids 11 and 12 of rank "0" land in places 2 and 3 of the set, after id 0. |
| Scenarios.ReAddSameId | src/test/java/com/amimagid/leaderboard/datastructure/LeaderBoardImplTest.java:45-54 | After re-adding id 0 with ranks "190" then "778": the count stays 10 and getById(0) has rank "778". The set holds 12 entities, so the stale ones stay. |
| Scenarios.LookUpById | src/test/java/com/amimagid/leaderboard/datastructure/LeaderBoardImplTest.java:56-67 | On the fixture the count is 10, getById(7) has rank "7", and getById(77) is null. |
| Scenarios.RangeOverTextualRanks | src/test/java/com/amimagid/leaderboard/datastructure/LeaderBoardImplTest.java:69-83 | After adding ids 10 and 11 with ranks "10" and "11": the count is 12, and getRange(5, 12) is exactly the ranks "2".."9" in order. |
| Scenarios.TenAndElevenLand | src/test/java/com/amimagid/leaderboard/datastructure/LeaderBoardImplTest.java:69-83 | Ranks "10" and "11" land in places 3 and 4, so places 5..12 hold ranks "2".."9". |
| Scenarios.RangeAfterRemove | src/test/java/com/amimagid/leaderboard/datastructure/LeaderBoardImplTest.java:96-105 | getRange(1, 1) is rank "0". After remove(0) and remove(6), the count is 8 and getRange(1, 1) is rank "1". |
| Scenarios.ZeroAndSixGone | src/test/java/com/amimagid/leaderboard/datastructure/LeaderBoardImplTest.java:96-105 | Deleting ids 0 and 6 from the fixture's set leaves 8 entities, the first of them id 1. |
| Scenarios.RemovePresentAndAbsent | src/test/java/com/amimagid/leaderboard/datastructure/LeaderBoardImplTest.java:107-117 | remove(2) returns the entity and leaves the count at 9. remove(22) returns null and leaves it at 10. |

## Left out

- Concurrency is not modelled: the `synchronized` methods, the `volatile` fields, the concurrent collections and `AtomicInteger`. Each operation is one atomic sequential step. The lock-free `getById` and `size` are plain reads of the current state.
- The skip list and the hash map are not modelled as data structures. The set is a sorted sequence and the map is a Dafny `map`.
- Board.LeaderBoardImpl.Add: the counter is an unbounded integer, so `AtomicInteger` wrap-around past 2^31 - 1 distinct ids is not modelled.
- Board.LeaderBoardImpl.GetRange: `subSet` returns a copy of the run of elements, not a live view backed by the set. Later changes to the board are not reflected in an earlier result, and object identity is not modelled.
- Ranks and ids are strings only. The generic rank type `T extends Comparable` is fixed to `String`, as in the test fixture. An id is represented by its `toString()` form, which is all `compareTo` uses. The map is keyed by that string, and for the fixture's `Integer` ids that is one-to-one.
- `String.compareTo` works on UTF-16 code units. The model compares Dafny characters, which is the same order for the fixture's ASCII text.
- Null arguments are not modelled, because a Dafny string or entity cannot be null. In Java a null entity or id makes `add`, `remove` and `getById` throw NullPointerException. A null rank makes `compareTo` throw inside `set.add`. That throw happens after the counter was incremented (`LeaderBoardImpl.java:43-46`), so the counter ends one above the number of map keys.
- The `LeaderBoard` interface has no logic of its own. Its methods are those of the class.
- `StringRank` is not part of this model except as the shape of `Entity` and the fixture data. Its `toString` display is not modelled.
