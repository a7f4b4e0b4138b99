/** The scenarios of the leaderboard's unit tests, as clients of the model:
    a board filled with ids 0..9 ranked "0".."9", then one operation or a
    few, with what the tests expect of them. */
module Scenarios {
  import opened Outcomes
  import opened Ranking
  import opened SkipListSet
  import opened Board

  /** The decimal text of a digit. */
  function Digit(i: nat): string
    requires i < 10
  {
    [(('0' as int) + i) as char]
  }

  lemma DigitInjective(i: nat, j: nat)
    requires i < 10 && j < 10 && i != j
    ensures Digit(i) != Digit(j)
  {
    assert Digit(i)[0] != Digit(j)[0];
  }

  /** The fixture's entity with id i and rank "i". */
  function Ranked(i: nat): Entity
    requires i < 10
  {
    Entity(Digit(i), Digit(i))
  }

  /** The fixture entities with ids lo to hi - 1, in id order. */
  function RankedSpan(lo: nat, hi: nat): (r: seq<Entity>)
    requires lo <= hi <= 10
    ensures |r| == hi - lo
    ensures forall j :: 0 <= j < hi - lo ==> r[j] == Ranked(lo + j)
  {
    seq(hi - lo, j requires 0 <= j < hi - lo => Ranked(lo + j))
  }

  /** Ranks are compared as text: "10" and "11" sort between "1" and "2",
      and equal ranks fall back to the id text, so ids 0, 11, 12 of rank "0"
      come in that order. */
  lemma TextualRankOrder()
    ensures CompareStrings("10", "2") < 0
    ensures Less(Entity("1", "1"), Entity("10", "10"))
    ensures Less(Entity("10", "10"), Entity("11", "11"))
    ensures Less(Entity("11", "11"), Entity("2", "2"))
    ensures Less(Entity("0", "0"), Entity("11", "0"))
    ensures Less(Entity("11", "0"), Entity("12", "0"))
  {
  }

  /** The fixture ranks ascend with their ids. */
  lemma RankedAscending(i: nat, j: nat)
    requires i < j < 10
    ensures Less(Ranked(i), Ranked(j))
  {
  }

  lemma RankedSpanSorted(k: nat)
    requires k <= 10
    ensures StrictlySorted(RankedSpan(0, k))
  {
    var s := RankedSpan(0, k);
    forall i, j | 0 <= i < j < |s| ensures Less(s[i], s[j]) {
      RankedAscending(i, j);
    }
  }

  /** A slice of a run of fixture entities is the run between the slice's
      bounds. */
  lemma RankedSpanSlice(lo: nat, hi: nat, i: nat, j: nat)
    requires lo <= hi <= 10 && i <= j <= hi - lo
    ensures RankedSpan(lo, hi)[i..j] == RankedSpan(lo + i, lo + j)
  {
  }

  /** Every fixture entity has a one-character id and rank. */
  lemma RankedSpanShortTexts(lo: nat, hi: nat)
    requires lo <= hi <= 10
    ensures forall x :: x in RankedSpan(lo, hi) ==> |x.id| == 1 && |x.rank| == 1
  {
  }

  lemma RankedSpanGrows(lo: nat, hi: nat)
    requires lo <= hi < 10
    ensures RankedSpan(lo, hi) + [Ranked(hi)] == RankedSpan(lo, hi + 1)
  {
  }

  /** The fixture's id index after the first k additions. */
  function FirstIds(k: nat): (m: map<string, Entity>)
    requires k <= 10
  {
    if k == 0 then map[] else FirstIds(k - 1)[Digit(k - 1) := Ranked(k - 1)]
  }

  /** The index after k additions holds exactly the ids 0..k-1, each
      mapped to its own entity. */
  lemma {:induction false} FirstIdsLookup(k: nat)
    requires k <= 10
    ensures forall j :: 0 <= j < k ==> Digit(j) in FirstIds(k) && FirstIds(k)[Digit(j)] == Ranked(j)
    ensures forall j :: k <= j < 10 ==> Digit(j) !in FirstIds(k)
    ensures forall id :: id in FirstIds(k) ==> |id| == 1
  {
    if k > 0 {
      FirstIdsLookup(k - 1);
      forall j | 0 <= j < 10 && j != k - 1
        ensures Digit(j) != Digit(k - 1)
      {
        DigitInjective(j, k - 1);
      }
    }
  }

  /** The state the tests start from: ids 0..9, each with the rank of the
      same text, indexed by id and ordered by rank. */
  ghost predicate IsFixture(b: LeaderBoardImpl)
    reads b
  {
    && b.Valid()
    && b.entries == RankedSpan(0, 10) && b.size == 10
    && (forall k :: 0 <= k < 10 ==> Digit(k) in b.byId && b.byId[Digit(k)] == Ranked(k))
    && (forall id :: id in b.byId ==> |id| == 1)
  }

  /** One step of building the fixture: add(i) with rank "i" after ids
      0..i-1 puts the entity last and indexes it under its id. */
  method AddNext(b: LeaderBoardImpl, i: nat)
    requires i < 10
    requires b.Valid() && b.entries == RankedSpan(0, i) && b.size == i && b.byId == FirstIds(i)
    modifies b
    ensures b.Valid() && b.entries == RankedSpan(0, i + 1) && b.size == i + 1 && b.byId == FirstIds(i + 1)
  {
    RankedSpanSorted(i);
    if i > 0 {
      RankedAscending(i - 1, i);
    }
    InsertAt(b.entries, i, Ranked(i));
    FirstIdsLookup(i);
    ghost var prefix := b.entries;
    assert prefix[..i] == prefix && prefix[i..] == [];
    b.Add(Ranked(i));
    RankedSpanGrows(0, i);
  }

  /** The test fixture: ids 0..9 added in order with ranks "0".."9". */
  method Fixture() returns (b: LeaderBoardImpl)
    ensures fresh(b) && IsFixture(b)
  {
    b := new LeaderBoardImpl();
    for i := 0 to 10
      invariant fresh(b) && b.Valid()
      invariant b.entries == RankedSpan(0, i) && b.size == i
      invariant b.byId == FirstIds(i)
    {
      AddNext(b, i);
    }
    FirstIdsLookup(10);
  }

  /** getTop(5) on the fixture: five entries, ranked "0" to "4" in order. */
  method TopFive() returns (top: Outcome<Option<seq<Entity>>>)
    ensures top == Ok(Some(RankedSpan(0, 5)))
  {
    var b := Fixture();
    top := b.GetTop(5);
    RangeOfTop(b.entries, b.size, 5);
    RankedSpanSlice(0, 10, 0, 5);
  }

  /** getRange(6, 4) and getRange(0, 0) on the fixture both throw
      IndexOutOfBoundsException. */
  method ReversedAndZeroWindows() returns (reversed: Outcome<Option<seq<Entity>>>, zeroes: Outcome<Option<seq<Entity>>>)
    ensures reversed == Thrown(IndexOutOfBounds)
    ensures zeroes == Thrown(IndexOutOfBounds)
  {
    var b := Fixture();
    reversed := b.GetRange(6, 4);
    zeroes := b.GetRange(0, 0);
  }

  /** Id 10 with rank "10" and id 11 with rank "11". */
  function Ten(): Entity { Entity("10", "10") }
  function Eleven(): Entity { Entity("11", "11") }

  lemma DropFront<T>(front: seq<T>, back: seq<T>)
    ensures (front + back)[|front|..] == back
  {
  }

  lemma SliceToEnd<T>(s: seq<T>, i: nat)
    requires i <= |s|
    ensures s[i..|s|] == s[i..]
  {
  }

  lemma TakeFront<T>(front: seq<T>, back: seq<T>)
    ensures (front + back)[..|front|] == front
  {
  }

  /** Sequences that agree on their first i + 1 elements agree on the
      first i and on the element at i. */
  lemma SamePrefix<T>(a: seq<T>, b: seq<T>, i: nat)
    requires i < |a| && i < |b| && a[..i + 1] == b[..i + 1]
    ensures a[..i] == b[..i] && a[i] == b[i]
  {
    assert a[..i] == a[..i + 1][..i] && a[i] == a[..i + 1][i];
    assert b[..i] == b[..i + 1][..i] && b[i] == b[..i + 1][i];
  }

  /** A new element that falls between positions i - 1 and i of a sorted
      sequence lands at position i, and everything from position i on moves
      one place up. */
  lemma OneBetween(e0: seq<Entity>, i: nat, x: Entity)
    requires StrictlySorted(e0) && 0 < i < |e0|
    requires Less(e0[i - 1], x) && Less(x, e0[i])
    ensures var s := Insert(e0, x);
      && |s| == |e0| + 1 && s[..i] == e0[..i]
      && s[i] == x && s[i + 1..] == e0[i..]
  {
    InsertAt(e0, i, x);
    DropFront(e0[..i] + [x], e0[i..]);
    TakeFront(e0[..i], [x] + e0[i..]);
  }

  /** Two new elements x and y, x first, that both fall between positions
      i - 1 and i of a sorted sequence land at positions i and i + 1, and
      everything from position i on moves two places up. */
  lemma TwoBetween(e0: seq<Entity>, i: nat, x: Entity, y: Entity)
    requires StrictlySorted(e0) && 0 < i < |e0|
    requires Less(e0[i - 1], x) && Less(x, y) && Less(y, e0[i])
    ensures StrictlySorted(Insert(e0, x))
    ensures var s := Insert(Insert(e0, x), y);
      && |s| == |e0| + 2 && s[..i] == e0[..i]
      && s[i] == x && s[i + 1] == y && s[i + 2..] == e0[i..]
  {
    CompareToTransitive(x, y, e0[i]);
    OneBetween(e0, i, x);
    var e1 := Insert(e0, x);
    assert e1[i] == x && e1[i + 1] == e0[i];
    OneBetween(e1, i + 1, y);
    var s := Insert(e1, y);
    SamePrefix(s, e1, i);
  }

  /** As text, "10" and then "11" come after "1" and before "2": added to
      the fixture's order they land third and fourth, and ranks "2" to "9"
      move to places 5 to 12. */
  lemma TenAndElevenLand(e0: seq<Entity>)
    requires e0 == RankedSpan(0, 10)
    ensures var s := Insert(Insert(e0, Ten()), Eleven());
      |s| == 12 && s[4..12] == RankedSpan(2, 10)
  {
    RankedSpanSorted(10);
    TextualRankOrder();
    assert e0[1] == Ranked(1) && e0[2] == Ranked(2);
    TwoBetween(e0, 2, Ten(), Eleven());
    var s := Insert(Insert(e0, Ten()), Eleven());
    SliceToEnd(s, 4);
    SliceToEnd(e0, 2);
    RankedSpanSlice(0, 10, 2, 10);
  }

  /** add(10) and add(11) on the fixture. */
  method AddTenAndEleven(b: LeaderBoardImpl)
    requires IsFixture(b)
    modifies b
    ensures b.Valid() && b.size == 12
    ensures b.entries == Insert(Insert(old(b.entries), Ten()), Eleven())
  {
    b.Add(Ten());
    b.Add(Eleven());
  }

  /** With ids 10 and 11 added, getRange(5, 12) yields the ranks "2" to "9". */
  method RangeOverTextualRanks() returns (size: int, range: Outcome<Option<seq<Entity>>>)
    ensures size == 12
    ensures range == Ok(Some(RankedSpan(2, 10)))
  {
    var b := Fixture();
    ghost var fixture := b.entries;
    AddTenAndEleven(b);
    size := b.Size();
    range := b.GetRange(5, 12);
    TenAndElevenLand(fixture);
    RangeOfWindow(b.entries, b.size, 5, 12);
    assert ClampFrom(5, 12) == 5 && ClampTo(12, 12) == 12;
  }

  /** getById(7) on the fixture is the entity ranked "7", and getById(77),
      an id never added, is null; the count is 10. */
  method LookUpById() returns (size: int, seven: Option<Entity>, unknown: Option<Entity>)
    ensures size == 10
    ensures seven == Some(Entity("7", "7"))
    ensures unknown == None
  {
    var b := Fixture();
    assert Digit(7) == "7";
    size := b.Size();
    seven := b.GetById("7");
    unknown := b.GetById("77");
  }

  /** Id 11 with rank "999". */
  function HighRank(): Entity { Entity("11", "999") }

  /** As text "999" follows "9": an entity ranked "999" goes after all of
      the fixture. */
  lemma AppendedLast(e0: seq<Entity>)
    requires e0 == RankedSpan(0, 10)
    ensures Insert(e0, HighRank()) == e0 + [HighRank()]
  {
    RankedSpanSorted(10);
    assert Less(e0[9], HighRank());
    InsertAt(e0, 10, HighRank());
    assert e0[..10] == e0 && e0[10..] == [];
  }

  /** On eleven entries getRange(11, 1000) is clamped to the last place. */
  lemma LastPlaceWindow(e0: seq<Entity>, x: Entity, s: seq<Entity>)
    requires |e0| == 10 && s == e0 + [x] && StrictlySorted(s)
    ensures RangeOf(s, 11, 11, 1000) == Ok(Some([x]))
  {
    RangeOfWindow(s, 11, 11, 1000);
    assert ClampFrom(11, 11) == 11 && ClampTo(1000, 11) == 11;
    assert s[10..11] == [x];
  }

  /** add(11) with rank "999" on the fixture. */
  method AddHighRank(b: LeaderBoardImpl)
    requires IsFixture(b)
    modifies b
    ensures b.Valid() && b.size == 11
    ensures b.byId == old(b.byId)[HighRank().id := HighRank()]
    ensures b.entries == Insert(old(b.entries), HighRank())
  {
    b.Add(HighRank());
  }

  /** add(11) with rank "999" on the fixture: the count becomes 11,
      getById(11) finds the entity, and getRange(11, 1000), clamped to the
      last place, is that entity alone. */
  method AddAboveAll() returns (size: int, found: Option<Entity>, range: Outcome<Option<seq<Entity>>>)
    ensures size == 11
    ensures found == Some(Entity("11", "999"))
    ensures range == Ok(Some([Entity("11", "999")]))
  {
    var b := Fixture();
    ghost var fixture := b.entries;
    AddHighRank(b);
    size := b.Size();
    found := b.GetById("11");
    range := b.GetRange(11, 1000);
    AppendedLast(fixture);
    LastPlaceWindow(fixture, HighRank(), b.entries);
  }

  /** Id 11 and id 12, both ranked "0". */
  function ElevenAtZero(): Entity { Entity("11", "0") }
  function TwelveAtZero(): Entity { Entity("12", "0") }

  /** Equal ranks fall back to the id text: ids 11 and 12 of rank "0" land
      right after id 0, before id 1. */
  lemma TiedRanksLand(e0: seq<Entity>)
    requires e0 == RankedSpan(0, 10)
    ensures var s := Insert(Insert(e0, ElevenAtZero()), TwelveAtZero());
      |s| == 12 && s[..3] == [Ranked(0), ElevenAtZero(), TwelveAtZero()]
  {
    RankedSpanSorted(10);
    TextualRankOrder();
    assert e0[0] == Ranked(0) && e0[1] == Ranked(1);
    TwoBetween(e0, 1, ElevenAtZero(), TwelveAtZero());
    var s := Insert(Insert(e0, ElevenAtZero()), TwelveAtZero());
    assert s[..3] == s[..1] + [s[1], s[2]];
  }

  /** add(11) and add(12), both with rank "0", on the fixture. */
  method AddTiedRanks(b: LeaderBoardImpl)
    requires IsFixture(b)
    modifies b
    ensures b.Valid() && b.size == 12
    ensures b.entries == Insert(Insert(old(b.entries), ElevenAtZero()), TwelveAtZero())
  {
    b.Add(ElevenAtZero());
    b.Add(TwelveAtZero());
  }

  /** With ids 11 and 12 added at rank "0", the count is 12 and
      getRange(1, 3) is the three entities of rank "0", id 0 first. */
  method RangeOverTiedRanks() returns (size: int, range: Outcome<Option<seq<Entity>>>)
    ensures size == 12
    ensures range == Ok(Some([Entity("0", "0"), Entity("11", "0"), Entity("12", "0")]))
  {
    var b := Fixture();
    ghost var fixture := b.entries;
    AddTiedRanks(b);
    size := b.Size();
    range := b.GetRange(1, 3);
    TiedRanksLand(fixture);
    RangeOfWindow(b.entries, b.size, 1, 3);
    assert Digit(0) == "0";
  }

  /** Re-adding id 0 with ranks "190" and then "778": the count stays 10 and
      getById(0) gives rank "778", while the set keeps both earlier entries
      for id 0 beside the current one. */
  method ReAddSameId() returns (size: int, current: Option<Entity>, setSize: int)
    ensures size == 10
    ensures current == Some(Entity("0", "778"))
    ensures setSize == 12
  {
    var b := Fixture();
    var first, second := Entity("0", "190"), Entity("0", "778");
    assert Digit(0) == "0";
    RankedSpanShortTexts(0, 10);
    b.Add(first);
    b.Add(second);
    size := b.Size();
    current := b.GetById("0");
    setSize := |b.entries|;
  }

  /** remove(2) takes the count to 9; remove(22), an id never added, returns
      null and leaves the count at 10. */
  method RemovePresentAndAbsent() returns (removed: Option<Entity>, sizeAfter: int, absent: Option<Entity>, sizeAfterAbsent: int)
    ensures removed == Some(Entity("2", "2")) && sizeAfter == 9
    ensures absent == None && sizeAfterAbsent == 10
  {
    var b := Fixture();
    assert Digit(2) == "2";
    removed := b.Remove("2");
    sizeAfter := b.Size();
    var c := Fixture();
    absent := c.Remove("22");
    sizeAfterAbsent := c.Size();
  }

  /** getRange(1, 1) on a non-empty board is its first entry alone. */
  lemma TopOnly(s: seq<Entity>, n: nat)
    requires StrictlySorted(s) && 0 < n <= |s|
    ensures RangeOf(s, n, 1, 1) == Ok(Some([s[0]]))
  {
    RangeOfTop(s, n, 1);
    assert s[..1] == [s[0]];
  }

  /** Taking out ids 0 and 6 leaves eight fixture entities, the first of
      them id 1. */
  lemma ZeroAndSixGone(e0: seq<Entity>)
    requires e0 == RankedSpan(0, 10)
    ensures var s := Delete(Delete(e0, Ranked(0)), Ranked(6));
      |s| == 8 && s[0] == Ranked(1)
  {
    RankedSpanSorted(10);
    assert e0[0] == Ranked(0);
    DeleteAt(e0, 0);
    var e1 := Delete(e0, Ranked(0));
    assert e1[5] == e0[6] == Ranked(6) && e1[0] == e0[1];
    DeleteAt(e1, 5);
  }

  /** remove(0) and then remove(6) on the fixture. */
  method RemoveZeroAndSix(b: LeaderBoardImpl)
    requires IsFixture(b)
    modifies b
    ensures b.Valid() && b.size == 8
    ensures b.entries == Delete(Delete(old(b.entries), Ranked(0)), Ranked(6))
  {
    assert Digit(0) == "0" && Digit(6) == "6";
    var zero := b.Remove("0");
    var six := b.Remove("6");
  }

  /** getRange(1, 1) is rank "0"; after remove(0) and remove(6) the count is
      8 and getRange(1, 1) is rank "1". */
  method RangeAfterRemove() returns (before: Outcome<Option<seq<Entity>>>, size: int, after: Outcome<Option<seq<Entity>>>)
    ensures before == Ok(Some([Ranked(0)]))
    ensures size == 8
    ensures after == Ok(Some([Ranked(1)]))
  {
    var b := Fixture();
    ghost var fixture := b.entries;
    before := b.GetRange(1, 1);
    TopOnly(b.entries, b.size);
    RemoveZeroAndSix(b);
    size := b.Size();
    after := b.GetRange(1, 1);
    ZeroAndSixGone(fixture);
    TopOnly(b.entries, b.size);
  }
}
