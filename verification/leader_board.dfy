/** LeaderBoardImpl: an id→entity map and an ordered set of the same
    entities, a counter of the ids, and the rank-window algorithm of getRange.
    Every operation is one sequential step (the source serialises add, remove
    and getRange on the object's lock). */
module Board {
  import opened Outcomes
  import opened Ranking
  import opened SkipListSet

  /** Java's 32-bit `int`. */
  type Int32 = x: int | -0x8000_0000 <= x < 0x8000_0000

  const MinInt: Int32 := -0x8000_0000
  const MaxInt: Int32 := 0x7fff_ffff

  /** Java's `a - b` on ints: the exact difference, wrapped round by 2^32
      when it leaves the int range. */
  function Sub32(a: Int32, b: Int32): (r: Int32)
    ensures MinInt <= a - b <= MaxInt ==> r == a - b
    ensures r == a - b || r == a - b + 0x1_0000_0000 || r == a - b - 0x1_0000_0000
  {
    var d := a - b;
    if d < MinInt then d + 0x1_0000_0000
    else if d > MaxInt then d - 0x1_0000_0000
    else d
  }

  /** The invariants the map, the set and the counter keep between operations:
      the counter is the number of ids in the map, every id maps to an entity
      with that id, every entity in the map is in the set, and the set is
      strictly ascending under compareTo. The set may hold more: entries left
      behind by re-adding an id with another rank. */
  ghost predicate Consistent(entries: seq<Entity>, byId: map<string, Entity>, size: int) {
    && size == |byId|
    && StrictlySorted(entries)
    && (forall id :: id in byId ==> byId[id].id == id && byId[id] in entries)
  }

  /** A map whose values carry their own keys as ids and all lie in a sorted
      set has no more keys than the set has elements. */
  lemma {:induction false} MapFitsInSet(m: map<string, Entity>, s: seq<Entity>)
    requires StrictlySorted(s)
    requires forall id :: id in m ==> m[id].id == id && m[id] in s
    ensures |m| <= |s|
    decreases |m|
  {
    if |m| > 0 {
      var id :| id in m;
      var v := m[id];
      var m', s' := m - {id}, Delete(s, v);
      assert m'.Keys == m.Keys - {id};
      forall k | k in m' ensures m'[k].id == k && m'[k] in s' {
        assert m'[k] == m[k] && m[k].id != v.id;
      }
      MapFitsInSet(m', s');
    }
  }

  /** Under the invariants the set holds at least as many elements as the
      counter says. */
  lemma CounterAtMostSetSize(entries: seq<Entity>, byId: map<string, Entity>, size: int)
    requires Consistent(entries, byId, size)
    ensures 0 <= size <= |entries|
  {
    MapFitsInSet(byId, entries);
  }

  // ---- the rank-window algorithm, as a function of the state ---------------

  /** getElementInPos: the element at 0-based position i of the set in
      ascending order; a negative position throws, one past the end is null. */
  function ElementInPos(s: seq<Entity>, i: int): Outcome<Option<Entity>> {
    if i < 0 then Thrown(IndexOutOfBounds)
    else if i < |s| then Ok(Some(s[i]))
    else Ok(None)
  }

  /** getRange's clamping of `from` into [1, n]. */
  function ClampFrom(from: int, n: int): (f: int)
    ensures 1 <= n ==> 1 <= f <= n && (f == 1 || f <= from)
    ensures 1 <= from <= n ==> f == from
    ensures 1 <= n < from ==> f == n
  {
    var f := if from < 1 then 1 else from;
    if f > n then n else f
  }

  /** getRange's clamping of `to`: only from above. */
  function ClampTo(to: int, n: int): (t: int)
    ensures t <= n && t <= to
    ensures to <= n ==> t == to
    ensures to > n ==> t == n
  {
    if to > n then n else to
  }

  /** The result of getRange(from, to) on set `s` with counter `n`. `None` is
      the `null` returned for an empty board. */
  function RangeOf(s: seq<Entity>, n: nat, from: Int32, to: Int32): Outcome<Option<seq<Entity>>>
    requires StrictlySorted(s)
  {
    if to < from then Thrown(IndexOutOfBounds)
    else if n == 0 then Ok(None)
    else Resolve(s, ClampFrom(from, n), ClampTo(to, n))
  }

  /** The second half of getRange, once `from` and `to` are clamped: look up
      the boundary elements at positions from - 1 and to - 1 (Java int
      arithmetic) and take the inclusive subSet between them. */
  function Resolve(s: seq<Entity>, from: Int32, to: Int32): Outcome<Option<seq<Entity>>>
    requires StrictlySorted(s)
  {
    var elementFrom :- ElementInPos(s, Sub32(from, 1));
    var elementTo :- ElementInPos(s, Sub32(to, 1));
    if elementFrom.None? || elementTo.None? then Thrown(NullPointer)
    else AsView(SubSet(s, elementFrom.value, elementTo.value))
  }

  /** The subSet view handed back as getRange's non-null result. */
  function AsView(sub: Outcome<seq<Entity>>): Outcome<Option<seq<Entity>>> {
    match sub
    case Ok(view) => Ok(Some(view))
    case Thrown(e) => Thrown(e)
  }

  /** Boundaries that are positions of the set, in order, select exactly the
      run of elements between them. */
  lemma ResolveSlice(s: seq<Entity>, from: Int32, to: Int32)
    requires StrictlySorted(s) && 1 <= from <= to <= |s|
    ensures Resolve(s, from, to) == Ok(Some(s[from - 1..to]))
  {
    var a, b := s[from - 1], s[to - 1];
    assert ElementInPos(s, Sub32(from, 1)) == Ok(Some(a));
    assert ElementInPos(s, Sub32(to, 1)) == Ok(Some(b));
    assert !Less(b, a) by {
      CompareToAntisymmetric(a, b);
      CompareToZeroIffSame(a, b);
    }
    BetweenIsSlice(s, from - 1, to - 1);
    assert SubSet(s, a, b) == Ok(s[from - 1..to]);
  }

  /** The error and empty cases of getRange: a reversed window throws whatever
      the numbers, an empty board gives null, and on a non-empty board a
      window ending below 1 throws, because `to` is never raised to 1 and
      getElementInPos(to - 1) is handed a negative position. */
  lemma RangeOfErrorCases(s: seq<Entity>, n: nat, from: Int32, to: Int32)
    requires StrictlySorted(s) && n <= |s|
    ensures to < from ==> RangeOf(s, n, from, to) == Thrown(IndexOutOfBounds)
    ensures from <= to && n == 0 ==> RangeOf(s, n, from, to) == Ok(None)
    ensures from <= to < 1 && MinInt < to && n > 0 ==>
              RangeOf(s, n, from, to) == Thrown(IndexOutOfBounds)
  {
  }

  /** A window that ends at 1 or above on a non-empty board succeeds: after
      clamping 1 <= from <= to <= n, and the result is exactly the run of set
      elements at 0-based positions from - 1 through to - 1, ascending. The
      null branch of getElementInPos and subSet's order check are never
      reached. */
  lemma RangeOfWindow(s: seq<Entity>, n: nat, from: Int32, to: Int32)
    requires StrictlySorted(s) && 0 < n <= |s|
    requires from <= to && 1 <= to
    ensures 1 <= ClampFrom(from, n) <= ClampTo(to, n) <= n
    ensures RangeOf(s, n, from, to) == Ok(Some(s[ClampFrom(from, n) - 1 .. ClampTo(to, n)]))
    ensures StrictlySorted(s[ClampFrom(from, n) - 1 .. ClampTo(to, n)])
  {
    var lo, hi := ClampFrom(from, n), ClampTo(to, n);
    ResolveSlice(s, lo, hi);
    SortedSlice(s, lo - 1, hi);
  }

  /** getRange(Integer.MIN_VALUE, Integer.MIN_VALUE) on a non-empty board:
      `to - 1` wraps round to Integer.MAX_VALUE, getElementInPos returns null
      for it, and subSet is handed that null. */
  lemma RangeOfIntMinValue(s: seq<Entity>, n: nat)
    requires StrictlySorted(s) && 0 < n <= |s| <= MaxInt
    ensures RangeOf(s, n, MinInt, MinInt) == Thrown(NullPointer)
  {
    assert Sub32(MinInt, 1) == MaxInt;
  }

  /** getTop(k) is getRange(1, k): the first min(k, n) elements of the set. */
  lemma RangeOfTop(s: seq<Entity>, n: nat, k: Int32)
    requires StrictlySorted(s) && 0 < n <= |s| && 1 <= k
    ensures RangeOf(s, n, 1, k) == Ok(Some(s[..if k < n then k else n]))
  {
    RangeOfWindow(s, n, 1, k);
  }

  // ---- the leaderboard object ---------------------------------------------

  class LeaderBoardImpl {
    /** The ConcurrentSkipListSet: entities in ascending compareTo order. */
    var entries: seq<Entity>
    /** The ConcurrentHashMap from id to the entity last added with it. */
    var byId: map<string, Entity>
    /** The AtomicInteger counting the ids. */
    var size: int

    ghost predicate Valid()
      reads this
    {
      Consistent(entries, byId, size)
    }

    constructor ()
      ensures Valid()
      ensures entries == [] && byId == map[] && size == 0
    {
      entries := [];
      byId := map[];
      size := 0;
    }

    /** getById: the entity last added under `id`, or null. */
    function GetById(id: string): (r: Option<Entity>)
      reads this
      requires Valid()
      ensures r.Some? <==> id in byId
      ensures r.Some? ==> r.value == byId[id]
      ensures r.Some? ==> r.value.id == id && r.value in entries
    {
      if id in byId then Some(byId[id]) else None
    }

    /** size(): the counter, which is the number of distinct ids stored and
        never more than the number of entries in the set. */
    function Size(): (n: int)
      reads this
      requires Valid()
      ensures n == |byId.Keys|
      ensures 0 <= n <= |entries|
    {
      CounterAtMostSetSize(entries, byId, size);
      size
    }

    /** add(v): counts v's id if it is new, puts v into the set and makes it
        the id's entity in the map. An entity stored earlier under the same id
        with another rank stays in the set. */
    method Add(v: Entity)
      requires Valid()
      modifies this
      ensures Valid()
      ensures size == if v.id in old(byId) then old(size) else old(size) + 1
      ensures byId == old(byId)[v.id := v]
      ensures entries == Insert(old(entries), v)
      ensures GetById(v.id) == Some(v) && v in entries
      ensures forall x :: x in old(entries) ==> x in entries
    {
      var id := v.id;
      if GetById(id).None? {
        size := size + 1;
      }
      entries := Insert(entries, v);
      byId := byId[id := v];
    }

    /** remove(id): takes the id out of the map and, if it was there, its
        entity out of the set and one off the counter; returns that entity,
        or null and no change when the id is absent. */
    method Remove(id: string) returns (removed: Option<Entity>)
      requires Valid()
      modifies this
      ensures Valid()
      ensures removed == old(GetById(id))
      ensures byId == old(byId) - {id}
      ensures removed.Some? ==>
                && size == old(size) - 1
                && entries == Delete(old(entries), removed.value)
                && removed.value !in entries
      ensures removed.None? ==>
                size == old(size) && entries == old(entries) && byId == old(byId)
    {
      removed := GetById(id);
      byId := byId - {id};
      if removed.Some? {
        entries := Delete(entries, removed.value);
        size := size - 1;
        assert byId.Keys == old(byId).Keys - {id};
        forall k | k in byId ensures byId[k] in entries {
          assert byId[k] == old(byId)[k] && byId[k].id != id;
        }
      } else {
        assert byId == old(byId);
      }
    }

    /** getElementInPos(i): walks the set in ascending order counting
        positions. */
    method GetElementInPos(elementIndex: int) returns (r: Outcome<Option<Entity>>)
      ensures r == ElementInPos(entries, elementIndex)
      ensures elementIndex < 0 ==> r == Thrown(IndexOutOfBounds)
      ensures 0 <= elementIndex < |entries| ==> r == Ok(Some(entries[elementIndex]))
      ensures |entries| <= elementIndex ==> r == Ok(None)
    {
      if elementIndex < 0 {
        return Thrown(IndexOutOfBounds);
      }
      var counter := 0;
      while counter < |entries|
        invariant 0 <= counter <= |entries|
        invariant counter <= elementIndex
      {
        if counter == elementIndex {
          return Ok(Some(entries[counter]));
        }
        counter := counter + 1;
      }
      return Ok(None);
    }

    /** getRange(from, to): the entities at 1-indexed positions from..to of
        the set after clamping, or null on an empty board. */
    method GetRange(from: Int32, to: Int32) returns (r: Outcome<Option<seq<Entity>>>)
      requires Valid()
      ensures r == RangeOf(entries, size, from, to)
      ensures from <= to && 1 <= to && Size() > 0 ==>
                r == Ok(Some(entries[ClampFrom(from, Size()) - 1 .. ClampTo(to, Size())]))
      ensures to < from ==> r == Thrown(IndexOutOfBounds)
      ensures from <= to && size == 0 ==> r == Ok(None)
      ensures from <= to < 1 && MinInt < to && size > 0 ==> r == Thrown(IndexOutOfBounds)
    {
      CounterAtMostSetSize(entries, byId, size);
      RangeOfErrorCases(entries, size, from, to);
      if from <= to && 1 <= to && size > 0 {
        RangeOfWindow(entries, size, from, to);
      }
      if to < from {
        r := Thrown(IndexOutOfBounds);
      } else {
        var n := Size();
        if n == 0 {
          r := Ok(None);
        } else {
          var lo, hi := from as int, to as int;
          if lo < 1 {
            lo := 1;
          }
          if lo > n {
            lo := n;
          }
          if hi > n {
            hi := n;
          }
          assert lo == ClampFrom(from, size) && hi == ClampTo(to, size);
          // lo >= 1 here, so this lookup cannot throw
          var fromResult := GetElementInPos(Sub32(lo, 1));
          var toResult := GetElementInPos(Sub32(hi, 1));
          if toResult.Thrown? {
            r := Thrown(toResult.error);
          } else if fromResult.value.None? || toResult.value.None? {
            r := Thrown(NullPointer);
          } else {
            r := AsView(SubSet(entries, fromResult.value.value, toResult.value.value));
          }
          assert r == Resolve(entries, lo, hi);
        }
      }
    }

    /** getTop(k): getRange(1, k), the k lowest-ordered entries of the set
        (all of the first `size` when k exceeds it). */
    method GetTop(numberOfResults: Int32) returns (r: Outcome<Option<seq<Entity>>>)
      requires Valid()
      ensures r == RangeOf(entries, size, 1, numberOfResults)
      ensures numberOfResults < 1 ==> r == Thrown(IndexOutOfBounds)
      ensures 1 <= numberOfResults && size == 0 ==> r == Ok(None)
      ensures 1 <= numberOfResults && Size() > 0 ==>
                r == Ok(Some(entries[..if numberOfResults < Size() then numberOfResults else Size()]))
    {
      CounterAtMostSetSize(entries, byId, size);
      if 1 <= numberOfResults && size > 0 {
        RangeOfTop(entries, size, numberOfResults);
      }
      r := GetRange(1, numberOfResults);
    }
  }
}
