/** The ordered index (a ConcurrentSkipListSet under Rankable.compareTo),
    modelled as a strictly ascending sequence, with the three set operations
    the leaderboard uses: add, remove and the inclusive subSet view. */
module SkipListSet {
  import opened Outcomes
  import opened Ranking

  /** Ascending under compareTo with no two elements comparing equal. */
  predicate StrictlySorted(s: seq<Entity>) {
    forall i, j :: 0 <= i < j < |s| ==> Less(s[i], s[j])
  }

  /** `x` lies within the inclusive bounds `lo` and `hi`. */
  predicate InRange(x: Entity, lo: Entity, hi: Entity) {
    CompareTo(x, lo) >= 0 && CompareTo(x, hi) <= 0
  }

  // ---- helpers about sorted sequences --------------------------------------

  lemma HeadBelowRest(s: seq<Entity>)
    requires StrictlySorted(s) && |s| > 0
    ensures forall x :: x in s[1..] ==> Less(s[0], x)
  {
    forall x | x in s[1..] ensures Less(s[0], x) {
      var k :| 0 <= k < |s[1..]| && s[1..][k] == x;
      assert s[k + 1] == x;
    }
  }

  lemma ConsSorted(x: Entity, t: seq<Entity>)
    requires StrictlySorted(t)
    requires forall y :: y in t ==> Less(x, y)
    ensures StrictlySorted([x] + t)
  {
    var s := [x] + t;
    forall i, j | 0 <= i < j < |s| ensures Less(s[i], s[j]) {
      if i == 0 {
        assert s[j] == t[j - 1] && t[j - 1] in t;
      } else {
        assert s[i] == t[i - 1] && s[j] == t[j - 1];
      }
    }
  }

  /** An element below the first element of a sorted sequence is below all of
      them, so it is not in the sequence and can be put in front. */
  lemma BelowHead(s: seq<Entity>, v: Entity)
    requires StrictlySorted(s) && |s| > 0 && Less(v, s[0])
    ensures forall x :: x in s ==> Less(v, x)
    ensures v !in s && StrictlySorted([v] + s)
  {
    forall x | x in s ensures Less(v, x) {
      if x != s[0] {
        HeadBelowRest(s);
        CompareToTransitive(v, s[0], x);
      }
    }
    CompareToZeroIffSame(v, v);
    ConsSorted(v, s);
  }

  // ---- add ----------------------------------------------------------------

  /** ConcurrentSkipListSet.add: puts `v` at its place in the order, or leaves
      the set as it is when an element comparing equal to `v` is present. */
  function Insert(s: seq<Entity>, v: Entity): (r: seq<Entity>)
    requires StrictlySorted(s)
    ensures StrictlySorted(r)
    ensures forall x :: x in r <==> x in s || x == v
    ensures |r| == if v in s then |s| else |s| + 1
  {
    if s == [] then [v]
    else
      var c := CompareTo(v, s[0]);
      CompareToZeroIffSame(v, s[0]);
      if c < 0 then
        BelowHead(s, v);
        [v] + s
      else if c == 0 then
        s
      else
        var rest := Insert(s[1..], v);
        assert Less(s[0], v) by { CompareToAntisymmetric(v, s[0]); }
        HeadBelowRest(s);
        ConsSorted(s[0], rest);
        assert s == [s[0]] + s[1..];
        [s[0]] + rest
  }

  lemma InsertPastHead(s: seq<Entity>, v: Entity)
    requires StrictlySorted(s) && |s| > 0 && CompareTo(v, s[0]) > 0
    ensures StrictlySorted(s[1..])
    ensures Insert(s, v) == [s[0]] + Insert(s[1..], v)
  {
    SortedSlice(s, 1, |s|);
  }

  /** A prefix of `s` is its head followed by a prefix of its tail, and
      suffixes of the tail are suffixes of `s`. */
  lemma PeelHead<T>(s: seq<T>, i: nat)
    requires 0 < i <= |s|
    ensures s[..i] == [s[0]] + s[1..][..i - 1]
    ensures s[1..][i - 1..] == s[i..]
  {
  }

  /** The head followed by the tail with `v` put at place i - 1 is `s`
      with `v` put at place i. */
  lemma OpenGap<T>(s: seq<T>, i: nat, v: T, rest: seq<T>)
    requires 0 < i <= |s| && rest == s[1..][..i - 1] + [v] + s[1..][i - 1..]
    ensures [s[0]] + rest == s[..i] + [v] + s[i..]
  {
    PeelHead(s, i);
  }

  /** Where add puts a new element: between its neighbours in the order. */
  lemma {:induction false} InsertAt(s: seq<Entity>, i: nat, v: Entity)
    requires StrictlySorted(s) && i <= |s|
    requires i == 0 || Less(s[i - 1], v)
    requires i == |s| || Less(v, s[i])
    ensures Insert(s, v) == s[..i] + [v] + s[i..]
  {
    if s == [] {
    } else if i == 0 {
      assert CompareTo(v, s[0]) < 0;
    } else {
      assert Less(s[0], v) by {
        if i - 1 > 0 {
          CompareToTransitive(s[0], s[i - 1], v);
        }
      }
      assert CompareTo(v, s[0]) > 0 by {
        CompareToAntisymmetric(v, s[0]);
      }
      var t := s[1..];
      SortedSlice(s, 1, |s|);
      assert i - 1 == 0 || t[i - 2] == s[i - 1];
      assert i - 1 == |t| || t[i - 1] == s[i];
      InsertAt(t, i - 1, v);
      InsertPastHead(s, v);
      OpenGap(s, i, v, Insert(t, v));
    }
  }

  // ---- remove -------------------------------------------------------------

  /** ConcurrentSkipListSet.remove: drops the element comparing equal to `v`,
      if there is one. */
  function Delete(s: seq<Entity>, v: Entity): (r: seq<Entity>)
    requires StrictlySorted(s)
    ensures StrictlySorted(r)
    ensures forall x :: x in r <==> x in s && x != v
    ensures |r| == if v in s then |s| - 1 else |s|
  {
    if s == [] then []
    else
      CompareToZeroIffSame(v, s[0]);
      HeadBelowRest(s);
      CompareToZeroIffSame(s[0], s[0]);
      assert s == [s[0]] + s[1..];
      if CompareTo(v, s[0]) == 0 then
        s[1..]
      else
        var rest := Delete(s[1..], v);
        ConsSorted(s[0], rest);
        [s[0]] + rest
  }

  lemma DeletePastHead(s: seq<Entity>, v: Entity)
    requires StrictlySorted(s) && |s| > 0 && v != s[0]
    ensures StrictlySorted(s[1..])
    ensures Delete(s, v) == [s[0]] + Delete(s[1..], v)
  {
    CompareToZeroIffSame(v, s[0]);
    SortedSlice(s, 1, |s|);
  }

  /** The head followed by the tail with its element i - 1 cut out is `s`
      with its element i cut out. */
  lemma CloseGap<T>(s: seq<T>, i: nat, rest: seq<T>)
    requires 0 < i < |s| && rest == s[1..][..i - 1] + s[1..][i..]
    ensures [s[0]] + rest == s[..i] + s[i + 1..]
  {
    PeelHead(s, i);
    PeelHead(s, i + 1);
  }

  /** Removing an element past the head keeps the head and removes the
      element from the tail, where it sits one place earlier. */
  lemma DeleteBeyondHead(s: seq<Entity>, i: nat)
    requires StrictlySorted(s) && 0 < i < |s|
    ensures StrictlySorted(s[1..]) && s[1..][i - 1] == s[i]
    ensures Delete(s, s[i]) == [s[0]] + Delete(s[1..], s[1..][i - 1])
  {
    assert s[i] != s[0] by {
      CompareToZeroIffSame(s[0], s[i]);
    }
    DeletePastHead(s, s[i]);
  }

  /** What remove takes out: exactly the element at its position, the
      elements before and after it keep their order. */
  lemma {:induction false} DeleteAt(s: seq<Entity>, i: nat)
    requires StrictlySorted(s) && i < |s|
    ensures Delete(s, s[i]) == s[..i] + s[i + 1..]
  {
    if i == 0 {
      CompareToZeroIffSame(s[0], s[0]);
    } else {
      var t := s[1..];
      DeleteBeyondHead(s, i);
      DeleteAt(t, i - 1);
      CloseGap(s, i, Delete(t, t[i - 1]));
    }
  }

  // ---- subSet -------------------------------------------------------------

  /** The elements of `s` within the inclusive bounds, in the order of `s`. */
  function Between(s: seq<Entity>, lo: Entity, hi: Entity): (r: seq<Entity>)
    requires StrictlySorted(s)
    ensures StrictlySorted(r)
    ensures forall x :: x in r <==> x in s && InRange(x, lo, hi)
  {
    if s == [] then []
    else
      var rest := Between(s[1..], lo, hi);
      HeadBelowRest(s);
      assert s == [s[0]] + s[1..];
      if InRange(s[0], lo, hi) then
        ConsSorted(s[0], rest);
        [s[0]] + rest
      else
        rest
  }

  /** ConcurrentSkipListSet.subSet(lo, true, hi, true) read out in ascending
      order; the set refuses bounds in the wrong order. */
  function SubSet(s: seq<Entity>, lo: Entity, hi: Entity): (r: Outcome<seq<Entity>>)
    requires StrictlySorted(s)
    ensures r.Thrown? <==> Less(hi, lo)
    ensures r.Thrown? ==> r.error == IllegalArgument
    ensures r.Ok? ==> StrictlySorted(r.value)
    ensures r.Ok? ==> forall x :: x in r.value <==> x in s && InRange(x, lo, hi)
  {
    CompareToAntisymmetric(lo, hi);
    if CompareTo(lo, hi) > 0 then Thrown(IllegalArgument) else Ok(Between(s, lo, hi))
  }

  lemma SortedSlice(s: seq<Entity>, a: nat, b: nat)
    requires StrictlySorted(s) && a <= b <= |s|
    ensures StrictlySorted(s[a..b])
  {
    forall i, j | 0 <= i < j < b - a ensures Less(s[a..b][i], s[a..b][j]) {
      assert s[a..b][i] == s[a + i] && s[a..b][j] == s[a + j];
    }
  }

  lemma {:induction false} BetweenDropsAll(t: seq<Entity>, lo: Entity, hi: Entity)
    requires StrictlySorted(t)
    requires forall k :: 0 <= k < |t| ==> !InRange(t[k], lo, hi)
    ensures Between(t, lo, hi) == []
  {
    if t != [] {
      SortedSlice(t, 1, |t|);
      BetweenDropsAll(t[1..], lo, hi);
    }
  }

  /** Elements below the window at the front of the set do not show in it. */
  lemma {:induction false} BetweenSkipsPrefix(s: seq<Entity>, i: nat, lo: Entity, hi: Entity)
    requires StrictlySorted(s) && i <= |s|
    requires forall k :: 0 <= k < i ==> !InRange(s[k], lo, hi)
    ensures StrictlySorted(s[i..]) && Between(s, lo, hi) == Between(s[i..], lo, hi)
  {
    SortedSlice(s, i, |s|);
    if i > 0 {
      SortedSlice(s, 1, |s|);
      BetweenSkipsPrefix(s[1..], i - 1, lo, hi);
      assert s[1..][i - 1..] == s[i..];
    }
  }

  /** A window that covers the first m elements and none after them. */
  lemma {:induction false} BetweenTakesPrefix(t: seq<Entity>, m: nat, lo: Entity, hi: Entity)
    requires StrictlySorted(t) && m <= |t|
    requires forall k :: 0 <= k < m ==> InRange(t[k], lo, hi)
    requires forall k :: m <= k < |t| ==> !InRange(t[k], lo, hi)
    ensures Between(t, lo, hi) == t[..m]
  {
    if m == 0 {
      BetweenDropsAll(t, lo, hi);
    } else {
      var u := t[1..];
      SortedSlice(t, 1, |t|);
      forall k | 0 <= k < m - 1 ensures InRange(u[k], lo, hi) {
        assert u[k] == t[k + 1];
      }
      forall k | m - 1 <= k < |u| ensures !InRange(u[k], lo, hi) {
        assert u[k] == t[k + 1];
      }
      BetweenTakesPrefix(u, m - 1, lo, hi);
      assert t[..m] == [t[0]] + u[..m - 1];
    }
  }

  /** Below position i of a sorted sequence nothing reaches the element at i,
      from i to j everything lies between the elements at i and j, and above
      j everything exceeds the element at j. */
  lemma SliceBounds(s: seq<Entity>, i: nat, j: nat)
    requires StrictlySorted(s) && i <= j < |s|
    ensures forall k :: 0 <= k < i ==> !InRange(s[k], s[i], s[j])
    ensures forall k :: i <= k <= j ==> InRange(s[k], s[i], s[j])
    ensures forall k :: j < k < |s| ==> !InRange(s[k], s[i], s[j])
  {
    forall k | i <= k <= j ensures InRange(s[k], s[i], s[j]) {
      CompareToZeroIffSame(s[k], s[k]);
      CompareToAntisymmetric(s[k], s[i]);
    }
    forall k | j < k < |s| ensures !InRange(s[k], s[i], s[j]) {
      CompareToAntisymmetric(s[k], s[j]);
    }
  }

  /** From position i on, the window between the elements at i and j is the
      run of elements from i to j. */
  lemma BetweenOfSuffix(s: seq<Entity>, i: nat, j: nat)
    requires StrictlySorted(s) && i <= j < |s|
    ensures StrictlySorted(s[i..])
    ensures Between(s[i..], s[i], s[j]) == s[i..j + 1]
  {
    var lo, hi := s[i], s[j];
    var t, m := s[i..], j + 1 - i;
    SliceBounds(s, i, j);
    SortedSlice(s, i, |s|);
    forall k | 0 <= k < m ensures InRange(t[k], lo, hi) {
      assert t[k] == s[i + k];
    }
    forall k | m <= k < |t| ensures !InRange(t[k], lo, hi) {
      assert t[k] == s[i + k];
    }
    BetweenTakesPrefix(t, m, lo, hi);
    var run := s[i..j + 1];
    assert t[..m] == run by {
      assert |t[..m]| == |run|;
      forall k | 0 <= k < |run| ensures t[..m][k] == run[k] {
        assert t[..m][k] == s[i + k];
      }
    }
  }

  /** An inclusive subSet between the elements at positions i and j of a
      sorted set is exactly the run of elements from i to j. */
  lemma BetweenIsSlice(s: seq<Entity>, i: nat, j: nat)
    requires StrictlySorted(s) && i <= j < |s|
    ensures Between(s, s[i], s[j]) == s[i..j + 1]
  {
    SliceBounds(s, i, j);
    BetweenSkipsPrefix(s, i, s[i], s[j]);
    BetweenOfSuffix(s, i, j);
  }
}
