/** The ordering of rankable entities (Rankable.compareTo): by rank value
    first, then by the string form of the identifier. Ranks are strings, as in
    the StringRank fixture, so both comparisons are Java's String.compareTo. */
module Ranking {

  /** A rankable entity, seen through the two facets the ordering uses: the
      string form of its identifier and its rank value. */
  datatype Entity = Entity(id: string, rank: string)

  /** Java's String.compareTo: the difference of the first pair of characters
      that differ, or else the difference of the lengths. */
  function CompareStrings(a: string, b: string): int
    decreases |a|
  {
    if |a| == 0 || |b| == 0 then |a| - |b|
    else if a[0] != b[0] then a[0] as int - b[0] as int
    else CompareStrings(a[1..], b[1..])
  }

  /** Reference definition of lexicographic order: `a` is a proper prefix of
      `b`, or `a` has the smaller character where the two first differ. */
  ghost predicate LexLess(a: string, b: string) {
    || (|a| < |b| && a == b[..|a|])
    || exists k :: 0 <= k < |a| && k < |b| && a[..k] == b[..k] && a[k] < b[k]
  }

  /** Rankable.compareTo. */
  function CompareTo(a: Entity, b: Entity): int {
    var compared := CompareStrings(a.rank, b.rank);
    if compared == 0 then CompareStrings(a.id, b.id) else compared
  }

  /** `a` sorts strictly before `b`. */
  predicate Less(a: Entity, b: Entity) {
    CompareTo(a, b) < 0
  }

  // ---- String.compareTo ----------------------------------------------------

  /** String.compareTo is negative exactly when the first string comes first
      lexicographically. */
  lemma {:induction false} CompareStringsIsLexicographic(a: string, b: string)
    ensures CompareStrings(a, b) < 0 <==> LexLess(a, b)
    decreases |a|
  {
    if |a| == 0 {
      if |b| > 0 {
        assert a == b[..0];
      }
    } else if |b| == 0 {
    } else if a[0] != b[0] {
      if a[0] < b[0] {
        assert a[..0] == b[..0];
      }
      if |a| < |b| {
        assert b[..|a|][0] == b[0];
      }
      forall k | 0 < k <= |a| && k <= |b|
        ensures a[..k] != b[..k]
      {
        assert a[..k][0] == a[0] && b[..k][0] == b[0];
      }
    } else {
      var a', b' := a[1..], b[1..];
      CompareStringsIsLexicographic(a', b');
      if LexLess(a', b') {
        if |a'| < |b'| && a' == b'[..|a'|] {
          assert a == [a[0]] + a' && b[..|a|] == [b[0]] + b'[..|a'|];
        } else {
          var k :| 0 <= k < |a'| && k < |b'| && a'[..k] == b'[..k] && a'[k] < b'[k];
          assert a[..k + 1] == [a[0]] + a'[..k] && b[..k + 1] == [b[0]] + b'[..k];
          assert a[k + 1] == a'[k] && b[k + 1] == b'[k];
        }
      }
      if LexLess(a, b) {
        if |a| < |b| && a == b[..|a|] {
          assert a' == b'[..|a'|];
        } else {
          var k :| 0 <= k < |a| && k < |b| && a[..k] == b[..k] && a[k] < b[k];
          assert k > 0;
          assert a'[..k - 1] == a[1..k] == b[1..k] == b'[..k - 1];
          assert a'[k - 1] == a[k] && b'[k - 1] == b[k];
        }
      }
    }
  }

  /** String.compareTo is zero exactly on equal strings. */
  lemma {:induction false} CompareStringsZeroIffEqual(a: string, b: string)
    ensures CompareStrings(a, b) == 0 <==> a == b
    decreases |a|
  {
    if |a| > 0 && |b| > 0 && a[0] == b[0] {
      CompareStringsZeroIffEqual(a[1..], b[1..]);
      assert a == [a[0]] + a[1..] && b == [b[0]] + b[1..];
    }
  }

  /** Swapping the arguments of String.compareTo negates the result. */
  lemma {:induction false} CompareStringsAntisymmetric(a: string, b: string)
    ensures CompareStrings(a, b) == -CompareStrings(b, a)
    decreases |a|
  {
    if |a| > 0 && |b| > 0 && a[0] == b[0] {
      CompareStringsAntisymmetric(a[1..], b[1..]);
    }
  }

  /** String.compareTo orders strings transitively. */
  lemma {:induction false} CompareStringsTransitive(a: string, b: string, c: string)
    requires CompareStrings(a, b) < 0 && CompareStrings(b, c) < 0
    ensures CompareStrings(a, c) < 0
    decreases |a|
  {
    if |a| > 0 && a[0] == b[0] && b[0] == c[0] {
      CompareStringsTransitive(a[1..], b[1..], c[1..]);
    }
  }

  // ---- Rankable.compareTo ---------------------------------------------------

  /** compareTo reports equality only for entities with the same rank and the
      same identifier string: no two distinct entities share a position. */
  lemma CompareToZeroIffSame(a: Entity, b: Entity)
    ensures CompareTo(a, b) == 0 <==> a == b
  {
    CompareStringsZeroIffEqual(a.rank, b.rank);
    CompareStringsZeroIffEqual(a.id, b.id);
  }

  /** Swapping the arguments of compareTo negates the result, so
      a.compareTo(b) < 0 exactly when b.compareTo(a) > 0. */
  lemma CompareToAntisymmetric(a: Entity, b: Entity)
    ensures CompareTo(a, b) == -CompareTo(b, a)
  {
    CompareStringsAntisymmetric(a.rank, b.rank);
    CompareStringsAntisymmetric(a.id, b.id);
  }

  /** The order is transitive. */
  lemma CompareToTransitive(a: Entity, b: Entity, c: Entity)
    requires Less(a, b) && Less(b, c)
    ensures Less(a, c)
  {
    CompareStringsZeroIffEqual(a.rank, b.rank);
    CompareStringsZeroIffEqual(b.rank, c.rank);
    CompareStringsZeroIffEqual(a.rank, c.rank);
    var ab, bc := CompareStrings(a.rank, b.rank), CompareStrings(b.rank, c.rank);
    if ab == 0 && bc == 0 {
      CompareStringsTransitive(a.id, b.id, c.id);
    } else if ab != 0 && bc != 0 {
      CompareStringsTransitive(a.rank, b.rank, c.rank);
    }
  }

  /** Any two distinct entities are ordered one way or the other. */
  lemma LessTotal(a: Entity, b: Entity)
    ensures a != b <==> Less(a, b) || Less(b, a)
  {
    CompareToZeroIffSame(a, b);
    CompareToAntisymmetric(a, b);
  }

  /** The order is the lexicographic pair (rank, id string): a lower rank comes
      first whatever the identifiers, and equal ranks fall back to the
      identifiers' string order. */
  lemma LessIsRankThenId(a: Entity, b: Entity)
    ensures Less(a, b) <==>
              || LexLess(a.rank, b.rank)
              || (a.rank == b.rank && LexLess(a.id, b.id))
  {
    CompareStringsIsLexicographic(a.rank, b.rank);
    CompareStringsIsLexicographic(a.id, b.id);
    CompareStringsZeroIffEqual(a.rank, b.rank);
  }
}
