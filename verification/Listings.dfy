/**
 Sorted listings of finite sets and their newest elements: what `sort` followed by
 `slice(-limit)` makes of the values of a Map.
 */
module Listings {

  function Elements<T>(s: seq<T>): set<T> {
    set x | x in s
  }

  /** lt orders S strictly and totally. */
  ghost predicate Linear<T(!new)>(S: set<T>, lt: (T, T) -> bool) {
    && (forall x :: x in S ==> !lt(x, x))
    && (forall x, y :: x in S && y in S && x != y ==> lt(x, y) || lt(y, x))
    && (forall x, y, z :: x in S && y in S && z in S && lt(x, y) && lt(y, z) ==> lt(x, z))
  }

  ghost predicate Ascending<T(!new)>(s: seq<T>, lt: (T, T) -> bool) {
    forall i, j :: 0 <= i < j < |s| ==> lt(s[i], s[j])
  }

  ghost predicate IsListing<T(!new)>(s: seq<T>, S: set<T>, lt: (T, T) -> bool) {
    Ascending(s, lt) && Elements(s) == S
  }

  ghost predicate IsGreatest<T(!new)>(m: T, S: set<T>, lt: (T, T) -> bool) {
    m in S && forall x :: x in S && x != m ==> lt(x, m)
  }

  lemma {:induction false} GreatestExists<T(!new)>(S: set<T>, lt: (T, T) -> bool) returns (m: T)
    requires S != {} && Linear(S, lt)
    ensures IsGreatest(m, S, lt)
    decreases |S|
  {
    var x :| x in S;
    if S == {x} {
      m := x;
    } else {
      var rest := S - {x};
      assert S == {x} + rest;
      var y := GreatestExists(rest, lt);
      m := if lt(x, y) then y else x;
    }
  }

  /** The listing of S, the greatest element last. */
  ghost function Sorted<T(!new)>(S: set<T>, lt: (T, T) -> bool): (s: seq<T>)
    requires Linear(S, lt)
    ensures IsListing(s, S, lt) && |s| == |S|
    decreases |S|
  {
    if S == {} then []
    else
      assert exists m :: IsGreatest(m, S, lt) by { var m := GreatestExists(S, lt); }
      var m :| IsGreatest(m, S, lt);
      var rest := Sorted(S - {m}, lt);
      AppendGreatest(rest, m, S, lt);
      rest + [m]
  }

  lemma AppendGreatest<T(!new)>(rest: seq<T>, m: T, S: set<T>, lt: (T, T) -> bool)
    requires IsGreatest(m, S, lt) && IsListing(rest, S - {m}, lt)
    ensures IsListing(rest + [m], S, lt) && |S| == |S - {m}| + 1
  {
    var s := rest + [m];
    forall i, j | 0 <= i < j < |s| ensures lt(s[i], s[j]) {
      assert s[i] == rest[i] && s[i] in Elements(rest);
    }
    assert Elements(s) == Elements(rest) + {m} == S;
    assert S == S - {m} + {m};
  }

  lemma {:induction false} ListingSize<T(!new)>(s: seq<T>, S: set<T>, lt: (T, T) -> bool)
    requires Linear(S, lt) && IsListing(s, S, lt)
    ensures |s| == |S|
    decreases |s|
  {
    if s == [] {
      assert S == {};
    } else {
      var m := s[|s| - 1];
      ListingFront(s, S, lt);
      ListingSize(s[..|s| - 1], S - {m}, lt);
    }
  }

  lemma ListingFront<T(!new)>(s: seq<T>, S: set<T>, lt: (T, T) -> bool)
    requires s != [] && Linear(S, lt) && IsListing(s, S, lt)
    ensures s[|s| - 1] in S
    ensures Linear(S - {s[|s| - 1]}, lt) && IsListing(s[..|s| - 1], S - {s[|s| - 1]}, lt)
  {
    var m, front := s[|s| - 1], s[..|s| - 1];
    assert s == front + [m];
    assert forall x :: x in front ==> x in s;
    forall x | x in front ensures x != m {
      var i :| 0 <= i < |front| && front[i] == x;
      assert lt(s[i], s[|s| - 1]) && m in S;
    }
    assert Elements(front) == S - {m};
  }

  lemma LinearSubset<T(!new)>(A: set<T>, B: set<T>, lt: (T, T) -> bool)
    requires Linear(B, lt) && A <= B
    ensures Linear(A, lt)
  {}

  lemma LastIsGreatest<T(!new)>(s: seq<T>, S: set<T>, lt: (T, T) -> bool)
    requires s != [] && IsListing(s, S, lt)
    ensures IsGreatest(s[|s| - 1], S, lt)
  {
    forall x | x in S && x != s[|s| - 1] ensures lt(x, s[|s| - 1]) {
      var i :| 0 <= i < |s| && s[i] == x;
    }
  }

  lemma GreatestUnique<T(!new)>(m: T, k: T, S: set<T>, lt: (T, T) -> bool)
    requires Linear(S, lt) && IsGreatest(m, S, lt) && IsGreatest(k, S, lt)
    ensures m == k
  {}

  /** A set has one listing only. */
  lemma {:induction false} ListingUnique<T(!new)>(s: seq<T>, S: set<T>, lt: (T, T) -> bool)
    requires Linear(S, lt) && IsListing(s, S, lt)
    ensures s == Sorted(S, lt)
    decreases |s|
  {
    var t := Sorted(S, lt);
    ListingSize(s, S, lt);
    if s != [] {
      var m := s[|s| - 1];
      LastIsGreatest(s, S, lt);
      LastIsGreatest(t, S, lt);
      GreatestUnique(m, t[|t| - 1], S, lt);
      ListingFront(s, S, lt);
      ListingFront(t, S, lt);
      ListingUnique(s[..|s| - 1], S - {m}, lt);
      ListingUnique(t[..|t| - 1], S - {m}, lt);
      assert s == s[..|s| - 1] + [m] && t == t[..|t| - 1] + [m];
    }
  }

  // ----- slice(-limit) -----

  /** Array.prototype.slice(-limit): slice(-0) is slice(0) and keeps everything. */
  function SliceLast<T>(s: seq<T>, limit: nat): (r: seq<T>)
    ensures limit > 0 ==> |r| <= limit
    ensures |s| <= limit ==> r == s
    ensures forall x :: x in r ==> x in s
  {
    if limit == 0 || |s| <= limit then s else s[|s| - limit..]
  }

  ghost function Newer<T(!new)>(S: set<T>, e: T, lt: (T, T) -> bool): set<T> {
    set x | x in S && lt(e, x)
  }

  lemma PositionFollowsOrder<T(!new)>(s: seq<T>, S: set<T>, lt: (T, T) -> bool, i: nat, j: nat)
    requires Linear(S, lt) && IsListing(s, S, lt)
    requires i < |s| && j < |s| && lt(s[i], s[j])
    ensures i < j
  {
    assert s[i] in S && s[j] in S;
  }

  lemma NewerCount<T(!new)>(s: seq<T>, S: set<T>, lt: (T, T) -> bool, i: nat)
    requires Linear(S, lt) && IsListing(s, S, lt) && i < |s|
    ensures |Newer(S, s[i], lt)| == |s| - 1 - i
  {
    var tail := s[i + 1..];
    var N := Newer(S, s[i], lt);
    assert s[i] in S;
    forall x | x in N ensures x in tail {
      var j :| 0 <= j < |s| && s[j] == x;
      PositionFollowsOrder(s, S, lt, i, j);
      assert s[j] == tail[j - i - 1];
    }
    forall x | x in tail ensures x in N {
      var j :| 0 <= j < |tail| && tail[j] == x;
      assert x == s[i + 1 + j] && lt(s[i], s[i + 1 + j]);
    }
    assert Elements(tail) == N;
    ListingSize(tail, N, lt);
  }

  lemma PositionUnique<T(!new)>(s: seq<T>, S: set<T>, lt: (T, T) -> bool, i: nat, j: nat)
    requires Linear(S, lt) && IsListing(s, S, lt)
    requires i < |s| && j < |s| && s[i] == s[j]
    ensures i == j
  {
    assert s[i] in S;
  }

  lemma InCutByPosition<T>(s: seq<T>, limit: nat)
    requires limit > 0
    ensures forall i :: 0 <= i < |s| && |s| - limit <= i ==> s[i] in SliceLast(s, limit)
  {
    forall i | 0 <= i < |s| && |s| - limit <= i ensures s[i] in SliceLast(s, limit) {
      if |s| > limit { assert s[|s| - limit..][i - (|s| - limit)] == s[i]; }
    }
  }

  /** What survives the cut: the elements with fewer than limit newer ones. */
  lemma SurvivesCut<T(!new)>(S: set<T>, lt: (T, T) -> bool, limit: nat, e: T)
    requires Linear(S, lt) && e in S && limit > 0
    ensures e in SliceLast(Sorted(S, lt), limit) <==> |Newer(S, e, lt)| < limit
  {
    var s := Sorted(S, lt);
    var i :| 0 <= i < |s| && s[i] == e;
    NewerCount(s, S, lt, i);
    InCutByPosition(s, limit);
    if e in SliceLast(s, limit) {
      var cut := SliceLast(s, limit);
      var j :| 0 <= j < |cut| && cut[j] == e;
      PositionUnique(s, S, lt, i, j + |s| - |cut|);
    }
  }

  /** An element that is cut off leaves a full window of newer ones. */
  lemma CutOffMeansFull<T(!new)>(S: set<T>, lt: (T, T) -> bool, limit: nat, e: T)
    requires Linear(S, lt) && e in S && limit > 0
    requires e !in SliceLast(Sorted(S, lt), limit)
    ensures |SliceLast(Sorted(S, lt), limit)| == limit
    ensures forall x :: x in SliceLast(Sorted(S, lt), limit) ==> lt(e, x)
  {
    var s := Sorted(S, lt);
    var cut := SliceLast(s, limit);
    var i :| 0 <= i < |s| && s[i] == e;
    InCutByPosition(s, limit);
    CutIsNewer(s, lt, limit, i);
  }

  lemma CutIsNewer<T(!new)>(s: seq<T>, lt: (T, T) -> bool, limit: nat, i: nat)
    requires Ascending(s, lt) && 0 < limit <= |s| && i < |s| - limit
    ensures forall x :: x in SliceLast(s, limit) ==> lt(s[i], x)
  {
    var cut := SliceLast(s, limit);
    forall x | x in cut ensures lt(s[i], x) {
      var j :| 0 <= j < |cut| && cut[j] == x;
      assert cut[j] == s[j + |s| - limit];
    }
  }

  ghost function Window<T(!new)>(S: set<T>, lt: (T, T) -> bool, limit: nat): set<T>
    requires Linear(S, lt)
  {
    Elements(SliceLast(Sorted(S, lt), limit))
  }

  lemma WindowIsListing<T(!new)>(S: set<T>, lt: (T, T) -> bool, limit: nat)
    requires Linear(S, lt)
    ensures Window(S, lt, limit) <= S && Linear(Window(S, lt, limit), lt)
    ensures IsListing(SliceLast(Sorted(S, lt), limit), Window(S, lt, limit), lt)
    ensures |Window(S, lt, limit)| == |SliceLast(Sorted(S, lt), limit)|
  {
    var cut := SliceLast(Sorted(S, lt), limit);
    forall x | x in cut ensures x in S {}
    ListingSize(cut, Elements(cut), lt);
  }

  lemma SmallerSet<T(!new)>(A: set<T>, B: set<T>)
    requires A <= B
    ensures |A| <= |B|
    ensures |A| == |B| ==> A == B
  {
    assert B == A + (B - A);
  }

  /** If the earlier cut hid something newer than e, it kept a full window newer than e. */
  lemma HiddenMeansFull<T(!new)>(A: set<T>, B: set<T>, lt: (T, T) -> bool, limit: nat, e: T)
    requires Linear(A + B, lt) && limit > 0 && Linear(A, lt)
    requires e in A + B
    requires Newer(Window(A, lt, limit) + B, e, lt) != Newer(A + B, e, lt)
    ensures |Newer(Window(A, lt, limit) + B, e, lt)| >= limit
  {
    WindowIsListing(A, lt, limit);
    var T := Window(A, lt, limit);
    var x :| x in Newer(A + B, e, lt) && x !in T + B;
    CutOffMeansFull(A, lt, limit, x);
    forall y | y in T ensures y in Newer(T + B, e, lt) {
      assert lt(e, x) && lt(x, y);
    }
    SmallerSet(T, Newer(T + B, e, lt));
  }

  lemma WindowOfWindowMember<T(!new)>(A: set<T>, B: set<T>, lt: (T, T) -> bool, limit: nat, e: T)
    requires Linear(A + B, lt) && limit > 0 && Linear(A, lt) && Linear(Window(A, lt, limit) + B, lt)
    requires Window(A, lt, limit) <= A
    requires e in A + B
    ensures e in Window(A + B, lt, limit) <==> e in Window(Window(A, lt, limit) + B, lt, limit)
  {
    var AB, TB := A + B, Window(A, lt, limit) + B;
    SurvivesCut(AB, lt, limit, e);
    SmallerSet(Newer(TB, e, lt), Newer(AB, e, lt));
    if e in TB {
      SurvivesCut(TB, lt, limit, e);
      if Newer(TB, e, lt) != Newer(AB, e, lt) {
        HiddenMeansFull(A, B, lt, limit, e);
      }
    } else {
      WindowIsListing(TB, lt, limit);
      SurvivesCut(A, lt, limit, e);
      SmallerSet(Newer(A, e, lt), Newer(AB, e, lt));
    }
  }

  lemma SameWindowSameCut<T(!new)>(A: set<T>, B: set<T>, lt: (T, T) -> bool, limit: nat)
    requires Linear(A, lt) && Linear(B, lt)
    requires Window(A, lt, limit) == Window(B, lt, limit)
    ensures SliceLast(Sorted(A, lt), limit) == SliceLast(Sorted(B, lt), limit)
  {
    WindowIsListing(A, lt, limit);
    WindowIsListing(B, lt, limit);
    ListingUnique(SliceLast(Sorted(A, lt), limit), Window(A, lt, limit), lt);
    ListingUnique(SliceLast(Sorted(B, lt), limit), Window(B, lt, limit), lt);
  }

  /** Cutting the window before new elements arrive changes nothing: it would have been cut later. */
  lemma WindowOfWindow<T(!new)>(A: set<T>, B: set<T>, lt: (T, T) -> bool, limit: nat)
    requires Linear(A + B, lt) && limit > 0
    ensures Linear(A, lt) && Window(A, lt, limit) <= A && Linear(Window(A, lt, limit) + B, lt)
    ensures SliceLast(Sorted(Window(A, lt, limit) + B, lt), limit) == SliceLast(Sorted(A + B, lt), limit)
  {
    LinearSubset(A, A + B, lt);
    assert Window(A, lt, limit) <= A by { WindowIsListing(A, lt, limit); }
    var AB, TB := A + B, Window(A, lt, limit) + B;
    LinearSubset(TB, AB, lt);
    assert Window(AB, lt, limit) <= AB by { WindowIsListing(AB, lt, limit); }
    assert Window(TB, lt, limit) <= TB by { WindowIsListing(TB, lt, limit); }
    forall e | e in AB ensures e in Window(AB, lt, limit) <==> e in Window(TB, lt, limit) {
      WindowOfWindowMember(A, B, lt, limit, e);
    }
    assert Window(AB, lt, limit) == Window(TB, lt, limit);
    SameWindowSameCut(AB, TB, lt, limit);
  }

  lemma NewerTransitive<T(!new)>(C: set<T>, S: set<T>, lt: (T, T) -> bool, e: T, x: T)
    requires Linear(S, lt) && C <= S && e in S && x in S && lt(e, x)
    ensures Newer(C, x, lt) <= Newer(C, e, lt)
  {}

  lemma CutIgnoresOldMember<T(!new)>(C: set<T>, X: set<T>, lt: (T, T) -> bool, limit: nat, e: T)
    requires limit > 0 && Linear(C + X, lt) && Linear(C, lt) && e in C
    requires forall x :: x in X ==> |Newer(C, x, lt)| >= limit
    ensures e in Window(C + X, lt, limit) <==> e in Window(C, lt, limit)
  {
    SurvivesCut(C + X, lt, limit, e);
    SurvivesCut(C, lt, limit, e);
    SmallerSet(Newer(C, e, lt), Newer(C + X, e, lt));
    if x :| x in X && lt(e, x) {
      NewerTransitive(C, C + X, lt, e, x);
      SmallerSet(Newer(C, x, lt), Newer(C, e, lt));
    } else {
      assert Newer(C + X, e, lt) == Newer(C, e, lt);
    }
  }

  lemma OldIsCutOff<T(!new)>(C: set<T>, X: set<T>, lt: (T, T) -> bool, limit: nat, e: T)
    requires limit > 0 && Linear(C + X, lt) && e in X && |Newer(C, e, lt)| >= limit
    ensures e !in Window(C + X, lt, limit)
  {
    SurvivesCut(C + X, lt, limit, e);
    SmallerSet(Newer(C, e, lt), Newer(C + X, e, lt));
  }

  lemma WindowIgnoresOld<T(!new)>(C: set<T>, X: set<T>, lt: (T, T) -> bool, limit: nat)
    requires limit > 0 && Linear(C + X, lt) && Linear(C, lt)
    requires forall x :: x in X ==> |Newer(C, x, lt)| >= limit
    ensures Window(C + X, lt, limit) == Window(C, lt, limit)
  {
    var V, W := Window(C, lt, limit), Window(C + X, lt, limit);
    assert V <= C by { WindowIsListing(C, lt, limit); }
    assert W <= C + X by { WindowIsListing(C + X, lt, limit); }
    forall e | e in C ensures e in W <==> e in V {
      CutIgnoresOldMember(C, X, lt, limit, e);
    }
    forall e | e in X ensures e !in W {
      OldIsCutOff(C, X, lt, limit, e);
    }
  }

  /** Elements with a full window above them never reach the window. */
  lemma CutIgnoresOld<T(!new)>(C: set<T>, X: set<T>, lt: (T, T) -> bool, limit: nat)
    requires limit > 0 && Linear(C + X, lt)
    requires forall x :: x in X ==> |Newer(C, x, lt)| >= limit
    ensures Linear(C, lt)
    ensures SliceLast(Sorted(C + X, lt), limit) == SliceLast(Sorted(C, lt), limit)
  {
    LinearSubset(C, C + X, lt);
    WindowIgnoresOld(C, X, lt, limit);
    SameWindowSameCut(C, C + X, lt, limit);
  }

  ghost predicate Transitive<T(!new)>(S: set<T>, lt: (T, T) -> bool) {
    forall x, y, z :: x in S && y in S && z in S && lt(x, y) && lt(y, z) ==> lt(x, z)
  }

  /** If elements with a full window above them are taken away, there still is one above each. */
  lemma FullWithoutOld<T(!new)>(S: set<T>, stale: set<T>, lt: (T, T) -> bool, limit: nat, x: T)
    requires Linear(S, lt) && Transitive(S + {x}, lt)
    requires forall y :: y in S && y in stale ==> |Newer(S, y, lt)| >= limit
    requires |Newer(S, x, lt)| >= limit
    ensures |Newer(S - stale, x, lt)| >= limit
  {
    var hidden := Newer(S, x, lt) * stale;
    if hidden == {} {
      forall z | z in Newer(S, x, lt) ensures z in Newer(S - stale, x, lt) {
        assert z in stale ==> z in hidden;
      }
      SmallerSet(Newer(S, x, lt), Newer(S - stale, x, lt));
    } else {
      LinearSubset(hidden, S, lt);
      var m := GreatestExists(hidden, lt);
      forall z | z in Newer(S, m, lt) ensures z in Newer(S - stale, x, lt) {
        assert lt(x, z);
        assert z in stale ==> z in hidden;
      }
      SmallerSet(Newer(S, m, lt), Newer(S - stale, x, lt));
    }
  }

  /** Two sets have the same newest elements iff what only one of them has lies below the window. */
  lemma SameCutExactly<T(!new)>(A: set<T>, B: set<T>, lt: (T, T) -> bool, limit: nat)
    requires limit > 0 && Linear(A, lt) && Linear(B, lt) && Transitive(A + B, lt)
    ensures SliceLast(Sorted(B, lt), limit) == SliceLast(Sorted(A, lt), limit) <==>
            forall x :: x in (A - B) + (B - A) ==> |Newer(A, x, lt)| >= limit
  {
    if SliceLast(Sorted(B, lt), limit) == SliceLast(Sorted(A, lt), limit) {
      forall x | x in (A - B) + (B - A) ensures |Newer(A, x, lt)| >= limit {
        SameCutHides(A, B, lt, limit, x);
      }
    }
    if forall x :: x in (A - B) + (B - A) ==> |Newer(A, x, lt)| >= limit {
      HiddenSameCut(A, B, lt, limit);
    }
  }

  lemma HiddenSameCut<T(!new)>(A: set<T>, B: set<T>, lt: (T, T) -> bool, limit: nat)
    requires limit > 0 && Linear(A, lt) && Linear(B, lt) && Transitive(A + B, lt)
    requires forall x :: x in (A - B) + (B - A) ==> |Newer(A, x, lt)| >= limit
    ensures SliceLast(Sorted(B, lt), limit) == SliceLast(Sorted(A, lt), limit)
  {
    var C := A * B;
    forall x | x in (A - B) + (B - A) ensures |Newer(C, x, lt)| >= limit {
      assert Transitive(A + {x}, lt) by { assert A + {x} <= A + B; }
      FullWithoutOld(A, A - B, lt, limit, x);
      assert A - (A - B) == C;
    }
    CutWithout(A, C, lt, limit);
    CutWithout(B, C, lt, limit);
  }

  lemma CutWithout<T(!new)>(A: set<T>, C: set<T>, lt: (T, T) -> bool, limit: nat)
    requires limit > 0 && Linear(A, lt) && C <= A
    requires forall x :: x in A - C ==> |Newer(C, x, lt)| >= limit
    ensures Linear(C, lt) && SliceLast(Sorted(C, lt), limit) == SliceLast(Sorted(A, lt), limit)
  {
    assert C + (A - C) == A;
    CutIgnoresOld(C, A - C, lt, limit);
  }

  lemma SameCutHides<T(!new)>(A: set<T>, B: set<T>, lt: (T, T) -> bool, limit: nat, x: T)
    requires limit > 0 && Linear(A, lt) && Linear(B, lt)
    requires SliceLast(Sorted(B, lt), limit) == SliceLast(Sorted(A, lt), limit)
    requires x in (A - B) + (B - A)
    ensures |Newer(A, x, lt)| >= limit
  {
    var cut := SliceLast(Sorted(A, lt), limit);
    WindowIsListing(A, lt, limit);
    WindowIsListing(B, lt, limit);
    assert x !in cut by { assert x in cut ==> x in A && x in B; }
    if x in A {
      CutOffMeansFull(A, lt, limit, x);
    } else {
      CutOffMeansFull(B, lt, limit, x);
    }
    assert Elements(cut) <= Newer(A, x, lt);
    SmallerSet(Elements(cut), Newer(A, x, lt));
  }
}
