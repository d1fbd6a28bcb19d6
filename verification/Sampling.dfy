/** Cutting each crash point's states down to what can be materialised: the two extremes and the
    lowest-ranked of the rest. */
module Sampling {
  import opened Sorting
  import opened States
  import opened Legality
  import opened Hashing

  // ---------------------------------------------------------------- one group

  function RankKey(seed: int): nat -> int { (index: nat) => Rank(seed, index) }

  /** Candidates are added in rank order until the cap is reached. */
  function KeepFrom(ranked: seq<nat>, keep: set<nat>, cap: nat): set<nat> {
    if ranked == [] || |keep| >= cap then keep
    else KeepFrom(ranked[1..], keep + {ranked[0]}, cap)
  }

  /** Group positions, lowest rank first. */
  function Ranked(size: nat, seed: int): seq<nat> { SortBy(AllPoints(size), RankKey(seed)) }

  /** Group positions kept when the group exceeds the cap. */
  function Keep(size: nat, cap: nat, seed: int): set<nat>
    requires size > 0
  {
    KeepFrom(Ranked(size, seed), {0, size - 1}, cap)
  }

  function Pick(group: seq<CrashState>, positions: seq<nat>): seq<CrashState>
    requires forall p :: p in positions ==> p < |group|
  {
    seq(|positions|, i requires 0 <= i < |positions| => assert positions[i] in positions; group[positions[i]])
  }

  function SampleGroup(group: seq<CrashState>, cap: nat, seed: int): seq<CrashState> {
    if |group| <= cap then group else
      Pick(group, InOrder(Keep(|group|, cap, seed), |group|))
  }

  // ---------------------------------------------------------------- all groups

  /** The states of one crash point, in enumeration order. */
  function GroupOf(states: seq<CrashState>, k: nat): seq<CrashState> {
    if states == [] then [] else
      var last := states[|states| - 1];
      GroupOf(states[..|states| - 1], k) + (if last.crashPoint == k then [last] else [])
  }

  /** The crash points present, in order of first appearance. */
  function PointsOf(states: seq<CrashState>): seq<nat> {
    if states == [] then [] else
      var points := PointsOf(states[..|states| - 1]);
      var k := states[|states| - 1].crashPoint;
      if k in points then points else points + [k]
  }

  function SampleGroups(states: seq<CrashState>, points: seq<nat>, cap: nat, seed: int): seq<CrashState> {
    if points == [] then [] else
      var k := points[|points| - 1];
      SampleGroups(states, points[..|points| - 1], cap, seed) + SampleGroup(GroupOf(states, k), cap, PointSeed(seed, k))
  }

  function Sampled(states: seq<CrashState>, cap: nat, seed: int): seq<CrashState> {
    SampleGroups(states, SortBy(PointsOf(states), Identity), cap, seed)
  }

  method SampleStates(states: seq<CrashState>, maxPerCrashPoint: nat, seed: int) returns (sampled: seq<CrashState>)
    ensures sampled == Sampled(states, maxPerCrashPoint, seed)
  {
    var groups, order := GroupStates(states);
    var points := SortBy(order, Identity);
    assert forall k: nat :: k in points ==> k in order;
    sampled := SampleEach(states, groups, points, maxPerCrashPoint, seed);
  }

  method SampleEach(ghost states: seq<CrashState>, groups: map<nat, seq<CrashState>>, points: seq<nat>, cap: nat,
        seed: int)
    returns (sampled: seq<CrashState>)
    requires forall k: nat :: k in points ==> k in groups && groups[k] == GroupOf(states, k)
    ensures sampled == SampleGroups(states, points, cap, seed)
  {
    hide GroupOf, SampleGroup;
    sampled := [];
    for p := 0 to |points|
      invariant sampled == SampleGroups(states, points[..p], cap, seed)
    {
      var k := points[p];
      assert k in points;
      assert points[..p + 1] == points[..p] + [k];
      SampleGroupsSnoc(states, points[..p], k, cap, seed);
      var part := SampleOne(groups[k], cap, PointSeed(seed, k));
      sampled := sampled + part;
    }
    assert points[..|points|] == points;
  }

  lemma {:induction false} SampleGroupsSnoc(states: seq<CrashState>, points: seq<nat>, k: nat, cap: nat, seed: int)
    ensures SampleGroups(states, points + [k], cap, seed)
         == SampleGroups(states, points, cap, seed) + SampleGroup(GroupOf(states, k), cap, PointSeed(seed, k))
  {
    hide SampleGroup, GroupOf;
    assert (points + [k])[..|points|] == points;
  }

  /** The `Map` of groups, with its keys in insertion order. */
  method GroupStates(states: seq<CrashState>) returns (groups: map<nat, seq<CrashState>>, order: seq<nat>)
    ensures order == PointsOf(states)
    ensures forall k: nat :: k in order ==> k in groups && groups[k] == GroupOf(states, k)
  {
    groups, order := map[], [];
    for i := 0 to |states|
      invariant order == PointsOf(states[..i])
      invariant forall k: nat :: k in groups <==> k in order
      invariant forall k: nat :: GroupOf(states[..i], k) == if k in groups then groups[k] else []
    {
      assert states[..i + 1][..i] == states[..i];
      var k := states[i].crashPoint;
      if k !in groups {
        groups := groups[k := [states[i]]];
        order := order + [k];
      } else {
        groups := groups[k := groups[k] + [states[i]]];
      }
    }
    assert states[..|states|] == states;
  }

  method SampleOne(group: seq<CrashState>, cap: nat, seed: int) returns (sampled: seq<CrashState>)
    ensures sampled == SampleGroup(group, cap, seed)
  {
    if |group| <= cap {
      return group;
    }
    var keep := KeepPositions(|group|, cap, seed);
    hide Keep;
    var positions := InOrder(keep, |group|);
    sampled := [];
    for p := 0 to |positions|
      invariant sampled == Pick(group, positions)[..p]
    {
      assert positions[p] in positions;
      sampled := sampled + [group[positions[p]]];
    }
  }

  method KeepPositions(size: nat, cap: nat, seed: int) returns (keep: set<nat>)
    requires size > 0
    ensures keep == Keep(size, cap, seed)
  {
    keep := {0, size - 1};
    var ranked := Ranked(size, seed);
    var c := 0;
    while c < |ranked|
      invariant 0 <= c <= |ranked|
      invariant KeepFrom(ranked[c..], keep, cap) == Keep(size, cap, seed)
    {
      if |keep| >= cap {
        break;
      }
      keep := keep + {ranked[c]};
      assert ranked[c..][1..] == ranked[c + 1..];
      c := c + 1;
    }
    assert c == |ranked| ==> ranked[c..] == [];
  }

  // ---------------------------------------------------------------- what is kept

  /** The extremes, `count` positions in all, and no interior position ahead of a lower-ranked one. */
  ghost predicate IsSample(keep: set<nat>, size: nat, count: nat, seed: int)
    requires size > 0
  {
    && 0 in keep && size - 1 in keep
    && (forall i :: i in keep ==> i < size)
    && |keep| == count
    && (forall i, j: nat :: i in keep && 0 < i < size - 1 && j < size && Rank(seed, j) < Rank(seed, i) ==> j in keep)
  }

  lemma {:induction false} KeepFromLaws(ranked: seq<nat>, keep: set<nat>, cap: nat)
    ensures keep <= KeepFrom(ranked, keep, cap) <= keep + ToSet(ranked)
    ensures |keep| <= cap ==> |KeepFrom(ranked, keep, cap)| <= cap
    ensures |KeepFrom(ranked, keep, cap)| < cap ==> forall x :: x in ranked ==> x in KeepFrom(ranked, keep, cap)
  {
    if ranked != [] && |keep| < cap {
      KeepFromLaws(ranked[1..], keep + {ranked[0]}, cap);
      assert ranked == [ranked[0]] + ranked[1..];
    }
  }

  /** Whatever is taken, everything ranked ahead of it was taken first. */
  lemma {:induction false} KeepFromOrder(ranked: seq<nat>, keep: set<nat>, cap: nat, p: nat, q: nat)
    requires p < q < |ranked| && NoDuplicates(ranked)
    requires ranked[q] in KeepFrom(ranked, keep, cap) && ranked[q] !in keep
    ensures ranked[p] in KeepFrom(ranked, keep, cap)
  {
    var grown := keep + {ranked[0]};
    if p == 0 {
      KeepFromLaws(ranked[1..], grown, cap);
    } else {
      KeepFromOrder(ranked[1..], grown, cap, p - 1, q - 1);
    }
  }

  lemma RankedLaws(size: nat, seed: int)
    ensures |Ranked(size, seed)| == size
    ensures forall i: nat :: i in Ranked(size, seed) <==> i < size
    ensures NoDuplicates(Ranked(size, seed))
    ensures forall p, q :: 0 <= p < q < size ==> Rank(seed, Ranked(size, seed)[p]) <= Rank(seed, Ranked(size, seed)[q])
  {
    hide Rank;
    var ranked := Ranked(size, seed);
    forall p, q | 0 <= p < q < size ensures Rank(seed, ranked[p]) <= Rank(seed, ranked[q]) {
      assert RankKey(seed)(ranked[p]) <= RankKey(seed)(ranked[q]);
    }
    DistinctKeysPermute(AllPoints(size), ranked, Identity);
  }

  /** How many states a group over the cap keeps. */
  function KeptCount(size: nat, cap: nat): nat {
    if size <= cap then size else if cap >= 2 then cap else if size >= 2 then 2 else 1
  }

  lemma KeepHasCount(size: nat, cap: nat, seed: int)
    requires size > cap
    ensures |Keep(size, cap, seed)| == KeptCount(size, cap)
    ensures forall i :: i in Keep(size, cap, seed) ==> i < size
    ensures 0 in Keep(size, cap, seed) && size - 1 in Keep(size, cap, seed)
  {
    hide Rank, Ranked;
    var ranked := Ranked(size, seed);
    var ends: set<nat> := {0, size - 1};
    RankedLaws(size, seed);
    KeepFromLaws(ranked, ends, cap);
    assert |ends| == if size == 1 then 1 else 2;
    KeepFromReaches(ranked, ends, cap);
    AscendingCardinality(AllPoints(size));
    assert ToSet(ranked) == ToSet(AllPoints(size));
    assert cap < 2 ==> Keep(size, cap, seed) == ends;
  }

  lemma {:induction false} KeepFromReaches(ranked: seq<nat>, keep: set<nat>, cap: nat)
    ensures |KeepFrom(ranked, keep, cap)| >= cap || |KeepFrom(ranked, keep, cap)| >= |ToSet(ranked)|
  {
    KeepFromLaws(ranked, keep, cap);
    if |KeepFrom(ranked, keep, cap)| < cap {
      SubsetCardinality(ToSet(ranked), KeepFrom(ranked, keep, cap));
    }
  }

  lemma KeepByRank(size: nat, cap: nat, seed: int, i: nat, j: nat)
    requires size > cap
    requires i in Keep(size, cap, seed) && 0 < i < size - 1 && j < size && Rank(seed, j) < Rank(seed, i)
    ensures j in Keep(size, cap, seed)
  {
    hide Rank, Ranked, KeepFrom;
    var ranked := Ranked(size, seed);
    RankedLaws(size, seed);
    KeepHasCount(size, cap, seed);
    assert i in ranked && j in ranked;
    var q :| 0 <= q < |ranked| && ranked[q] == i;
    var p :| 0 <= p < |ranked| && ranked[p] == j;
    KeepFromOrder(ranked, {0, size - 1}, cap, p, q);
  }

  /** Over the cap, the sample is the extremes and the lowest ranks. */
  lemma KeepIsSample(size: nat, cap: nat, seed: int)
    requires size > cap
    ensures IsSample(Keep(size, cap, seed), size, KeptCount(size, cap), seed)
  {
    hide Rank, Keep;
    KeepHasCount(size, cap, seed);
    forall i, j: nat | i in Keep(size, cap, seed) && 0 < i < size - 1 && j < size && Rank(seed, j) < Rank(seed, i)
      ensures j in Keep(size, cap, seed)
    {
      KeepByRank(size, cap, seed, i, j);
    }
  }

  /** Ranks do not tie where the arithmetic is exact, so those conditions leave exactly one sample. */
  lemma SampleIsUnique(a: set<nat>, b: set<nat>, size: nat, count: nat, seed: int)
    requires size > 0 && IsExact(seed, size - 1)
    requires IsSample(a, size, count, seed) && IsSample(b, size, count, seed)
    ensures a == b
  {
    hide Rank, UnitHash;
    if a != b {
      var x := Extra(a, b);
      var y := Extra(b, a);
      RanksDistinct(seed, x, y);
    }
  }

  lemma Extra(a: set<nat>, b: set<nat>) returns (x: nat)
    requires a != b && |a| == |b|
    ensures x in a && x !in b
  {
    if a <= b {
      SubsetCardinality(a, b);
    }
    x :| x in a && x !in b;
  }

  // ---------------------------------------------------------------- the sample of a group

  lemma {:induction false} InOrderLength(s: set<nat>, n: nat)
    requires forall i :: i in s ==> i < n
    ensures |InOrder(s, n)| == |s|
  {
    AscendingCardinality(InOrder(s, n));
    assert ToSet(InOrder(s, n)) == s;
  }

  /** `sample` is the states of `group` at ascending positions. */
  ghost predicate IsSelection(sample: seq<CrashState>, group: seq<CrashState>, positions: seq<nat>) {
    && Ascending(positions) && |positions| == |sample|
    && forall i :: 0 <= i < |sample| ==> positions[i] < |group| && sample[i] == group[positions[i]]
  }

  /** A group's sample is an ordered selection of it, keeping both ends, of exactly the capped size. */
  lemma SampleGroupLaws(group: seq<CrashState>, cap: nat, seed: int)
    requires |group| > 0
    ensures var sample := SampleGroup(group, cap, seed);
            && |sample| == KeptCount(|group|, cap)
            && sample[0] == group[0]
            && sample[|sample| - 1] == group[|group| - 1]
            && (forall st :: st in sample ==> st in group)
            && exists positions: seq<nat> :: IsSelection(sample, group, positions)
  {
    hide SampleGroup, Ascending;
    if |group| <= cap {
      WholeGroup(group, cap, seed);
    } else {
      var positions := OverCap(group, cap, seed);
      assert |group| > cap && KeptCount(|group|, cap) >= 1;
      hide KeptCount;
    }
  }

  lemma WholeGroup(group: seq<CrashState>, cap: nat, seed: int)
    requires |group| <= cap
    ensures SampleGroup(group, cap, seed) == group
    ensures IsSelection(group, group, AllPoints(|group|))
  {}

  lemma OverCap(group: seq<CrashState>, cap: nat, seed: int) returns (positions: seq<nat>)
    requires |group| > cap
    ensures IsSelection(SampleGroup(group, cap, seed), group, positions)
    ensures |positions| == KeptCount(|group|, cap) && |positions| >= 1
    ensures positions[0] == 0 && positions[|positions| - 1] == |group| - 1
  {
    positions := KeptPositions(|group|, cap, seed);
    assert SampleGroup(group, cap, seed) == Pick(group, positions);
    hide *;
    PickSelects(group, positions);
  }

  lemma PickSelects(group: seq<CrashState>, positions: seq<nat>)
    requires Ascending(positions) && forall p :: p in positions ==> p < |group|
    ensures IsSelection(Pick(group, positions), group, positions)
  {
    hide Ascending;
    assert forall i :: 0 <= i < |positions| ==> positions[i] in positions;
  }

  /** Over the cap, the kept positions in order: both ends, and as many as are kept. */
  lemma KeptPositions(size: nat, cap: nat, seed: int) returns (positions: seq<nat>)
    requires size > cap
    ensures positions == InOrder(Keep(size, cap, seed), size)
    ensures Ascending(positions) && |positions| == KeptCount(size, cap) && |positions| >= 1
    ensures forall i :: i in positions ==> i < size
    ensures positions[0] == 0 && positions[|positions| - 1] == size - 1
  {
    KeepIsSample(size, cap, seed);
    hide Keep, Rank;
    var keep := Keep(size, cap, seed);
    positions := InOrder(keep, size);
    InOrderLength(keep, size);
    EndsOfAscending(positions, size);
  }

  lemma EndsOfAscending(s: seq<nat>, n: nat)
    requires n >= 1 && Ascending(s) && (forall i :: i in s ==> i < n) && 0 in s && n - 1 in s
    ensures |s| >= 1 && s[0] == 0 && s[|s| - 1] == n - 1
  {
    assert forall i :: 0 <= i < |s| ==> s[i] in s;
  }

  /** The cap is met exactly unless it is below two and exceeded. */
  lemma CapIsMetIff(group: seq<CrashState>, cap: nat, seed: int)
    ensures |SampleGroup(group, cap, seed)| == (if |group| <= cap then |group| else cap)
       <==> cap >= 2 || |group| <= cap
  {
    if |group| > 0 {
      hide SampleGroup;
      SampleGroupLaws(group, cap, seed);
    }
  }

  // ---------------------------------------------------------------- groups do not interfere

  lemma {:induction false} PointsOfLaws(states: seq<CrashState>)
    ensures NoDuplicates(PointsOf(states))
    ensures forall k: nat :: k in PointsOf(states) <==> GroupOf(states, k) != []
  {
    if states != [] { PointsOfLaws(states[..|states| - 1]); }
  }

  lemma {:induction false} GroupOfAppend(a: seq<CrashState>, b: seq<CrashState>, k: nat)
    ensures GroupOf(a + b, k) == GroupOf(a, k) + GroupOf(b, k)
  {
    if b == [] {
      assert a + b == a;
    } else {
      var front := b[..|b| - 1];
      assert (a + b)[..|a + b| - 1] == a + front;
      GroupOfAppend(a, front, k);
    }
  }

  lemma {:induction false} GroupOfUniform(states: seq<CrashState>, here: nat, k: nat)
    requires forall i :: 0 <= i < |states| ==> states[i].crashPoint == here
    ensures GroupOf(states, k) == if k == here then states else []
  {
    if states != [] { GroupOfUniform(states[..|states| - 1], here, k); }
  }

  lemma {:induction false} GroupMembers(states: seq<CrashState>, k: nat, st: CrashState)
    ensures st in GroupOf(states, k) <==> st in states && st.crashPoint == k
  {
    if states != [] {
      var rest := states[..|states| - 1];
      GroupMembers(rest, k, st);
      assert states == rest + [states[|states| - 1]];
    }
  }

  lemma {:induction false} SampleStaysAtPoint(states: seq<CrashState>, here: nat, cap: nat, seed: int)
    ensures forall i :: 0 <= i < |SampleGroup(GroupOf(states, here), cap, seed)| ==>
              SampleGroup(GroupOf(states, here), cap, seed)[i].crashPoint == here
  {
    var group := GroupOf(states, here);
    var sample := SampleGroup(group, cap, seed);
    if |group| > 0 {
      SampleGroupLaws(group, cap, seed);
      hide SampleGroup;
      forall i | 0 <= i < |sample| ensures sample[i].crashPoint == here {
        assert sample[i] in sample;
        GroupMembers(states, here, sample[i]);
      }
    }
  }

  lemma {:induction false} SampleGroupsAt(states: seq<CrashState>, points: seq<nat>, cap: nat, seed: int, k: nat)
    requires NoDuplicates(points)
    ensures GroupOf(SampleGroups(states, points, cap, seed), k)
         == if k in points then SampleGroup(GroupOf(states, k), cap, PointSeed(seed, k)) else []
  {
    hide SampleGroup, GroupOf;
    if points != [] {
      var rest := points[..|points| - 1];
      var last := points[|points| - 1];
      assert points == rest + [last];
      SampleGroupsAt(states, rest, cap, seed, k);
      var part := SampleGroup(GroupOf(states, last), cap, PointSeed(seed, last));
      SampleStaysAtPoint(states, last, cap, PointSeed(seed, last));
      GroupOfUniform(part, last, k);
      GroupOfAppend(SampleGroups(states, rest, cap, seed), part, k);
    } else {
      EmptyGroup(k);
    }
  }

  lemma {:induction false} EmptyGroup(k: nat)
    ensures GroupOf([], k) == []
  {}

  /** A crash point's sample is a function of that crash point's own states. */
  lemma {:induction false} SampleIsPerPoint(states: seq<CrashState>, cap: nat, seed: int, k: nat)
    ensures GroupOf(Sampled(states, cap, seed), k) == SampleGroup(GroupOf(states, k), cap, PointSeed(seed, k))
  {
    hide GroupOf, PointsOf, SampleGroups, SampleGroup;
    PointsOfLaws(states);
    var points := SortBy(PointsOf(states), Identity);
    DistinctKeysPermute(PointsOf(states), points, Identity);
    SampleGroupsAt(states, points, cap, seed, k);
    if k !in points {
      EmptySample(cap, PointSeed(seed, k));
    }
  }

  ghost predicate ByCrashPoint(states: seq<CrashState>) {
    forall i, j :: 0 <= i < j < |states| ==> states[i].crashPoint <= states[j].crashPoint
  }

  /** Crash points come in ascending order. */
  lemma SampledInOrder(states: seq<CrashState>, cap: nat, seed: int)
    ensures ByCrashPoint(Sampled(states, cap, seed))
  {
    var points := SortBy(PointsOf(states), Identity);
    forall i, j | 0 <= i < j < |points| ensures points[i] <= points[j] {
      assert Identity(points[i]) <= Identity(points[j]);
    }
    hide PointsOf, SampleGroups;
    GroupsInOrder(states, points, cap, seed);
  }

  lemma {:induction false} GroupsInOrder(states: seq<CrashState>, points: seq<nat>, cap: nat, seed: int)
    requires forall i, j :: 0 <= i < j < |points| ==> points[i] <= points[j]
    ensures forall st :: st in SampleGroups(states, points, cap, seed) ==> st.crashPoint in points
    ensures ByCrashPoint(SampleGroups(states, points, cap, seed))
  {
    hide SampleGroup, GroupOf;
    if points != [] {
      var rest, last := points[..|points| - 1], points[|points| - 1];
      assert points == rest + [last];
      GroupsInOrder(states, rest, cap, seed);
      var before := SampleGroups(states, rest, cap, seed);
      var here := SampleGroup(GroupOf(states, last), cap, PointSeed(seed, last));
      SampleStaysAtPoint(states, last, cap, PointSeed(seed, last));
      forall i | 0 <= i < |before| ensures before[i].crashPoint <= last {
        assert before[i] in before;
      }
    }
  }

  /** Sampling invents nothing. */
  lemma SampleIsSubset(states: seq<CrashState>, cap: nat, seed: int, st: CrashState)
    requires st in Sampled(states, cap, seed)
    ensures st in states
  {
    hide Sampled, SampleGroup;
    var k := st.crashPoint;
    GroupMembers(Sampled(states, cap, seed), k, st);
    SampleIsPerPoint(states, cap, seed, k);
    if |GroupOf(states, k)| > 0 {
      SampleGroupLaws(GroupOf(states, k), cap, PointSeed(seed, k));
    } else {
      EmptySample(cap, PointSeed(seed, k));
    }
    GroupMembers(states, k, st);
  }

  lemma EmptySample(cap: nat, seed: int)
    ensures SampleGroup([], cap, seed) == []
  {}
}
