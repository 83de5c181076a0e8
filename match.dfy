/**
 * The round-robin (circle method) scheduler of match.py.
 *
 * The first id stays fixed; the other n-1 ids form a ring that is rotated by
 * one place (last element to the front) after every round. Round k pairs
 * position i of `[fixed] + ring` with position n-1-i.
 *
 * The proofs work on indices: `IdxAt(n, k, c)` is the index into `ids` of
 * whoever stands at position c in round k, and `PosOf(n, k, a)` is the
 * position of `ids[a]`. Two participants meet in round k exactly when their
 * positions add up to n-1, and for even n that happens in exactly one round.
 */
module RoundRobin {

  type Id = string
  type Pair = (Id, Id)
  type Round = seq<Pair>

  /** The unordered pair behind an ordered tuple. */
  function Key(p: Pair): set<Id> {
    {p.0, p.1}
  }

  predicate Distinct(ids: seq<Id>) {
    forall i, j :: 0 <= i < j < |ids| ==> ids[i] != ids[j]
  }

  /** Every pair is made of two different ids of `ids`. */
  predicate PairsWithin(round: Round, ids: seq<Id>) {
    forall i :: 0 <= i < |round| ==> round[i].0 in ids && round[i].1 in ids && round[i].0 != round[i].1
  }

  /** No id is in two pairs of the round. */
  predicate PairsDisjoint(round: Round) {
    forall i, j :: 0 <= i < j < |round| ==> Key(round[i]) !! Key(round[j])
  }

  /** Every id of `ids` is in some pair of the round. */
  predicate CoversAll(round: Round, ids: seq<Id>) {
    forall x :: x in ids ==> exists i :: 0 <= i < |round| && x in Key(round[i])
  }

  /** Every id of `ids` is in exactly one pair of the round, and nobody is paired with themself. */
  predicate IsPerfectMatching(round: Round, ids: seq<Id>) {
    PairsWithin(round, ids) && PairsDisjoint(round) && CoversAll(round, ids)
  }

  // ---------------------------------------------------------------------
  // The rotating ring
  // ---------------------------------------------------------------------

  /** One rotation: the last element moves to the front. The ring stays a permutation. */
  function RotateRight(s: seq<Id>): (r: seq<Id>)
    requires |s| > 0
    ensures |r| == |s|
  {
    [s[|s| - 1]] + s[..|s| - 1]
  }

  /** The ring after k rotations. */
  function Rotated(s: seq<Id>, k: nat): (r: seq<Id>)
    requires |s| > 0
    ensures |r| == |s|
  {
    if k == 0 then s else RotateRight(Rotated(s, k - 1))
  }

  lemma RotatedStep(s: seq<Id>, k: nat)
    requires |s| > 0
    ensures Rotated(s, k + 1) == [Rotated(s, k)[|s| - 1]] + Rotated(s, k)[..|s| - 1]
  {
  }

  /** The ring is always a permutation of `ids[1..]` (match.py:37, 53-54). */
  lemma {:induction false} RotatedIsPermutation(s: seq<Id>, k: nat)
    requires |s| > 0
    ensures multiset(Rotated(s, k)) == multiset(s)
  {
    if k > 0 {
      RotatedIsPermutation(s, k - 1);
      RotateRightIsPermutation(Rotated(s, k - 1));
    }
  }

  lemma RotateRightIsPermutation(t: seq<Id>)
    requires |t| > 0
    ensures multiset(RotateRight(t)) == multiset(t)
  {
    assert t == t[..|t| - 1] + [t[|t| - 1]];
  }

  /** x moved k places forward on a ring of size m (for 0 <= x, k < m). */
  function Fwd(x: int, k: int, m: int): int {
    if x + k < m then x + k else x + k - m
  }

  /** j moved k places backward on a ring of size m (for 0 <= j < m, 0 <= k <= m). */
  function Back(j: int, k: int, m: int): int {
    if j >= k then j - k else j - k + m
  }

  /** After k rotations, ring slot j holds what slot Back(j, k) held at the start. */
  lemma {:induction false} RotatedAt(s: seq<Id>, k: nat, j: int)
    requires |s| > 0 && k <= |s| && 0 <= j < |s|
    ensures Rotated(s, k)[j] == s[Back(j, k, |s|)]
  {
    if k > 0 {
      var t := Rotated(s, k - 1);
      assert Rotated(s, k) == [t[|t| - 1]] + t[..|t| - 1];
      if j == 0 {
        assert Rotated(s, k)[j] == t[|s| - 1];
        RotatedAt(s, k - 1, |s| - 1);
      } else {
        assert Rotated(s, k)[j] == t[j - 1];
        RotatedAt(s, k - 1, j - 1);
      }
    }
  }

  // ---------------------------------------------------------------------
  // Rounds
  // ---------------------------------------------------------------------

  /** The round built from the fixed id and the current ring (match.py:42-48). */
  function RoundOf(fixed: Id, others: seq<Id>): Round {
    var current := [fixed] + others;
    var n := |current|;
    seq(n / 2, i requires 0 <= i < n / 2 => (current[i], current[n - 1 - i]))
  }

  /** Round number r (counting from 0) of the schedule for `ids`. */
  function RoundAt(ids: seq<Id>, r: nat): Round
    requires |ids| >= 2
  {
    RoundOf(ids[0], Rotated(ids[1..], r))
  }

  /** How many rounds are produced: nothing below two ids, requests above n-1 clamped (match.py:24-33, 41). */
  function RoundCount(n: int, numRounds: int): nat {
    if n < 2 then 0
    else if numRounds > n - 1 then n - 1
    else if numRounds < 0 then 0
    else numRounds
  }

  /** The first t rounds of the schedule for `ids`. */
  function FirstRounds(ids: seq<Id>, t: nat): seq<Round>
    requires |ids| >= 2 || t == 0
  {
    seq(t, r requires 0 <= r < t => RoundAt(ids, r))
  }

  /** What `generate_rounds(ids, numRounds)` returns. */
  function Schedule(ids: seq<Id>, numRounds: int): (r: seq<Round>)
    ensures |r| == RoundCount(|ids|, numRounds)
  {
    FirstRounds(ids, RoundCount(|ids|, numRounds))
  }

  lemma FirstRoundsSnoc(ids: seq<Id>, t: nat)
    requires |ids| >= 2
    ensures FirstRounds(ids, t + 1) == FirstRounds(ids, t) + [RoundAt(ids, t)]
  {
  }

  lemma RoundOfPrefix(fixed: Id, others: seq<Id>, i: nat)
    requires i < (|others| + 1) / 2
    ensures RoundOf(fixed, others)[..i + 1] ==
      RoundOf(fixed, others)[..i] + [(([fixed] + others)[i], ([fixed] + others)[|others| - i])]
  {
  }

  /** The inner loop of match.py:42-48: position i sits with position n-1-i. */
  method PairUp(fixed: Id, others: seq<Id>) returns (pairs: Round)
    ensures pairs == RoundOf(fixed, others)
  {
    var current := [fixed] + others;
    var n := |current|;
    pairs := [];
    var i := 0;
    while i < n / 2
      invariant 0 <= i <= n / 2
      invariant pairs == RoundOf(fixed, others)[..i]
    {
      RoundOfPrefix(fixed, others, i);
      pairs := pairs + [(current[i], current[n - 1 - i])];
      i := i + 1;
    }
  }

  /**
   * match.py:14-56. The printed "maximum is ..." notice is returned as `reduced`.
   */
  method GenerateRounds(ids: seq<Id>, numRounds: int) returns (rounds: seq<Round>, reduced: bool)
    ensures rounds == Schedule(ids, numRounds)
    ensures |ids| < 2 ==> rounds == []
    ensures |ids| >= 2 && numRounds > |ids| - 1 ==> |rounds| == |ids| - 1
    ensures |ids| >= 2 && 0 <= numRounds <= |ids| - 1 ==> |rounds| == numRounds
    ensures numRounds <= 0 ==> rounds == []
    ensures reduced <==> |ids| >= 2 && numRounds > |ids| - 1
  {
    var n := |ids|;
    rounds, reduced := [], false;
    if n < 2 {
      return;
    }
    var count := numRounds;
    if count > n - 1 {
      reduced := true;
      count := n - 1;
    }
    var fixed := ids[0];
    var others := ids[1..];
    var t := 0;
    while t < count
      invariant 0 <= t && (t == 0 || t <= count)
      invariant others == Rotated(ids[1..], t)
      invariant rounds == FirstRounds(ids, t)
    {
      var pairs := PairUp(fixed, others);
      assert pairs == RoundAt(ids, t);
      FirstRoundsSnoc(ids, t);
      rounds := rounds + [pairs];
      var last := others[|others| - 1];
      others := [last] + others[..|others| - 1];
      RotatedStep(ids[1..], t);
      t := t + 1;
    }
    assert t == RoundCount(n, numRounds);
  }

  // ---------------------------------------------------------------------
  // Index arithmetic of the circle method
  // ---------------------------------------------------------------------

  /** Index into `ids` of the participant at position c of round k. */
  function IdxAt(n: int, k: int, c: int): int {
    if c == 0 then 0 else 1 + Back(c - 1, k, n - 1)
  }

  /** Position in round k of the participant `ids[a]`. */
  function PosOf(n: int, k: int, a: int): int {
    if a == 0 then 0 else 1 + Fwd(a - 1, k, n - 1)
  }

  /** Position c holds some `ids[a]`, and `ids[a]` stands at position c. */
  lemma IdxPos(n: int, k: int, c: int)
    requires n >= 2 && 0 <= k < n - 1 && 0 <= c < n
    ensures 0 <= IdxAt(n, k, c) < n && PosOf(n, k, IdxAt(n, k, c)) == c
  {
  }

  /** `ids[a]` stands at some position, and that position holds `ids[a]`. */
  lemma PosIdx(n: int, k: int, a: int)
    requires n >= 2 && 0 <= k < n - 1 && 0 <= a < n
    ensures 0 <= PosOf(n, k, a) < n && IdxAt(n, k, PosOf(n, k, a)) == a
  {
  }

  /** Pair i of round r, by indices into `ids`. */
  lemma RoundAtIndices(ids: seq<Id>, r: nat, i: int)
    requires |ids| >= 2 && r < |ids| - 1 && 0 <= i < |ids| / 2
    ensures |RoundAt(ids, r)| == |ids| / 2
    ensures 0 <= IdxAt(|ids|, r, i) < |ids| && 0 <= IdxAt(|ids|, r, |ids| - 1 - i) < |ids|
    ensures RoundAt(ids, r)[i] == (ids[IdxAt(|ids|, r, i)], ids[IdxAt(|ids|, r, |ids| - 1 - i)])
  {
    var n := |ids|;
    var others := Rotated(ids[1..], r);
    if i > 0 {
      RotatedAt(ids[1..], r, i - 1);
    }
    RotatedAt(ids[1..], r, n - 2 - i);
  }

  /** Two different participants meet in at most one round (n even). */
  lemma PairedRoundUnique(n: int, a: int, b: int, r1: int, r2: int)
    requires n >= 2 && n % 2 == 0
    requires 0 <= a < n && 0 <= b < n && a != b
    requires 0 <= r1 < n - 1 && 0 <= r2 < n - 1
    requires PosOf(n, r1, a) + PosOf(n, r1, b) == n - 1
    requires PosOf(n, r2, a) + PosOf(n, r2, b) == n - 1
    ensures r1 == r2
  {
  }

  /** Two different participants meet in some round (n even). */
  lemma PairedRoundExists(n: int, a: int, b: int) returns (r: int)
    requires n >= 2 && n % 2 == 0
    requires 0 <= a < n && 0 <= b < n && a != b
    ensures 0 <= r < n - 1 && PosOf(n, r, a) + PosOf(n, r, b) == n - 1
  {
    var m := n - 1;
    if a == 0 {
      r := m - b;
    } else if b == 0 {
      r := m - a;
    } else {
      var x, y := a - 1, b - 1;
      var s := if x + y <= m - 2 then m - 2 - x - y else 2 * m - 2 - x - y;
      if s % 2 == 0 {
        r := s / 2;
        assert 2 * r == s;
      } else {
        r := (s + m) / 2;
        assert 2 * r == s + m;
      }
    }
  }

  // ---------------------------------------------------------------------
  // Properties of the schedule
  // ---------------------------------------------------------------------

  lemma DistinctIndex(ids: seq<Id>, a: int, b: int)
    requires Distinct(ids) && 0 <= a < |ids| && 0 <= b < |ids|
    ensures ids[a] == ids[b] <==> a == b
  {
    if a < b { assert ids[a] != ids[b]; } else if b < a { assert ids[b] != ids[a]; }
  }

  lemma SameTwoSet<T>(x0: T, x1: T, y0: T, y1: T)
    requires {x0, x1} == {y0, y1}
    ensures (x0 == y0 && x1 == y1) || (x0 == y1 && x1 == y0) || (x0 == x1 && y0 == y1 && x0 == y0)
  {
    assert x0 in {y0, y1} && x1 in {y0, y1} && y0 in {x0, x1} && y1 in {x0, x1};
  }

  /** Pair i of round r holds two different ids of `ids`. */
  lemma RoundPairProper(ids: seq<Id>, r: nat, i: int)
    requires |ids| >= 2 && |ids| % 2 == 0 && Distinct(ids) && r < |ids| - 1 && 0 <= i < |ids| / 2
    ensures RoundAt(ids, r)[i].0 in ids && RoundAt(ids, r)[i].1 in ids
    ensures RoundAt(ids, r)[i].0 != RoundAt(ids, r)[i].1
  {
    var n := |ids|;
    RoundAtIndices(ids, r, i);
    IdxPos(n, r, i);
    IdxPos(n, r, n - 1 - i);
    DistinctIndex(ids, IdxAt(n, r, i), IdxAt(n, r, n - 1 - i));
  }

  /** Two different pairs of one round share no id. */
  lemma RoundPairsDisjoint(ids: seq<Id>, r: nat, i: int, j: int)
    requires |ids| >= 2 && |ids| % 2 == 0 && Distinct(ids) && r < |ids| - 1 && 0 <= i < j < |ids| / 2
    ensures Key(RoundAt(ids, r)[i]) !! Key(RoundAt(ids, r)[j])
  {
    var i0, i1 := TableSeats(ids, r, i);
    var j0, j1 := TableSeats(ids, r, j);
    TablesSeatApart(|ids|, r, i, j);
    DistinctIndex(ids, i0, j0);
    DistinctIndex(ids, i0, j1);
    DistinctIndex(ids, i1, j0);
    DistinctIndex(ids, i1, j1);
    DisjointKeys(RoundAt(ids, r)[i], RoundAt(ids, r)[j]);
  }

  lemma DisjointKeys(x: Pair, y: Pair)
    requires x.0 != y.0 && x.0 != y.1 && x.1 != y.0 && x.1 != y.1
    ensures Key(x) !! Key(y)
  {
  }

  /** Two different tables of a round seat four different participants. */
  lemma TablesSeatApart(n: int, r: int, i: int, j: int)
    requires n >= 2 && 0 <= r < n - 1 && 0 <= i < j < n / 2
    ensures var i0, i1, j0, j1 := IdxAt(n, r, i), IdxAt(n, r, n - 1 - i), IdxAt(n, r, j), IdxAt(n, r, n - 1 - j);
      i0 != j0 && i0 != j1 && i1 != j0 && i1 != j1
  {
    IdxPos(n, r, i);
    IdxPos(n, r, n - 1 - i);
    IdxPos(n, r, j);
    IdxPos(n, r, n - 1 - j);
  }

  /** `ids[a]` is in pair `Slot(n, PosOf(n, r, a))` of round r. */
  function Slot(n: int, c: int): int {
    if c < n / 2 then c else n - 1 - c
  }

  lemma RoundCovers(ids: seq<Id>, r: nat, a: int)
    requires |ids| >= 2 && |ids| % 2 == 0 && r < |ids| - 1 && 0 <= a < |ids|
    ensures 0 <= Slot(|ids|, PosOf(|ids|, r, a)) < |RoundAt(ids, r)|
    ensures ids[a] in Key(RoundAt(ids, r)[Slot(|ids|, PosOf(|ids|, r, a))])
  {
    var n := |ids|;
    PosIdx(n, r, a);
    var i := Slot(n, PosOf(n, r, a));
    RoundAtIndices(ids, r, i);
  }

  lemma RoundPairsProper(ids: seq<Id>, r: nat)
    requires |ids| >= 2 && |ids| % 2 == 0 && Distinct(ids) && r < |ids| - 1
    ensures PairsWithin(RoundAt(ids, r), ids)
  {
    RoundAtIndices(ids, r, 0);
    forall i | 0 <= i < |RoundAt(ids, r)| {
      RoundPairProper(ids, r, i);
    }
  }

  lemma RoundDisjoint(ids: seq<Id>, r: nat)
    requires |ids| >= 2 && |ids| % 2 == 0 && Distinct(ids) && r < |ids| - 1
    ensures PairsDisjoint(RoundAt(ids, r))
  {
    RoundAtIndices(ids, r, 0);
    forall i, j | 0 <= i < j < |RoundAt(ids, r)| {
      RoundPairsDisjoint(ids, r, i, j);
    }
  }

  lemma RoundCoversAll(ids: seq<Id>, r: nat)
    requires |ids| >= 2 && |ids| % 2 == 0 && r < |ids| - 1
    ensures CoversAll(RoundAt(ids, r), ids)
  {
    forall x | x in ids
      ensures exists i :: 0 <= i < |RoundAt(ids, r)| && x in Key(RoundAt(ids, r)[i])
    {
      var a :| 0 <= a < |ids| && ids[a] == x;
      RoundCovers(ids, r, a);
    }
  }

  /** With an even number of distinct ids, every round uses each id exactly once (match.py:19, 42-48). */
  lemma RoundIsPerfectMatching(ids: seq<Id>, r: nat)
    requires |ids| >= 2 && |ids| % 2 == 0 && Distinct(ids) && r < |ids| - 1
    ensures |RoundAt(ids, r)| == |ids| / 2
    ensures IsPerfectMatching(RoundAt(ids, r), ids)
  {
    RoundAtIndices(ids, r, 0);
    RoundPairsProper(ids, r);
    RoundDisjoint(ids, r);
    RoundCoversAll(ids, r);
  }

  /** Two unordered pairs of distinct ids are equal exactly when their index pairs are. */
  lemma SameKeySameIndices(ids: seq<Id>, a1: int, b1: int, a2: int, b2: int)
    requires Distinct(ids) && 0 <= a1 < |ids| && 0 <= b1 < |ids| && 0 <= a2 < |ids| && 0 <= b2 < |ids|
    requires a1 != b1 && {ids[a1], ids[b1]} == {ids[a2], ids[b2]}
    ensures (a1 == a2 && b1 == b2) || (a1 == b2 && b1 == a2)
  {
    DistinctIndex(ids, a1, b1);
    SameTwoSet(ids[a1], ids[b1], ids[a2], ids[b2]);
    DistinctIndex(ids, a1, a2);
    DistinctIndex(ids, a1, b2);
    DistinctIndex(ids, b1, a2);
    DistinctIndex(ids, b1, b2);
  }

  /** Index form of `SlotUnique`. */
  lemma SlotUniqueIdx(n: int, r1: int, i1: int, r2: int, i2: int, a1: int, b1: int, a2: int, b2: int)
    requires n >= 2 && n % 2 == 0
    requires 0 <= r1 < n - 1 && 0 <= r2 < n - 1 && 0 <= i1 < n / 2 && 0 <= i2 < n / 2
    requires a1 == IdxAt(n, r1, i1) && b1 == IdxAt(n, r1, n - 1 - i1)
    requires a2 == IdxAt(n, r2, i2) && b2 == IdxAt(n, r2, n - 1 - i2)
    requires (a1 == a2 && b1 == b2) || (a1 == b2 && b1 == a2)
    ensures r1 == r2 && i1 == i2
  {
    IdxPos(n, r1, i1);
    IdxPos(n, r1, n - 1 - i1);
    IdxPos(n, r2, i2);
    IdxPos(n, r2, n - 1 - i2);
    assert PosOf(n, r1, a1) == i1 && PosOf(n, r1, b1) == n - 1 - i1;
    if a1 == a2 {
      assert PosOf(n, r2, a1) == i2 && PosOf(n, r2, b1) == n - 1 - i2;
      PairedRoundUnique(n, a1, b1, r1, r2);
    } else {
      assert PosOf(n, r2, a1) == n - 1 - i2 && PosOf(n, r2, b1) == i2;
      PairedRoundUnique(n, a1, b1, r1, r2);
    }
  }

  /** The pairs at two places of the schedule are the same unordered pair only if the places coincide. */
  lemma SlotUnique(ids: seq<Id>, r1: nat, i1: int, r2: nat, i2: int)
    requires |ids| >= 2 && |ids| % 2 == 0 && Distinct(ids)
    requires r1 < |ids| - 1 && r2 < |ids| - 1 && 0 <= i1 < |ids| / 2 && 0 <= i2 < |ids| / 2
    requires Key(RoundAt(ids, r1)[i1]) == Key(RoundAt(ids, r2)[i2])
    ensures r1 == r2 && i1 == i2
  {
    var a1, b1 := TableSeats(ids, r1, i1);
    var a2, b2 := TableSeats(ids, r2, i2);
    SameKeyPairs(ids, RoundAt(ids, r1)[i1], RoundAt(ids, r2)[i2], a1, b1, a2, b2);
    SlotUniqueIdx(|ids|, r1, i1, r2, i2, a1, b1, a2, b2);
  }

  /** The indices into `ids` of the two participants at table i of round r. */
  lemma TableSeats(ids: seq<Id>, r: nat, i: int) returns (a: int, b: int)
    requires |ids| >= 2 && r < |ids| - 1 && 0 <= i < |ids| / 2
    ensures a == IdxAt(|ids|, r, i) && b == IdxAt(|ids|, r, |ids| - 1 - i)
    ensures 0 <= a < |ids| && 0 <= b < |ids| && a != b
    ensures |RoundAt(ids, r)| == |ids| / 2 && RoundAt(ids, r)[i] == (ids[a], ids[b])
  {
    RoundAtIndices(ids, r, i);
    TableIndicesDiffer(|ids|, r, i);
    a, b := IdxAt(|ids|, r, i), IdxAt(|ids|, r, |ids| - 1 - i);
  }

  /** Pairs of distinct ids with the same key are seated at the same two indices. */
  lemma SameKeyPairs(ids: seq<Id>, x: Pair, y: Pair, a1: int, b1: int, a2: int, b2: int)
    requires Distinct(ids) && 0 <= a1 < |ids| && 0 <= b1 < |ids| && 0 <= a2 < |ids| && 0 <= b2 < |ids| && a1 != b1
    requires x == (ids[a1], ids[b1]) && y == (ids[a2], ids[b2]) && Key(x) == Key(y)
    ensures (a1 == a2 && b1 == b2) || (a1 == b2 && b1 == a2)
  {
    SameKeySameIndices(ids, a1, b1, a2, b2);
  }

  /** The two seats of a table hold different participants. */
  lemma TableIndicesDiffer(n: int, r: int, i: int)
    requires n >= 2 && 0 <= r < n - 1 && 0 <= i < n / 2
    ensures IdxAt(n, r, i) != IdxAt(n, r, n - 1 - i)
  {
    IdxPos(n, r, i);
    IdxPos(n, r, n - 1 - i);
  }

  /**
   * Over the full n-1 rounds, every unordered pair of different ids occurs,
   * and no unordered pair occurs at two places (match.py:16-22, 41-54).
   */
  lemma ScheduleCoversEveryPairOnce(ids: seq<Id>)
    requires |ids| >= 2 && |ids| % 2 == 0 && Distinct(ids)
    ensures var s := Schedule(ids, |ids| - 1);
      && |s| == |ids| - 1
      && (forall r :: 0 <= r < |s| ==> |s[r]| == |ids| / 2)
      && (forall u, v :: u in ids && v in ids && u != v ==>
            exists r, i :: 0 <= r < |s| && 0 <= i < |s[r]| && Key(s[r][i]) == {u, v})
      && (forall r1, i1, r2, i2 ::
            (0 <= r1 < |s| && 0 <= i1 < |s[r1]| && 0 <= r2 < |s| && 0 <= i2 < |s[r2]| &&
             Key(s[r1][i1]) == Key(s[r2][i2])) ==> r1 == r2 && i1 == i2)
  {
    var n, s := |ids|, Schedule(ids, |ids| - 1);
    forall r | 0 <= r < |s| ensures |s[r]| == n / 2 {
      RoundAtIndices(ids, r, 0);
    }
    forall u, v | u in ids && v in ids && u != v
      ensures exists r, i :: 0 <= r < |s| && 0 <= i < |s[r]| && Key(s[r][i]) == {u, v}
    {
      var a :| 0 <= a < n && ids[a] == u;
      var b :| 0 <= b < n && ids[b] == v;
      ScheduleMeets(ids, a, b);
    }
    forall r1, i1, r2, i2 |
      0 <= r1 < |s| && 0 <= i1 < |s[r1]| && 0 <= r2 < |s| && 0 <= i2 < |s[r2]| &&
      Key(s[r1][i1]) == Key(s[r2][i2])
      ensures r1 == r2 && i1 == i2
    {
      ScheduleOnce(ids, r1, i1, r2, i2);
    }
  }

  /** ids[a] and ids[b] share a table in some round of the full schedule. */
  lemma ScheduleMeets(ids: seq<Id>, a: int, b: int)
    requires |ids| >= 2 && |ids| % 2 == 0 && Distinct(ids)
    requires 0 <= a < |ids| && 0 <= b < |ids| && a != b
    ensures var s := Schedule(ids, |ids| - 1);
      exists r, i :: 0 <= r < |s| && 0 <= i < |s[r]| && Key(s[r][i]) == {ids[a], ids[b]}
  {
    var n, s := |ids|, Schedule(ids, |ids| - 1);
    var r := PairedRoundExists(n, a, b);
    PosIdx(n, r, a);
    PosIdx(n, r, b);
    var i := Slot(n, PosOf(n, r, a));
    RoundAtIndices(ids, r, i);
    assert Key(s[r][i]) == {ids[a], ids[b]};
  }

  /** Two tables of the full schedule with the same pair are the same table. */
  lemma ScheduleOnce(ids: seq<Id>, r1: int, i1: int, r2: int, i2: int)
    requires |ids| >= 2 && |ids| % 2 == 0 && Distinct(ids)
    requires var s := Schedule(ids, |ids| - 1);
      0 <= r1 < |s| && 0 <= i1 < |s[r1]| && 0 <= r2 < |s| && 0 <= i2 < |s[r2]| &&
      Key(s[r1][i1]) == Key(s[r2][i2])
    ensures r1 == r2 && i1 == i2
  {
    RoundAtIndices(ids, r1, 0);
    RoundAtIndices(ids, r2, 0);
    SlotUnique(ids, r1, i1, r2, i2);
  }

  /** Every round has n/2 pairs and the first id of the input opens every round (match.py:36, 42-48). */
  lemma ScheduleShape(ids: seq<Id>, numRounds: int)
    ensures var s := Schedule(ids, numRounds);
      forall r :: 0 <= r < |s| ==> |s[r]| == |ids| / 2 && s[r][0].0 == ids[0]
  {
    var s: seq<Round> := Schedule(ids, numRounds);
    forall r: int | 0 <= r < |s| ensures |s[r]| == |ids| / 2 && s[r][0].0 == ids[0] {
      RoundAtIndices(ids, r, 0);
    }
  }

  /** A shorter request gives a prefix of a longer one (match.py:41-54). */
  lemma SchedulePrefix(ids: seq<Id>, r1: int, r2: int)
    requires r1 <= r2
    ensures |Schedule(ids, r1)| <= |Schedule(ids, r2)|
    ensures Schedule(ids, r1) == Schedule(ids, r2)[..|Schedule(ids, r1)|]
  {
  }

  /** The four-player schedule worked out by hand. */
  lemma FourPlayers(a: Id, b: Id, c: Id, d: Id)
    ensures Schedule([a, b, c, d], 3) == [[(a, d), (b, c)], [(a, c), (d, b)], [(a, b), (c, d)]]
  {
    var ids := [a, b, c, d];
    assert ids[1..] == [b, c, d];
    assert Rotated([b, c, d], 1) == [d, b, c];
    assert Rotated([b, c, d], 2) == [c, d, b];
    assert RoundAt(ids, 0) == [(a, d), (b, c)];
    assert RoundAt(ids, 1) == [(a, c), (d, b)];
    assert RoundAt(ids, 2) == [(a, b), (c, d)];
  }
}
