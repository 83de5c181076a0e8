/**
 * The history-aware greedy matcher of mbti_match.py.
 *
 * A round is built by scoring every pair of people not already met
 * (`past`), sorting the candidates by descending score with a stable sort,
 * and walking them greedily: a pair is taken when neither person is used
 * yet. The driver repeats this, folding each round into the history, and
 * stops early at the first round that produces no pair.
 *
 * Codes are opaque strings here: nothing assumes they are real MBTI types.
 */
module SimilarityMatcher {

  import opened Text

  type Id = string

  /** mbti_match.py:21-24. */
  datatype Person = Person(pid: Id, mbti: string)

  type Pair = (Person, Person)

  /** One `(similarity_score, person_a, person_b)` tuple. */
  datatype Candidate = Candidate(score: int, p1: Person, p2: Person)

  /** The history: unordered id pairs already used in this run. */
  type PastPairs = set<set<Id>>

  function PairKey(p: Pair): set<Id> {
    {p.0.pid, p.1.pid}
  }

  /** Every id of the pairs. */
  function PidsOf(ps: seq<Pair>): set<Id> {
    if ps == [] then {} else PairKey(ps[0]) + PidsOf(ps[1..])
  }

  /** No id occurs in two pairs. */
  predicate DisjointPairs(ps: seq<Pair>) {
    forall t, u :: 0 <= t < u < |ps| ==> PairKey(ps[t]) !! PairKey(ps[u])
  }

  /** The id set of each pair. */
  function PairKeys(ps: seq<Pair>): set<set<Id>> {
    set t | 0 <= t < |ps| :: PairKey(ps[t])
  }

  /** The id pair of every two positions i < j of the roster. */
  function RosterKeys(people: seq<Person>): set<set<Id>> {
    set i, j | 0 <= i < j < |people| :: {people[i].pid, people[j].pid}
  }

  predicate DistinctPids(people: seq<Person>) {
    forall i, j :: 0 <= i < j < |people| ==> people[i].pid != people[j].pid
  }

  // ---------------------------------------------------------------------
  // mbti_similarity
  // ---------------------------------------------------------------------

  /** `(code or "").upper().strip()` (mbti_match.py:40-41). */
  function Normalize(code: string): string {
    Strip(Upper(code))
  }

  /** How many positions two equally long codes agree on. */
  function Agreements(a: string, b: string): (r: nat)
    requires |a| == |b|
    ensures r <= |a|
  {
    if a == [] then 0
    else Agreements(a[..|a| - 1], b[..|b| - 1]) + (if a[|a| - 1] == b[|b| - 1] then 1 else 0)
  }

  /** The value `mbti_similarity(a, b)` returns. */
  function SimilarityScore(a: string, b: string): nat {
    var x, y := Normalize(a), Normalize(b);
    if |x| != 4 || |y| != 4 then 0 else Agreements(x, y)
  }

  /** mbti_match.py:35-49. */
  method Similarity(a: string, b: string) returns (score: nat)
    ensures score == SimilarityScore(a, b)
    ensures score <= 4
    ensures |Normalize(a)| != 4 || |Normalize(b)| != 4 ==> score == 0
  {
    var x := Normalize(a);
    var y := Normalize(b);
    if |x| != 4 || |y| != 4 {
      return 0;
    }
    score := 0;
    var i := 0;
    while i < 4
      invariant 0 <= i <= 4
      invariant score == Agreements(x[..i], y[..i])
    {
      AgreementsStep(x, y, i);
      if x[i] == y[i] {
        score := score + 1;
      }
      i := i + 1;
    }
    assert x[..4] == x && y[..4] == y;
  }

  /** Extending both prefixes by one position adds one agreement or none. */
  lemma AgreementsStep(x: string, y: string, i: nat)
    requires |x| == |y| && i < |x|
    ensures Agreements(x[..i + 1], y[..i + 1]) == Agreements(x[..i], y[..i]) + (if x[i] == y[i] then 1 else 0)
  {
    assert x[..i + 1][..i] == x[..i] && y[..i + 1][..i] == y[..i];
  }

  /** The positions two equally long codes agree on. */
  function AgreeAt(a: string, b: string): set<nat>
    requires |a| == |b|
  {
    set i: nat | i < |a| && a[i] == b[i]
  }

  /** `Agreements` counts exactly the agreeing positions. */
  lemma {:induction false} AgreementsCount(a: string, b: string)
    requires |a| == |b|
    ensures Agreements(a, b) == |AgreeAt(a, b)|
  {
    if a != [] {
      var n := |a| - 1;
      AgreementsCount(a[..n], b[..n]);
      var prev := AgreeAt(a[..n], b[..n]);
      if a[n] == b[n] {
        assert AgreeAt(a, b) == prev + {n};
      } else {
        assert AgreeAt(a, b) == prev;
      }
    } else {
      assert AgreeAt(a, b) == {};
    }
  }

  lemma {:induction false} AgreementsSymmetric(a: string, b: string)
    requires |a| == |b|
    ensures Agreements(a, b) == Agreements(b, a)
  {
    if a != [] {
      AgreementsSymmetric(a[..|a| - 1], b[..|b| - 1]);
    }
  }

  lemma {:induction false} AgreementsSelf(a: string)
    ensures Agreements(a, a) == |a|
  {
    if a != [] {
      AgreementsSelf(a[..|a| - 1]);
    }
  }

  /** The score does not depend on the order of its arguments. */
  lemma SimilaritySymmetric(a: string, b: string)
    ensures SimilarityScore(a, b) == SimilarityScore(b, a)
  {
    var x, y := Normalize(a), Normalize(b);
    if |x| == 4 && |y| == 4 {
      AgreementsSymmetric(x, y);
    }
  }

  /** A well-formed code agrees with itself everywhere. */
  lemma SimilarityIdentical(a: string)
    requires |Normalize(a)| == 4
    ensures SimilarityScore(a, a) == 4
  {
    AgreementsSelf(Normalize(a));
  }

  /**
   * Two four-letter codes (after normalising) score the number of positions
   * they share; without four letters on both sides the score is 0.
   */
  lemma SimilarityCountsSharedPositions(a: string, b: string)
    ensures |Normalize(a)| == 4 && |Normalize(b)| == 4 ==>
      SimilarityScore(a, b) == |AgreeAt(Normalize(a), Normalize(b))|
    ensures |Normalize(a)| != 4 || |Normalize(b)| != 4 ==> SimilarityScore(a, b) == 0
  {
    if |Normalize(a)| == 4 && |Normalize(b)| == 4 {
      AgreementsCount(Normalize(a), Normalize(b));
    }
  }

  /** Letter case does not matter: lower-casing a code leaves every score unchanged. */
  lemma SimilarityIgnoresCase(a: string, b: string)
    ensures SimilarityScore(Lower(a), b) == SimilarityScore(a, b)
  {
    assert Upper(Lower(a)) == Upper(a);
  }

  /** Whitespace around a code does not matter. */
  lemma SimilarityIgnoresPadding(pre: string, a: string, post: string, b: string)
    requires AllSpace(pre) && AllSpace(post)
    ensures SimilarityScore(pre + a + post, b) == SimilarityScore(a, b)
  {
    assert Upper(pre + a + post) == Upper(pre) + Upper(a) + Upper(post);
    assert AllSpace(Upper(pre)) && AllSpace(Upper(post)) by {
      UpperKeepsSpace(pre);
      UpperKeepsSpace(post);
    }
    StripPadded(Upper(pre), Upper(a), Upper(post));
  }

  lemma UpperKeepsSpace(s: string)
    requires AllSpace(s)
    ensures AllSpace(Upper(s))
  {
    forall i | 0 <= i < |s| ensures IsSpace(Upper(s)[i]) {
      assert IsSpace(s[i]);
    }
  }

  // ---------------------------------------------------------------------
  // generate_candidate_pairs
  // ---------------------------------------------------------------------

  /** The pair of people i and j has not been used yet (mbti_match.py:71-73). */
  predicate Allowed(people: seq<Person>, past: PastPairs, i: int, j: int)
    requires 0 <= i < |people| && 0 <= j < |people|
  {
    {people[i].pid, people[j].pid} !in past
  }

  function CandidateOf(people: seq<Person>, i: int, j: int): Candidate
    requires 0 <= i < |people| && 0 <= j < |people|
  {
    Candidate(SimilarityScore(people[i].mbti, people[j].mbti), people[i], people[j])
  }

  /** The candidates of row i with partners i+1 .. j-1, in enumeration order. */
  function RowUpTo(people: seq<Person>, past: PastPairs, i: int, j: int): seq<Candidate>
    requires 0 <= i < |people| && i + 1 <= j <= |people|
    decreases j
  {
    if j == i + 1 then []
    else RowUpTo(people, past, i, j - 1) + (if Allowed(people, past, i, j - 1) then [CandidateOf(people, i, j - 1)] else [])
  }

  /** The candidates of rows 0 .. i-1, in enumeration order. */
  function RowsUpTo(people: seq<Person>, past: PastPairs, i: int): seq<Candidate>
    requires 0 <= i <= |people|
  {
    if i == 0 then [] else RowsUpTo(people, past, i - 1) + RowUpTo(people, past, i - 1, |people|)
  }

  /** The list filled by the nested loops, before sorting (mbti_match.py:67-76). */
  function Enumerated(people: seq<Person>, past: PastPairs): seq<Candidate> {
    RowsUpTo(people, past, |people|)
  }

  predicate NonIncreasing(cs: seq<Candidate>) {
    forall i, j :: 0 <= i < j < |cs| ==> cs[i].score >= cs[j].score
  }

  /** The candidates of score s, in their order. */
  function WithScore(cs: seq<Candidate>, s: int): seq<Candidate> {
    if cs == [] then []
    else (if cs[0].score == s then [cs[0]] else []) + WithScore(cs[1..], s)
  }

  /** Inserts c after every candidate whose score is at least c's. */
  function Insert(sorted: seq<Candidate>, c: Candidate): seq<Candidate> {
    if sorted == [] then [c]
    else if sorted[0].score >= c.score then [sorted[0]] + Insert(sorted[1..], c)
    else [c] + sorted
  }

  /**
   * `list.sort(key=score, reverse=True)`: Python's sort is stable, also in
   * reverse, so candidates of equal score keep their enumeration order.
   */
  function SortByScoreDesc(cs: seq<Candidate>): seq<Candidate> {
    if cs == [] then [] else Insert(SortByScoreDesc(cs[..|cs| - 1]), cs[|cs| - 1])
  }

  /**
   * The sort orders by descending score, loses and adds nothing, and is
   * stable: the candidates of each score keep their relative order.
   */
  lemma SortByScoreDescSpec(cs: seq<Candidate>)
    ensures NonIncreasing(SortByScoreDesc(cs))
    ensures multiset(SortByScoreDesc(cs)) == multiset(cs)
    ensures forall s :: WithScore(SortByScoreDesc(cs), s) == WithScore(cs, s)
  {
    SortSorted(cs);
    SortPermutes(cs);
    forall s ensures WithScore(SortByScoreDesc(cs), s) == WithScore(cs, s) {
      SortStable(cs, s);
    }
  }

  lemma {:induction false} SortSorted(cs: seq<Candidate>)
    ensures NonIncreasing(SortByScoreDesc(cs))
  {
    if cs != [] {
      SortSorted(cs[..|cs| - 1]);
      InsertSorted(SortByScoreDesc(cs[..|cs| - 1]), cs[|cs| - 1]);
    }
  }

  lemma {:induction false} SortPermutes(cs: seq<Candidate>)
    ensures multiset(SortByScoreDesc(cs)) == multiset(cs)
  {
    if cs != [] {
      var init, last := cs[..|cs| - 1], cs[|cs| - 1];
      SortPermutes(init);
      InsertMultiset(SortByScoreDesc(init), last);
      assert cs == init + [last];
    }
  }

  lemma {:induction false} SortStable(cs: seq<Candidate>, s: int)
    ensures WithScore(SortByScoreDesc(cs), s) == WithScore(cs, s)
  {
    if cs != [] {
      var init, last := cs[..|cs| - 1], cs[|cs| - 1];
      SortStable(init, s);
      SortSorted(init);
      InsertWithScore(SortByScoreDesc(init), last, s);
      WithScoreAppend(init, [last], s);
      assert WithScore([last], s) == if last.score == s then [last] else [];
      assert init + [last] == cs;
    }
  }

  lemma {:induction false} WithScoreAppend(a: seq<Candidate>, b: seq<Candidate>, s: int)
    ensures WithScore(a + b, s) == WithScore(a, s) + WithScore(b, s)
  {
    if a != [] {
      assert (a + b)[1..] == a[1..] + b;
      WithScoreAppend(a[1..], b, s);
    } else {
      assert a + b == b;
    }
  }

  /** Inserting into a sorted list keeps it sorted. */
  lemma {:induction false} InsertSorted(sorted: seq<Candidate>, c: Candidate)
    requires NonIncreasing(sorted)
    ensures NonIncreasing(Insert(sorted, c))
  {
    if sorted != [] && sorted[0].score >= c.score {
      var r, rest := Insert(sorted, c), Insert(sorted[1..], c);
      InsertSorted(sorted[1..], c);
      InsertMultiset(sorted[1..], c);
      forall j | 0 < j < |r| ensures r[0].score >= r[j].score {
        assert r[j] == rest[j - 1];
        assert rest[j - 1] in multiset(sorted[1..]) + multiset{c};
        if rest[j - 1] != c {
          var k :| 0 <= k < |sorted[1..]| && sorted[1..][k] == rest[j - 1];
          assert sorted[k + 1] == r[j];
        }
      }
    }
  }

  /** Inserting adds exactly c. */
  lemma {:induction false} InsertMultiset(sorted: seq<Candidate>, c: Candidate)
    ensures multiset(Insert(sorted, c)) == multiset(sorted) + multiset{c}
  {
    if sorted != [] && sorted[0].score >= c.score {
      InsertMultiset(sorted[1..], c);
      assert sorted == [sorted[0]] + sorted[1..];
    }
  }

  /** c lands after every candidate of its own score. */
  lemma {:induction false} InsertWithScore(sorted: seq<Candidate>, c: Candidate, s: int)
    requires NonIncreasing(sorted)
    ensures WithScore(Insert(sorted, c), s) == WithScore(sorted, s) + (if c.score == s then [c] else [])
  {
    var mine := if c.score == s then [c] else [];
    if sorted == [] {
      assert WithScore([c], s) == mine + WithScore([], s);
    } else if sorted[0].score >= c.score {
      var head := if sorted[0].score == s then [sorted[0]] else [];
      var r := [sorted[0]] + Insert(sorted[1..], c);
      assert r[0] == sorted[0] && r[1..] == Insert(sorted[1..], c);
      assert WithScore(r, s) == head + WithScore(Insert(sorted[1..], c), s);
      assert NonIncreasing(sorted[1..]);
      InsertWithScore(sorted[1..], c, s);
      assert WithScore(sorted, s) == head + WithScore(sorted[1..], s);
    } else {
      var r := [c] + sorted;
      assert r[0] == c && r[1..] == sorted;
      assert WithScore(r, s) == mine + WithScore(sorted, s);
      if c.score == s {
        NoneWithScore(sorted, s);
      }
    }
  }

  /** A sorted list whose head scores below s holds nothing of score s. */
  lemma {:induction false} NoneWithScore(sorted: seq<Candidate>, s: int)
    requires NonIncreasing(sorted) && (sorted == [] || sorted[0].score < s)
    ensures WithScore(sorted, s) == []
  {
    if sorted != [] {
      assert NonIncreasing(sorted[1..]);
      if |sorted| > 1 { assert sorted[1].score <= sorted[0].score; }
      NoneWithScore(sorted[1..], s);
    }
  }

  /** What `generate_candidate_pairs(people, past)` returns. */
  function Candidates(people: seq<Person>, past: PastPairs): seq<Candidate> {
    SortByScoreDesc(Enumerated(people, past))
  }

  /** mbti_match.py:52-80. */
  method GenerateCandidatePairs(people: seq<Person>, past: PastPairs) returns (candidates: seq<Candidate>)
    ensures candidates == Candidates(people, past)
  {
    candidates := [];
    var n := |people|;
    for i := 0 to n
      invariant candidates == RowsUpTo(people, past, i)
    {
      for j := i + 1 to n
        invariant candidates == RowsUpTo(people, past, i) + RowUpTo(people, past, i, j)
      {
        var p1, p2 := people[i], people[j];
        var key := {p1.pid, p2.pid};
        if key in past {
          continue;
        }
        var score := Similarity(p1.mbti, p2.mbti);
        candidates := candidates + [Candidate(score, p1, p2)];
      }
    }
    candidates := SortByScoreDesc(candidates);
  }

  /** A not-yet-used pair of positions i < j. */
  predicate IsCandidate(people: seq<Person>, past: PastPairs, c: Candidate) {
    exists i, j :: 0 <= i < j < |people| && Allowed(people, past, i, j) && c == CandidateOf(people, i, j)
  }

  /** A candidate of row i comes from an allowed pair (i, k). */
  lemma {:induction false} RowFrom(people: seq<Person>, past: PastPairs, i: int, j: int, c: Candidate)
    requires 0 <= i < |people| && i + 1 <= j <= |people|
    requires c in RowUpTo(people, past, i, j)
    ensures exists k :: i < k < j && Allowed(people, past, i, k) && c == CandidateOf(people, i, k)
    decreases j
  {
    if c in RowUpTo(people, past, i, j - 1) {
      RowFrom(people, past, i, j - 1, c);
      var k :| i < k < j - 1 && Allowed(people, past, i, k) && c == CandidateOf(people, i, k);
      assert i < k < j;
    } else {
      assert Allowed(people, past, i, j - 1) && c == CandidateOf(people, i, j - 1);
    }
  }

  /** Every allowed pair (i, k) with k < j is a candidate of row i. */
  lemma {:induction false} RowHas(people: seq<Person>, past: PastPairs, i: int, j: int, k: int)
    requires 0 <= i < k < j <= |people| && Allowed(people, past, i, k)
    ensures CandidateOf(people, i, k) in RowUpTo(people, past, i, j)
    decreases j
  {
    if k < j - 1 {
      RowHas(people, past, i, j - 1, k);
    }
  }

  /** A candidate of the first i rows comes from an allowed pair (a, b) with a < i. */
  lemma {:induction false} RowsFrom(people: seq<Person>, past: PastPairs, i: int, c: Candidate)
    requires 0 <= i <= |people| && c in RowsUpTo(people, past, i)
    ensures exists a, b :: 0 <= a < i && a < b < |people| && Allowed(people, past, a, b) && c == CandidateOf(people, a, b)
  {
    if c in RowsUpTo(people, past, i - 1) {
      RowsFrom(people, past, i - 1, c);
      var a, b :| 0 <= a < i - 1 && a < b < |people| && Allowed(people, past, a, b) && c == CandidateOf(people, a, b);
      assert 0 <= a < i;
    } else {
      RowFrom(people, past, i - 1, |people|, c);
      var k :| i - 1 < k < |people| && Allowed(people, past, i - 1, k) && c == CandidateOf(people, i - 1, k);
      assert 0 <= i - 1 < i;
    }
  }

  /** Every allowed pair (a, b) with a < i is a candidate of the first i rows. */
  lemma {:induction false} RowsHas(people: seq<Person>, past: PastPairs, i: int, a: int, b: int)
    requires 0 <= a < i <= |people| && a < b < |people| && Allowed(people, past, a, b)
    ensures CandidateOf(people, a, b) in RowsUpTo(people, past, i)
  {
    if a < i - 1 {
      RowsHas(people, past, i - 1, a, b);
      RowsGrow(people, past, i, CandidateOf(people, a, b));
    } else {
      LastRowHas(people, past, a, b);
    }
  }

  /** Every allowed pair (a, b) is a candidate of the first a+1 rows. */
  lemma LastRowHas(people: seq<Person>, past: PastPairs, a: int, b: int)
    requires 0 <= a < b < |people| && Allowed(people, past, a, b)
    ensures CandidateOf(people, a, b) in RowsUpTo(people, past, a + 1)
  {
    var row := RowUpTo(people, past, a, |people|);
    RowHas(people, past, a, |people|, b);
    assert RowsUpTo(people, past, a + 1) == RowsUpTo(people, past, a) + row;
    InRight(RowsUpTo(people, past, a), row, CandidateOf(people, a, b));
  }

  /** The first i rows hold the first i-1 rows and row i-1. */
  lemma RowsGrow(people: seq<Person>, past: PastPairs, i: int, c: Candidate)
    requires 0 < i <= |people|
    requires c in RowsUpTo(people, past, i - 1) || c in RowUpTo(people, past, i - 1, |people|)
    ensures c in RowsUpTo(people, past, i)
  {
    var init, last := RowsUpTo(people, past, i - 1), RowUpTo(people, past, i - 1, |people|);
    assert RowsUpTo(people, past, i) == init + last;
    if c in init {
      InLeft(init, last, c);
    } else {
      InRight(init, last, c);
    }
  }

  lemma InLeft<T>(xs: seq<T>, ys: seq<T>, x: T)
    requires x in xs
    ensures x in xs + ys
  {
    var k :| 0 <= k < |xs| && xs[k] == x;
    assert (xs + ys)[k] == x;
  }

  lemma InRight<T>(xs: seq<T>, ys: seq<T>, y: T)
    requires y in ys
    ensures y in xs + ys
  {
    var k :| 0 <= k < |ys| && ys[k] == y;
    assert (xs + ys)[|xs| + k] == y;
  }

  /**
   * `generate_candidate_pairs` lists exactly the pairs of positions i < j
   * whose id pair is not in the history, each with its similarity score,
   * most similar first, and pairs of equal score in enumeration order.
   */
  lemma CandidatesSpec(people: seq<Person>, past: PastPairs)
    ensures forall c :: c in Candidates(people, past) <==> IsCandidate(people, past, c)
    ensures NonIncreasing(Candidates(people, past))
    ensures forall s :: WithScore(Candidates(people, past), s) == WithScore(Enumerated(people, past), s)
  {
    SortByScoreDescSpec(Enumerated(people, past));
    forall c ensures c in Candidates(people, past) <==> IsCandidate(people, past, c) {
      assert c in Candidates(people, past) <==> c in multiset(Candidates(people, past));
      if c in Enumerated(people, past) {
        RowsFrom(people, past, |people|, c);
      }
      if IsCandidate(people, past, c) {
        var i, j :| 0 <= i < j < |people| && Allowed(people, past, i, j) && c == CandidateOf(people, i, j);
        RowsHas(people, past, |people|, i, j);
      }
    }
  }

  // ---------------------------------------------------------------------
  // build_round
  // ---------------------------------------------------------------------

  /**
   * The greedy walk over `cs`, starting with the ids in `used` taken:
   * the pairs it accepts and the ids used at the end (mbti_match.py:103-113).
   */
  function Greedy(cs: seq<Candidate>, used: set<Id>): (seq<Pair>, set<Id>) {
    if cs == [] then ([], used)
    else
      var c := cs[0];
      if c.p1.pid in used || c.p2.pid in used then Greedy(cs[1..], used)
      else
        var rest := Greedy(cs[1..], used + {c.p1.pid, c.p2.pid});
        ([(c.p1, c.p2)] + rest.0, rest.1)
  }

  /** The people whose id is not in `used`, in input order (mbti_match.py:115). */
  function Leftovers(people: seq<Person>, used: set<Id>): seq<Person> {
    if people == [] then []
    else (if people[0].pid in used then [] else [people[0]]) + Leftovers(people[1..], used)
  }

  lemma {:induction false} PidsOfHolds(ps: seq<Pair>, t: int)
    requires 0 <= t < |ps|
    ensures PairKey(ps[t]) <= PidsOf(ps)
  {
    if t > 0 {
      PidsOfHolds(ps[1..], t - 1);
    }
  }

  /** The walk ends with the ids it started with plus the ids of the pairs it took. */
  lemma {:induction false} GreedyUsed(cs: seq<Candidate>, used: set<Id>)
    ensures Greedy(cs, used).1 == used + PidsOf(Greedy(cs, used).0)
  {
    if cs != [] {
      var c := cs[0];
      if c.p1.pid in used || c.p2.pid in used {
        GreedyUsed(cs[1..], used);
      } else {
        GreedyUsed(cs[1..], used + {c.p1.pid, c.p2.pid});
        var ps := Greedy(cs, used).0;
        assert ps[1..] == Greedy(cs[1..], used + {c.p1.pid, c.p2.pid}).0;
      }
    }
  }

  /** The pairs taken avoid the ids already used and share no id with each other. */
  lemma {:induction false} GreedyDisjoint(cs: seq<Candidate>, used: set<Id>)
    ensures forall t :: 0 <= t < |Greedy(cs, used).0| ==> PairKey(Greedy(cs, used).0[t]) !! used
    ensures DisjointPairs(Greedy(cs, used).0)
  {
    if cs != [] {
      var c := cs[0];
      if c.p1.pid in used || c.p2.pid in used {
        GreedyDisjoint(cs[1..], used);
      } else {
        var used' := used + {c.p1.pid, c.p2.pid};
        var rest := Greedy(cs[1..], used').0;
        GreedyDisjoint(cs[1..], used');
        var ps := Greedy(cs, used).0;
        assert ps == [(c.p1, c.p2)] + rest;
        forall t, u | 0 <= t < u < |ps| ensures PairKey(ps[t]) !! PairKey(ps[u]) {
          assert ps[u] == rest[u - 1];
          if t > 0 {
            assert ps[t] == rest[t - 1];
          }
        }
      }
    }
  }

  /** The pair is the two people of one of the candidates. */
  predicate FromCandidate(cs: seq<Candidate>, p: Pair) {
    exists c :: c in cs && p == (c.p1, c.p2)
  }

  /** Every pair taken is one of the candidates. */
  lemma {:induction false} GreedyFromCandidates(cs: seq<Candidate>, used: set<Id>)
    ensures forall t :: 0 <= t < |Greedy(cs, used).0| ==> FromCandidate(cs, Greedy(cs, used).0[t])
  {
    if cs != [] {
      var c := cs[0];
      var used' := if c.p1.pid in used || c.p2.pid in used then used else used + {c.p1.pid, c.p2.pid};
      GreedyFromCandidates(cs[1..], used');
      var ps, rest := Greedy(cs, used).0, Greedy(cs[1..], used').0;
      forall t | 0 <= t < |ps| ensures FromCandidate(cs, ps[t]) {
        if c.p1.pid in used || c.p2.pid in used {
          assert ps[t] == rest[t];
          assert FromCandidate(cs[1..], rest[t]);
          var d :| d in cs[1..] && rest[t] == (d.p1, d.p2);
          assert d in cs;
        } else if t == 0 {
          assert c in cs;
        } else {
          assert ps[t] == rest[t - 1];
          assert FromCandidate(cs[1..], rest[t - 1]);
          var d :| d in cs[1..] && rest[t - 1] == (d.p1, d.p2);
          assert d in cs;
        }
      }
    }
  }

  /** Greedy maximality: every candidate left out has an id that was used. */
  lemma {:induction false} GreedyMaximal(cs: seq<Candidate>, used: set<Id>)
    ensures forall c :: c in cs ==> c.p1.pid in Greedy(cs, used).1 || c.p2.pid in Greedy(cs, used).1
    ensures used <= Greedy(cs, used).1
  {
    if cs != [] {
      var c := cs[0];
      var used' := if c.p1.pid in used || c.p2.pid in used then used else used + {c.p1.pid, c.p2.pid};
      GreedyMaximal(cs[1..], used');
      assert Greedy(cs, used).1 == Greedy(cs[1..], used').1;
      forall d | d in cs ensures d.p1.pid in Greedy(cs, used).1 || d.p2.pid in Greedy(cs, used).1 {
        if d != c {
          assert d in cs[1..];
        }
      }
    }
  }

  /** The leftovers are the people with an unused id. */
  lemma {:induction false} LeftoversMembers(people: seq<Person>, used: set<Id>)
    ensures forall p :: p in Leftovers(people, used) <==> p in people && p.pid !in used
  {
    if people != [] {
      LeftoversMembers(people[1..], used);
      assert people == [people[0]] + people[1..];
    }
  }

  /** What `build_round(people, past)` returns. */
  function RoundFor(people: seq<Person>, past: PastPairs): (seq<Pair>, seq<Person>) {
    if |people| < 2 then ([], people)
    else
      var g := Greedy(Candidates(people, past), {});
      (g.0, Leftovers(people, g.1))
  }

  /**
   * Every pair of a round is a pair of people of the roster whose id pair is
   * not in the history; with distinct ids nobody is paired with themself.
   */
  lemma RoundAvoidsHistory(people: seq<Person>, past: PastPairs)
    ensures forall t :: 0 <= t < |RoundFor(people, past).0| ==> PairKey(RoundFor(people, past).0[t]) !in past
    ensures forall t :: 0 <= t < |RoundFor(people, past).0| ==> PairKey(RoundFor(people, past).0[t]) in RosterKeys(people)
    ensures forall t :: 0 <= t < |RoundFor(people, past).0| ==>
      RoundFor(people, past).0[t].0 in people && RoundFor(people, past).0[t].1 in people
    ensures DistinctPids(people) ==>
      forall t :: 0 <= t < |RoundFor(people, past).0| ==> RoundFor(people, past).0[t].0.pid != RoundFor(people, past).0[t].1.pid
  {
    if |people| >= 2 {
      var cs := Candidates(people, past);
      var ps := RoundFor(people, past).0;
      GreedyFromCandidates(cs, {});
      CandidatesSpec(people, past);
      forall t | 0 <= t < |ps|
        ensures PairKey(ps[t]) !in past && PairKey(ps[t]) in RosterKeys(people)
        ensures ps[t].0 in people && ps[t].1 in people
        ensures DistinctPids(people) ==> ps[t].0.pid != ps[t].1.pid
      {
        assert FromCandidate(cs, ps[t]);
        var c :| c in cs && ps[t] == (c.p1, c.p2);
        assert IsCandidate(people, past, c);
        var i, j :| 0 <= i < j < |people| && Allowed(people, past, i, j) && c == CandidateOf(people, i, j);
      }
    }
  }

  /** Within a round nobody is used twice. */
  lemma RoundDisjoint(people: seq<Person>, past: PastPairs)
    ensures DisjointPairs(RoundFor(people, past).0)
  {
    if |people| >= 2 {
      GreedyDisjoint(Candidates(people, past), {});
    }
  }

  /**
   * The leftovers are the people not paired, in roster order: the roster
   * filtered, order and repeats kept, by "id not in a pair of the round".
   */
  lemma RoundLeftovers(people: seq<Person>, past: PastPairs)
    ensures RoundFor(people, past).1 == Leftovers(people, PidsOf(RoundFor(people, past).0))
    ensures forall p :: p in RoundFor(people, past).1 <==>
      p in people && p.pid !in PidsOf(RoundFor(people, past).0)
  {
    if |people| >= 2 {
      var g := Greedy(Candidates(people, past), {});
      GreedyUsed(Candidates(people, past), {});
      assert g.1 == PidsOf(g.0);
      LeftoversMembers(people, g.1);
    } else {
      LeftoversNone(people);
      LeftoversMembers(people, {});
    }
  }

  /** Filtering by the empty id set keeps the whole roster. */
  lemma {:induction false} LeftoversNone(people: seq<Person>)
    ensures Leftovers(people, {}) == people
  {
    if people != [] {
      LeftoversNone(people[1..]);
      assert people == [people[0]] + people[1..];
    }
  }

  /**
   * The round is maximal: any two leftovers with different ids have already
   * met, so no further pair could be added.
   */
  lemma RoundMaximal(people: seq<Person>, past: PastPairs)
    ensures forall x, y :: x in RoundFor(people, past).1 && y in RoundFor(people, past).1 && x.pid != y.pid ==>
      {x.pid, y.pid} in past
  {
    var lo := RoundFor(people, past).1;
    if |people| >= 2 {
      var cs := Candidates(people, past);
      var used := Greedy(cs, {}).1;
      LeftoversMembers(people, used);
      GreedyMaximal(cs, {});
      CandidatesSpec(people, past);
      forall x, y | x in lo && y in lo && x.pid != y.pid ensures {x.pid, y.pid} in past {
        var i :| 0 <= i < |people| && people[i] == x;
        var j :| 0 <= j < |people| && people[j] == y;
        var a, b := if i < j then i else j, if i < j then j else i;
        assert {people[a].pid, people[b].pid} == {x.pid, y.pid};
        if {x.pid, y.pid} !in past {
          assert IsCandidate(people, past, CandidateOf(people, a, b));
          assert false;
        }
      }
    }
  }

  /**
   * A round is empty exactly when every pair of people has already met; otherwise
   * its first pair is a most similar one among those not yet met.
   */
  lemma RoundEmptyIffExhausted(people: seq<Person>, past: PastPairs)
    ensures RoundFor(people, past).0 == [] <==>
      forall i, j :: 0 <= i < j < |people| ==> !Allowed(people, past, i, j)
    ensures RoundFor(people, past).0 != [] ==>
      forall i, j :: 0 <= i < j < |people| && Allowed(people, past, i, j) ==>
        SimilarityScore(people[i].mbti, people[j].mbti)
          <= SimilarityScore(RoundFor(people, past).0[0].0.mbti, RoundFor(people, past).0[0].1.mbti)
  {
    var ps := RoundFor(people, past).0;
    CandidatesSpec(people, past);
    var cs := Candidates(people, past);
    if |people| >= 2 {
      if cs == [] {
        forall i, j | 0 <= i < j < |people| ensures !Allowed(people, past, i, j) {
          if Allowed(people, past, i, j) {
            assert IsCandidate(people, past, CandidateOf(people, i, j));
          }
        }
      } else {
        assert ps[0] == (cs[0].p1, cs[0].p2);
        assert IsCandidate(people, past, cs[0]);
        var a, b :| 0 <= a < b < |people| && Allowed(people, past, a, b) && cs[0] == CandidateOf(people, a, b);
        forall i, j | 0 <= i < j < |people| && Allowed(people, past, i, j)
          ensures SimilarityScore(people[i].mbti, people[j].mbti) <= SimilarityScore(ps[0].0.mbti, ps[0].1.mbti)
        {
          var c := CandidateOf(people, i, j);
          assert IsCandidate(people, past, c);
          var k :| 0 <= k < |cs| && cs[k] == c;
          assert k == 0 || cs[0].score >= cs[k].score;
        }
      }
    }
  }

  /** mbti_match.py:83-116. */
  method BuildRound(people: seq<Person>, past: PastPairs) returns (roundPairs: seq<Pair>, leftovers: seq<Person>)
    ensures (roundPairs, leftovers) == RoundFor(people, past)
  {
    if |people| < 2 {
      return [], people;
    }
    var candidates := GenerateCandidatePairs(people, past);
    var usedIds: set<Id> := {};
    roundPairs := [];
    assert candidates[0..] == candidates;
    for k := 0 to |candidates|
      invariant Greedy(candidates, {}).0 == roundPairs + Greedy(candidates[k..], usedIds).0
      invariant Greedy(candidates, {}).1 == Greedy(candidates[k..], usedIds).1
    {
      var c := candidates[k];
      assert candidates[k..][1..] == candidates[k + 1..];
      if c.p1.pid in usedIds || c.p2.pid in usedIds {
        continue;
      }
      roundPairs := roundPairs + [(c.p1, c.p2)];
      usedIds := usedIds + {c.p1.pid, c.p2.pid};
    }
    assert candidates[|candidates|..] == [];
    assert Greedy(candidates[|candidates|..], usedIds) == ([], usedIds);
    assert roundPairs + [] == roundPairs;
    leftovers := Leftovers(people, usedIds);
  }

  // ---------------------------------------------------------------------
  // update_past_pairs
  // ---------------------------------------------------------------------

  /** mbti_match.py:119-129. */
  method UpdatePastPairs(past: PastPairs, newPairs: seq<Pair>) returns (updated: PastPairs)
    ensures updated == past + PairKeys(newPairs)
  {
    updated := past;
    for t := 0 to |newPairs|
      invariant updated == past + PairKeys(newPairs[..t])
    {
      assert PairKeys(newPairs[..t + 1]) == PairKeys(newPairs[..t]) + {PairKey(newPairs[t])} by {
        assert forall u :: 0 <= u < t ==> newPairs[..t + 1][u] == newPairs[..t][u];
        assert newPairs[..t + 1][t] == newPairs[t];
      }
      var p := newPairs[t];
      updated := updated + {{p.0.pid, p.1.pid}};
    }
    assert newPairs[..|newPairs|] == newPairs;
  }

  // ---------------------------------------------------------------------
  // generate_rounds
  // ---------------------------------------------------------------------

  /** `Person(pid, str(participants.get(pid, "")).strip())` (mbti_match.py:157). */
  function PersonOf(pid: Id, participants: map<Id, string>): Person {
    Person(pid, Strip(if pid in participants then participants[pid] else ""))
  }

  /** The roster in the order of the (already shuffled) ids (mbti_match.py:156-159). */
  function People(ids: seq<Id>, participants: map<Id, string>): (people: seq<Person>)
    ensures |people| == |ids|
    ensures forall i :: 0 <= i < |ids| ==> people[i] == PersonOf(ids[i], participants)
  {
    if ids == [] then [] else [PersonOf(ids[0], participants)] + People(ids[1..], participants)
  }

  /** `[(p1.pid, p2.pid) for (p1, p2) in pairs]` (mbti_match.py:172). */
  function IdPairs(ps: seq<Pair>): seq<(Id, Id)> {
    seq(|ps|, t requires 0 <= t < |ps| => (ps[t].0.pid, ps[t].1.pid))
  }

  /** A round builder: the pairs of the next round, given the history so far. */
  type Builder = PastPairs -> seq<Pair>

  /** The pairs of `build_round(people, past)`, as a builder. */
  function Greedily(people: seq<Person>): Builder {
    past => RoundFor(people, past).0
  }

  /** Up to k more rounds of `next` from history `past`, stopping at the first empty one. */
  function Run(next: Builder, past: PastPairs, k: int): seq<seq<(Id, Id)>>
    decreases k
  {
    if k <= 0 then []
    else
      var ps := next(past);
      if ps == [] then [] else [IdPairs(ps)] + Run(next, past + PairKeys(ps), k - 1)
  }

  /** The loop of `generate_rounds` stops on an empty round with what it has. */
  lemma RunStopsEarly(next: Builder, past: PastPairs, k: int, done: seq<seq<(Id, Id)>>, total: seq<seq<(Id, Id)>>)
    requires k > 0 && next(past) == []
    requires done + Run(next, past, k) == total
    ensures done == total
  {
    assert done + [] == done;
  }

  /** A non-empty round is appended and folded into the history. */
  lemma RunAdvances(next: Builder, past: PastPairs, k: int, done: seq<seq<(Id, Id)>>, total: seq<seq<(Id, Id)>>)
    requires k > 0 && next(past) != []
    requires done + Run(next, past, k) == total
    ensures (done + [IdPairs(next(past))]) + Run(next, past + PairKeys(next(past)), k - 1) == total
  {
    var ps := next(past);
    assert (done + [IdPairs(ps)]) + Run(next, past + PairKeys(ps), k - 1)
      == done + ([IdPairs(ps)] + Run(next, past + PairKeys(ps), k - 1));
  }

  /** mbti_match.py:136-178: the roster, then the rounds over it. */
  method GenerateRounds(scrambledIds: seq<Id>, numRounds: int, participants: map<Id, string>)
    returns (rounds: seq<seq<(Id, Id)>>)
    ensures rounds == Run(Greedily(People(scrambledIds, participants)), {}, numRounds)
  {
    var people := People(scrambledIds, participants);
    rounds := RoundsOver(people, numRounds, Greedily(people));
  }

  /**
   * The round loop of `generate_rounds` over a fixed roster
   * (mbti_match.py:161-178); `next` names what `build_round` computes.
   */
  method RoundsOver(people: seq<Person>, numRounds: int, ghost next: Builder) returns (rounds: seq<seq<(Id, Id)>>)
    requires forall past {:trigger RoundFor(people, past)} :: next(past) == RoundFor(people, past).0
    ensures rounds == Run(next, {}, numRounds)
  {
    rounds := [];
    var pastPairs: PastPairs := {};
    var count := if numRounds < 0 then 0 else numRounds;  // len(range(num_rounds))
    ghost var total := Run(next, {}, count);
    assert total == Run(next, {}, numRounds);
    for t := 0 to count
      invariant rounds + Run(next, pastPairs, count - t) == total
    {
      var pairsThisRound, _ := BuildRound(people, pastPairs);
      assert pairsThisRound == next(pastPairs);
      if pairsThisRound == [] {
        RunStopsEarly(next, pastPairs, count - t, rounds, total);
        return;
      }
      RunAdvances(next, pastPairs, count - t, rounds, total);
      var idPairs := IdPairs(pairsThisRound);
      rounds := rounds + [idPairs];
      pastPairs := UpdatePastPairs(pastPairs, pairsThisRound);
    }
    RunFinished(next, pastPairs, rounds, total);
  }

  /** With no rounds left to run, what is done is the whole run. */
  lemma RunFinished(next: Builder, past: PastPairs, done: seq<seq<(Id, Id)>>, total: seq<seq<(Id, Id)>>)
    requires done + Run(next, past, 0) == total
    ensures done == total
  {
    assert done + [] == done;
  }

  // ---------------------------------------------------------------------
  // What generate_rounds guarantees
  // ---------------------------------------------------------------------

  function IdKey(p: (Id, Id)): set<Id> {
    {p.0, p.1}
  }

  /** Within a round each id appears at most once. */
  predicate IdsOnce(r: seq<(Id, Id)>) {
    forall i, j :: 0 <= i < j < |r| ==> IdKey(r[i]) !! IdKey(r[j])
  }

  /** No unordered id pair occurs twice anywhere in the rounds. */
  predicate NoRepeatedPair(rs: seq<seq<(Id, Id)>>) {
    forall t1, i1, t2, i2 ::
      (0 <= t1 < |rs| && 0 <= i1 < |rs[t1]| && 0 <= t2 < |rs| && 0 <= i2 < |rs[t2]| &&
       IdKey(rs[t1][i1]) == IdKey(rs[t2][i2])) ==> t1 == t2 && i1 == i2
  }

  function RoundKeys(r: seq<(Id, Id)>): set<set<Id>> {
    set i | 0 <= i < |r| :: IdKey(r[i])
  }

  /** The history after the rounds. */
  function AllKeys(rs: seq<seq<(Id, Id)>>): set<set<Id>> {
    if rs == [] then {} else RoundKeys(rs[0]) + AllKeys(rs[1..])
  }

  lemma IdPairsKeys(ps: seq<Pair>)
    ensures forall t :: 0 <= t < |ps| ==> IdKey(IdPairs(ps)[t]) == PairKey(ps[t])
    ensures RoundKeys(IdPairs(ps)) == PairKeys(ps)
  {
    assert forall t :: 0 <= t < |ps| ==> IdKey(IdPairs(ps)[t]) == PairKey(ps[t]);
  }

  /** Every round the builder makes uses each id at most once. */
  ghost predicate OnePairEach(next: Builder) {
    forall past :: DisjointPairs(next(past))
  }

  /** No round the builder makes repeats the history it is given. */
  ghost predicate AvoidsHistory(next: Builder) {
    forall past, t :: 0 <= t < |next(past)| ==> PairKey(next(past)[t]) !in past
  }

  /** The builder never pairs an id with itself. */
  ghost predicate NoSelfPairs(next: Builder) {
    forall past, t :: 0 <= t < |next(past)| ==> next(past)[t].0.pid != next(past)[t].1.pid
  }

  /** The first pair of every non-empty round is an id pair of `keys`. */
  ghost predicate DrawsFrom(next: Builder, keys: set<set<Id>>) {
    forall past :: next(past) != [] ==> PairKey(next(past)[0]) in keys
  }

  /** The builder returns no pair only when every two people of the roster have met. */
  ghost predicate EmptyOnlyWhenExhausted(next: Builder, people: seq<Person>) {
    forall past :: next(past) == [] ==> forall i, j :: 0 <= i < j < |people| ==> !Allowed(people, past, i, j)
  }

  /**
   * Rounds are non-empty and there are at most k of them; a builder that
   * uses each id at most once (and never pairs an id with itself) makes
   * rounds with the same property.
   */
  lemma {:induction false} RunShape(next: Builder, past: PastPairs, k: int)
    ensures |Run(next, past, k)| <= if k < 0 then 0 else k
    ensures forall t :: 0 <= t < |Run(next, past, k)| ==> Run(next, past, k)[t] != []
    ensures OnePairEach(next) ==> forall t :: 0 <= t < |Run(next, past, k)| ==> IdsOnce(Run(next, past, k)[t])
    ensures NoSelfPairs(next) ==>
      forall t, i :: 0 <= t < |Run(next, past, k)| && 0 <= i < |Run(next, past, k)[t]| ==>
        Run(next, past, k)[t][i].0 != Run(next, past, k)[t][i].1
    decreases k
  {
    var ps := next(past);
    if k > 0 && ps != [] {
      var rs: seq<seq<(Id, Id)>> := Run(next, past, k);
      var rest := Run(next, past + PairKeys(ps), k - 1);
      RunShape(next, past + PairKeys(ps), k - 1);
      IdPairsKeys(ps);
      assert rs == [IdPairs(ps)] + rest;
      forall t | 0 < t < |rs| ensures rs[t] == rest[t - 1] {
      }
    }
  }

  /**
   * With a builder that avoids the history and uses each id at most once,
   * no round repeats the starting history and no id pair occurs twice.
   */
  lemma {:induction false} RunFresh(next: Builder, past: PastPairs, k: int)
    requires OnePairEach(next) && AvoidsHistory(next)
    ensures forall t, i :: 0 <= t < |Run(next, past, k)| && 0 <= i < |Run(next, past, k)[t]| ==>
      IdKey(Run(next, past, k)[t][i]) !in past
    ensures NoRepeatedPair(Run(next, past, k))
    decreases k
  {
    var ps := next(past);
    if k > 0 && ps != [] {
      var past' := past + PairKeys(ps);
      var rs, rest := Run(next, past, k), Run(next, past', k - 1);
      RunFresh(next, past', k - 1);
      IdPairsKeys(ps);
      assert DisjointPairs(ps);
      assert rs == [IdPairs(ps)] + rest;
      forall t, i | 0 <= t < |rs| && 0 <= i < |rs[t]| ensures IdKey(rs[t][i]) !in past {
        if t > 0 {
          assert rs[t] == rest[t - 1];
        }
      }
      forall t1, i1, t2, i2 |
        0 <= t1 < |rs| && 0 <= i1 < |rs[t1]| && 0 <= t2 < |rs| && 0 <= i2 < |rs[t2]| &&
        IdKey(rs[t1][i1]) == IdKey(rs[t2][i2])
        ensures t1 == t2 && i1 == i2
      {
        if t1 > 0 && t2 > 0 {
          assert rs[t1] == rest[t1 - 1] && rs[t2] == rest[t2 - 1];
        }
      }
    }
  }

  /** A run shorter than k ends because the builder has nothing left for the final history. */
  lemma {:induction false} RunStops(next: Builder, past: PastPairs, k: int)
    ensures |Run(next, past, k)| < k ==> next(past + AllKeys(Run(next, past, k))) == []
    decreases k
  {
    var ps := next(past);
    if k > 0 {
      if ps == [] {
        assert past + AllKeys([]) == past;
      } else {
        var past' := past + PairKeys(ps);
        var rs, rest := Run(next, past, k), Run(next, past', k - 1);
        RunStops(next, past', k - 1);
        IdPairsKeys(ps);
        assert rs == [IdPairs(ps)] + rest;
        assert rs[1..] == rest;
        assert past + AllKeys(rs) == past' + AllKeys(rest);
      }
    }
  }

  /**
   * Each round takes at least one pair of `keys` not met before, so there
   * are at most as many rounds as such pairs left to meet.
   */
  lemma {:induction false} RunBound(next: Builder, keys: set<set<Id>>, past: PastPairs, k: int)
    requires TakesFresh(next, keys)
    ensures |Run(next, past, k)| <= |keys - past|
    decreases k
  {
    var ps := next(past);
    if k > 0 && ps != [] {
      var past' := past + PairKeys(ps);
      RunBound(next, keys, past', k - 1);
      assert |Run(next, past, k)| == 1 + |Run(next, past', k - 1)|;
      FreshKeyShrinks(keys, past, ps);
    }
  }

  /** A non-empty round starts with a pair of `keys` not met before. */
  ghost predicate TakesFresh(next: Builder, keys: set<set<Id>>) {
    forall past :: next(past) != [] ==> PairKey(next(past)[0]) in keys - past
  }

  lemma FreshFromHistory(next: Builder, keys: set<set<Id>>)
    requires AvoidsHistory(next) && DrawsFrom(next, keys)
    ensures TakesFresh(next, keys)
  {
    forall past | next(past) != [] ensures PairKey(next(past)[0]) in keys - past {
      assert PairKey(next(past)[0]) !in past;
    }
  }

  /** Meeting a pair of `keys` not met before leaves fewer such pairs to meet. */
  lemma FreshKeyShrinks(keys: set<set<Id>>, past: PastPairs, ps: seq<(Person, Person)>)
    requires ps != [] && PairKey(ps[0]) in keys - past
    ensures |keys - (past + PairKeys(ps))| < |keys - past|
  {
    var key := PairKey(ps[0]);
    assert key in PairKeys(ps);
    assert keys - (past + PairKeys(ps)) <= (keys - past) - {key};
    SubsetCard(keys - (past + PairKeys(ps)), (keys - past) - {key});
  }

  lemma SubsetCard<T>(a: set<T>, b: set<T>)
    requires a <= b
    ensures |a| <= |b|
  {
    assert b == a + (b - a);
  }

  /**
   * `build_round` is such a builder: one pair per person, no pair from the
   * history, only roster pairs, and no self-pairs when ids are distinct.
   */
  lemma GreedilyBuilds(people: seq<Person>)
    ensures OnePairEach(Greedily(people)) && AvoidsHistory(Greedily(people))
    ensures DrawsFrom(Greedily(people), RosterKeys(people))
    ensures DistinctPids(people) ==> NoSelfPairs(Greedily(people))
    ensures EmptyOnlyWhenExhausted(Greedily(people), people)
  {
    var next := Greedily(people);
    forall past | next(past) == []
      ensures forall i, j :: 0 <= i < j < |people| ==> !Allowed(people, past, i, j)
    {
      RoundEmptyIffExhausted(people, past);
    }
    forall past ensures DisjointPairs(next(past)) {
      RoundDisjoint(people, past);
    }
    forall past, t | 0 <= t < |next(past)|
      ensures PairKey(next(past)[t]) !in past && PairKey(next(past)[t]) in RosterKeys(people)
      ensures DistinctPids(people) ==> next(past)[t].0.pid != next(past)[t].1.pid
    {
      RoundAvoidsHistory(people, past);
    }
  }

  /** The roster pairs of `ids` are the id pairs of two positions i < j. */
  lemma GreedilyTakesFresh(people: seq<Person>)
    ensures TakesFresh(Greedily(people), RosterKeys(people))
  {
    GreedilyBuilds(people);
    FreshFromHistory(Greedily(people), RosterKeys(people));
  }

  lemma PeopleKeys(ids: seq<Id>, participants: map<Id, string>)
    ensures RosterKeys(People(ids, participants)) == set i, j | 0 <= i < j < |ids| :: {ids[i], ids[j]}
  {
    var people := People(ids, participants);
    assert forall i :: 0 <= i < |ids| ==> people[i].pid == ids[i];
  }

  /**
   * What `generate_rounds` guarantees (mbti_match.py:151-153): at most
   * `num_rounds` rounds, none empty; each id at most once per round, and
   * never with itself when the ids are distinct; no unordered pair twice in
   * the run.
   */
  lemma GenerateRoundsGuarantees(ids: seq<Id>, numRounds: int, participants: map<Id, string>)
    ensures var rs := Run(Greedily(People(ids, participants)), {}, numRounds);
      && |rs| <= (if numRounds < 0 then 0 else numRounds)
      && (forall t :: 0 <= t < |rs| ==> rs[t] != [] && IdsOnce(rs[t]))
      && NoRepeatedPair(rs)
    ensures (forall i, j :: 0 <= i < j < |ids| ==> ids[i] != ids[j]) ==>
      var rs := Run(Greedily(People(ids, participants)), {}, numRounds);
      forall t, i :: 0 <= t < |rs| && 0 <= i < |rs[t]| ==> rs[t][i].0 != rs[t][i].1
  {
    var people := People(ids, participants);
    GreedilyBuilds(people);
    RunShape(Greedily(people), {}, numRounds);
    RunFresh(Greedily(people), {}, numRounds);
  }

  /** A run shorter than asked ends only when the ids of every two positions have met. */
  lemma GenerateRoundsEndsWhenAllMet(ids: seq<Id>, numRounds: int, participants: map<Id, string>)
    ensures var rs := Run(Greedily(People(ids, participants)), {}, numRounds);
      |rs| < numRounds ==> forall i, j :: 0 <= i < j < |ids| ==> {ids[i], ids[j]} in AllKeys(rs)
  {
    var people := People(ids, participants);
    var next := Greedily(people);
    var rs := Run(next, {}, numRounds);
    if |rs| < numRounds {
      GreedilyBuilds(people);
      RunStops(next, {}, numRounds);
      assert {} + AllKeys(rs) == AllKeys(rs);
      assert next(AllKeys(rs)) == [];
      forall i, j | 0 <= i < j < |ids| ensures {ids[i], ids[j]} in AllKeys(rs) {
        assert !Allowed(people, AllKeys(rs), i, j);
      }
    }
  }

  /** There are never more rounds than id pairs of two positions. */
  lemma GenerateRoundsBound(ids: seq<Id>, numRounds: int, participants: map<Id, string>)
    ensures |Run(Greedily(People(ids, participants)), {}, numRounds)| <= |set i, j | 0 <= i < j < |ids| :: {ids[i], ids[j]}|
  {
    var people := People(ids, participants);
    GreedilyTakesFresh(people);
    RunBound(Greedily(people), RosterKeys(people), {}, numRounds);
    PeopleKeys(ids, participants);
    assert RosterKeys(people) - {} == RosterKeys(people);
  }
}
