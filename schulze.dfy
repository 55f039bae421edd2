/**
 * The Schulze method (Schulze, 2011), a Condorcet voting method, as the
 * repository runs it over a matrix of ballots: pairwise preference counts,
 * strongest (widest) paths by a Floyd-Warshall style triple loop over a
 * c x c integer matrix, and 1-based ranks from the resulting beat relation.
 */
module Schulze {
  import opened Outcomes

  /** One voter's row: ballot[i] is the rank this voter gives candidate i (smaller is preferred). */
  type Ballot = seq<int>

  /** A value snapshot of a matrix, row by row. */
  type Grid = seq<seq<int>>

  datatype VoteError =
    | NoBallots     // `ranks[0]` of an empty ballot list
    | ShortBallot   // a ballot has fewer entries than the first ballot
    | NoCandidates  // `prefs[0]` of a 0 x 0 preference matrix
    | MissingHeader // fewer headers than candidates

  function Min(a: int, b: int): int { if a <= b then a else b }

  function Max(a: int, b: int): int { if a <= b then b else a }

  // ----------------------------------------------------------------------
  // Preference matrix
  // ----------------------------------------------------------------------

  /** The ballots form an m x c matrix: m > 0 and every ballot covers the c candidates of the first. */
  predicate WellFormed(ranks: seq<Ballot>) {
    |ranks| > 0 && forall v :: 0 <= v < |ranks| ==> |ranks[0]| <= |ranks[v]|
  }

  /** Every ballot has an entry for candidates i and j. */
  ghost predicate Covers(ranks: seq<Ballot>, i: nat, j: nat) {
    forall v :: 0 <= v < |ranks| ==> i < |ranks[v]| && j < |ranks[v]|
  }

  /** The number of ballots that rank candidate i strictly before candidate j. */
  function PreferCount(ranks: seq<Ballot>, i: nat, j: nat): (n: nat)
    requires Covers(ranks, i, j)
    ensures n <= |ranks|
    decreases |ranks|
  {
    if |ranks| == 0 then 0
    else
      var last := ranks[|ranks| - 1];
      PreferCount(ranks[..|ranks| - 1], i, j) + (if last[i] < last[j] then 1 else 0)
  }

  /** The number of ballots that give candidates i and j the same rank. */
  function TieCount(ranks: seq<Ballot>, i: nat, j: nat): nat
    requires Covers(ranks, i, j)
    decreases |ranks|
  {
    if |ranks| == 0 then 0
    else
      var last := ranks[|ranks| - 1];
      TieCount(ranks[..|ranks| - 1], i, j) + (if last[i] == last[j] then 1 else 0)
  }

  /** Each ballot counts for i over j, for j over i, or as a tie, and for exactly one of them. */
  lemma {:induction false} PreferCountSplit(ranks: seq<Ballot>, i: nat, j: nat)
    requires Covers(ranks, i, j)
    ensures PreferCount(ranks, i, j) + PreferCount(ranks, j, i) + TieCount(ranks, i, j) == |ranks|
    ensures PreferCount(ranks, i, j) + PreferCount(ranks, j, i) <= |ranks|
    decreases |ranks|
  {
    if |ranks| > 0 {
      PreferCountSplit(ranks[..|ranks| - 1], i, j);
    }
  }

  /** No voter prefers a candidate to itself. */
  lemma {:induction false} PreferCountDiagonal(ranks: seq<Ballot>, i: nat)
    requires Covers(ranks, i, i)
    ensures PreferCount(ranks, i, i) == 0
    decreases |ranks|
  {
    if |ranks| > 0 {
      PreferCountDiagonal(ranks[..|ranks| - 1], i);
    }
  }

  /** prefs is the c x c matrix whose entry [i, j] counts the ballots preferring i to j. */
  ghost predicate IsPreferenceMatrix(ranks: seq<Ballot>, prefs: array2<int>)
    requires WellFormed(ranks)
    reads prefs
  {
    var c := |ranks[0]|;
    && prefs.Length0 == c && prefs.Length1 == c
    && forall i, j :: 0 <= i < c && 0 <= j < c ==> prefs[i, j] == PreferCount(ranks, i, j)
  }

  /** preference_matrix: for every pair (i, j), count the ballots with row[i] < row[j]. */
  method PreferenceMatrix(ranks: seq<Ballot>) returns (r: Result<array2<int>, VoteError>)
    ensures |ranks| == 0 ==> r == Err(NoBallots)
    ensures |ranks| > 0 && !WellFormed(ranks) ==> r == Err(ShortBallot)
    ensures WellFormed(ranks) ==> r.Ok? && IsPreferenceMatrix(ranks, r.value)
  {
    if |ranks| == 0 {
      return Err(NoBallots);
    }
    var c := |ranks[0]|;
    if exists v :: 0 <= v < |ranks| && |ranks[v]| < c {
      return Err(ShortBallot);
    }
    var prefs := new int[c, c]((_, _) => 0);
    for i := 0 to c
      invariant forall p, q :: 0 <= p < c && 0 <= q < c ==>
        prefs[p, q] == if p < i then PreferCount(ranks, p, q) else 0
    {
      for j := 0 to c
        invariant forall p, q :: 0 <= p < c && 0 <= q < c ==>
          prefs[p, q] == if p < i || (p == i && q < j) then PreferCount(ranks, p, q) else 0
      {
        for v := 0 to |ranks|
          invariant forall p, q :: 0 <= p < c && 0 <= q < c ==>
            prefs[p, q] ==
              if p < i || (p == i && q < j) then PreferCount(ranks, p, q)
              else if p == i && q == j then PreferCount(ranks[..v], i, j)
              else 0
        {
          assert ranks[..v + 1][..v] == ranks[..v];
          if ranks[v][i] < ranks[v][j] {
            prefs[i, j] := prefs[i, j] + 1;
          }
        }
        assert ranks[..|ranks|] == ranks;
      }
    }
    return Ok(prefs);
  }

  // ----------------------------------------------------------------------
  // Strongest paths
  // ----------------------------------------------------------------------

  /** The strength of the direct link i -> j: prefs[i][j] when i wins the pairwise contest, else 0. */
  function DefeatStrength(ranks: seq<Ballot>, i: nat, j: nat): nat
    requires Covers(ranks, i, j)
  {
    if i != j && PreferCount(ranks, i, j) > PreferCount(ranks, j, i) then PreferCount(ranks, i, j) else 0
  }

  /** The link strengths of all pairs, as a c x c grid. */
  ghost function DefeatGrid(ranks: seq<Ballot>): Grid
    requires WellFormed(ranks)
  {
    var c := |ranks[0]|;
    seq(c, i requires 0 <= i < c => seq(c, j requires 0 <= j < c => DefeatStrength(ranks, i, j) as int))
  }

  ghost predicate IsSquare(g: Grid, c: nat) {
    |g| == c && forall r :: 0 <= r < c ==> |g[r]| == c
  }

  /** The value snapshot of a two-dimensional array. */
  ghost function Cells(a: array2<int>): (g: Grid)
    reads a
    ensures |g| == a.Length0
    ensures forall i :: 0 <= i < a.Length0 ==> |g[i]| == a.Length1
    ensures forall i, j :: 0 <= i < a.Length0 && 0 <= j < a.Length1 ==> g[i][j] == a[i, j]
  {
    seq(a.Length0, i requires 0 <= i < a.Length0 reads a =>
      seq(a.Length1, j requires 0 <= j < a.Length1 reads a => a[i, j]))
  }

  ghost predicate InRange(p: seq<int>, c: nat) {
    forall t :: 0 <= t < |p| ==> 0 <= p[t] < c
  }

  /** p is a path of at least one link from candidate s to candidate e. */
  ghost predicate IsPath(p: seq<int>, s: int, e: int, c: nat) {
    |p| >= 2 && p[0] == s && p[|p| - 1] == e && InRange(p, c)
  }

  /** The strength of a path: the strength of its weakest link. */
  ghost function Width(g: Grid, p: seq<int>): int
    requires IsSquare(g, |g|) && |p| >= 2 && InRange(p, |g|)
    decreases |p|
  {
    if |p| == 2 then g[p[0]][p[1]] else Min(g[p[0]][p[1]], Width(g, p[1..]))
  }

  /** Joining a path ending at x with a path starting at x gives the weaker of their strengths. */
  lemma {:induction false} WidthConcat(g: Grid, p1: seq<int>, p2: seq<int>)
    requires IsSquare(g, |g|) && |p1| >= 2 && |p2| >= 2 && InRange(p1, |g|) && InRange(p2, |g|)
    requires p1[|p1| - 1] == p2[0]
    ensures InRange(p1 + p2[1..], |g|)
    ensures Width(g, p1 + p2[1..]) == Min(Width(g, p1), Width(g, p2))
    decreases |p1|
  {
    var p := p1 + p2[1..];
    if |p1| == 2 {
      assert p[1..] == p2;
    } else {
      WidthConcat(g, p1[1..], p2);
      assert p[1..] == p1[1..] + p2[1..];
    }
  }

  /** v is the strength of the strongest path from s to e. */
  ghost predicate IsStrongest(g: Grid, s: int, e: int, v: int)
    requires IsSquare(g, |g|)
  {
    && (exists p :: IsPath(p, s, e, |g|) && Width(g, p) == v)
    && (forall p :: IsPath(p, s, e, |g|) ==> Width(g, p) <= v)
  }

  /** D holds, off its zero diagonal, the strongest-path strength of every ordered pair. */
  ghost predicate IsStrongestMatrix(g: Grid, D: Grid) {
    && IsSquare(g, |g|) && IsSquare(D, |g|)
    && forall s, e :: 0 <= s < |g| && 0 <= e < |g| ==>
         if s == e then D[s][e] == 0 else IsStrongest(g, s, e, D[s][e])
  }

  /** d[j][k] >= min(d[j][i], d[i][k]) for every intermediate i < n and distinct i, j, k. */
  ghost predicate ClosedThrough(D: Grid, n: nat) {
    && IsSquare(D, |D|) && n <= |D|
    && forall i, j, k :: 0 <= i < n && 0 <= j < |D| && 0 <= k < |D| && i != j && i != k && j != k ==>
         Min(D[j][i], D[i][k]) <= D[j][k]
  }

  /** Some path from s to e is at least as strong as v. */
  ghost predicate HasWitness(g: Grid, s: int, e: int, v: int)
    requires IsSquare(g, |g|)
  {
    exists p :: IsPath(p, s, e, |g|) && Width(g, p) >= v
  }

  /** Every off-diagonal entry is achieved by some path at least that strong. */
  ghost predicate Witnessed(g: Grid, D: Grid) {
    && IsSquare(g, |g|) && IsSquare(D, |g|)
    && forall s, e :: 0 <= s < |g| && 0 <= e < |g| && s != e ==> HasWitness(g, s, e, D[s][e])
  }

  /** Every off-diagonal entry is at least the direct link strength. */
  ghost predicate Dominates(g: Grid, D: Grid) {
    && IsSquare(g, |g|) && IsSquare(D, |g|)
    && forall s, e :: 0 <= s < |g| && 0 <= e < |g| && s != e ==> g[s][e] <= D[s][e]
  }

  ghost predicate ZeroDiagonal(D: Grid) {
    IsSquare(D, |D|) && forall s :: 0 <= s < |D| ==> D[s][s] == 0
  }

  ghost predicate Bounded(D: Grid, m: int) {
    IsSquare(D, |D|) && forall s, e :: 0 <= s < |D| && 0 <= e < |D| ==> 0 <= D[s][e] <= m
  }

  /** The value entry [j, k] takes in the round with intermediate candidate i. */
  ghost function Relaxed(D: Grid, i: int, j: int, k: int): int
    requires IsSquare(D, |D|) && 0 <= i < |D| && 0 <= j < |D| && 0 <= k < |D|
  {
    if i != j && i != k && j != k then Max(D[j][k], Min(D[j][i], D[i][k])) else D[j][k]
  }

  /** D1 is D0 after the round of the triple loop whose intermediate candidate is i. */
  ghost predicate IsRound(D0: Grid, D1: Grid, i: int) {
    && IsSquare(D0, |D0|) && IsSquare(D1, |D0|) && 0 <= i < |D0|
    && forall j, k :: 0 <= j < |D0| && 0 <= k < |D0| ==> D1[j][k] == Relaxed(D0, i, j, k)
  }

  /** A round keeps the closure already reached and adds closure through its own intermediate. */
  lemma RoundKeepsClosed(D0: Grid, D1: Grid, i: nat)
    requires IsRound(D0, D1, i) && ClosedThrough(D0, i)
    ensures ClosedThrough(D1, i + 1)
  {
    var c := |D0|;
    forall h, j, k | 0 <= h < i + 1 && 0 <= j < c && 0 <= k < c && h != j && h != k && j != k
      ensures Min(D1[j][h], D1[h][k]) <= D1[j][k]
    {
      assert D1[j][k] == Relaxed(D0, i, j, k);
      assert D1[j][h] == Relaxed(D0, i, j, h);
      assert D1[h][k] == Relaxed(D0, i, h, k);
      if h < i {
        assert Min(D0[j][h], D0[h][k]) <= D0[j][k];
        if j != i && k != i {
          assert Min(D0[j][h], D0[h][i]) <= D0[j][i];
          assert Min(D0[i][h], D0[h][k]) <= D0[i][k];
        } else if j == i {
          assert Min(D0[i][h], D0[h][k]) <= D0[i][k];
        } else {
          assert Min(D0[j][h], D0[h][i]) <= D0[j][i];
        }
      }
    }
  }

  /** A round only raises an entry to the strength of a path it can point to. */
  lemma RoundKeepsWitnessed(g: Grid, D0: Grid, D1: Grid, i: nat)
    requires IsRound(D0, D1, i) && |g| == |D0| && Witnessed(g, D0)
    ensures Witnessed(g, D1)
  {
    var c := |g|;
    forall s, e | 0 <= s < c && 0 <= e < c && s != e
      ensures HasWitness(g, s, e, D1[s][e])
    {
      assert D1[s][e] == Relaxed(D0, i, s, e);
      if s != i && e != i && D0[s][e] < Min(D0[s][i], D0[i][e]) {
        assert HasWitness(g, s, i, D0[s][i]) && HasWitness(g, i, e, D0[i][e]);
        var p1 :| IsPath(p1, s, i, c) && Width(g, p1) >= D0[s][i];
        var p2 :| IsPath(p2, i, e, c) && Width(g, p2) >= D0[i][e];
        WidthConcat(g, p1, p2);
        assert IsPath(p1 + p2[1..], s, e, c);
      } else {
        assert HasWitness(g, s, e, D0[s][e]);
        var p :| IsPath(p, s, e, c) && Width(g, p) >= D0[s][e];
        assert Width(g, p) >= D1[s][e];
      }
    }
  }

  /** A round never lowers an entry, never touches the diagonal and keeps entries within [0, m]. */
  lemma RoundIsMonotone(g: Grid, D0: Grid, D1: Grid, i: nat, m: int)
    requires IsRound(D0, D1, i) && |g| == |D0| && Dominates(g, D0) && ZeroDiagonal(D0) && Bounded(D0, m)
    ensures forall j, k :: 0 <= j < |D0| && 0 <= k < |D0| ==> D0[j][k] <= D1[j][k]
    ensures Dominates(g, D1) && ZeroDiagonal(D1) && Bounded(D1, m)
  {
    var c := |D0|;
    forall j, k | 0 <= j < c && 0 <= k < c
      ensures D0[j][k] <= D1[j][k] && 0 <= D1[j][k] <= m
    {
      assert D1[j][k] == Relaxed(D0, i, j, k);
    }
    forall s | 0 <= s < c ensures D1[s][s] == 0 {
      assert D1[s][s] == Relaxed(D0, i, s, s);
    }
  }

  /** Closure and domination bound every path from s to e by the entry [s][e]. */
  lemma {:induction false} PathWidthBounded(g: Grid, D: Grid, p: seq<int>, s: int, e: int)
    requires ClosedThrough(D, |D|) && Dominates(g, D) && |D| == |g|
    requires IsPath(p, s, e, |g|) && s != e
    ensures Width(g, p) <= D[s][e]
    decreases |p|
  {
    if |p| > 2 {
      var q := p[..|p| - 1];
      var w := q[|q| - 1];
      WidthConcat(g, q, [w, e]);
      assert q + [w, e][1..] == p;
      if w == e {
        PathWidthBounded(g, D, q, s, e);
      } else if w != s {
        PathWidthBounded(g, D, q, s, w);
        assert Min(D[s][w], D[w][e]) <= D[s][e];
      }
    }
  }

  /** What the triple loop establishes is exactly the strongest-path matrix. */
  lemma ClosedIsStrongest(g: Grid, D: Grid)
    requires ClosedThrough(D, |D|) && Witnessed(g, D) && Dominates(g, D) && ZeroDiagonal(D)
    ensures IsStrongestMatrix(g, D)
  {
    var c := |g|;
    forall s, e | 0 <= s < c && 0 <= e < c && s != e
      ensures IsStrongest(g, s, e, D[s][e])
    {
      assert HasWitness(g, s, e, D[s][e]);
      var w :| IsPath(w, s, e, c) && Width(g, w) >= D[s][e];
      PathWidthBounded(g, D, w, s, e);
      forall p | IsPath(p, s, e, c) ensures Width(g, p) <= D[s][e] {
        PathWidthBounded(g, D, p, s, e);
      }
    }
  }

  /** The strongest-path matrix is closed: d[j][k] >= min(d[j][i], d[i][k]) for distinct i, j, k. */
  lemma StrongestIsClosed(g: Grid, D: Grid)
    requires IsStrongestMatrix(g, D)
    ensures ClosedThrough(D, |D|)
  {
    var c := |g|;
    forall i, j, k | 0 <= i < c && 0 <= j < c && 0 <= k < c && i != j && i != k && j != k
      ensures Min(D[j][i], D[i][k]) <= D[j][k]
    {
      assert IsStrongest(g, j, i, D[j][i]) && IsStrongest(g, i, k, D[i][k]) && IsStrongest(g, j, k, D[j][k]);
      var p1 :| IsPath(p1, j, i, c) && Width(g, p1) == D[j][i];
      var p2 :| IsPath(p2, i, k, c) && Width(g, p2) == D[i][k];
      WidthConcat(g, p1, p2);
      assert IsPath(p1 + p2[1..], j, k, c);
    }
  }

  /**
   * Schulze's theorem: the strict beat relation of strongest paths is transitive,
   * so the method never produces a cycle of strict wins.
   */
  lemma StrictBeatTransitive(g: Grid, D: Grid, a: int, b: int, c: int)
    requires IsStrongestMatrix(g, D)
    requires 0 <= a < |g| && 0 <= b < |g| && 0 <= c < |g| && a != b && b != c && a != c
    requires D[a][b] > D[b][a] && D[b][c] > D[c][b]
    ensures D[a][c] > D[c][a]
  {
    StrongestIsClosed(g, D);
    assert Min(D[a][b], D[b][c]) <= D[a][c];
    assert Min(D[c][a], D[a][b]) <= D[c][b];
    assert Min(D[b][c], D[c][a]) <= D[b][a];
  }

  /** One round of the triple loop: widen every entry [j, k] through candidate i, in place. */
  method WidenThrough(d: array2<int>, i: nat)
    requires d.Length0 == d.Length1 && i < d.Length0
    modifies d
    ensures IsRound(old(Cells(d)), Cells(d), i)
  {
    ghost var D0 := Cells(d);
    var c := d.Length0;
    for j := 0 to c
      invariant forall p, q :: 0 <= p < c && 0 <= q < c ==>
        d[p, q] == if p < j then Relaxed(D0, i, p, q) else D0[p][q]
    {
      if i != j {
        for k := 0 to c
          invariant forall p, q :: 0 <= p < c && 0 <= q < c ==>
            d[p, q] == if p < j || (p == j && q < k) then Relaxed(D0, i, p, q) else D0[p][q]
        {
          if i != k && j != k {
            d[j, k] := Max(d[j, k], Min(d[j, i], d[i, k]));
          }
        }
      }
    }
  }

  ghost predicate RoundInvariant(g: Grid, D: Grid, n: nat, m: int) {
    && ClosedThrough(D, n) && Witnessed(g, D) && Dominates(g, D) && ZeroDiagonal(D) && Bounded(D, m)
  }

  /** Before any round, the matrix of direct links satisfies the round invariant. */
  lemma LinksSatisfyInvariant(ranks: seq<Ballot>, D: Grid)
    requires WellFormed(ranks)
    requires IsSquare(D, |ranks[0]|)
    requires forall s, e :: 0 <= s < |D| && 0 <= e < |D| ==> D[s][e] == DefeatGrid(ranks)[s][e]
    ensures RoundInvariant(DefeatGrid(ranks), D, 0, |ranks|)
  {
    var g := DefeatGrid(ranks);
    var c := |g|;
    forall s, e | 0 <= s < c && 0 <= e < c && s != e
      ensures HasWitness(g, s, e, D[s][e])
    {
      assert IsPath([s, e], s, e, c) && Width(g, [s, e]) == D[s][e];
    }
  }

  /**
   * strongest_paths_matrix: start from the direct links and widen through every
   * intermediate candidate; the result holds the strongest-path strength of every pair.
   */
  method StrongestPaths(ranks: seq<Ballot>) returns (r: Result<array2<int>, VoteError>)
    ensures |ranks| == 0 ==> r == Err(NoBallots)
    ensures |ranks| > 0 && !WellFormed(ranks) ==> r == Err(ShortBallot)
    ensures WellFormed(ranks) && |ranks[0]| == 0 ==> r == Err(NoCandidates)
    ensures WellFormed(ranks) && |ranks[0]| > 0 ==>
      && r.Ok? && r.value.Length0 == |ranks[0]| && r.value.Length1 == |ranks[0]|
      && IsStrongestMatrix(DefeatGrid(ranks), Cells(r.value))
      && Bounded(Cells(r.value), |ranks|)
  {
    var pr := PreferenceMatrix(ranks);
    if pr.Err? {
      return Err(pr.error);
    }
    var prefs := pr.value;
    var c := prefs.Length0;
    if c == 0 {
      return Err(NoCandidates);
    }
    ghost var g := DefeatGrid(ranks);
    var d := new int[c, c]((_, _) => 0);
    for i := 0 to c
      modifies d
      invariant forall p, q :: 0 <= p < c && 0 <= q < c ==> d[p, q] == if p < i then g[p][q] else 0
    {
      for j := 0 to c
        modifies d
        invariant forall p, q :: 0 <= p < c && 0 <= q < c ==>
          d[p, q] == if p < i || (p == i && q < j) then g[p][q] else 0
      {
        if i != j {
          if prefs[i, j] > prefs[j, i] {
            d[i, j] := prefs[i, j];
          } else {
            d[i, j] := 0;
          }
        }
      }
    }
    LinksSatisfyInvariant(ranks, Cells(d));
    for i := 0 to c
      invariant d.Length0 == c && d.Length1 == c
      invariant RoundInvariant(g, Cells(d), i, |ranks|)
    {
      ghost var D0 := Cells(d);
      WidenThrough(d, i);
      RoundKeepsClosed(D0, Cells(d), i);
      RoundKeepsWitnessed(g, D0, Cells(d), i);
      RoundIsMonotone(g, D0, Cells(d), i, |ranks|);
    }
    ClosedIsStrongest(g, Cells(d));
    return Ok(d);
  }

  // ----------------------------------------------------------------------
  // Ranks
  // ----------------------------------------------------------------------

  /**
   * Candidate a beats b in the tournament: a's strongest path to b is stronger,
   * and on equal strengths the candidate with the higher index wins.
   */
  ghost predicate Beats(D: Grid, a: int, b: int)
    requires IsSquare(D, |D|) && 0 <= a < |D| && 0 <= b < |D|
  {
    a != b && if a < b then D[a][b] > D[b][a] else D[b][a] <= D[a][b]
  }

  /** The number of candidates y < n that beat candidate x. */
  ghost function Losses(D: Grid, x: int, n: nat): nat
    requires IsSquare(D, |D|) && 0 <= x < |D| && n <= |D|
  {
    if n == 0 then 0 else Losses(D, x, n - 1) + (if Beats(D, n - 1, x) then 1 else 0)
  }

  /** A candidate is never beaten by itself, so at most n - 1 of the first n beat it. */
  lemma {:induction false} LossesBound(D: Grid, x: int, n: nat)
    requires IsSquare(D, |D|) && 0 <= x < n <= |D|
    ensures Losses(D, x, n) <= n - 1
  {
    if n - 1 != x {
      LossesBound(D, x, n - 1);
    } else {
      LossesAtMost(D, x, n - 1);
    }
  }

  lemma {:induction false} LossesAtMost(D: Grid, x: int, n: nat)
    requires IsSquare(D, |D|) && 0 <= x < |D| && n <= |D|
    ensures Losses(D, x, n) <= n
  {
    if n > 0 {
      LossesAtMost(D, x, n - 1);
    }
  }

  /** A candidate that beats every other candidate is beaten by none of them. */
  lemma {:induction false} WinnerHasNoLosses(D: Grid, x: int, n: nat)
    requires IsSquare(D, |D|) && 0 <= x < |D| && n <= |D|
    requires forall y :: 0 <= y < |D| && y != x ==> Beats(D, x, y)
    ensures Losses(D, x, n) == 0
  {
    if n > 0 {
      WinnerHasNoLosses(D, x, n - 1);
      if n - 1 != x {
        assert Beats(D, x, n - 1);
      }
    }
  }

  /** The sum of column x over rows 0 .. n - 1 (numpy's sum along axis 0). */
  function ColumnSum(a: array2<int>, x: nat, n: nat): int
    requires x < a.Length1 && n <= a.Length0
    reads a
  {
    if n == 0 then 0 else ColumnSum(a, x, n - 1) + a[n - 1, x]
  }

  /** Over a 0/1 tournament matrix, a column sum counts the candidates that beat x. */
  lemma {:induction false} ColumnSumCountsLosses(a: array2<int>, D: Grid, x: nat, n: nat)
    requires IsSquare(D, |D|) && a.Length0 == |D| && a.Length1 == |D| && x < |D| && n <= |D|
    requires forall y :: 0 <= y < |D| ==> a[y, x] == if Beats(D, y, x) then 1 else 0
    ensures ColumnSum(a, x, n) == Losses(D, x, n)
  {
    if n > 0 {
      ColumnSumCountsLosses(a, D, x, n - 1);
    }
  }

  /**
   * The rankings matrix of schulze_method: entry [x, y] is 1 exactly when x beats y,
   * so exactly one of [x, y] and [y, x] is 1 for x != y, and the diagonal is 0.
   */
  method Tournament(d: array2<int>) returns (rankings: array2<int>)
    requires d.Length0 == d.Length1
    ensures rankings.Length0 == d.Length0 && rankings.Length1 == d.Length0
    ensures forall x, y :: 0 <= x < d.Length0 && 0 <= y < d.Length0 ==>
      rankings[x, y] == if Beats(Cells(d), x, y) then 1 else 0
    ensures forall x, y :: 0 <= x < d.Length0 && 0 <= y < d.Length0 && x != y ==>
      rankings[x, y] + rankings[y, x] == 1
    ensures forall x :: 0 <= x < d.Length0 ==> rankings[x, x] == 0
  {
    var c := d.Length0;
    ghost var D := Cells(d);
    rankings := new int[c, c]((_, _) => 0);
    for i := 0 to c
      invariant forall p, q :: 0 <= p < c && 0 <= q < c ==>
        rankings[p, q] == if (p < i || q < i) && Beats(D, p, q) then 1 else 0
    {
      for j := i + 1 to c
        invariant forall p, q :: 0 <= p < c && 0 <= q < c ==>
          rankings[p, q] ==
            if (p < i || q < i || (p == i && q < j) || (q == i && p < j)) && Beats(D, p, q) then 1 else 0
      {
        assert D[i][j] == d[i, j] && D[j][i] == d[j, i];
        assert Beats(D, i, j) <==> d[i, j] > d[j, i];
        assert Beats(D, j, i) <==> d[i, j] <= d[j, i];
        rankings[i, j] := if d[i, j] > d[j, i] then 1 else 0;
        rankings[j, i] := if d[i, j] <= d[j, i] then 1 else 0;
      }
    }
  }

  /** Index x holds the last occurrence of its header among the first n headers. */
  ghost predicate LastOf(headers: seq<string>, x: int, n: int)
    requires 0 <= x < n <= |headers|
  {
    forall y :: x < y < n ==> headers[y] != headers[x]
  }

  /**
   * The result of schulze_method for link strengths g: one entry per header of the
   * first c, whose value is 1 plus the number of candidates beating it, for some
   * strongest-path matrix (there is exactly one).
   */
  ghost predicate IsSchulzeResult(g: Grid, headers: seq<string>, results: map<string, int>)
    requires |g| <= |headers|
  {
    var c := |g|;
    && results.Keys == (set x | 0 <= x < c :: headers[x])
    && (forall h :: h in results ==> 1 <= results[h] <= c)
    && exists D :: IsStrongestMatrix(g, D) &&
         forall x :: 0 <= x < c && LastOf(headers, x, c) ==> results[headers[x]] == 1 + Losses(D, x, c)
  }

  /**
   * schulze_method: rank every candidate by 1 plus the number of candidates that beat it
   * along strongest paths, keyed by its header; a repeated header keeps its last candidate.
   */
  method SchulzeMethod(ranks: seq<Ballot>, headers: seq<string>) returns (r: Result<map<string, int>, VoteError>)
    ensures |ranks| == 0 ==> r == Err(NoBallots)
    ensures |ranks| > 0 && !WellFormed(ranks) ==> r == Err(ShortBallot)
    ensures WellFormed(ranks) && |ranks[0]| == 0 ==> r == Err(NoCandidates)
    ensures WellFormed(ranks) && 0 < |ranks[0]| && |headers| < |ranks[0]| ==> r == Err(MissingHeader)
    ensures WellFormed(ranks) && 0 < |ranks[0]| <= |headers| ==>
      r.Ok? && IsSchulzeResult(DefeatGrid(ranks), headers, r.value)
  {
    var sp := StrongestPaths(ranks);
    if sp.Err? {
      return Err(sp.error);
    }
    var d := sp.value;
    var c := d.Length0;
    ghost var D := Cells(d);
    var rankings := Tournament(d);
    r := RankByHeader(rankings, headers);
    if r.Ok? {
      forall x | 0 <= x < c ensures ColumnSum(rankings, x, c) == Losses(D, x, c) {
        ColumnSumCountsLosses(rankings, D, x, c);
      }
      forall h | h in r.value ensures 1 <= r.value[h] <= c {
        var x :| 0 <= x < c && headers[x] == h;
        var y := LastIndexOf(headers, x, c);
        LossesBound(D, y, c);
      }
      assert IsStrongestMatrix(DefeatGrid(ranks), D);
    }
  }

  /**
   * The results loop of schulze_method: the header of candidate x maps to 1 plus
   * the sum of column x; a later candidate with the same header overwrites it.
   */
  method RankByHeader(rankings: array2<int>, headers: seq<string>) returns (r: Result<map<string, int>, VoteError>)
    requires rankings.Length0 == rankings.Length1
    ensures |headers| < rankings.Length0 ==> r == Err(MissingHeader)
    ensures rankings.Length0 <= |headers| ==>
      && r.Ok?
      && r.value.Keys == (set x | 0 <= x < rankings.Length0 :: headers[x])
      && forall x :: 0 <= x < rankings.Length0 && LastOf(headers, x, rankings.Length0) ==>
           r.value[headers[x]] == ColumnSum(rankings, x, rankings.Length0) + 1
  {
    var c := rankings.Length0;
    var results: map<string, int> := map[];
    for index := 0 to c
      invariant index <= |headers|
      invariant results.Keys == set x | 0 <= x < index :: headers[x]
      invariant forall x :: 0 <= x < index && LastOf(headers, x, index) ==>
        results[headers[x]] == ColumnSum(rankings, x, c) + 1
    {
      if index >= |headers| {
        return Err(MissingHeader);
      }
      results := results[headers[index] := ColumnSum(rankings, index, c) + 1];
    }
    return Ok(results);
  }

  /** The last index below n that carries the same header as x. */
  lemma LastIndexOf(headers: seq<string>, x: int, n: int) returns (y: int)
    requires 0 <= x < n <= |headers|
    ensures x <= y < n && headers[y] == headers[x] && LastOf(headers, y, n)
    decreases n - x
  {
    if exists z :: x < z < n && headers[z] == headers[x] {
      var z :| x < z < n && headers[z] == headers[x];
      y := LastIndexOf(headers, z, n);
    } else {
      y := x;
    }
  }

  // ----------------------------------------------------------------------
  // Preference strings
  // ----------------------------------------------------------------------

  /** The 1-based position of the last occurrence of ch in s, or 0 when ch does not occur. */
  function LastPosition(s: string, ch: char): nat
    decreases |s|
  {
    if |s| == 0 then 0
    else if s[|s| - 1] == ch then |s|
    else LastPosition(s[..|s| - 1], ch)
  }

  /** LastPosition finds the last occurrence, and finds one exactly when ch occurs. */
  lemma {:induction false} LastPositionIsLast(s: string, ch: char)
    ensures LastPosition(s, ch) <= |s|
    ensures ch in s <==> LastPosition(s, ch) > 0
    ensures ch in s ==>
      && s[LastPosition(s, ch) - 1] == ch
      && forall q :: LastPosition(s, ch) <= q < |s| ==> s[q] != ch
    decreases |s|
  {
    if |s| > 0 && s[|s| - 1] != ch {
      var init := s[..|s| - 1];
      LastPositionIsLast(init, ch);
      assert s == init + [s[|s| - 1]];
    }
  }

  /** Without repeated characters, every character ranks at its own 1-based position ("ABC" gives A:1, B:2, C:3). */
  lemma DistinctPositions(s: string, i: int)
    requires forall a, b :: 0 <= a < b < |s| ==> s[a] != s[b]
    requires 0 <= i < |s|
    ensures LastPosition(s, s[i]) == i + 1
  {
    LastPositionIsLast(s, s[i]);
  }

  /** prefs_string_to_ranks: each character maps to the 1-based position of its last occurrence. */
  method PrefsStringToRanks(s: string) returns (ranks: map<char, int>)
    ensures forall ch :: ch in ranks <==> ch in s
    ensures forall ch :: ch in ranks ==> ranks[ch] == LastPosition(s, ch)
  {
    ranks := map[];
    for index := 0 to |s|
      invariant forall ch :: ch in ranks <==> ch in s[..index]
      invariant forall ch :: ch in ranks ==> ranks[ch] == LastPosition(s[..index], ch)
    {
      assert s[..index + 1][..index] == s[..index];
      ranks := ranks[s[index] := index + 1];
    }
    assert s[..|s|] == s;
  }
}
