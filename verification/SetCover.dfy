/** OP_LANE_SET_COVER (0xC9, flags == 0): greedy witness cover of the active lanes. */
module SetCover {
  import opened Words
  import opened LaneWalks

  // ---- Greedy covers of the lanes 0, ..., k - 1, when node u holds the lanes holds[u] ----

  ghost function At(holds: seq<set<nat>>, u: nat): set<nat> {
    if u < |holds| then holds[u] else {}
  }

  /** The lanes that none of the chosen nodes holds. */
  ghost function Uncovered(k: nat, holds: seq<set<nat>>, picks: seq<nat>): set<nat> {
    if picks == [] then FirstLanes(k)
    else Uncovered(k, holds, picks[..|picks| - 1]) - At(holds, picks[|picks| - 1])
  }

  /** u gains the most among the first m nodes, and more than every node of lower ID. */
  ghost predicate Best(holds: seq<set<nat>>, rest: set<nat>, m: nat, u: nat) {
    && u < m
    && (forall w :: 0 <= w < u ==> |rest * At(holds, w)| < |rest * At(holds, u)|)
    && (forall w :: u <= w < m ==> |rest * At(holds, w)| <= |rest * At(holds, u)|)
  }

  /** Every pick is the lowest-numbered node of largest gain at its time, and covers a new lane. */
  ghost predicate Greedy(k: nat, holds: seq<set<nat>>, picks: seq<nat>) {
    picks != [] ==>
      var before, u := picks[..|picks| - 1], picks[|picks| - 1];
      var rest := Uncovered(k, holds, before);
      && Greedy(k, holds, before)
      && Best(holds, rest, |holds|, u)
      && |rest * At(holds, u)| > 0
  }

  lemma {:induction false} UncoveredSnoc(k: nat, holds: seq<set<nat>>, picks: seq<nat>, u: nat)
    ensures Uncovered(k, holds, picks + [u]) == Uncovered(k, holds, picks) - At(holds, u)
    ensures |Uncovered(k, holds, picks + [u])|
         == |Uncovered(k, holds, picks)| - |Uncovered(k, holds, picks) * At(holds, u)|
  {
    var rest := Uncovered(k, holds, picks);
    assert (picks + [u])[..|picks|] == picks;
    assert rest == (rest - At(holds, u)) + rest * At(holds, u);
  }

  lemma {:induction false} GreedySnoc(k: nat, holds: seq<set<nat>>, picks: seq<nat>, u: nat)
    requires Greedy(k, holds, picks)
    requires Best(holds, Uncovered(k, holds, picks), |holds|, u)
    requires |Uncovered(k, holds, picks) * At(holds, u)| > 0
    ensures Greedy(k, holds, picks + [u])
  {
    assert (picks + [u])[..|picks|] == picks;
  }

  // ---- The opcode ----

  /** What each node of a frontier holds. */
  ghost function Holds(f: Frontier): seq<set<nat>> {
    seq(|f.lanes|, (u: nat) requires u < |f.lanes| => f.lanes[u].Lanes())
  }

  /** Scans the nodes in ascending order with a strict comparison, so the lowest ID wins ties. */
  method FindBest(f: Frontier, uncovered: Word) returns (u: nat, gain: nat)
    requires f.lanes != []
    ensures Best(Holds(f), uncovered.Lanes(), |f.lanes|, u)
    ensures gain == |uncovered.Lanes() * At(Holds(f), u)|
  {
    GainWord(f, uncovered, 0);
    u, gain := 0, PopCount(uncovered.And(f.lanes[0]));
    for w := 1 to |f.lanes|
      invariant Best(Holds(f), uncovered.Lanes(), w, u)
      invariant gain == |uncovered.Lanes() * At(Holds(f), u)|
    {
      GainWord(f, uncovered, w);
      var g := PopCount(uncovered.And(f.lanes[w]));
      if g > gain {
        u, gain := w, g;
      }
    }
  }

  lemma GainWord(f: Frontier, uncovered: Word, u: nat)
    requires u < |f.lanes|
    ensures PopCount(uncovered.And(f.lanes[u])) == |uncovered.Lanes() * At(Holds(f), u)|
  {
    AndLanes(uncovered, f.lanes[u]);
    PopCountIsSize(uncovered.And(f.lanes[u]));
  }

  /** No node would add a lane. */
  ghost predicate Stuck(holds: seq<set<nat>>, rest: set<nat>) {
    forall u :: 0 <= u < |holds| ==> |rest * At(holds, u)| == 0
  }

  /** The loop state: what is uncovered after the greedy picks made so far. */
  ghost predicate Covering(f: Frontier, picks: seq<nat>, uncovered: Word) {
    && uncovered.Lanes() == Uncovered(f.k, Holds(f), picks)
    && Greedy(f.k, Holds(f), picks)
    && |picks| + |uncovered.Lanes()| <= f.k
  }

  /** The greedy loop: stops when all is covered, maxK nodes are chosen, or no node adds a lane. */
  method GreedyCover(n: nat, f: Frontier, maxK: nat) returns (picks: seq<nat>, zf: bool)
    requires f.Valid(n)
    ensures Greedy(f.k, Holds(f), picks)
    ensures |picks| <= Min(maxK, f.k)
    ensures |picks| < maxK && zf ==> Stuck(Holds(f), Uncovered(f.k, Holds(f), picks))
    ensures zf <==> Uncovered(f.k, Holds(f), picks) != {}
  {
    picks := [];
    var uncovered := ActiveMask(f.k);
    ActiveMaskLanes(f.k);
    var stuck := n == 0;
    while |picks| < maxK && !uncovered.IsZero() && !stuck
      invariant Covering(f, picks, uncovered)
      invariant |picks| <= maxK
      invariant if stuck then Stuck(Holds(f), uncovered.Lanes()) else n > 0
      decreases f.k - |picks|, !stuck
    {
      var u, gain := FindBest(f, uncovered);
      if gain == 0 {
        stuck := true;
      } else {
        TakePick(f, picks, uncovered, u);
        picks := picks + [u];
        uncovered := uncovered.Minus(f.lanes[u]);
      }
    }
    ZeroLanes(uncovered);
    zf := !uncovered.IsZero();
  }

  lemma TakePick(f: Frontier, picks: seq<nat>, uncovered: Word, u: nat)
    requires u < |f.lanes|
    requires Covering(f, picks, uncovered)
    requires Best(Holds(f), uncovered.Lanes(), |f.lanes|, u)
    requires |uncovered.Lanes() * At(Holds(f), u)| > 0
    ensures Covering(f, picks + [u], uncovered.Minus(f.lanes[u]))
    ensures |picks| < f.k
  {
    UncoveredSnoc(f.k, Holds(f), picks, u);
    GreedySnoc(f.k, Holds(f), picks, u);
    MinusLanes(uncovered, f.lanes[u]);
  }

  // ---- The approximation bound ----

  ghost predicate CoveredBy(holds: seq<set<nat>>, cover: set<nat>, b: nat) {
    exists u :: u in cover && b in At(holds, u)
  }

  /** The nodes of `cover` together hold every one of the k lanes. */
  ghost predicate Covers(k: nat, holds: seq<set<nat>>, cover: set<nat>) {
    && (forall u :: u in cover ==> u < |holds|)
    && (forall b :: 0 <= b < k ==> CoveredBy(holds, cover, b))
  }

  ghost function Pow(m: nat, t: nat): nat {
    if t == 0 then 1 else m * Pow(m, t - 1)
  }

  /** A cover splits what is left into at most |cover| shares, none above the best gain. */
  lemma {:induction false} SharesBound(holds: seq<set<nat>>, all: set<nat>, rest: set<nat>, cover: set<nat>, g: nat)
    requires rest <= all
    requires forall b :: b in rest ==> CoveredBy(holds, cover, b)
    requires forall u :: u in cover ==> |all * At(holds, u)| <= g
    ensures |rest| <= |cover| * g
    decreases |cover|
  {
    if cover == {} {
      assert rest == {};
    } else {
      var u :| u in cover;
      var others := cover - {u};
      forall b | b in rest - At(holds, u) ensures CoveredBy(holds, others, b) {
        var w :| w in cover && b in At(holds, w);
        assert w in others;
      }
      SharesBound(holds, all, rest - At(holds, u), others, g);
      ShareStep(all, rest, At(holds, u), |cover|, g);
    }
  }

  lemma ShareStep(all: set<nat>, rest: set<nat>, held: set<nat>, m: nat, g: nat)
    requires rest <= all
    requires |all * held| <= g
    requires m > 0
    requires |rest - held| <= (m - 1) * g
    ensures |rest| <= m * g
  {
    SubsetSize(rest * held, all * held);
    assert rest == (rest - held) + rest * held;
    assert m * g == (m - 1) * g + g;
  }

  lemma {:induction false} UncoveredActive(k: nat, holds: seq<set<nat>>, picks: seq<nat>)
    ensures Uncovered(k, holds, picks) <= FirstLanes(k)
  {
    if picks != [] {
      UncoveredActive(k, holds, picks[..|picks| - 1]);
    }
  }

  /** The best gain is at least an |cover|-th part of what is uncovered. */
  lemma {:induction false} GainBound(k: nat, holds: seq<set<nat>>, picks: seq<nat>, u: nat, cover: set<nat>)
    requires Best(holds, Uncovered(k, holds, picks), |holds|, u)
    requires Covers(k, holds, cover)
    ensures |Uncovered(k, holds, picks)| <= |cover| * |Uncovered(k, holds, picks) * At(holds, u)|
  {
    var rest := Uncovered(k, holds, picks);
    UncoveredActive(k, holds, picks);
    forall w | w in cover ensures |rest * At(holds, w)| <= |rest * At(holds, u)| {
      assert w < |holds|;
    }
    SharesBound(holds, rest, rest, cover, |rest * At(holds, u)|);
  }

  /** left <= ((m - 1) / m)^t * k, without division. */
  ghost predicate Decayed(m: nat, t: nat, left: nat, k: nat)
    requires m > 0
  {
    Pow(m, t) * left <= Pow(m - 1, t) * k
  }

  /**
   * If some m nodes cover every active lane, then t greedy picks leave at most a fraction
   * ((m - 1) / m)^t of the k lanes uncovered.
   */
  lemma {:induction false} GreedyBound(k: nat, holds: seq<set<nat>>, picks: seq<nat>, cover: set<nat>)
    requires Greedy(k, holds, picks)
    requires Covers(k, holds, cover) && cover != {}
    ensures Decayed(|cover|, |picks|, |Uncovered(k, holds, picks)|, k)
  {
    if picks != [] {
      var before, u := picks[..|picks| - 1], picks[|picks| - 1];
      GreedyBound(k, holds, before, cover);
      GainBound(k, holds, before, u, cover);
      assert picks == before + [u];
      UncoveredSnoc(k, holds, before, u);
      var rest := Uncovered(k, holds, before);
      DecayStep(|cover|, |before|, |rest|, |rest * At(holds, u)|, k);
    }
  }

  /** Removing at least an m-th part of what is left decays it once more. */
  lemma DecayStep(m: nat, t: nat, left: nat, g: nat, k: nat)
    requires m > 0 && Decayed(m, t, left, k)
    requires g <= left <= m * g
    ensures Decayed(m, t + 1, left - g, k)
  {
    DecayArithmetic(m, Pow(m, t), Pow(m - 1, t), left, g, k);
  }

  lemma {:induction false} GreedyInit(k: nat, holds: seq<set<nat>>, picks: seq<nat>)
    requires Greedy(k, holds, picks) && picks != []
    ensures Greedy(k, holds, picks[..|picks| - 1])
  {
  }

  lemma PrefixOfPrefix(picks: seq<nat>, t: nat, n: nat)
    requires t <= n <= |picks|
    ensures picks[..n][..t] == picks[..t] && picks[..|picks|] == picks
  {
  }

  /** The bound holds after each of the picks, not only after the last. */
  lemma {:induction false} GreedyPrefix(k: nat, holds: seq<set<nat>>, picks: seq<nat>, t: nat)
    requires Greedy(k, holds, picks)
    requires t <= |picks|
    ensures Greedy(k, holds, picks[..t])
  {
    var before := picks[..|picks| - (if t < |picks| then 1 else 0)];
    PrefixOfPrefix(picks, t, |before|);
    if t < |picks| {
      GreedyInit(k, holds, picks);
      GreedyPrefix(k, holds, before, t);
    }
  }

  lemma DecayArithmetic(m: nat, p: nat, q: nat, left: nat, g: nat, k: nat)
    requires m > 0
    requires p * left <= q * k
    requires left <= m * g
    ensures (m * p) * (left - g) <= ((m - 1) * q) * k
  {
    Distribute(m, p, left, g);
    MulMonotone(p, m * left - m * g, (m - 1) * left);
    Reorder(p, m - 1, left);
    MulMonotone(m - 1, p * left, q * k);
    Reorder(m - 1, q, k);
  }

  lemma MulMonotone(a: nat, x: int, y: int)
    requires x <= y
    ensures a * x <= a * y
  {
  }

  lemma Distribute(m: int, p: int, before: int, g: int)
    ensures (m * p) * (before - g) == p * (m * before - m * g)
    ensures m * before - m * g == (m - 1) * before + (before - m * g)
  {
  }

  lemma Reorder(a: int, b: int, c: int)
    ensures a * (b * c) == b * (a * c)
    ensures a * (b * c) == (a * b) * c
  {
  }

  /** When a cover exists, lanes stay uncovered only because maxK was reached. */
  lemma {:induction false} StuckMeansCovered(k: nat, holds: seq<set<nat>>, picks: seq<nat>, cover: set<nat>)
    requires Covers(k, holds, cover)
    requires Stuck(holds, Uncovered(k, holds, picks))
    ensures Uncovered(k, holds, picks) == {}
  {
    var rest := Uncovered(k, holds, picks);
    UncoveredActive(k, holds, picks);
    SharesBound(holds, rest, rest, cover, 0);
  }
}
