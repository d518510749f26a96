/** Compressed sparse row topology, and what it means to reach a node over a set of arcs. */
module Graphs {

  /** Row offsets and column targets of one relation slot. */
  datatype Csr = Csr(offsets: seq<nat>, targets: seq<nat>) {

    function NodeCount(): nat {
      if offsets == [] then 0 else |offsets| - 1
    }

    function EdgeCount(): nat {
      |targets|
    }

    predicate Valid() {
      && offsets != []
      && offsets[0] == 0
      && offsets[NodeCount()] == |targets|
      && (forall u, w :: 0 <= u <= NodeCount() && u <= w <= NodeCount() ==> offsets[u] <= offsets[w])
      && (forall e :: 0 <= e < |targets| ==> targets[e] < NodeCount())
    }

    function Degree(u: nat): nat
      requires Valid()
      requires u < NodeCount()
    {
      offsets[u + 1] - offsets[u]
    }

    ghost predicate InRow(e: nat, u: nat) {
      u < NodeCount() && offsets[u] <= e < offsets[u + 1]
    }

    lemma SomeRow(e: nat, u: nat)
      requires Valid()
      requires e < EdgeCount()
      requires u < NodeCount() && offsets[u] <= e
      ensures exists w :: InRow(e, w)
      decreases NodeCount() - u
    {
      if e < offsets[u + 1] {
        assert InRow(e, u);
      } else {
        SomeRow(e, u + 1);
      }
    }

    /** The source node of edge e: the row whose offsets enclose it. */
    ghost function Row(e: nat): (u: nat)
      requires Valid()
      requires e < EdgeCount()
      ensures InRow(e, u)
    {
      SomeRow(e, 0);
      var u :| InRow(e, u);
      u
    }

    /** Every edge lies in exactly one row. */
    lemma RowIsUnique(e: nat, u: nat)
      requires Valid()
      requires e < EdgeCount()
      ensures InRow(e, u) <==> Row(e) == u
    {
    }

    /** The edges that leave u. */
    ghost function OutEdges(u: nat): set<nat>
      requires Valid()
    {
      set e: nat | e < EdgeCount() && Row(e) == u
    }

    /** A degree counts the edges leaving the node. */
    lemma DegreeCounts(u: nat)
      requires Valid() && u < NodeCount()
      ensures Degree(u) == |OutEdges(u)|
    {
      var run := Interval(offsets[u], offsets[u + 1]);
      forall e: nat ensures e in OutEdges(u) <==> e in run {
        if e < EdgeCount() {
          RowIsUnique(e, u);
        }
      }
      assert OutEdges(u) == run;
    }

    /** The arc that edge e stands for; a column walk follows it backwards. */
    ghost function Ends(e: nat, reverse: bool): (a: (nat, nat))
      requires Valid()
      requires e < EdgeCount()
      ensures a.0 < NodeCount() && a.1 < NodeCount()
    {
      if reverse then (targets[e], Row(e)) else (Row(e), targets[e])
    }
  }

  ghost function Interval(a: nat, b: nat): (s: set<nat>)
    requires a <= b
    ensures |s| == b - a && forall e: nat :: e in s <==> a <= e < b
  {
    if a == b then {} else Interval(a, b - 1) + {b - 1}
  }

  type Arc = (nat, nat)

  /** The nodes one step away from s. */
  ghost function Image(arcs: set<Arc>, s: set<nat>): set<nat> {
    set a | a in arcs && a.0 in s :: a.1
  }

  ghost predicate IsPath(arcs: set<Arc>, p: seq<nat>) {
    && p != []
    && forall i :: 0 <= i < |p| - 1 ==> (p[i], p[i + 1]) in arcs
  }

  ghost predicate Connects(arcs: set<Arc>, from: set<nat>, v: nat, p: seq<nat>) {
    IsPath(arcs, p) && p[0] in from && p[|p| - 1] == v
  }

  /** v can be reached from some node of `from` in zero or more steps. */
  ghost predicate Reaches(arcs: set<Arc>, from: set<nat>, v: nat) {
    exists p :: Connects(arcs, from, v, p)
  }

  /** v can be reached from some node of `from` in at most h steps. */
  ghost predicate ReachesIn(arcs: set<Arc>, from: set<nat>, v: nat, h: nat) {
    exists p :: Connects(arcs, from, v, p) && |p| <= h + 1
  }

  /** s is closed under arcs. */
  ghost predicate Closed(arcs: set<Arc>, s: set<nat>) {
    Image(arcs, s) <= s
  }

  lemma ReachesStart(arcs: set<Arc>, from: set<nat>, v: nat)
    requires v in from
    ensures Reaches(arcs, from, v)
    ensures ReachesIn(arcs, from, v, 0)
  {
    assert Connects(arcs, from, v, [v]);
  }

  lemma ReachesStep(arcs: set<Arc>, from: set<nat>, u: nat, v: nat)
    requires Reaches(arcs, from, u)
    requires (u, v) in arcs
    ensures Reaches(arcs, from, v)
  {
    var p :| Connects(arcs, from, u, p);
    assert Connects(arcs, from, v, p + [v]);
  }

  lemma ReachesInStep(arcs: set<Arc>, from: set<nat>, u: nat, v: nat, h: nat)
    requires ReachesIn(arcs, from, u, h)
    requires (u, v) in arcs
    ensures ReachesIn(arcs, from, v, h + 1)
  {
    var p :| Connects(arcs, from, u, p) && |p| <= h + 1;
    assert Connects(arcs, from, v, p + [v]);
  }

  /** A path never leaves a closed set that holds its first node. */
  lemma {:induction false} PathStaysInside(arcs: set<Arc>, s: set<nat>, p: seq<nat>)
    requires IsPath(arcs, p)
    requires Closed(arcs, s)
    requires p[0] in s
    ensures p[|p| - 1] in s
  {
    if |p| > 1 {
      var q := p[..|p| - 1];
      PathStaysInside(arcs, s, q);
      var a := (p[|p| - 2], p[|p| - 1]);
      assert a in arcs;
      assert a.1 in Image(arcs, s);
    }
  }

  lemma ClosedHoldsReachable(arcs: set<Arc>, from: set<nat>, s: set<nat>, v: nat)
    requires Closed(arcs, s)
    requires from <= s
    requires Reaches(arcs, from, v)
    ensures v in s
  {
    var p :| Connects(arcs, from, v, p);
    PathStaysInside(arcs, s, p);
  }

  /** Being within h + 1 steps is being within h steps, or one arc past a node that is. */
  lemma ReachesInSplit(arcs: set<Arc>, from: set<nat>, v: nat, h: nat)
    ensures ReachesIn(arcs, from, v, h + 1) <==>
            ReachesIn(arcs, from, v, h) || exists u :: (u, v) in arcs && ReachesIn(arcs, from, u, h)
  {
    if ReachesIn(arcs, from, v, h + 1) && !ReachesIn(arcs, from, v, h) {
      var p :| Connects(arcs, from, v, p) && |p| <= h + 2;
      if |p| == 1 {
        assert false;
      }
      var u := p[|p| - 2];
      assert Connects(arcs, from, u, p[..|p| - 1]);
      assert (u, v) in arcs;
    }
    if u :| (u, v) in arcs && ReachesIn(arcs, from, u, h) {
      ReachesInStep(arcs, from, u, v, h);
    }
  }

  // ---- Walking backwards ----

  /** Every arc turned round. */
  ghost function Converse(arcs: set<Arc>): set<Arc> {
    set a | a in arcs :: (a.1, a.0)
  }

  ghost function Backwards(p: seq<nat>): (q: seq<nat>)
    ensures |q| == |p| && forall i :: 0 <= i < |p| ==> q[i] == p[|p| - 1 - i]
  {
    seq(|p|, (i: nat) requires i < |p| => p[|p| - 1 - i])
  }

  lemma PathBackwards(arcs: set<Arc>, u: nat, v: nat, p: seq<nat>)
    requires Connects(arcs, {u}, v, p)
    ensures Connects(Converse(arcs), {v}, u, Backwards(p))
  {
    var q := Backwards(p);
    forall i | 0 <= i < |q| - 1 ensures (q[i], q[i + 1]) in Converse(arcs) {
      var j := |p| - 2 - i;
      assert (p[j], p[j + 1]) in arcs;
    }
  }

  /** s reaches v over the arcs turned round exactly when v reaches s over the arcs. */
  lemma ConverseReaches(arcs: set<Arc>, s: nat, v: nat)
    ensures Reaches(Converse(arcs), {s}, v) <==> Reaches(arcs, {v}, s)
  {
    if Reaches(arcs, {v}, s) {
      var p :| Connects(arcs, {v}, s, p);
      PathBackwards(arcs, v, s, p);
    }
    if Reaches(Converse(arcs), {s}, v) {
      var p :| Connects(Converse(arcs), {s}, v, p);
      PathBackwards(Converse(arcs), s, v, p);
      assert Converse(Converse(arcs)) == arcs by {
        forall a ensures a in Converse(Converse(arcs)) <==> a in arcs {
          if a in arcs {
            assert (a.1, a.0) in Converse(arcs);
          }
        }
      }
    }
  }
}
