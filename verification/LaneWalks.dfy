/** Lane frontiers and the opcodes that seed, trip and walk them (0xC0 to 0xC4). */
module LaneWalks {
  import opened Graphs
  import opened Words

  /** Per-edge trip masks, keyed by relation and edge index; an absent edge is tripped in no lane. */
  type Trips = map<(nat, nat), Word>

  function TripMask(trips: Trips, rel: nat, e: nat): Word {
    if (rel, e) in trips then trips[(rel, e)] else Zero
  }

  /** The nodes whose word sets lane b. */
  ghost function Slice(lanes: seq<Word>, b: nat): set<nat> {
    set u | 0 <= u < |lanes| && lanes[u].Bit(b)
  }

  /** A multi-lane frontier: one word per node, k active lanes, and the attached trip masks. */
  datatype Frontier = Frontier(k: nat, lanes: seq<Word>, trips: Trips) {

    /** No node has a bit outside active_mask(k). */
    ghost predicate Valid(n: nat) {
      && k <= 64
      && |lanes| == n
      && forall u :: 0 <= u < n ==> Within(lanes[u], k)
    }

    ghost function Nodes(b: nat): set<nat> {
      Slice(lanes, b)
    }

    ghost predicate Empty() {
      forall u :: 0 <= u < |lanes| ==> lanes[u] == Zero
    }
  }

  function Min(a: int, b: int): int {
    if a < b then a else b
  }

  // ---- 0xC0 OP_LANE_INIT_SEEDS, 0xC1 OP_LANE_INIT_GROUPS ----

  /** The nodes that `marks` assigns to lane g. */
  ghost function Marked(marks: seq<(nat, nat)>, g: nat): set<nat> {
    set i | 0 <= i < |marks| && marks[i].1 == g :: marks[i].0
  }

  /** lanes[node] |= 1 << lane for each (node, lane) pair, dropping lanes from k up. */
  method MarkLanes(n: nat, k: nat, marks: seq<(nat, nat)>) returns (f: Frontier)
    requires k <= 64
    requires forall i :: 0 <= i < |marks| ==> marks[i].0 < n
    ensures f.Valid(n) && f.k == k && f.trips == map[]
    ensures forall b :: 0 <= b < k ==> f.Nodes(b) == Marked(marks, b)
  {
    var lanes := new Word[n](_ => Zero);
    ZeroWithin(k);
    forall b: nat ensures !Zero.Bit(b) {
      BitZero(b);
    }
    for i := 0 to |marks|
      invariant forall u :: 0 <= u < n ==> Within(lanes[u], k)
      invariant forall b :: 0 <= b < k ==> Slice(lanes[..], b) == Marked(marks[..i], b)
    {
      var (u, g) := marks[i];
      ghost var before := lanes[..];
      assert marks[..i + 1] == marks[..i] + [marks[i]];
      if g < k {
        OrKeepsWithin(lanes[u], g, k);
        lanes[u] := lanes[u].Or(LaneBit(g));
        forall b | 0 <= b < k ensures Slice(lanes[..], b) == Marked(marks[..i + 1], b) {
          assert lanes[..] == before[u := before[u].Or(LaneBit(g))];
          OrLaneSlice(before, u, g, b);
          MarkedSnoc(marks[..i], marks[i], b);
        }
      } else {
        forall b | 0 <= b < k ensures Slice(lanes[..], b) == Marked(marks[..i + 1], b) {
          MarkedSnoc(marks[..i], marks[i], b);
        }
      }
    }
    assert marks[..|marks|] == marks;
    f := Frontier(k, lanes[..], map[]);
  }

  lemma ZeroWithin(k: nat)
    ensures Within(Zero, k)
  {
  }

  lemma {:induction false} OrKeepsWithin(w: Word, g: nat, k: nat)
    requires k <= 64
    requires Within(w, k) && g < k
    ensures Within(w.Or(LaneBit(g)), k)
  {
    WithinLanes(w, k);
    WithinLanes(w.Or(LaneBit(g)), k);
    OrLanes(w, LaneBit(g));
    LaneBitLanes(g);
  }

  lemma {:induction false} OrLaneSlice(lanes: seq<Word>, u: nat, g: nat, b: nat)
    requires u < |lanes| && g < 64
    ensures Slice(lanes[u := lanes[u].Or(LaneBit(g))], b)
         == Slice(lanes, b) + (if b == g then {u} else {})
  {
    BitOr(lanes[u], LaneBit(g), b);
    BitLaneBit(g, b);
    UpdateSlice(lanes, u, lanes[u].Or(LaneBit(g)), b);
  }

  lemma MarkedSnoc(marks: seq<(nat, nat)>, m: (nat, nat), b: nat)
    ensures Marked(marks + [m], b) == Marked(marks, b) + (if m.1 == b then {m.0} else {})
  {
    var all := marks + [m];
    forall v | v in Marked(marks, b) ensures v in Marked(all, b) {
      var i :| 0 <= i < |marks| && marks[i].1 == b && marks[i].0 == v;
      assert all[i] == marks[i];
    }
    if m.1 == b {
      assert all[|marks|] == m;
    }
  }

  /** Seed node s_b for each lane b: a vector (or run of node IDs) seeds its first 64 entries. */
  method InitSeeds(n: nat, seeds: seq<nat>) returns (f: Frontier)
    requires forall i :: 0 <= i < |seeds| ==> seeds[i] < n
    ensures f.Valid(n) && f.k == Min(64, |seeds|) && f.trips == map[]
    ensures forall b :: 0 <= b < f.k ==> f.Nodes(b) == {seeds[b]}
  {
    var k := Min(64, |seeds|);
    var marks := seq(k, (i: nat) requires i < k => (seeds[i], i));
    f := MarkLanes(n, k, marks);
    forall b | 0 <= b < k ensures f.Nodes(b) == {seeds[b]} {
      assert marks[b] == (seeds[b], b);
      assert seeds[b] in Marked(marks, b);
    }
  }

  /** A scalar seed s_0: one lane, or with flag bit 0 the contiguous run s_0, s_0 + 1, ... */
  method InitSeedRun(n: nat, s0: nat, contiguous: bool, count: nat) returns (f: Frontier)
    requires s0 + (if contiguous && count > 1 then Min(64, count) else 1) <= n
    ensures f.Valid(n) && f.trips == map[]
    ensures f.k == if contiguous && count > 1 then Min(64, count) else 1
    ensures forall b :: 0 <= b < f.k ==> f.Nodes(b) == {s0 + b}
  {
    var k := if contiguous && count > 1 then Min(64, count) else 1;
    f := InitSeeds(n, seq(k, i => s0 + i));
  }

  /** No seed register: k lanes, with node b in every lane b or just node 0 in lane 0. */
  method InitDefaultSeeds(n: nat, k: nat, every: bool) returns (f: Frontier)
    requires 0 < k <= 64 && (if every then k else 1) <= n
    ensures f.Valid(n) && f.k == k && f.trips == map[]
    ensures forall b :: 0 <= b < k ==> f.Nodes(b) == if every || b == 0 then {b} else {}
  {
    var marks := seq(if every then k else 1, i => (i, i));
    f := MarkLanes(n, k, marks);
    forall b | 0 <= b < k ensures f.Nodes(b) == if every || b == 0 then {b} else {} {
      if b < |marks| {
        assert marks[b] == (b, b);
        assert b in Marked(marks, b);
      }
    }
  }

  /** The members of s below u. */
  ghost function Below(s: set<nat>, u: nat): set<nat> {
    set x | x in s && x < u
  }

  /** seeds lists the smallest members of s in ascending order: seeds[b] is the b-th smallest. */
  ghost predicate Ascending(s: set<nat>, seeds: seq<nat>) {
    forall b :: 0 <= b < |seeds| ==> seeds[b] in s && |Below(s, seeds[b])| == b
  }

  /** The first 64 members of a bit set over n nodes, in ascending node order. */
  method FirstMembers(n: nat, s: set<nat>) returns (seeds: seq<nat>)
    requires forall x :: x in s ==> x < n
    ensures |seeds| == Min(64, |s|)
    ensures Ascending(s, seeds)
  {
    seeds := [];
    var u := 0;
    assert Below(s, 0) == {};
    while u < n && |seeds| < 64
      invariant u <= n
      invariant |seeds| == |Below(s, u)| <= 64
      invariant Ascending(s, seeds)
    {
      BelowNext(s, u);
      if u in s {
        seeds := seeds + [u];
      }
      u := u + 1;
    }
    BelowAll(s, u, n);
  }

  lemma BelowNext(s: set<nat>, u: nat)
    ensures Below(s, u + 1) == Below(s, u) + (if u in s then {u} else {})
    ensures |Below(s, u + 1)| == |Below(s, u)| + (if u in s then 1 else 0)
  {
    assert Below(s, u + 1) == Below(s, u) + (if u in s then {u} else {});
  }

  lemma SubsetSize<T>(s: set<T>, t: set<T>)
    requires s <= t
    ensures |s| <= |t|
    ensures |s| == |t| ==> s == t
  {
    assert t == s + (t - s);
  }

  lemma BelowAll(s: set<nat>, u: nat, n: nat)
    requires forall x :: x in s ==> x < n
    ensures |Below(s, u)| <= |s|
    ensures u >= n ==> |Below(s, u)| == |s|
  {
    SubsetSize(Below(s, u), s);
    if u >= n {
      assert Below(s, u) == s;
    }
  }

  /** Lane b of a frontier seeded from a bit set holds the b-th smallest member. */
  method InitSeedsFromBitset(n: nat, s: set<nat>) returns (f: Frontier, ghost seeds: seq<nat>)
    requires forall x :: x in s ==> x < n
    ensures f.Valid(n) && f.k == |seeds| == Min(64, |s|) && f.trips == map[]
    ensures Ascending(s, seeds)
    ensures forall b :: 0 <= b < f.k ==> f.Nodes(b) == {seeds[b]}
  {
    var first := FirstMembers(n, s);
    f := InitSeeds(n, first);
    seeds := first;
  }

  /** The node and group packed into one vector entry as `(group << 32) | node`. */
  function Unpack(entry: nat): (r: (nat, nat))
    ensures entry == r.1 * 0x1_0000_0000 + r.0 && r.0 < 0x1_0000_0000
  {
    (entry % 0x1_0000_0000, entry / 0x1_0000_0000)
  }

  /** Several seeds may share a group lane; `groups` is absent when the entries are packed. */
  method InitGroups(n: nat, nodes: seq<nat>, groups: seq<nat>, packed: bool, numGroups: nat)
    returns (f: Frontier, ghost marks: seq<(nat, nat)>)
    requires !packed ==> |groups| == |nodes|
    requires forall i :: 0 <= i < |nodes| ==> (if packed then Unpack(nodes[i]).0 else nodes[i]) < n
    ensures f.Valid(n) && f.k == Min(64, numGroups) && f.trips == map[]
    ensures |marks| == |nodes|
    ensures forall i :: 0 <= i < |nodes| ==>
              marks[i] == if packed then Unpack(nodes[i]) else (nodes[i], groups[i])
    ensures forall g :: 0 <= g < f.k ==> f.Nodes(g) == Marked(marks, g)
    ensures forall g, u: nat :: 0 <= g < f.k ==> (u in f.Nodes(g) <==> Grouped(nodes, groups, packed, g, u))
  {
    var pairs := seq(|nodes|, (i: nat)
                   requires i < |nodes| && (!packed ==> |groups| == |nodes|) =>
                   if packed then Unpack(nodes[i]) else (nodes[i], groups[i]));
    f := MarkLanes(n, Min(64, numGroups), pairs);
    marks := pairs;
    forall g, u: nat | 0 <= g < f.k ensures u in f.Nodes(g) <==> Grouped(nodes, groups, packed, g, u) {
      MarkedIsGrouped(nodes, groups, packed, marks, g, u);
    }
  }

  /** Some entry puts node u into group g: `(g << 32) | u`, or u paired with g. */
  ghost predicate Grouped(nodes: seq<nat>, groups: seq<nat>, packed: bool, g: nat, u: nat)
    requires !packed ==> |groups| == |nodes|
  {
    exists i :: 0 <= i < |nodes| && if packed then nodes[i] == g * 0x1_0000_0000 + u && u < 0x1_0000_0000
                                    else nodes[i] == u && groups[i] == g
  }

  lemma MarkedIsGrouped(nodes: seq<nat>, groups: seq<nat>, packed: bool, marks: seq<(nat, nat)>, g: nat, u: nat)
    requires (!packed ==> |groups| == |nodes|) && |marks| == |nodes|
    requires forall i :: 0 <= i < |nodes| ==> marks[i] == if packed then Unpack(nodes[i]) else (nodes[i], groups[i])
    ensures u in Marked(marks, g) <==> Grouped(nodes, groups, packed, g, u)
  {
    if u in Marked(marks, g) {
      var i :| 0 <= i < |marks| && marks[i].1 == g && marks[i].0 == u;
      assert marks[i] == (u, g) && nodes[i] >= 0;
    }
    if Grouped(nodes, groups, packed, g, u) {
      var i :| 0 <= i < |nodes| && if packed then nodes[i] == g * 0x1_0000_0000 + u && u < 0x1_0000_0000
                                   else nodes[i] == u && groups[i] == g;
      assert marks[i] == (u, g);
    }
  }

  // ---- 0xC2 OP_LANE_SET_EDGE_MASK ----

  /** Trips edge e of relation rel in lane b. */
  function Trip(trips: Trips, rel: nat, b: nat, e: nat): Trips {
    trips[(rel, e) := TripMask(trips, rel, e).Or(LaneBit(b))]
  }

  lemma {:induction false} TripBit(trips: Trips, rel: nat, b: nat, e: nat, r: nat, d: nat, c: nat)
    requires b < 64
    ensures TripMask(Trip(trips, rel, b, e), r, d).Bit(c)
       <==> TripMask(trips, r, d).Bit(c) || (r, d, c) == (rel, e, b)
  {
    BitOr(TripMask(trips, rel, e), LaneBit(b), c);
    BitLaneBit(b, c);
  }

  /** Clones src and removes edge e of rel in lane b for each (b, e) listed, keeping earlier trips. */
  method SetEdgeMask(src: Frontier, rel: nat, cuts: seq<(nat, nat)>) returns (f: Frontier)
    requires forall i :: 0 <= i < |cuts| ==> cuts[i].0 < 64
    ensures f.k == src.k && f.lanes == src.lanes
    ensures forall r: nat, e: nat, b: nat :: TripMask(f.trips, r, e).Bit(b) <==>
              TripMask(src.trips, r, e).Bit(b) || (r == rel && (b, e) in cuts)
  {
    var trips := src.trips;
    for i := 0 to |cuts|
      invariant forall r: nat, e: nat, b: nat :: TripMask(trips, r, e).Bit(b) <==>
                  TripMask(src.trips, r, e).Bit(b) || (r == rel && (b, e) in cuts[..i])
    {
      ghost var before := trips;
      var (lane, edge) := cuts[i];
      trips := Trip(trips, rel, lane, edge);
      assert cuts[..i + 1] == cuts[..i] + [cuts[i]];
      forall r: nat, e: nat, b: nat
        ensures TripMask(trips, r, e).Bit(b) <==>
                TripMask(src.trips, r, e).Bit(b) || (r == rel && (b, e) in cuts[..i + 1])
      {
        TripBit(before, rel, lane, edge, r, e, b);
      }
    }
    assert cuts[..|cuts|] == cuts;
    f := src.(trips := trips);
  }

  /** A vector operand lists (lane << 32) | edge entries under flag bit 0, else one edge per lane. */
  function CutsOfVector(vec: seq<nat>, packed: bool): (cuts: seq<(nat, nat)>)
    ensures |cuts| == if packed then |vec| else Min(64, |vec|)
    ensures forall i :: 0 <= i < |cuts| ==>
              if packed then vec[i] == cuts[i].0 * 0x1_0000_0000 + cuts[i].1 && cuts[i].1 < 0x1_0000_0000
              else cuts[i] == (i, vec[i])
  {
    if packed then
      seq(|vec|, (i: nat) requires i < |vec| => (Unpack(vec[i]).1, Unpack(vec[i]).0))
    else
      seq(Min(64, |vec|), (b: nat) requires b < Min(64, |vec|) => (b, vec[b]))
  }

  // ---- 0xC3 OP_LANE_CSR_WALK, 0xC4 OP_LANE_CSC_WALK ----

  /** The arcs lane b may follow: the edges not tripped in it, from target to row when walking in reverse. */
  ghost function LaneArcs(g: Csr, rel: nat, trips: Trips, reverse: bool, b: nat): set<Arc>
    requires g.Valid()
  {
    set e | 0 <= e < g.EdgeCount() && !TripMask(trips, rel, e).Bit(b) ::
      if reverse then (g.targets[e], g.Row(e)) else (g.Row(e), g.targets[e])
  }

  /** Some edge not tripped in lane b leads to v from a node the lane holds. */
  ghost predicate Enters(g: Csr, rel: nat, src: Frontier, reverse: bool, b: nat, v: nat)
    requires g.Valid()
  {
    exists e :: 0 <= e < g.EdgeCount() && !TripMask(src.trips, rel, e).Bit(b)
                && if reverse then g.Row(e) == v && g.targets[e] in src.Nodes(b)
                   else g.targets[e] == v && g.Row(e) in src.Nodes(b)
  }

  lemma EntersIsImage(g: Csr, rel: nat, src: Frontier, reverse: bool, b: nat, v: nat)
    requires g.Valid()
    ensures v in Image(LaneArcs(g, rel, src.trips, reverse, b), src.Nodes(b)) <==> Enters(g, rel, src, reverse, b, v)
  {
    var arcs := LaneArcs(g, rel, src.trips, reverse, b);
    if Enters(g, rel, src, reverse, b, v) {
      var e :| 0 <= e < g.EdgeCount() && !TripMask(src.trips, rel, e).Bit(b)
               && if reverse then g.Row(e) == v && g.targets[e] in src.Nodes(b)
                  else g.targets[e] == v && g.Row(e) in src.Nodes(b);
      assert (if reverse then (g.targets[e], v) else (g.Row(e), v)) in arcs;
    }
  }

  /** Walking in reverse, lane b follows exactly the arcs of a forward walk, each backwards. */
  lemma ReverseArcs(g: Csr, rel: nat, trips: Trips, b: nat)
    requires g.Valid()
    ensures LaneArcs(g, rel, trips, true, b) == Converse(LaneArcs(g, rel, trips, false, b))
  {
    var forwards, backwards := LaneArcs(g, rel, trips, false, b), LaneArcs(g, rel, trips, true, b);
    forall a | a in backwards ensures a in Converse(forwards) {
      assert (a.1, a.0) in forwards;
    }
    forall a | a in Converse(forwards) ensures a in backwards {
      assert (a.1, a.0) in forwards;
    }
  }

  /** Trip masks of other relations do not matter to a walk. */
  lemma {:induction false} OnlyOwnTrips(g: Csr, rel: nat, x: Trips, y: Trips, reverse: bool, b: nat)
    requires g.Valid()
    requires forall e: nat :: TripMask(x, rel, e).Bit(b) <==> TripMask(y, rel, e).Bit(b)
    ensures LaneArcs(g, rel, x, reverse, b) == LaneArcs(g, rel, y, reverse, b)
  {
  }

  /** One relation as a walk sees it: its topology, its trip masks and the walking direction. */
  datatype Hop = Hop(g: Csr, rel: nat, trips: Trips, reverse: bool) {

    /** The arcs that lane b may follow among the first m edges. */
    ghost function ArcsTo(b: nat, m: nat): set<Arc>
      requires g.Valid() && m <= g.EdgeCount()
    {
      set e | 0 <= e < m && !TripMask(trips, rel, e).Bit(b) :: g.Ends(e, reverse)
    }

    /** The arcs that lane b may follow: all edges not tripped in lane b. */
    ghost function Arcs(b: nat): set<Arc>
      requires g.Valid()
    {
      ArcsTo(b, g.EdgeCount())
    }

    /** next[v] |= (cur[u] & mask) & ~edge_trip_mask[rel][e] for one edge e from u to v. */
    ghost function PushEdge(cur: seq<Word>, mask: Word, next: seq<Word>, e: nat): (r: seq<Word>)
      requires g.Valid() && e < g.EdgeCount()
      requires |cur| == |next| == g.NodeCount()
      ensures |r| == |next|
    {
      var (u, v) := g.Ends(e, reverse);
      next[v := next[v].Or(cur[u].And(mask).Minus(TripMask(trips, rel, e)))]
    }

    /** The first m edges pushed in turn. */
    ghost function PushTo(cur: seq<Word>, mask: Word, next: seq<Word>, m: nat): (r: seq<Word>)
      requires g.Valid() && m <= g.EdgeCount()
      requires |cur| == |next| == g.NodeCount()
      ensures |r| == |next|
    {
      if m == 0 then next else PushEdge(cur, mask, PushTo(cur, mask, next, m - 1), m - 1)
    }

    /** Or-s one step of every lane in `cur` into `next`, row by row over the CSR arrays. */
    method Push(cur: array<Word>, mask: Word, next: array<Word>)
      requires g.Valid()
      requires cur != next && cur.Length == next.Length == g.NodeCount()
      modifies next
      ensures next[..] == PushTo(cur[..], mask, old(next[..]), g.EdgeCount())
    {
      ghost var start := next[..];
      for u := 0 to g.NodeCount()
        invariant next[..] == PushTo(cur[..], mask, start, g.offsets[u])
      {
        PushRow(cur, mask, next, u, start);
      }
    }

    lemma RowBounds(u: nat)
      requires g.Valid() && u < g.NodeCount()
      ensures g.offsets[u] <= g.offsets[u + 1] <= g.EdgeCount()
    {
    }

    lemma PushNext(cur: seq<Word>, mask: Word, next: seq<Word>, e: nat)
      requires g.Valid() && e < g.EdgeCount() && |cur| == |next| == g.NodeCount()
      ensures PushTo(cur, mask, next, e + 1) == PushEdge(cur, mask, PushTo(cur, mask, next, e), e)
    {
    }

    method PushRow(cur: array<Word>, mask: Word, next: array<Word>, u: nat, ghost start: seq<Word>)
      requires g.Valid() && u < g.NodeCount()
      requires cur != next && cur.Length == next.Length == |start| == g.NodeCount()
      requires next[..] == PushTo(cur[..], mask, start, g.offsets[u])
      modifies next
      ensures next[..] == PushTo(cur[..], mask, start, g.offsets[u + 1])
    {
      ghost var words := cur[..];
      RowBounds(u);
      for e := g.offsets[u] to g.offsets[u + 1]
        invariant cur[..] == words && next[..] == PushTo(words, mask, start, e)
      {
        PushOne(cur, mask, next, u, e);
        PushNext(words, mask, start, e);
      }
    }

    /** Or-s one edge of row u into `next`. */
    method PushOne(cur: array<Word>, mask: Word, next: array<Word>, u: nat, e: nat)
      requires g.Valid() && g.InRow(e, u) && e < g.EdgeCount()
      requires cur != next && cur.Length == next.Length == g.NodeCount()
      modifies next
      ensures next[..] == PushEdge(cur[..], mask, old(next[..]), e)
    {
      g.RowIsUnique(e, u);
      var v := g.targets[e];
      var (s, t) := if reverse then (v, u) else (u, v);
      next[t] := next[t].Or(cur[s].And(mask).Minus(TripMask(trips, rel, e)));
    }

    lemma {:induction false} PushEdgeSlice(cur: seq<Word>, mask: Word, next: seq<Word>, e: nat, b: nat)
      requires g.Valid() && e < g.EdgeCount()
      requires |cur| == |next| == g.NodeCount()
      requires mask.Bit(b)
      ensures Slice(PushEdge(cur, mask, next, e), b)
           == Slice(next, b) + Gain(cur, e, b)
    {
      var a, trip := g.Ends(e, reverse), TripMask(trips, rel, e);
      var moved := next[a.1].Or(cur[a.0].And(mask).Minus(trip));
      PushedBit(cur[a.0], mask, trip, next[a.1], b);
      UpdateSlice(next, a.1, moved, b);
      ImageOne(a, Slice(cur, b));
      InSlice(cur, a.0, b);
      InSlice(next, a.1, b);
    }

    lemma {:induction false} ArcsNext(b: nat, e: nat, s: set<nat>)
      requires g.Valid() && e < g.EdgeCount()
      ensures Image(ArcsTo(b, e + 1), s) == Image(ArcsTo(b, e), s) +
                (if TripMask(trips, rel, e).Bit(b) then {} else Image({g.Ends(e, reverse)}, s))
    {
      var a := g.Ends(e, reverse);
      var before, after := ArcsTo(b, e), ArcsTo(b, e + 1);
      if TripMask(trips, rel, e).Bit(b) {
        assert after == before;
      } else {
        assert after == before + {a};
        ImageUnion(before, {a}, s);
      }
    }

    /** What edge e adds to lane b. */
    ghost function Gain(cur: seq<Word>, e: nat, b: nat): set<nat>
      requires g.Valid() && e < g.EdgeCount()
    {
      if TripMask(trips, rel, e).Bit(b) then {} else Image({g.Ends(e, reverse)}, Slice(cur, b))
    }

    /** The nodes lane b steps to over the first m edges. */
    ghost function Stepped(cur: seq<Word>, m: nat, b: nat): set<nat>
      requires g.Valid() && m <= g.EdgeCount()
    {
      Image(ArcsTo(b, m), Slice(cur, b))
    }

    lemma {:induction false} SteppedNext(cur: seq<Word>, e: nat, b: nat)
      requires g.Valid() && e < g.EdgeCount()
      ensures Stepped(cur, e + 1, b) == Stepped(cur, e, b) + Gain(cur, e, b)
    {
      ArcsNext(b, e, Slice(cur, b));
    }

    lemma SteppedNone(cur: seq<Word>, b: nat)
      requires g.Valid()
      ensures Stepped(cur, 0, b) == {}
    {
    }

    lemma {:induction false} PushSliceNext(cur: seq<Word>, mask: Word, before: seq<Word>, after: seq<Word>,
                                           e: nat, b: nat)
      requires g.Valid() && e < g.EdgeCount()
      requires |cur| == |before| == g.NodeCount() && after == PushEdge(cur, mask, before, e)
      requires mask.Bit(b)
      ensures Slice(after, b) == Slice(before, b) + Gain(cur, e, b)
    {
      PushEdgeSlice(cur, mask, before, e, b);
    }

    ghost function StepsTo(cur: seq<Word>, m: nat, b: nat): (steps: seq<set<nat>>)
      requires g.Valid() && m <= g.EdgeCount()
      ensures |steps| == m + 1 && forall e :: 0 <= e <= m ==> steps[e] == Stepped(cur, e, b)
    {
      seq(m + 1, (e: nat) requires e <= m => Stepped(cur, e, b))
    }

    ghost function GainsTo(cur: seq<Word>, m: nat, b: nat): (gains: seq<set<nat>>)
      requires g.Valid() && m <= g.EdgeCount()
      ensures |gains| == m && forall e :: 0 <= e < m ==> gains[e] == Gain(cur, e, b)
    {
      seq(m, (e: nat) requires e < m => Gain(cur, e, b))
    }

    /** One pushed edge after another, starting from states[0]. */
    ghost predicate IsPushed(cur: seq<Word>, mask: Word, states: seq<seq<Word>>, m: nat)
      requires g.Valid() && m <= g.EdgeCount() && |cur| == g.NodeCount()
    {
      && |states| == m + 1
      && (forall e :: 0 <= e <= m ==> |states[e]| == |cur|)
      && forall e :: 0 <= e < m ==> states[e + 1] == PushEdge(cur, mask, states[e], e)
    }

    lemma {:induction false} StatesSlice(cur: seq<Word>, mask: Word, states: seq<seq<Word>>, m: nat, b: nat)
      requires g.Valid() && m <= g.EdgeCount() && |cur| == g.NodeCount()
      requires IsPushed(cur, mask, states, m) && mask.Bit(b)
      ensures Slice(states[m], b) == Slice(states[0], b) + Stepped(cur, m, b)
    {
      var slices := seq(m + 1, (e: nat) requires e < |states| => Slice(states[e], b));
      var steps, gains := StepsTo(cur, m, b), GainsTo(cur, m, b);
      forall e | 0 <= e < m ensures slices[e + 1] == slices[e] + gains[e] && steps[e + 1] == steps[e] + gains[e] {
        PushSliceNext(cur, mask, states[e], states[e + 1], e, b);
        SteppedNext(cur, e, b);
      }
      SteppedNone(cur, b);
      SameGains(slices, steps, gains, m);
    }

    /** Bit-sliced pushing is one ordinary step in each lane, on that lane's own edge set. */
    lemma {:induction false} PushSlice(cur: seq<Word>, mask: Word, next: seq<Word>, m: nat, b: nat)
      requires g.Valid() && m <= g.EdgeCount()
      requires |cur| == |next| == g.NodeCount()
      requires mask.Bit(b)
      ensures Slice(PushTo(cur, mask, next, m), b) == Slice(next, b) + Stepped(cur, m, b)
    {
      var states := seq(m + 1, (e: nat) requires e <= m => PushTo(cur, mask, next, e));
      StatesSlice(cur, mask, states, m, b);
    }

    lemma {:induction false} PushWithin(cur: seq<Word>, k: nat, next: seq<Word>, m: nat)
      requires g.Valid() && m <= g.EdgeCount() && k <= 64
      requires |cur| == |next| == g.NodeCount()
      requires forall u :: 0 <= u < |next| ==> Within(next[u], k)
      ensures forall u :: 0 <= u < |next| ==> Within(PushTo(cur, ActiveMask(k), next, m)[u], k)
    {
      if m > 0 {
        PushWithin(cur, k, next, m - 1);
        PushEdgeWithin(cur, k, PushTo(cur, ActiveMask(k), next, m - 1), m - 1);
      }
    }

    lemma PushEdgeWithin(cur: seq<Word>, k: nat, next: seq<Word>, e: nat)
      requires g.Valid() && e < g.EdgeCount() && k <= 64
      requires |cur| == |next| == g.NodeCount()
      requires forall u :: 0 <= u < |next| ==> Within(next[u], k)
      ensures forall u :: 0 <= u < |next| ==> Within(PushEdge(cur, ActiveMask(k), next, e)[u], k)
    {
      var (u, v) := g.Ends(e, reverse);
      MaskedWithin(cur[u], TripMask(trips, rel, e), next[v], k);
    }
  }

  /** Two growing families with the same gains, one of them starting empty. */
  lemma {:induction false} SameGains(slices: seq<set<nat>>, steps: seq<set<nat>>, gains: seq<set<nat>>, m: nat)
    requires |slices| == |steps| == |gains| + 1 && m <= |gains|
    requires forall e :: 0 <= e < |gains| ==> slices[e + 1] == slices[e] + gains[e]
    requires forall e :: 0 <= e < |gains| ==> steps[e + 1] == steps[e] + gains[e]
    requires steps[0] == {}
    ensures slices[m] == slices[0] + steps[m]
  {
    if m > 0 {
      SameGains(slices, steps, gains, m - 1);
    }
  }

  lemma {:induction false} PushedBit(w: Word, mask: Word, trip: Word, into: Word, b: nat)
    ensures into.Or(w.And(mask).Minus(trip)).Bit(b) <==> into.Bit(b) || (w.Bit(b) && mask.Bit(b) && !trip.Bit(b))
  {
    BitAnd(w, mask, b);
    BitMinus(w.And(mask), trip, b);
    BitOr(into, w.And(mask).Minus(trip), b);
  }

  lemma {:induction false} UpdateSlice(lanes: seq<Word>, v: nat, w: Word, b: nat)
    requires v < |lanes|
    requires lanes[v].Bit(b) ==> w.Bit(b)
    ensures Slice(lanes[v := w], b) == Slice(lanes, b) + (if w.Bit(b) then {v} else {})
  {
  }

  lemma {:induction false} InSlice(lanes: seq<Word>, u: nat, b: nat)
    requires u < |lanes|
    ensures u in Slice(lanes, b) <==> lanes[u].Bit(b)
  {
  }

  lemma ImageOne(a: Arc, s: set<nat>)
    ensures Image({a}, s) == if a.0 in s then {a.1} else {}
  {
    assert a in {a};
  }

  lemma ImageUnion(a: set<Arc>, b: set<Arc>, s: set<nat>)
    ensures Image(a + b, s) == Image(a, s) + Image(b, s)
  {
    forall v | v in Image(a, s) + Image(b, s) ensures v in Image(a + b, s) {
      var c :| c in a + b && c.0 in s && c.1 == v;
    }
  }

  lemma MaskedWithin(w: Word, trip: Word, into: Word, k: nat)
    requires k <= 64
    requires Within(into, k)
    ensures Within(into.Or(w.And(ActiveMask(k)).Minus(trip)), k)
  {
    var masked := w.And(ActiveMask(k)).Minus(trip);
    AndLanes(w, ActiveMask(k));
    MinusLanes(w.And(ActiveMask(k)), trip);
    ActiveMaskLanes(k);
    OrLanes(into, masked);
    WithinLanes(into, k);
    WithinLanes(into.Or(masked), k);
  }

  /** Pushing over edges is stepping over arcs. */
  lemma HopArcs(hop: Hop, b: nat)
    requires hop.g.Valid()
    ensures hop.Arcs(b) == LaneArcs(hop.g, hop.rel, hop.trips, hop.reverse, b)
  {
  }

  /** One step of all active lanes; ACCUMULATE also keeps the bits already set. */
  method Walk(g: Csr, rel: nat, src: Frontier, reverse: bool, accumulate: bool) returns (f: Frontier)
    requires g.Valid() && src.Valid(g.NodeCount())
    ensures f.Valid(g.NodeCount()) && f.k == src.k && f.trips == src.trips
    ensures forall b, v: nat :: 0 <= b < f.k ==>
              (v in f.Nodes(b) <==> (accumulate && v in src.Nodes(b)) || Enters(g, rel, src, reverse, b, v))
  {
    var n := g.NodeCount();
    var hop := Hop(g, rel, src.trips, reverse);
    var cur := new Word[n](i requires 0 <= i < n => src.lanes[i]);
    var next := new Word[n](i requires 0 <= i < n => if accumulate then src.lanes[i] else Zero);
    assert cur[..] == src.lanes;
    assert next[..] == WalkStart(src, accumulate);
    hop.Push(cur, ActiveMask(src.k), next);
    WalkFacts(hop, src, accumulate);
    f := src.(lanes := next[..]);
    forall b, v: nat | 0 <= b < f.k
      ensures v in f.Nodes(b) <==> (accumulate && v in src.Nodes(b)) || Enters(g, rel, src, reverse, b, v)
    {
      HopArcs(hop, b);
      EntersIsImage(g, rel, src, reverse, b, v);
    }
  }

  /** What next_lanes holds before any edge is pushed. */
  ghost function WalkStart(src: Frontier, accumulate: bool): seq<Word> {
    if accumulate then src.lanes else Zeros(|src.lanes|)
  }

  ghost function Zeros(n: nat): seq<Word> {
    seq(n, _ => Zero)
  }

  lemma {:induction false} WalkFacts(hop: Hop, src: Frontier, accumulate: bool)
    requires hop.g.Valid() && src.Valid(hop.g.NodeCount())
    ensures var next := hop.PushTo(src.lanes, ActiveMask(src.k), WalkStart(src, accumulate), hop.g.EdgeCount());
            && (forall u :: 0 <= u < |next| ==> Within(next[u], src.k))
            && (forall b :: 0 <= b < src.k ==>
                  Slice(next, b) == Image(hop.Arcs(b), src.Nodes(b)) + (if accumulate then src.Nodes(b) else {}))
  {
    var start := WalkStart(src, accumulate);
    var next := hop.PushTo(src.lanes, ActiveMask(src.k), start, hop.g.EdgeCount());
    ZeroWithin(src.k);
    hop.PushWithin(src.lanes, src.k, start, hop.g.EdgeCount());
    forall b | 0 <= b < src.k
      ensures Slice(next, b) == Image(hop.Arcs(b), src.Nodes(b)) + (if accumulate then src.Nodes(b) else {})
    {
      BitActiveMask(src.k, b);
      hop.PushSlice(src.lanes, ActiveMask(src.k), start, hop.g.EdgeCount(), b);
      if !accumulate {
        ZeroSlice(start, b);
      }
    }
  }

  lemma ZeroSlice(lanes: seq<Word>, b: nat)
    requires forall u :: 0 <= u < |lanes| ==> lanes[u] == Zero
    ensures Slice(lanes, b) == {}
  {
    BitZero(b);
  }

  // ---- FIXPOINT: delta-frontier propagation ----

  /** One lane midway: everything found is reachable, and all but the delta has been stepped from. */
  ghost predicate Exploring(arcs: set<Arc>, from: set<nat>, found: set<nat>, delta: set<nat>) {
    && from <= found
    && delta <= found
    && Image(arcs, found - delta) <= found
    && forall v :: v in found ==> Reaches(arcs, from, v)
  }

  lemma ExploringStart(arcs: set<Arc>, from: set<nat>)
    ensures Exploring(arcs, from, from, from)
  {
    forall v | v in from ensures Reaches(arcs, from, v) {
      ReachesStart(arcs, from, v);
    }
  }

  lemma ExploringRound(arcs: set<Arc>, from: set<nat>, found: set<nat>, delta: set<nat>)
    requires Exploring(arcs, from, found, delta)
    ensures Exploring(arcs, from, found + Image(arcs, delta), Image(arcs, delta) - found)
  {
    var step := Image(arcs, delta);
    assert (found + step) - (step - found) == found;
    forall v | v in Image(arcs, found) ensures v in found + step {
      var a :| a in arcs && a.0 in found && a.1 == v;
      if a.0 !in delta {
        assert v in Image(arcs, found - delta);
      }
    }
    forall v | v in step ensures Reaches(arcs, from, v) {
      var a :| a in arcs && a.0 in delta && a.1 == v;
      ReachesStep(arcs, from, a.0, v);
    }
  }

  lemma ExploringDone(arcs: set<Arc>, from: set<nat>, found: set<nat>, v: nat)
    requires Exploring(arcs, from, found, {})
    ensures v in found <==> Reaches(arcs, from, v)
  {
    assert found - {} == found;
    if Reaches(arcs, from, v) {
      ClosedHoldsReachable(arcs, from, found, v);
    }
  }

  /** Every active lane is exploring from its start nodes. */
  ghost predicate LanesExploring(hop: Hop, src: Frontier, found: seq<Word>, delta: seq<Word>)
    requires hop.g.Valid()
  {
    forall b :: 0 <= b < src.k ==>
      Exploring(hop.Arcs(b), src.Nodes(b), Slice(found, b), Slice(delta, b))
  }

  /** The node/lane bits not yet set. */
  ghost function Unset(lanes: seq<Word>, k: nat): set<(nat, nat)> {
    set u, b | 0 <= u < |lanes| && b in FirstLanes(k) && !lanes[u].Bit(b) :: (u, b)
  }

  ghost function NewlyReached(step: seq<Word>, found: seq<Word>): (r: seq<Word>)
    requires |step| == |found|
    ensures |r| == |found|
  {
    seq(|found|, (u: nat) requires u < |found| && |step| == |found| => step[u].Minus(found[u]))
  }

  ghost function Joined(found: seq<Word>, newly: seq<Word>): (r: seq<Word>)
    requires |newly| == |found|
    ensures |r| == |found|
  {
    seq(|found|, (u: nat) requires u < |found| && |newly| == |found| => found[u].Or(newly[u]))
  }

  lemma NewlySlices(step: seq<Word>, found: seq<Word>, b: nat)
    requires |step| == |found|
    ensures Slice(NewlyReached(step, found), b) == Slice(step, b) - Slice(found, b)
    ensures Slice(Joined(found, NewlyReached(step, found)), b) == Slice(found, b) + Slice(step, b)
  {
    forall u | 0 <= u < |found|
      ensures NewlyReached(step, found)[u].Bit(b) <==> step[u].Bit(b) && !found[u].Bit(b)
      ensures Joined(found, NewlyReached(step, found))[u].Bit(b) <==> found[u].Bit(b) || step[u].Bit(b)
    {
      BitMinus(step[u], found[u], b);
      BitOr(found[u], step[u].Minus(found[u]), b);
    }
  }

  lemma NewlyWithin(step: seq<Word>, found: seq<Word>, k: nat)
    requires |step| == |found| && k <= 64
    requires forall u :: 0 <= u < |found| ==> Within(step[u], k) && Within(found[u], k)
    ensures forall u :: 0 <= u < |found| ==> Within(NewlyReached(step, found)[u], k)
    ensures forall u :: 0 <= u < |found| ==> Within(Joined(found, NewlyReached(step, found))[u], k)
  {
    forall u | 0 <= u < |found|
      ensures Within(step[u].Minus(found[u]), k)
      ensures Within(found[u].Or(step[u].Minus(found[u])), k)
    {
      var newly := step[u].Minus(found[u]);
      WithinLanes(step[u], k);
      WithinLanes(found[u], k);
      MinusLanes(step[u], found[u]);
      OrLanes(found[u], newly);
      WithinLanes(newly, k);
      WithinLanes(found[u].Or(newly), k);
    }
  }

  /** Unset bits never come back, and fall strictly when some node is newly reached. */
  lemma UnsetFalls(step: seq<Word>, found: seq<Word>, k: nat)
    requires |step| == |found| && k <= 64
    requires forall u :: 0 <= u < |found| ==> Within(NewlyReached(step, found)[u], k)
    ensures Unset(Joined(found, NewlyReached(step, found)), k) <= Unset(found, k)
    ensures (exists u :: 0 <= u < |found| && !NewlyReached(step, found)[u].IsZero()) ==>
              Unset(Joined(found, NewlyReached(step, found)), k) < Unset(found, k)
  {
    var newly := NewlyReached(step, found);
    var joined := Joined(found, newly);
    forall u, b: nat | 0 <= u < |found| && !joined[u].Bit(b) ensures !found[u].Bit(b) {
      BitOr(found[u], newly[u], b);
    }
    if u :| 0 <= u < |found| && !newly[u].IsZero() {
      var b := SomeBit(newly[u], k);
      BitMinus(step[u], found[u], b);
      BitOr(found[u], newly[u], b);
      assert (u, b) in Unset(found, k);
      assert (u, b) !in Unset(joined, k);
    }
  }

  ghost predicate AllZero(lanes: seq<Word>) {
    forall u :: 0 <= u < |lanes| ==> lanes[u] == Zero
  }

  /** newly = step & ~found; found |= newly; delta = newly. Reports whether any bit is new. */
  method AbsorbStep(step: array<Word>, found: array<Word>, delta: array<Word>) returns (active: bool)
    requires step.Length == found.Length == delta.Length
    requires step != found && step != delta && found != delta
    modifies found, delta
    ensures delta[..] == NewlyReached(step[..], old(found[..]))
    ensures found[..] == Joined(old(found[..]), delta[..])
    ensures active <==> !AllZero(delta[..])
  {
    ghost var found0 := found[..];
    ghost var newly := NewlyReached(step[..], found0);
    active := false;
    for u := 0 to found.Length
      invariant forall w :: 0 <= w < u ==> delta[w] == newly[w] && found[w] == found0[w].Or(newly[w])
      invariant forall w :: u <= w < found.Length ==> found[w] == found0[w]
      invariant active <==> exists w :: 0 <= w < u && newly[w] != Zero
    {
      var novel := step[u].Minus(found[u]);
      found[u] := found[u].Or(novel);
      delta[u] := novel;
      active := active || !novel.IsZero();
    }
    assert delta[..] == newly;
  }

  /** One round over pre-allocated buffers: push the delta, keep what is new. */
  method Round(hop: Hop, k: nat, found: array<Word>, delta: array<Word>, step: array<Word>) returns (active: bool)
    requires hop.g.Valid()
    requires step.Length == found.Length == delta.Length == hop.g.NodeCount()
    requires step != found && step != delta && found != delta
    modifies step, found, delta
    ensures delta[..] == NewlyReached(StepWords(hop, k, old(delta[..])), old(found[..]))
    ensures found[..] == Joined(old(found[..]), delta[..])
    ensures active <==> !AllZero(delta[..])
  {
    forall u | 0 <= u < step.Length {
      step[u] := Zero;
    }
    assert step[..] == Zeros(step.Length) && delta[..] == old(delta[..]) && found[..] == old(found[..]);
    hop.Push(delta, ActiveMask(k), step);
    assert step[..] == StepWords(hop, k, old(delta[..]));
    assert found[..] == old(found[..]);
    active := AbsorbStep(step, found, delta);
  }

  /** The words one step away from `delta`. */
  ghost function StepWords(hop: Hop, k: nat, delta: seq<Word>): (r: seq<Word>)
    requires hop.g.Valid() && |delta| == hop.g.NodeCount()
    ensures |r| == |delta|
  {
    hop.PushTo(delta, ActiveMask(k), Zeros(|delta|), hop.g.EdgeCount())
  }

  lemma StepWordsWithin(hop: Hop, k: nat, delta: seq<Word>)
    requires hop.g.Valid() && |delta| == hop.g.NodeCount() && k <= 64
    ensures forall u :: 0 <= u < |delta| ==> Within(StepWords(hop, k, delta)[u], k)
  {
    ZeroWithin(k);
    hop.PushWithin(delta, k, Zeros(|delta|), hop.g.EdgeCount());
  }

  /** Iterates until no lane reaches a new node; each lane then holds exactly what its start nodes reach. */
  method WalkToFixpoint(g: Csr, rel: nat, src: Frontier, reverse: bool) returns (f: Frontier)
    requires g.Valid() && src.Valid(g.NodeCount())
    ensures f.Valid(g.NodeCount()) && f.k == src.k && f.trips == src.trips
    ensures forall b, v: nat :: 0 <= b < f.k ==>
              (v in f.Nodes(b) <==> Reaches(LaneArcs(g, rel, src.trips, reverse, b), src.Nodes(b), v))
  {
    var n, k := g.NodeCount(), src.k;
    var hop := Hop(g, rel, src.trips, reverse);
    var found := new Word[n](i requires 0 <= i < n => src.lanes[i]);
    var delta := new Word[n](i requires 0 <= i < n => src.lanes[i]);
    var step := new Word[n](_ => Zero);
    assert found[..] == src.lanes == delta[..];
    LanesStart(hop, src);
    var active := true;
    while active
      invariant forall u :: 0 <= u < n ==> Within(found[u], k)
      invariant LanesExploring(hop, src, found[..], delta[..])
      invariant !active ==> AllZero(delta[..])
      decreases Unset(found[..], k), active
    {
      ghost var found0, delta0 := found[..], delta[..];
      active := Round(hop, k, found, delta, step);
      RoundFacts(hop, src, found0, delta0);
      assert forall u :: 0 <= u < n ==> found[u] == found[..][u];
    }
    LanesDone(hop, src, found[..], delta[..]);
    f := src.(lanes := found[..]);
    forall b: nat ensures hop.Arcs(b) == LaneArcs(g, rel, src.trips, reverse, b) {
      HopArcs(hop, b);
    }
  }

  lemma LanesStart(hop: Hop, src: Frontier)
    requires hop.g.Valid()
    ensures LanesExploring(hop, src, src.lanes, src.lanes)
  {
    forall b | 0 <= b < src.k ensures Exploring(hop.Arcs(b), src.Nodes(b), src.Nodes(b), src.Nodes(b)) {
      ExploringStart(hop.Arcs(b), src.Nodes(b));
    }
  }

  lemma LanesDone(hop: Hop, src: Frontier, found: seq<Word>, delta: seq<Word>)
    requires hop.g.Valid()
    requires LanesExploring(hop, src, found, delta)
    requires AllZero(delta)
    ensures forall b, v: nat :: 0 <= b < src.k ==>
              (v in Slice(found, b) <==> Reaches(hop.Arcs(b), src.Nodes(b), v))
  {
    forall b, v: nat | 0 <= b < src.k ensures v in Slice(found, b) <==> Reaches(hop.Arcs(b), src.Nodes(b), v) {
      ZeroSlice(delta, b);
      ExploringDone(hop.Arcs(b), src.Nodes(b), Slice(found, b), v);
    }
  }

  /** What a round keeps, and why the loop ends: unset bits fall unless nothing is new. */
  lemma RoundFacts(hop: Hop, src: Frontier, found: seq<Word>, delta: seq<Word>)
    requires hop.g.Valid() && src.Valid(hop.g.NodeCount())
    requires |found| == |delta| == hop.g.NodeCount()
    requires forall u :: 0 <= u < |found| ==> Within(found[u], src.k)
    requires LanesExploring(hop, src, found, delta)
    ensures var newly := NewlyReached(StepWords(hop, src.k, delta), found);
            var joined := Joined(found, newly);
            && (forall u :: 0 <= u < |found| ==> Within(joined[u], src.k))
            && LanesExploring(hop, src, joined, newly)
            && (if AllZero(newly) then joined == found else Unset(joined, src.k) < Unset(found, src.k))
  {
    var step := StepWords(hop, src.k, delta);
    StepWordsWithin(hop, src.k, delta);
    NewlyWithin(step, found, src.k);
    RoundKeepsExploring(hop, src, found, delta);
    RoundProgress(step, found, src.k);
  }

  lemma RoundProgress(step: seq<Word>, found: seq<Word>, k: nat)
    requires |step| == |found| && k <= 64
    requires forall u :: 0 <= u < |found| ==> Within(NewlyReached(step, found)[u], k)
    ensures var newly := NewlyReached(step, found);
            if AllZero(newly) then Joined(found, newly) == found
            else Unset(Joined(found, newly), k) < Unset(found, k)
  {
    var newly := NewlyReached(step, found);
    if AllZero(newly) {
      forall u | 0 <= u < |found| ensures Joined(found, newly)[u] == found[u] {
        assert newly[u] == Zero;
        OrZeroWord(found[u]);
      }
    } else {
      var u :| 0 <= u < |newly| && newly[u] != Zero;
      NotZero(newly[u]);
      UnsetFalls(step, found, k);
    }
  }

  lemma OrZeroWord(w: Word)
    ensures w.Or(Zero) == w
  {
  }

  lemma NotZero(w: Word)
    requires w != Zero
    ensures !w.IsZero()
  {
  }

  lemma RoundKeepsExploring(hop: Hop, src: Frontier, found: seq<Word>, delta: seq<Word>)
    requires hop.g.Valid() && src.Valid(hop.g.NodeCount())
    requires |found| == |delta| == hop.g.NodeCount()
    requires LanesExploring(hop, src, found, delta)
    ensures var newly := NewlyReached(StepWords(hop, src.k, delta), found);
            LanesExploring(hop, src, Joined(found, newly), newly)
  {
    var step := StepWords(hop, src.k, delta);
    forall b | 0 <= b < src.k
      ensures Exploring(hop.Arcs(b), src.Nodes(b),
                        Slice(Joined(found, NewlyReached(step, found)), b), Slice(NewlyReached(step, found), b))
    {
      BitActiveMask(src.k, b);
      hop.PushSlice(delta, ActiveMask(src.k), Zeros(|delta|), hop.g.EdgeCount(), b);
      ZeroSlice(Zeros(|delta|), b);
      NewlySlices(step, found, b);
      ExploringRound(hop.Arcs(b), src.Nodes(b), Slice(found, b), Slice(delta, b));
    }
  }

  /**
   * Walking backwards answers the forward question: the reverse fixpoint from s holds v exactly when the
   * forward fixpoint from v holds s, under the same trips.
   */
  lemma ReverseReaches(g: Csr, rel: nat, trips: Trips, b: nat, s: nat, v: nat)
    requires g.Valid()
    ensures Reaches(LaneArcs(g, rel, trips, true, b), {s}, v) <==> Reaches(LaneArcs(g, rel, trips, false, b), {v}, s)
  {
    ReverseArcs(g, rel, trips, b);
    ConverseReaches(LaneArcs(g, rel, trips, false, b), s, v);
  }
}
