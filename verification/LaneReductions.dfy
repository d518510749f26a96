/** Opcodes that thin or summarise a lane frontier (0xC5 to 0xC8). */
module LaneReductions {
  import opened Graphs
  import opened Words
  import opened LaneWalks
  import opened Options

  /** The lanes that hold node u. */
  ghost function LanesAt(f: Frontier, u: nat): set<nat>
    requires u < |f.lanes|
  {
    f.lanes[u].Lanes()
  }

  lemma LanesAtIsNodes(f: Frontier, u: nat, b: nat)
    requires u < |f.lanes|
    ensures b in LanesAt(f, u) <==> u in f.Nodes(b)
  {
    BitIsLane(f.lanes[u], b);
  }

  lemma LanesAtActive(f: Frontier, n: nat, u: nat)
    requires f.Valid(n) && u < n
    ensures LanesAt(f, u) <= FirstLanes(f.k)
  {
    WithinLanes(f.lanes[u], f.k);
  }

  // ---- 0xC5 OP_LANE_PRUNE_MASK ----

  /** lanes[u] &= ~deny[u] at every node. */
  method DenyPerNode(n: nat, src: Frontier, deny: seq<Word>) returns (f: Frontier)
    requires src.Valid(n) && |deny| == n
    ensures f.Valid(n) && f.k == src.k && f.trips == src.trips
    ensures forall u :: 0 <= u < n ==> LanesAt(f, u) == LanesAt(src, u) - deny[u].Lanes()
  {
    var out := new Word[n](_ => Zero);
    for u := 0 to n
      invariant forall w :: 0 <= w < u ==> Within(out[w], src.k)
      invariant forall w :: 0 <= w < u ==> out[w].Lanes() == LanesAt(src, w) - deny[w].Lanes()
    {
      out[u] := src.lanes[u].Minus(deny[u]);
      MinusLanes(src.lanes[u], deny[u]);
      WithinLanes(src.lanes[u], src.k);
      WithinLanes(out[u], src.k);
    }
    f := src.(lanes := out[..]);
  }

  /** Mode 0 over a bit set: clears all lanes on the denied nodes. */
  method DenyNodes(n: nat, src: Frontier, deny: set<nat>) returns (f: Frontier)
    requires src.Valid(n)
    ensures f.Valid(n) && f.k == src.k && f.trips == src.trips
    ensures forall b :: 0 <= b < 64 ==> f.Nodes(b) == src.Nodes(b) - deny
  {
    var words := seq(n, u => if u in deny then ActiveMask(64) else Zero);
    f := DenyPerNode(n, src, words);
    ActiveMaskLanes(64);
    ZeroLanes(Zero);
    forall b | 0 <= b < 64 ensures f.Nodes(b) == src.Nodes(b) - deny {
      forall u | 0 <= u < n ensures u in f.Nodes(b) <==> u in src.Nodes(b) && u !in deny {
        DeniedAt(src, f, words[u], u, b);
      }
    }
  }

  /** Removing the lanes of a word at one node, seen from one lane. */
  lemma DeniedAt(src: Frontier, f: Frontier, deny: Word, u: nat, b: nat)
    requires u < |src.lanes| == |f.lanes|
    requires LanesAt(f, u) == LanesAt(src, u) - deny.Lanes()
    ensures u in f.Nodes(b) <==> u in src.Nodes(b) && b !in deny.Lanes()
  {
    LanesAtIsNodes(f, u, b);
    LanesAtIsNodes(src, u, b);
  }

  /** Mode 0 over a scalar: clears the same lanes on every node. */
  method DenyLanes(n: nat, src: Frontier, mask: Word) returns (f: Frontier)
    requires src.Valid(n)
    ensures f.Valid(n) && f.k == src.k && f.trips == src.trips
    ensures forall b :: 0 <= b < 64 ==> f.Nodes(b) == if mask.Bit(b) then {} else src.Nodes(b)
  {
    f := DenyPerNode(n, src, seq(n, _ => mask));
    forall b | 0 <= b < 64 ensures f.Nodes(b) == if mask.Bit(b) then {} else src.Nodes(b) {
      BitIsLane(mask, b);
      forall u | 0 <= u < n ensures u in f.Nodes(b) <==> u in src.Nodes(b) && !mask.Bit(b) {
        DeniedAt(src, f, mask, u, b);
      }
    }
  }

  /** Zeroes every node outside `keep`, and leaves the others alone. */
  ghost predicate KeepsExactly(n: nat, src: Frontier, f: Frontier, keep: set<nat>) {
    && src.Valid(n) && f.Valid(n) && f.k == src.k && f.trips == src.trips
    && forall u :: 0 <= u < n ==> f.lanes[u] == if u in keep then src.lanes[u] else Zero
  }

  /** Node u is held by some lane of [0, half) and by some lane of [half, k). */
  ghost predicate InBothHalves(f: Frontier, u: nat) {
    var half := f.k / 2;
    && (exists b :: 0 <= b < half && u in f.Nodes(b))
    && (exists b :: half <= b < f.k && u in f.Nodes(b))
  }

  /** Mode 1: keeps a node only where the two halves of the active lanes meet. */
  method PruneSplitHalves(n: nat, src: Frontier) returns (f: Frontier)
    requires src.Valid(n)
    ensures KeepsExactly(n, src, f, set u | 0 <= u < n && InBothHalves(src, u))
  {
    var low := ActiveMask(src.k / 2);
    var high := ActiveMask(src.k).Minus(low);
    var out := new Word[n](_ => Zero);
    for u := 0 to n
      invariant forall w :: 0 <= w < u ==> out[w] == if InBothHalves(src, w) then src.lanes[w] else Zero
      invariant forall w :: u <= w < n ==> out[w] == Zero
    {
      MeetsHalves(n, src, u);
      if !src.lanes[u].And(low).IsZero() && !src.lanes[u].And(high).IsZero() {
        out[u] := src.lanes[u];
      }
    }
    ZeroWithin(src.k);
    f := src.(lanes := out[..]);
  }

  lemma MeetsMask(f: Frontier, u: nat, mask: Word)
    requires u < |f.lanes|
    ensures !f.lanes[u].And(mask).IsZero() <==> exists b :: b in mask.Lanes() && u in f.Nodes(b)
  {
    AndLanes(f.lanes[u], mask);
    ZeroLanes(f.lanes[u].And(mask));
    forall b: nat ensures b in LanesAt(f, u) <==> u in f.Nodes(b) {
      LanesAtIsNodes(f, u, b);
    }
    if b :| b in f.lanes[u].And(mask).Lanes() {
      assert b in mask.Lanes() && u in f.Nodes(b);
    }
    if b :| b in mask.Lanes() && u in f.Nodes(b) {
      assert b in f.lanes[u].And(mask).Lanes();
    }
  }

  lemma MeetsHalves(n: nat, f: Frontier, u: nat)
    requires f.Valid(n) && u < n
    ensures var low := ActiveMask(f.k / 2);
            var high := ActiveMask(f.k).Minus(low);
            InBothHalves(f, u) <==> !f.lanes[u].And(low).IsZero() && !f.lanes[u].And(high).IsZero()
  {
    var low := ActiveMask(f.k / 2);
    var high := ActiveMask(f.k).Minus(low);
    ActiveMaskLanes(f.k / 2);
    ActiveMaskLanes(f.k);
    MinusLanes(ActiveMask(f.k), low);
    assert forall b :: b in high.Lanes() <==> f.k / 2 <= b < f.k;
    MeetsMask(f, u, low);
    MeetsMask(f, u, high);
  }

  /** A hub that too few lanes agree on. */
  ghost predicate WeakHub(g: Csr, f: Frontier, maxDeg: nat, minQuorum: nat, u: nat)
    requires g.Valid() && u < g.NodeCount() == |f.lanes|
  {
    |g.OutEdges(u)| > maxDeg && |LanesAt(f, u)| < minQuorum
  }

  /** Mode 2: zeroes hubs of degree above maxDeg that fewer than minQuorum lanes hold. */
  method PruneWeakHubs(g: Csr, src: Frontier, maxDeg: nat, minQuorum: nat) returns (f: Frontier)
    requires g.Valid() && src.Valid(g.NodeCount())
    ensures KeepsExactly(g.NodeCount(), src, f,
                         set u | 0 <= u < g.NodeCount() && !WeakHub(g, src, maxDeg, minQuorum, u))
  {
    var n := g.NodeCount();
    var out := new Word[n](_ => Zero);
    for u := 0 to n
      invariant forall w :: 0 <= w < u ==>
                  out[w] == if WeakHub(g, src, maxDeg, minQuorum, w) then Zero else src.lanes[w]
      invariant forall w :: u <= w < n ==> out[w] == Zero
    {
      PopCountIsSize(src.lanes[u]);
      g.DegreeCounts(u);
      if !(g.Degree(u) > maxDeg && PopCount(src.lanes[u]) < minQuorum) {
        out[u] := src.lanes[u];
      }
    }
    ZeroWithin(src.k);
    f := src.(lanes := out[..]);
  }

  // ---- 0xC6 OP_LANE_FILTER_QUORUM ----

  /** At least minK required lanes hold u and no forbidden lane does. */
  ghost predicate MeetsQuorum(f: Frontier, minK: nat, req: set<nat>, forbid: set<nat>, u: nat) {
    && |set b | b in req && u in f.Nodes(b)| >= minK
    && forall b :: b in forbid ==> u !in f.Nodes(b)
  }

  /** Bridges to a one-bit set by popcount(lanes & req) >= minK and (lanes & forbid) == 0. */
  method FilterQuorum(n: nat, src: Frontier, minK: nat, req: Word, forbid: Word) returns (s: set<nat>)
    requires src.Valid(n)
    ensures forall u :: u in s <==> 0 <= u < n && MeetsQuorum(src, minK, req.Lanes(), forbid.Lanes(), u)
  {
    s := {};
    for u := 0 to n
      invariant forall w :: w in s <==> 0 <= w < u && MeetsQuorum(src, minK, req.Lanes(), forbid.Lanes(), w)
    {
      QuorumWords(src, minK, req, forbid, u);
      if PopCount(src.lanes[u].And(req)) >= minK && src.lanes[u].And(forbid).IsZero() {
        s := s + {u};
      }
    }
  }

  lemma QuorumWords(f: Frontier, minK: nat, req: Word, forbid: Word, u: nat)
    requires u < |f.lanes|
    ensures MeetsQuorum(f, minK, req.Lanes(), forbid.Lanes(), u) <==>
            PopCount(f.lanes[u].And(req)) >= minK && f.lanes[u].And(forbid).IsZero()
  {
    NamedLanes(f, req, u);
    PopCountIsSize(f.lanes[u].And(req));
    NamedLanes(f, forbid, u);
    ZeroLanes(f.lanes[u].And(forbid));
    var hits := set b | b in forbid.Lanes() && u in f.Nodes(b);
    assert (forall b :: b in forbid.Lanes() ==> u !in f.Nodes(b)) <==> hits == {} by {
      if b :| b in forbid.Lanes() && u in f.Nodes(b) {
        assert b in hits;
      }
    }
  }

  /** And-ing with a mask leaves the lanes the mask names that hold u. */
  lemma NamedLanes(f: Frontier, mask: Word, u: nat)
    requires u < |f.lanes|
    ensures f.lanes[u].And(mask).Lanes() == set b | b in mask.Lanes() && u in f.Nodes(b)
  {
    AndLanes(f.lanes[u], mask);
    forall b: nat ensures b in LanesAt(f, u) <==> u in f.Nodes(b) {
      LanesAtIsNodes(f, u, b);
    }
  }

  /** Standard mode: any lane counts, none is forbidden, and a zero min_k means one. */
  method FilterAnyQuorum(n: nat, src: Frontier, minK: nat) returns (s: set<nat>)
    requires src.Valid(n)
    ensures forall u :: u in s <==>
              0 <= u < n && |set b | b in FirstLanes(src.k) && u in src.Nodes(b)| >= (if minK == 0 then 1 else minK)
  {
    s := FilterQuorum(n, src, if minK == 0 then 1 else minK, ActiveMask(src.k), Zero);
    ActiveMaskLanes(src.k);
    ZeroLanes(Zero);
  }

  // ---- 0xC7 OP_LANE_REDUCE_AND ----

  /** Zero stands for "all nodes". */
  function CheckedNodes(n: nat, maxNodes: nat): nat {
    if maxNodes > 0 then Min(n, maxNodes) else n
  }

  /** The active lanes that hold every one of the first m nodes. */
  ghost function AllReached(f: Frontier, m: nat): set<nat> {
    set b | b in FirstLanes(f.k) && forall u :: 0 <= u < m ==> u in f.Nodes(b)
  }

  /** flags == 0: bitwise AND of the checked words. */
  method ReduceAnd(n: nat, src: Frontier, maxNodes: nat) returns (mask: Word)
    requires src.Valid(n)
    ensures forall b: nat :: mask.Bit(b) <==>
              b < src.k && forall u :: 0 <= u < n && (maxNodes == 0 || u < maxNodes) ==> u in src.Nodes(b)
  {
    mask := ActiveMask(src.k);
    ActiveMaskLanes(src.k);
    assert AllReached(src, 0) == FirstLanes(src.k);
    for u := 0 to CheckedNodes(n, maxNodes)
      invariant mask.Lanes() == AllReached(src, u)
    {
      AndReached(src, mask, u);
      mask := mask.And(src.lanes[u].And(ActiveMask(src.k)));
    }
    forall b: nat ensures mask.Bit(b) <==> b in AllReached(src, CheckedNodes(n, maxNodes)) {
      BitIsLane(mask, b);
    }
  }

  lemma AndReached(f: Frontier, mask: Word, u: nat)
    requires u < |f.lanes| && f.k <= 64
    requires mask.Lanes() == AllReached(f, u)
    ensures mask.And(f.lanes[u].And(ActiveMask(f.k))).Lanes() == AllReached(f, u + 1)
  {
    AndLanes(mask, f.lanes[u].And(ActiveMask(f.k)));
    AndLanes(f.lanes[u], ActiveMask(f.k));
    ActiveMaskLanes(f.k);
    AllReachedNext(f, u);
  }

  lemma AllReachedNext(f: Frontier, u: nat)
    requires u < |f.lanes|
    ensures AllReached(f, u + 1) == AllReached(f, u) * LanesAt(f, u)
  {
    forall b: nat ensures b in LanesAt(f, u) <==> u in f.Nodes(b) {
      LanesAtIsNodes(f, u, b);
    }
  }

  /** flags bit 0: the lanes that miss at least one checked node. */
  method ReduceIslanded(n: nat, src: Frontier, maxNodes: nat) returns (mask: Word)
    requires src.Valid(n)
    ensures forall b: nat :: mask.Bit(b) <==>
              b < src.k && exists u :: 0 <= u < n && (maxNodes == 0 || u < maxNodes) && u !in src.Nodes(b)
  {
    var reached := ReduceAnd(n, src, maxNodes);
    mask := ActiveMask(src.k).Minus(reached);
    forall b: nat ensures mask.Bit(b) <==> b < src.k && !reached.Bit(b) {
      BitMinus(ActiveMask(src.k), reached, b);
      BitActiveMask(src.k, b);
    }
  }

  /** flags bit 1: how many checked nodes every active lane holds. */
  method CountUniversal(n: nat, src: Frontier, maxNodes: nat) returns (count: nat)
    requires src.Valid(n)
    ensures count == |set u | 0 <= u < n && (maxNodes == 0 || u < maxNodes) && Universal(src, u)|
  {
    count := 0;
    var all := ActiveMask(src.k);
    for u := 0 to CheckedNodes(n, maxNodes)
      invariant count == |UniversalNodes(src, u)|
    {
      UniversalWord(n, src, u);
      UniversalNext(src, u);
      if src.lanes[u].And(all) == all {
        count := count + 1;
      }
    }
    assert UniversalNodes(src, CheckedNodes(n, maxNodes))
        == set u | 0 <= u < n && (maxNodes == 0 || u < maxNodes) && Universal(src, u);
  }

  /** The nodes below m that every active lane holds. */
  ghost function UniversalNodes(f: Frontier, m: nat): set<nat> {
    set u | 0 <= u < m && Universal(f, u)
  }

  lemma UniversalNext(f: Frontier, u: nat)
    ensures |UniversalNodes(f, u + 1)| == |UniversalNodes(f, u)| + (if Universal(f, u) then 1 else 0)
  {
    assert UniversalNodes(f, u + 1) == UniversalNodes(f, u) + if Universal(f, u) then {u} else {};
  }

  ghost predicate Universal(f: Frontier, u: nat) {
    forall b :: b in FirstLanes(f.k) ==> u in f.Nodes(b)
  }

  lemma UniversalWord(n: nat, f: Frontier, u: nat)
    requires f.Valid(n) && u < n
    ensures Universal(f, u) <==> f.lanes[u].And(ActiveMask(f.k)) == ActiveMask(f.k)
  {
    forall b: nat ensures b in LanesAt(f, u) <==> u in f.Nodes(b) {
      LanesAtIsNodes(f, u, b);
    }
    AndLanes(f.lanes[u], ActiveMask(f.k));
    ActiveMaskLanes(f.k);
    if Universal(f, u) {
      assert f.lanes[u].And(ActiveMask(f.k)).Lanes() == FirstLanes(f.k);
      SameBits(f.lanes[u].And(ActiveMask(f.k)), ActiveMask(f.k));
    } else {
      var b :| b in FirstLanes(f.k) && u !in f.Nodes(b);
      assert b !in f.lanes[u].And(ActiveMask(f.k)).Lanes();
    }
  }

  // ---- 0xC8 OP_LANE_REDUCE_ATTR ----

  datatype Reduction = Add | Mul | Least | Greatest | Count

  /** A node attribute column; None is a null (or NaN) entry, which every reduction skips. */
  type Column = seq<Option<int>>

  function Combine(op: Reduction, acc: Option<int>, v: int): int {
    match (op, acc)
    case (Count, None) => 1
    case (Count, Some(a)) => a + 1
    case (_, None) => v
    case (Add, Some(a)) => a + v
    case (Mul, Some(a)) => a * v
    case (Least, Some(a)) => if v < a then v else a
    case (Greatest, Some(a)) => if v > a then v else a
  }

  /** The non-null values on one node set's members below m, in ascending node order. */
  ghost function Values(attr: Column, nodes: set<nat>, m: nat): seq<int>
    requires m <= |attr|
  {
    if m == 0 then []
    else if m - 1 in nodes && attr[m - 1].Some? then Values(attr, nodes, m - 1) + [attr[m - 1].value]
    else Values(attr, nodes, m - 1)
  }

  /** The members below m that carry a value. */
  ghost function Carriers(attr: Column, nodes: set<nat>, m: nat): set<nat>
    requires m <= |attr|
  {
    set u | 0 <= u < m && u in nodes && attr[u].Some?
  }

  lemma CarriersNext(attr: Column, nodes: set<nat>, u: nat)
    requires u < |attr|
    ensures |Carriers(attr, nodes, u + 1)|
         == |Carriers(attr, nodes, u)| + (if u in nodes && attr[u].Some? then 1 else 0)
  {
    assert Carriers(attr, nodes, u + 1) == Carriers(attr, nodes, u) + if u in nodes && attr[u].Some? then {u} else {};
  }

  /** One value a carrier, and in node order: u's value stands after those of the carriers below u. */
  lemma {:induction false} ValuesInOrder(attr: Column, nodes: set<nat>, m: nat)
    requires m <= |attr|
    ensures |Values(attr, nodes, m)| == |Carriers(attr, nodes, m)|
    ensures forall u :: u in Carriers(attr, nodes, m) ==>
              |Carriers(attr, nodes, u)| < |Values(attr, nodes, m)|
              && Values(attr, nodes, m)[|Carriers(attr, nodes, u)|] == attr[u].value
  {
    if m > 0 {
      ValuesInOrder(attr, nodes, m - 1);
      CarriersNext(attr, nodes, m - 1);
    }
  }

  /** The reduction of one list of values on its own; None when there is nothing to reduce. */
  ghost function Fold(op: Reduction, vals: seq<int>): Option<int> {
    if vals == [] then None
    else Some(Combine(op, Fold(op, vals[..|vals| - 1]), vals[|vals| - 1]))
  }

  lemma {:induction false} FoldSnoc(op: Reduction, vals: seq<int>, v: int)
    ensures Fold(op, vals + [v]) == Some(Combine(op, Fold(op, vals), v))
  {
    assert (vals + [v])[..|vals|] == vals;
  }

  /** Lane b reduced on its own over the nodes below m. */
  ghost function LaneFold(f: Frontier, attr: Column, op: Reduction, b: nat, m: nat): Option<int>
    requires m <= |attr|
  {
    Fold(op, Values(attr, f.Nodes(b), m))
  }

  lemma {:induction false} LaneFoldNext(f: Frontier, attr: Column, op: Reduction, b: nat, u: nat)
    requires u < |attr| == |f.lanes|
    ensures LaneFold(f, attr, op, b, u + 1) ==
            if attr[u].Some? && f.lanes[u].Bit(b) then Some(Combine(op, LaneFold(f, attr, op, b, u), attr[u].value))
            else LaneFold(f, attr, op, b, u)
  {
    if attr[u].Some? {
      FoldSnoc(op, Values(attr, f.Nodes(b), u), attr[u].value);
    }
  }

  /** Folds one value into every lane that `word` sets. */
  method AbsorbValue(op: Reduction, word: Word, v: int, acc: array<Option<int>>)
    modifies acc
    ensures forall b :: 0 <= b < acc.Length ==>
              acc[b] == if word.Bit(b) then Some(Combine(op, old(acc[b]), v)) else old(acc[b])
  {
    for b := 0 to acc.Length
      invariant forall c :: 0 <= c < b ==>
                  acc[c] == if word.Bit(c) then Some(Combine(op, old(acc[c]), v)) else old(acc[c])
      invariant forall c :: b <= c < acc.Length ==> acc[c] == old(acc[c])
    {
      if word.Bit(b) {
        acc[b] := Some(Combine(op, acc[b], v));
      }
    }
  }

  /** Node u's value goes into each lane that holds u. */
  method AbsorbNode(src: Frontier, attr: Column, op: Reduction, u: nat, acc: array<Option<int>>)
    requires u < |attr| == |src.lanes|
    requires forall b :: 0 <= b < acc.Length ==> acc[b] == LaneFold(src, attr, op, b, u)
    modifies acc
    ensures forall b :: 0 <= b < acc.Length ==> acc[b] == LaneFold(src, attr, op, b, u + 1)
  {
    forall b: nat ensures LaneFold(src, attr, op, b, u + 1) ==
            if attr[u].Some? && src.lanes[u].Bit(b) then Some(Combine(op, LaneFold(src, attr, op, b, u), attr[u].value))
            else LaneFold(src, attr, op, b, u)
    {
      LaneFoldNext(src, attr, op, b, u);
    }
    if attr[u].Some? {
      AbsorbValue(op, src.lanes[u], attr[u].value, acc);
    }
  }

  /** One pass over the nodes reduces every lane as if it had been folded alone; untouched lanes get 0. */
  method ReduceAttr(n: nat, src: Frontier, attr: Column, op: Reduction) returns (out: seq<int>)
    requires src.Valid(n) && |attr| == n
    ensures |out| == src.k
    ensures forall b :: 0 <= b < src.k ==> Reduces(op, Values(attr, src.Nodes(b), n), out[b])
  {
    var acc := new Option<int>[src.k](_ => None);
    for u := 0 to n
      invariant forall b :: 0 <= b < src.k ==> acc[b] == LaneFold(src, attr, op, b, u)
    {
      AbsorbNode(src, attr, op, u, acc);
    }
    out := seq(src.k, (b: nat) requires b < src.k reads acc => OrZero(acc[b]));
    forall b | 0 <= b < src.k ensures Reduces(op, Values(attr, src.Nodes(b), n), out[b]) {
      FoldReduces(op, Values(attr, src.Nodes(b), n));
    }
  }

  /** r is the reduction of a lane's values: 0 for a lane without any. */
  ghost predicate Reduces(op: Reduction, vals: seq<int>, r: int) {
    if vals == [] then r == 0
    else
      match op
      case Add => r == Total(vals)
      case Mul => r == Product(vals)
      case Count => r == |vals|
      case Least => r in vals && forall i :: 0 <= i < |vals| ==> r <= vals[i]
      case Greatest => r in vals && forall i :: 0 <= i < |vals| ==> r >= vals[i]
  }

  lemma {:induction false} FoldReduces(op: Reduction, vals: seq<int>)
    ensures Reduces(op, vals, OrZero(Fold(op, vals)))
  {
    if vals != [] {
      FoldExtreme(vals);
      FoldSumProductCount(vals);
    }
  }

  function OrZero(x: Option<int>): int {
    if x.Some? then x.value else 0
  }

  /** MIN and MAX folds return an attained bound. */
  lemma {:induction false} FoldExtreme(vals: seq<int>)
    requires vals != []
    ensures Fold(Least, vals).Some? && Fold(Least, vals).value in vals
    ensures forall i :: 0 <= i < |vals| ==> Fold(Least, vals).value <= vals[i]
    ensures Fold(Greatest, vals).Some? && Fold(Greatest, vals).value in vals
    ensures forall i :: 0 <= i < |vals| ==> Fold(Greatest, vals).value >= vals[i]
  {
    var init := vals[..|vals| - 1];
    if init != [] {
      FoldExtreme(init);
      assert forall i :: 0 <= i < |init| ==> vals[i] == init[i];
    }
  }

  ghost function Total(vals: seq<int>): int {
    if vals == [] then 0 else vals[0] + Total(vals[1..])
  }

  lemma {:induction false} TotalSnoc(vals: seq<int>, v: int)
    ensures Total(vals + [v]) == Total(vals) + v
  {
    if vals != [] {
      assert (vals + [v])[1..] == vals[1..] + [v];
      TotalSnoc(vals[1..], v);
    }
  }

  ghost function Product(vals: seq<int>): int {
    if vals == [] then 1 else vals[0] * Product(vals[1..])
  }

  lemma {:induction false} ProductSnoc(vals: seq<int>, v: int)
    ensures Product(vals + [v]) == Product(vals) * v
  {
    if vals != [] {
      assert (vals + [v])[1..] == vals[1..] + [v];
      ProductSnoc(vals[1..], v);
    }
  }

  /** SUM folds add up the list, MUL folds multiply it, COUNT folds give its length. */
  lemma {:induction false} FoldSumProductCount(vals: seq<int>)
    requires vals != []
    ensures Fold(Add, vals) == Some(Total(vals))
    ensures Fold(Mul, vals) == Some(Product(vals))
    ensures Fold(Count, vals) == Some(|vals|)
  {
    var init, last := vals[..|vals| - 1], vals[|vals| - 1];
    assert vals == init + [last];
    TotalSnoc(init, last);
    ProductSnoc(init, last);
    if init != [] {
      FoldSumProductCount(init);
    }
  }

  /** Node u carries a value and is held by lane b. */
  ghost predicate Candidate(f: Frontier, attr: Column, b: nat, u: nat) {
    u in f.Nodes(b) && u < |attr| && attr[u].Some?
  }

  /** u beats w: a strictly better value, or an equal value at a lower node ID. */
  ghost predicate Better(attr: Column, largest: bool, u: nat, w: nat)
    requires u < |attr| && attr[u].Some? && w < |attr| && attr[w].Some?
  {
    || (if largest then attr[u].value > attr[w].value else attr[u].value < attr[w].value)
    || (attr[u].value == attr[w].value && u < w)
  }

  /** The witness for one lane among nodes below m: -1 if untouched, else the lowest best node. */
  ghost predicate IsWitness(f: Frontier, attr: Column, largest: bool, b: nat, m: nat, w: int) {
    if w == -1 then
      forall u :: 0 <= u < m ==> !Candidate(f, attr, b, u)
    else
      && 0 <= w < m
      && Candidate(f, attr, b, w)
      && forall u :: 0 <= u < m && u != w && Candidate(f, attr, b, u) ==> Better(attr, largest, w, u)
  }

  /** ARGMIN (or ARGMAX when `largest`) of every lane in one ascending pass, strict comparison. */
  method ReduceArg(n: nat, src: Frontier, attr: Column, largest: bool) returns (out: seq<int>)
    requires src.Valid(n) && |attr| == n
    ensures |out| == src.k
    ensures forall b :: 0 <= b < src.k ==> IsWitness(src, attr, largest, b, n, out[b])
  {
    var best := new int[src.k](_ => -1);
    for u := 0 to n
      invariant forall b :: 0 <= b < src.k ==> IsWitness(src, attr, largest, b, u, best[b])
    {
      if attr[u].Some? {
        for b := 0 to src.k
          invariant forall c :: 0 <= c < b ==> IsWitness(src, attr, largest, c, u + 1, best[c])
          invariant forall c :: b <= c < src.k ==> IsWitness(src, attr, largest, c, u, best[c])
        {
          if src.lanes[u].Bit(b) {
            var v := attr[u].value;
            if best[b] == -1 || (if largest then v > attr[best[b]].value else v < attr[best[b]].value) {
              best[b] := u;
            }
          }
        }
      }
    }
    out := best[..];
  }
}