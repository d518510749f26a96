/** The contract-guided program generator: a loop that tracks one abstract type set per register. */
module Fuzzer {
  import opened Binary
  import opened Options

  // ---- Type tags and contracts ----

  const NULL := 0
  const INT64 := 1
  const NODE_ID := 2
  const BITSET_HANDLE := 4
  const NODE_VECTOR := 5
  const FLOAT := 8
  const FLOAT_VECTOR := 12
  const TAGS := 17

  /** The mnemonics the generator can print; Other stands for every other contract's. */
  datatype Mnemonic =
    | CsrWalk | CscWalk | AdaptiveWalk | CsrDegree
    | SetUnion | SetIntersect | SetDifference | SetCardinality
    | Mov | ClearReg | VecCmpEq | VecCmpGt | VecCmpLt | VecMathUnary | VecMathBinary
    | VectorReduceSum | FloatVectorScale | ExtractValidity
    | LaneInitSeeds | LaneInitGroups | LaneCsrWalk | LaneCscWalk | LaneFilterQuorum | LaneReduceAnd
    | VectorAnnSearch | VectorRerankDot | LoadConstInt | LoadConstFloat | Assert
    | Other(name: string)

  /** One contract variant; masks have bit t set for each tag t they admit. */
  datatype Contract = Contract(mnemonic: Mnemonic, flags: nat, src: nat, aux1: nat, aux2: nat, output: nat,
                               skip1: bool, skip2: bool, modifiesDst: bool) {

    predicate IsSetOp() {
      mnemonic.SetUnion? || mnemonic.SetIntersect? || mnemonic.SetDifference?
    }

    /** Set operations are narrowed to the types that denote sets. */
    function Src(): nat {
      if IsSetOp() then BitAnd(src, SET_MASK) else src
    }

    function Aux1(): nat {
      if IsSetOp() then BitAnd(aux1, SET_MASK) else aux1
    }
  }

  /** BITSET_HANDLE, NODE_ID, INT64, NODE_VECTOR, UINT64_VECTOR, LANE_FRONTIER */
  const SET_MASK := 0x14036

  /** A contract that writes its destination and takes no auxiliary operand. */
  function Writes(m: Mnemonic, flags: nat, src: nat, output: nat): Contract {
    Contract(m, flags, src, 0, 0, output, false, false, true)
  }

  function WritesFromTwo(m: Mnemonic, src: nat, aux1: nat, output: nat): Contract {
    Contract(m, 0, src, aux1, 0, output, false, false, true)
  }

  function Silent(m: Mnemonic, flags: nat, src: nat): Contract {
    Contract(m, flags, src, 0, 0, 0, false, false, false)
  }

  /** The contract table for the printable mnemonics, by flags variant. */
  function Row(m: Mnemonic, flags: nat): Option<Contract> {
    match m
    case CsrWalk => if flags == 0 || flags == 4 then Some(Writes(m, flags, 0x4037, 0x10)) else None
    case CscWalk => if flags == 0 then Some(Writes(m, flags, 0x4037, 0x10)) else None
    case AdaptiveWalk => if flags == 0 then Some(Silent(m, flags, 0x4037)) else None
    case CsrDegree => if flags == 0 then Some(Writes(m, flags, 0x16, 0x2)) else None
    case SetUnion | SetIntersect | SetDifference =>
      if flags == 0 then Some(WritesFromTwo(m, 0x7337, 0x7337, 0x10)) else None
    case SetCardinality => if flags == 0 then Some(Writes(m, flags, 0x4036, 0x2)) else None
    case Mov => if flags == 0 then Some(Writes(m, flags, 0x1FFFF, 0x1FFFF)) else None
    case ClearReg => if flags == 0 then Some(Writes(m, flags, 0, 0x1)) else None
    case VecCmpEq | VecCmpGt | VecCmpLt =>
      if flags == 0 then Some(WritesFromTwo(m, 0x7126, 0x7126, 0x10)) else None
    case VecMathUnary => if flags == 0 then Some(Writes(m, flags, 0x3100, 0x3100)) else None
    case VecMathBinary => if flags == 0 then Some(WritesFromTwo(m, 0x3100, 0x3100, 0x3100)) else None
    case VectorReduceSum => if flags == 0 then Some(Writes(m, flags, 0x3300, 0x300)) else None
    case FloatVectorScale =>
      if flags == 0 then Some(Silent(m, flags, 0)) else if flags == 1 then Some(Silent(m, flags, 0x306)) else None
    case ExtractValidity => if flags == 0 then Some(Writes(m, flags, 0x7020, 0x10)) else None
    case LaneInitSeeds =>
      if flags == 0 then Some(Writes(m, flags, 0x4037, 0x10000))
      else if flags == 1 then Some(Writes(m, flags, 0, 0x10000))
      else None
    case LaneInitGroups => if flags <= 1 then Some(Writes(m, flags, 0x4020, 0x10000)) else None
    case LaneCsrWalk | LaneCscWalk => if flags <= 1 then Some(Writes(m, flags, 0x10000, 0x10000)) else None
    case LaneFilterQuorum =>
      if flags == 0 then Some(Writes(m, flags, 0x10000, 0x10))
      else if flags == 1 then Some(Contract(m, flags, 0x10000, 0x6, 0x6, 0x10, true, true, true))
      else None
    case LaneReduceAnd => if flags <= 2 then Some(Writes(m, flags, 0x10000, 0x2)) else None
    case VectorAnnSearch =>
      if flags == 0 then Some(Writes(m, flags, 0x1000, 0x10))
      else if flags == 1 then Some(Writes(m, flags, 0x1000, 0x10000))
      else None
    case VectorRerankDot => if flags == 0 then Some(WritesFromTwo(m, 0x10010, 0x1000, 0x1000)) else None
    case LoadConstInt => if flags == 0 then Some(Writes(m, flags, 0, 0x2)) else None
    case LoadConstFloat => if flags == 0 then Some(Writes(m, flags, 0, 0x100)) else None
    case Assert => if flags == 0 then Some(Silent(m, flags, 0x186)) else None
    case Other(_) => None
  }

  /** Rows carry the mnemonic and flags they are looked up by. */
  lemma RowsAgree(m: Mnemonic, flags: nat)
    requires Row(m, flags).Some?
    ensures var c := Row(m, flags).value; FromTable(c) && c.mnemonic == m && c.flags == flags
    ensures flags <= 2 || (m.CsrWalk? && flags == 4)
  {
  }

  /** A contract writes exactly when it has an output, and skips only registers it would read. */
  lemma RowsWrite(m: Mnemonic, flags: nat)
    requires Row(m, flags).Some?
    ensures var c := Row(m, flags).value;
            (c.modifiesDst <==> c.output != 0) && (c.skip1 ==> c.aux1 != 0) && (c.skip2 ==> c.aux2 != 0)
  {
  }

  /** A row the loaded contract file holds: any contract at all for mnemonics that are never printed. */
  predicate FromTable(c: Contract) {
    c.mnemonic.Other? || Row(c.mnemonic, c.flags) == Some(c)
  }

  predicate Loaded(contracts: seq<Contract>) {
    forall c :: c in contracts ==> FromTable(c)
  }

  // ---- Tracked registers ----

  type Regs = s: seq<set<nat>> | |s| == 64 witness seq(64, _ => {})

  /** Graph in R0 (left NULL), then an integer, a float, a node, a bitset, a float and a node vector. */
  function Preamble(): (regs: Regs)
    ensures regs[0] == {0} && regs[1] == {1} && regs[2] == {8} && regs[3] == {2} && regs[4] == {4}
    ensures regs[5] == {12} && regs[6] == {5} && forall r :: 7 <= r < 64 ==> regs[r] == {0}
  {
    seq(64, (r: nat) =>
      if r == 1 then {INT64} else if r == 2 then {FLOAT} else if r == 3 then {NODE_ID}
      else if r == 4 then {BITSET_HANDLE} else if r == 5 then {FLOAT_VECTOR} else if r == 6 then {NODE_VECTOR}
      else {NULL})
  }

  ghost predicate Tracked(regs: Regs) {
    && (forall r :: 0 <= r < 64 ==> exists t: nat :: t < TAGS && regs[r] == {t})
    && (forall r :: 0 <= r < 7 ==> regs[r] == Preamble()[r])
  }

  /** Register r holds a type the mask admits; NULL counts for R0 only. */
  predicate Accepts(mask: nat, regs: Regs, r: nat)
    requires r < 64
  {
    exists t :: t in regs[r] && Bit(mask, t) && (t != NULL || r == 0)
  }

  /** The registers below n that hold an admitted type, in ascending order. */
  function Valid(mask: nat, regs: Regs, n: nat): (rs: seq<nat>)
    requires n <= 64
    ensures forall r: nat :: r in rs <==> r < n && Accepts(mask, regs, r)
  {
    if n == 0 then []
    else Valid(mask, regs, n - 1) + (if Accepts(mask, regs, n - 1) then [n - 1] else [])
  }

  predicate Servable(mask: nat, skip: bool, regs: Regs) {
    mask == 0 || skip || Valid(mask, regs, |regs|) != []
  }

  predicate Eligible(c: Contract, regs: Regs) {
    Servable(c.Src(), false, regs) && Servable(c.Aux1(), c.skip1, regs) && Servable(c.aux2, c.skip2, regs)
  }

  /** The contracts that can be drawn, in the order of the file. */
  function EligibleList(contracts: seq<Contract>, regs: Regs): (eligible: seq<Contract>)
    ensures forall c :: c in eligible <==> c in contracts && Eligible(c, regs)
  {
    if contracts == [] then []
    else
      var n := |contracts| - 1;
      EligibleList(contracts[..n], regs) + (if Eligible(contracts[n], regs) then [contracts[n]] else [])
  }

  method EligibleRows(contracts: seq<Contract>, regs: Regs) returns (eligible: seq<Contract>)
    ensures eligible == EligibleList(contracts, regs)
  {
    eligible := [];
    for i := 0 to |contracts|
      invariant eligible == EligibleList(contracts[..i], regs)
    {
      assert contracts[..i + 1][..i] == contracts[..i];
      if Eligible(contracts[i], regs) {
        eligible := eligible + [contracts[i]];
      }
    }
    assert contracts[..|contracts|] == contracts;
  }

  /** The tags below n that a mask admits, in ascending order. */
  function TagsBelow(mask: nat, n: nat): (tags: seq<nat>)
    ensures forall t: nat :: t in tags <==> t < n && Bit(mask, t)
  {
    if n == 0 then []
    else TagsBelow(mask, n - 1) + (if Bit(mask, n - 1) then [n - 1] else [])
  }

  method PossibleTypes(mask: nat) returns (res: seq<nat>)
    ensures res == TagsBelow(mask, TAGS)
    ensures forall t: nat :: t in res <==> t < TAGS && Bit(mask, t)
    ensures forall i, j :: 0 <= i < j < |res| ==> res[i] < res[j]
  {
    res := [];
    for t := 0 to TAGS
      invariant res == TagsBelow(mask, t)
      invariant forall i, j :: 0 <= i < j < |res| ==> res[i] < res[j]
      invariant forall i :: 0 <= i < |res| ==> res[i] < t
    {
      if Bit(mask, t) {
        res := res + [t];
      }
    }
  }

  // ---- Printed instructions and their contract ----

  /** One printed line, the tracked types before it, and what the tracker assigns to dst, if anything. */
  datatype Printed = Printed(row: Contract, dst: nat, src: nat, aux1: nat, before: Regs, update: Option<set<nat>>) {

    /** The seed register of a lane initialisation is printed as 0 whatever was drawn. */
    function Operand(): nat {
      if row.mnemonic.LaneInitSeeds? then 0 else src
    }

    /** No flags are printed, except that a scale by a register operand assembles with flag 1. */
    function Governing(): Option<Contract> {
      Row(row.mnemonic, if row.mnemonic.FloatVectorScale? then 1 else 0)
    }

    function After(): (regs: Regs)
      ensures forall r :: 0 <= r < 64 ==> regs[r] == if r == dst && update.Some? then update.value else before[r]
    {
      if dst < 64 && update.Some? then before[dst := update.value] else before
    }

    /** Operands carry a tracked type the governing contract admits, and dst gets one of its output types. */
    ghost predicate Admissible() {
      && Operand() < 64 && aux1 < 64 && Governing().Some?
      && var g := Governing().value;
      && (g.src != 0 ==> Holds(g.src, before[Operand()]))
      && (g.aux1 != 0 ==> Holds(g.aux1, before[aux1]))
      && g.aux2 == 0
      && (if g.modifiesDst then update.Some? && Within(update.value, g.output) else update.None?)
    }
  }

  ghost predicate Holds(mask: nat, types: set<nat>) {
    exists t :: t in types && Bit(mask, t)
  }

  ghost predicate Within(types: set<nat>, mask: nat) {
    types != {} && forall t :: t in types ==> t < TAGS && Bit(mask, t)
  }

  /** The variants whose printed or tracked form differs from the contract that governs the printed line. */
  predicate Excluded(c: Contract) {
    || c.mnemonic.AdaptiveWalk?
    || (c.mnemonic.FloatVectorScale? && c.flags == 0)
    || (c.mnemonic.VectorAnnSearch? && c.flags == 1)
  }

  // ---- The generator ----

  /** The random draws of one iteration; an index is taken modulo the length of the list drawn from. */
  datatype Choice = Choice(row: nat, dst: nat, src: nat, skip1: bool, aux1: nat, result: nat)

  function Draw<T>(items: seq<T>, k: nat): (x: T)
    requires items != []
    ensures x in items
  {
    items[k % |items|]
  }

  function DrawSrc(c: Contract, regs: Regs, k: nat): (r: nat)
    requires Eligible(c, regs)
    ensures r < 64
    ensures c.Src() == 0 ==> r == 0
    ensures c.Src() != 0 ==> Accepts(c.Src(), regs, r)
  {
    if c.Src() == 0 then 0 else Draw(Valid(c.Src(), regs, |regs|), k)
  }

  function DrawAux1(c: Contract, regs: Regs, skip: bool, k: nat): (r: nat)
    requires Eligible(c, regs)
    ensures r < 64
    ensures c.Aux1() != 0 && !c.skip1 ==> Accepts(c.Aux1(), regs, r)
  {
    var valid := Valid(c.Aux1(), regs, |regs|);
    if c.Aux1() == 0 || (c.skip1 && skip) || valid == [] then 0 else Draw(valid, k)
  }

  /** A type drawn from the output mask, for contracts that write their destination. */
  function OutputUpdate(c: Contract, k: nat): Option<set<nat>> {
    var types := TagsBelow(c.output, TAGS);
    if types != [] && c.modifiesDst then Some({Draw(types, k)}) else None
  }

  /** What the tracker assigns to dst, if anything. */
  function Update(c: Contract, regs: Regs, src: nat, aux1: nat, k: nat): Option<set<nat>>
    requires src < 64 && aux1 < 64
  {
    match c.mnemonic
    case VecMathUnary => Some({if regs[src] == {FLOAT} then FLOAT else FLOAT_VECTOR})
    case VecMathBinary => Some({if regs[src] == {FLOAT} == regs[aux1] then FLOAT else FLOAT_VECTOR})
    case CsrWalk | CscWalk | AdaptiveWalk | SetUnion | SetIntersect | SetDifference | ExtractValidity =>
      Some({BITSET_HANDLE})
    case SetCardinality | CsrDegree => Some({INT64})
    case ClearReg => Some({NULL})
    case Mov => Some(regs[src])
    case FloatVectorScale => None
    case _ => OutputUpdate(c, k)
  }

  method Track(c: Contract, regs: Regs, src: nat, aux1: nat, k: nat) returns (update: Option<set<nat>>)
    requires src < 64 && aux1 < 64
    ensures update == Update(c, regs, src, aux1, k)
  {
    match c.mnemonic {
      case VecMathUnary =>
        return Some(if regs[src] == {FLOAT} then {FLOAT} else {FLOAT_VECTOR});
      case VecMathBinary =>
        return Some(if regs[src] == {FLOAT} && regs[aux1] == {FLOAT} then {FLOAT} else {FLOAT_VECTOR});
      case CsrWalk | CscWalk | AdaptiveWalk | SetUnion | SetIntersect | SetDifference | ExtractValidity =>
        return Some({BITSET_HANDLE});
      case SetCardinality | CsrDegree =>
        return Some({INT64});
      case ClearReg =>
        return Some({NULL});
      case Mov =>
        return Some(regs[src]);
      case FloatVectorScale =>
        return None;
      case _ =>
        var types := PossibleTypes(c.output);
        if types != [] && c.modifiesDst {
          return Some({Draw(types, k)});
        }
        return None;
    }
  }

  ghost predicate IsTracked(c: Contract, regs: Regs, src: nat, aux1: nat, update: Option<set<nat>>)
    requires src < 64 && aux1 < 64
  {
    exists k :: update == Update(c, regs, src, aux1, k)
  }

  // ---- One printed line ----

  /** What the draws guarantee of a printed line. */
  ghost predicate Drawn(p: Printed) {
    && FromTable(p.row) && !p.row.mnemonic.Other? && Tracked(p.before)
    && 10 <= p.dst < 32 && p.src < 64 && p.aux1 < 64
    && (if p.row.Src() == 0 then p.src == 0 else Accepts(p.row.Src(), p.before, p.src))
    && (p.row.Aux1() != 0 && !p.row.skip1 ==> Accepts(p.row.Aux1(), p.before, p.aux1))
    && IsTracked(p.row, p.before, p.src, p.aux1, p.update)
  }

  lemma MaskBits()
    ensures Bit(0x1, NULL) && Bit(0x4037, NULL) && Bit(0x2, INT64) && Bit(0x10, BITSET_HANDLE)
    ensures Bit(0x3100, FLOAT) && Bit(0x3100, FLOAT_VECTOR) && !Bit(0x306, NULL)
  {
  }

  /** 0x10000 admits only tag 16, which 0x10 does not. */
  lemma {:induction false} LaneBits(t: nat)
    requires Bit(0x10000, t)
    ensures t == 16 && !Bit(0x10, t)
  {
    Pow2Values();
    OnlyBit(16, 0x10000);
    OnlyBit(4, 0x10);
  }

  lemma OperandHolds(mask: nat, regs: Regs, r: nat)
    requires r < 64 && Accepts(mask, regs, r)
    ensures Holds(mask, regs[r])
  {
    var t :| t in regs[r] && Bit(mask, t);
  }

  /** A type the narrowed mask of a set operation admits is admitted by the contract's own mask. */
  lemma {:induction false} NarrowedHolds(mask: nat, regs: Regs, r: nat)
    requires r < 64 && Accepts(BitAnd(mask, SET_MASK), regs, r)
    ensures Holds(mask, regs[r])
  {
    var t :| t in regs[r] && Bit(BitAnd(mask, SET_MASK), t);
    BitOfAnd(mask, SET_MASK, t);
  }

  /** Variants of one mnemonic differ in their source mask only for seeds and scaling. */
  lemma SameSource(c: Contract)
    requires FromTable(c) && !c.mnemonic.Other? && !c.mnemonic.FloatVectorScale? && !c.mnemonic.LaneInitSeeds?
    ensures Row(c.mnemonic, 0).Some? && Row(c.mnemonic, 0).value.src == c.src
  {
  }

  lemma {:induction false} CommonBit(x: nat, y: nat, i: nat)
    requires Bit(x, i) && Bit(y, i)
    ensures BitAnd(x, y) != 0
  {
    BitOfAnd(x, y, i);
    BitOfZero(i);
  }

  lemma SetOpMasks(c: Contract)
    requires FromTable(c) && c.IsSetOp()
    ensures BitAnd(c.src, SET_MASK) != 0 && BitAnd(c.aux1, SET_MASK) != 0
  {
    assert c.src == c.aux1 == 0x7337;
    assert Bit(0x7337, INT64) && Bit(SET_MASK, INT64);
    CommonBit(c.src, SET_MASK, INT64);
  }

  ghost predicate SourceAdmissible(p: Printed)
    requires Drawn(p) && p.Governing().Some?
  {
    var g := p.Governing().value;
    g.src != 0 ==> Holds(g.src, p.before[p.Operand()])
  }

  lemma SourceFits(p: Printed)
    requires Drawn(p) && !p.row.mnemonic.FloatVectorScale?
    ensures p.Governing().Some? && SourceAdmissible(p)
  {
    if p.row.mnemonic.LaneInitSeeds? {
      MaskBits();
      assert NULL in p.before[0];
    } else {
      SameSource(p.row);
      if p.row.IsSetOp() {
        SetOpMasks(p.row);
        NarrowedHolds(p.row.src, p.before, p.src);
      } else if p.row.src != 0 {
        OperandHolds(p.row.src, p.before, p.src);
      }
    }
  }

  /** A scale assembles with flag 1, so the variant drawn without an operand prints the NULL register R0. */
  lemma ScaleSource(p: Printed)
    requires Drawn(p) && p.row.mnemonic.FloatVectorScale?
    ensures p.Governing().Some?
    ensures SourceAdmissible(p) <==> p.row.flags != 0
  {
    MaskBits();
    if p.row.flags == 0 {
      assert p.before[0] == {NULL};
    } else {
      OperandHolds(p.row.src, p.before, p.src);
    }
  }

  /** Of the contracts that govern a printed line, the two-operand ones have a single variant. */
  lemma SameAux(c: Contract, g: Contract)
    requires FromTable(c) && !c.mnemonic.Other?
    requires Row(c.mnemonic, if c.mnemonic.FloatVectorScale? then 1 else 0) == Some(g)
    ensures g.aux2 == 0
    ensures g.aux1 != 0 ==> g == c && !c.skip1
  {
  }

  ghost predicate AuxAdmissible(p: Printed)
    requires Drawn(p) && p.Governing().Some?
  {
    var g := p.Governing().value;
    g.aux2 == 0 && (g.aux1 != 0 ==> Holds(g.aux1, p.before[p.aux1]))
  }

  /** A seeding line reads R0, which is NULL, so it always asks for the default seeds; others read their source. */
  lemma OperandRead(p: Printed)
    requires Drawn(p)
    ensures if p.row.mnemonic.LaneInitSeeds? then p.Operand() == 0 && p.before[p.Operand()] == {0}
            else p.Operand() == p.src
  {
  }

  lemma AuxFits(p: Printed)
    requires Drawn(p) && p.Governing().Some?
    ensures AuxAdmissible(p)
  {
    var g := p.Governing().value;
    SameAux(p.row, g);
    if g.aux1 != 0 {
      if p.row.IsSetOp() {
        SetOpMasks(p.row);
        NarrowedHolds(p.row.aux1, p.before, p.aux1);
      } else {
        OperandHolds(p.row.aux1, p.before, p.aux1);
      }
    }
  }

  // ---- Tracked results ----

  ghost predicate ResultAdmissible(p: Printed)
    requires Drawn(p) && p.Governing().Some?
  {
    var g := p.Governing().value;
    if g.modifiesDst then p.update.Some? && Within(p.update.value, g.output) else p.update.None?
  }

  /** Mnemonics whose tracked result is fixed or copied, not drawn from the contract's output mask. */
  predicate FixedResult(m: Mnemonic) {
    || m.CsrWalk? || m.CscWalk? || m.AdaptiveWalk? || m.SetUnion? || m.SetIntersect? || m.SetDifference?
    || m.ExtractValidity? || m.SetCardinality? || m.CsrDegree? || m.ClearReg? || m.Mov?
    || m.VecMathUnary? || m.VecMathBinary? || m.FloatVectorScale?
  }

  lemma {:induction false} OneType(t: nat, mask: nat)
    requires t < TAGS && Bit(mask, t)
    ensures Within({t}, mask)
  {
  }

  lemma MovFits(p: Printed)
    requires Drawn(p) && p.Governing().Some? && p.row.mnemonic.Mov?
    ensures ResultAdmissible(p)
  {
    var t: nat :| t < TAGS && p.before[p.src] == {t};
    assert Pow2(17) == 2 * Pow2(16) && Pow2(16) == 0x1_0000 by {
      Pow2Values();
    }
    AllOnes(0x1FFFF, TAGS, t);
    OneType(t, 0x1FFFF);
  }

  lemma FixedFits(p: Printed)
    requires Drawn(p) && p.Governing().Some? && FixedResult(p.row.mnemonic)
    ensures ResultAdmissible(p) <==> !p.row.mnemonic.AdaptiveWalk?
  {
    if p.row.mnemonic.Mov? {
      MovFits(p);
    } else {
      MaskBits();
      OneType(NULL, 0x1);
      OneType(INT64, 0x2);
      OneType(BITSET_HANDLE, 0x10);
      OneType(FLOAT, 0x3100);
      OneType(FLOAT_VECTOR, 0x3100);
    }
  }

  /** Drawn results lie in the mask of the variant drawn, which for searches with flag 1 is not the one printed. */
  lemma SameOutput(c: Contract, g: Contract)
    requires FromTable(c) && !c.mnemonic.Other? && !FixedResult(c.mnemonic) && Row(c.mnemonic, 0) == Some(g)
    ensures g.modifiesDst == c.modifiesDst
    ensures if c.mnemonic.VectorAnnSearch? && c.flags == 1 then c.output == 0x10000 && g.output == 0x10
            else c.output == g.output
    ensures c.modifiesDst ==> c.output in {0x2, 0x10, 0x100, 0x300, 0x1000, 0x10000}
    ensures c.mnemonic.VectorAnnSearch? ==> c.modifiesDst
  {
  }

  lemma {:induction false} SomeOutput(mask: nat)
    requires mask in {0x2, 0x10, 0x100, 0x300, 0x1000, 0x10000}
    ensures TagsBelow(mask, TAGS) != []
  {
    assert Bit(0x2, 1) && Bit(0x10, 4) && Bit(0x100, 8) && Bit(0x300, 8) && Bit(0x1000, 12) && Bit(0x10000, 16);
    var t: nat :| t < TAGS && Bit(mask, t);
    assert t in TagsBelow(mask, TAGS);
  }

  /** A drawn result is a tag of the variant's output mask. */
  lemma DrawnType(p: Printed) returns (t: nat)
    requires Drawn(p) && !FixedResult(p.row.mnemonic) && p.row.modifiesDst
    requires TagsBelow(p.row.output, TAGS) != []
    ensures t < TAGS && Bit(p.row.output, t) && p.update == Some({t})
  {
    var k :| p.update == Update(p.row, p.before, p.src, p.aux1, k);
    t := Draw(TagsBelow(p.row.output, TAGS), k);
  }

  lemma DrawnNothing(p: Printed)
    requires Drawn(p) && !FixedResult(p.row.mnemonic) && !p.row.modifiesDst
    ensures p.update == None
  {
    var k :| p.update == Update(p.row, p.before, p.src, p.aux1, k);
  }

  lemma {:induction false} OutsideMask(t: nat, types: set<nat>)
    requires Bit(0x10000, t) && types == {t}
    ensures !Within(types, 0x10)
  {
    LaneBits(t);
    assert t in types;
  }

  lemma DrawnFits(p: Printed)
    requires Drawn(p) && p.Governing().Some? && !FixedResult(p.row.mnemonic)
    ensures ResultAdmissible(p) <==> !(p.row.mnemonic.VectorAnnSearch? && p.row.flags == 1)
  {
    var c, g := p.row, p.Governing().value;
    SameOutput(c, g);
    if c.modifiesDst {
      SomeOutput(c.output);
      var t := DrawnType(p);
      if c.mnemonic.VectorAnnSearch? && c.flags == 1 {
        OutsideMask(t, p.update.value);
      } else {
        OneType(t, g.output);
      }
    } else {
      DrawnNothing(p);
    }
  }

  /**
   * A printed line is admissible under the contract that governs it exactly when it was not drawn from
   * one of the three variants whose printed or tracked form differs from that contract.
   */
  lemma LineAdmissible(p: Printed)
    requires Drawn(p)
    ensures p.Admissible() <==> !Excluded(p.row)
  {
    if p.row.mnemonic.FloatVectorScale? {
      ScaleSource(p);
    } else {
      SourceFits(p);
    }
    AuxFits(p);
    if FixedResult(p.row.mnemonic) {
      FixedFits(p);
    } else {
      DrawnFits(p);
    }
    AdmissibleParts(p);
  }

  lemma AdmissibleParts(p: Printed)
    requires Drawn(p) && p.Governing().Some?
    ensures p.Admissible() <==> SourceAdmissible(p) && AuxAdmissible(p) && ResultAdmissible(p)
  {
  }

  /** The tracker keeps one type per register and never touches the preamble's registers. */
  lemma LineKeepsTracked(p: Printed)
    requires Drawn(p)
    ensures Tracked(p.After())
  {
    var regs := p.After();
    UpdateIsOneType(p);
    assert forall r :: 0 <= r < 64 && r != p.dst ==> regs[r] == p.before[r];
  }

  lemma UpdateIsOneType(p: Printed)
    requires Drawn(p)
    ensures p.update.Some? ==> exists t: nat :: t < TAGS && p.update.value == {t}
  {
    assert exists t: nat :: t < TAGS && p.before[p.src] == {t};
    var k :| p.update == Update(p.row, p.before, p.src, p.aux1, k);
    if !FixedResult(p.row.mnemonic) && p.update.Some? {
      assert Draw(TagsBelow(p.row.output, TAGS), k) < TAGS;
    }
  }

  lemma {:induction false} Findable(mask: nat, regs: Regs, r: nat, t: nat)
    requires r < 64 && t in regs[r] && Bit(mask, t) && t != NULL
    ensures Servable(mask, false, regs)
  {
    assert Accepts(mask, regs, r);
    assert r in Valid(mask, regs, |regs|);
  }

  lemma ExcludedMasks(c: Contract)
    requires FromTable(c) && Excluded(c)
    ensures c.Src() == c.src && c.Aux1() == 0 && c.aux2 == 0
    ensures c.src == 0 || Bit(c.src, NODE_ID) || Bit(c.src, FLOAT_VECTOR)
  {
    assert Bit(0x4037, NODE_ID) && Bit(0x1000, FLOAT_VECTOR);
  }

  /** The excluded variants can be drawn from the start, so programs with inadmissible lines do get printed. */
  lemma ExcludedIsDrawable(c: Contract, regs: Regs)
    requires FromTable(c) && Excluded(c) && Tracked(regs)
    ensures Eligible(c, regs)
  {
    ExcludedMasks(c);
    var mask := c.src;
    if mask != 0 {
      assert NODE_ID in regs[3] && FLOAT_VECTOR in regs[5];
      if Bit(mask, NODE_ID) {
        Findable(mask, regs, 3, NODE_ID);
      } else {
        Findable(mask, regs, 5, FLOAT_VECTOR);
      }
    }
  }

  // ---- Whole programs ----

  /** The line an eligible contract is printed as. */
  function LineOf(c: Contract, regs: Regs, choice: Choice): (line: Option<Printed>)
    requires Eligible(c, regs)
  {
    if c.mnemonic.Other? then None
    else
      var src, aux1 := DrawSrc(c, regs, choice.src), DrawAux1(c, regs, choice.skip1, choice.aux1);
      Some(Printed(c, 10 + choice.dst % 22, src, aux1, regs, Update(c, regs, src, aux1, choice.result)))
  }

  /** The line that one iteration prints, if it prints any. */
  function PrintedBy(contracts: seq<Contract>, regs: Regs, choice: Choice): (line: Option<Printed>) {
    var eligible := EligibleList(contracts, regs);
    if eligible == [] then None else LineOf(Draw(eligible, choice.row), regs, choice)
  }

  /** The tracked types after the first i lines. */
  function Before(lines: seq<Printed>, i: nat): Regs
    requires i <= |lines|
  {
    if i == 0 then Preamble() else lines[i - 1].After()
  }

  function Last(lines: seq<Printed>): Regs {
    Before(lines, |lines|)
  }

  /** One iteration: the lines so far, and the one printed if any. */
  function Step(contracts: seq<Contract>, lines: seq<Printed>, choice: Choice): seq<Printed> {
    match PrintedBy(contracts, Last(lines), choice)
    case None => lines
    case Some(line) => lines + [line]
  }

  /** The program a sequence of draws stands for. */
  function Program(contracts: seq<Contract>, choices: seq<Choice>): (lines: seq<Printed>) {
    if choices == [] then []
    else Step(contracts, Program(contracts, choices[..|choices| - 1]), choices[|choices| - 1])
  }

  lemma {:induction false} ProgramNext(contracts: seq<Contract>, choices: seq<Choice>, n: nat)
    requires n < |choices|
    ensures Program(contracts, choices[..n + 1]) == Step(contracts, Program(contracts, choices[..n]), choices[n])
  {
    assert choices[..n + 1][..n] == choices[..n];
  }

  /** Once no contract is eligible, nothing more is ever printed. */
  lemma {:induction false} StuckStays(contracts: seq<Contract>, choices: seq<Choice>, n: nat)
    requires n <= |choices|
    requires EligibleList(contracts, Last(Program(contracts, choices[..n]))) == []
    ensures Program(contracts, choices) == Program(contracts, choices[..n])
    decreases |choices| - n
  {
    if n == |choices| {
      assert choices[..n] == choices;
    } else {
      ProgramNext(contracts, choices, n);
      StuckStays(contracts, choices, n + 1);
    }
  }

  /** Operands, destination and tracked result of one drawn contract. */
  method PrintRow(c: Contract, regs: Regs, choice: Choice) returns (line: Option<Printed>)
    requires Eligible(c, regs)
    ensures line == LineOf(c, regs, choice)
  {
    var dst := 10 + choice.dst % 22;
    var src := DrawSrc(c, regs, choice.src);
    var aux1 := DrawAux1(c, regs, choice.skip1, choice.aux1);
    if c.mnemonic.Other? {
      return None;
    }
    var update := Track(c, regs, src, aux1, choice.result);
    line := Some(Printed(c, dst, src, aux1, regs, update));
  }

  /** One iteration with a nonempty list of contracts to draw from. */
  method PrintLine(contracts: seq<Contract>, eligible: seq<Contract>, regs: Regs, choice: Choice)
    returns (line: Option<Printed>)
    requires eligible == EligibleList(contracts, regs) && eligible != []
    ensures line == PrintedBy(contracts, regs, choice)
  {
    line := PrintRow(Draw(eligible, choice.row), regs, choice);
  }

  /** The generator's loop prints the program of its draws, and stops early only when nothing is left to print. */
  method Generate(contracts: seq<Contract>, choices: seq<Choice>) returns (lines: seq<Printed>, regs: Regs, pc: nat)
    ensures lines == Program(contracts, choices) && regs == Last(lines)
    ensures pc == 7 + |lines|
  {
    lines, regs, pc := [], Preamble(), 7;
    for n := 0 to |choices|
      invariant lines == Program(contracts, choices[..n]) && regs == Last(lines)
      invariant pc == 7 + |lines|
    {
      var eligible := EligibleRows(contracts, regs);
      if eligible == [] {
        StuckStays(contracts, choices, n);
        return;
      }
      ProgramNext(contracts, choices, n);
      var line := PrintLine(contracts, eligible, regs, choices[n]);
      if line.Some? {
        lines := lines + [line.value];
        regs := line.value.After();
        pc := pc + 1;
      }
    }
    assert choices[..|choices|] == choices;
  }

  /** A line printed for an eligible contract, admissible exactly when its variant is not excluded. */
  ghost predicate Emits(contracts: seq<Contract>, p: Printed) {
    && p.row in contracts && Eligible(p.row, p.before)
    && 10 <= p.dst < 32
    && (p.Admissible() <==> !Excluded(p.row))
  }

  /** Each line starts from the types the one before it left. */
  ghost predicate Chained(lines: seq<Printed>) {
    forall i :: 0 <= i < |lines| ==> ChainedAt(lines, i)
  }

  ghost predicate ChainedAt(lines: seq<Printed>, i: nat)
    requires i < |lines|
  {
    lines[i].before == Before(lines, i)
  }

  lemma PrintedIsDrawn(contracts: seq<Contract>, regs: Regs, choice: Choice)
    requires Loaded(contracts) && Tracked(regs) && PrintedBy(contracts, regs, choice).Some?
    ensures var p := PrintedBy(contracts, regs, choice).value;
            Drawn(p) && p.row in contracts && Eligible(p.row, p.before) && p.before == regs
  {
    var p := PrintedBy(contracts, regs, choice).value;
    assert p.update == Update(p.row, p.before, p.src, p.aux1, choice.result);
  }

  lemma PrintedEmits(contracts: seq<Contract>, regs: Regs, choice: Choice)
    requires Loaded(contracts) && Tracked(regs) && PrintedBy(contracts, regs, choice).Some?
    ensures var p := PrintedBy(contracts, regs, choice).value;
            Emits(contracts, p) && Tracked(p.After()) && p.before == regs
  {
    var p := PrintedBy(contracts, regs, choice).value;
    PrintedIsDrawn(contracts, regs, choice);
    LineAdmissible(p);
    LineKeepsTracked(p);
  }

  /** Appending a line changes nothing before it. */
  lemma PrefixBefore(lines: seq<Printed>, longer: seq<Printed>, i: nat)
    requires i <= |lines| && lines <= longer
    ensures Before(longer, i) == Before(lines, i)
  {
  }

  lemma ChainPrefix(lines: seq<Printed>, longer: seq<Printed>, i: nat)
    requires i < |lines| && ChainedAt(lines, i) && lines <= longer
    ensures ChainedAt(longer, i)
  {
    PrefixBefore(lines, longer, i);
  }

  lemma ChainEnd(lines: seq<Printed>, line: Printed)
    requires line.before == Last(lines)
    ensures ChainedAt(lines + [line], |lines|)
  {
    PrefixBefore(lines, lines + [line], |lines|);
  }

  lemma ChainGrows(lines: seq<Printed>, line: Printed)
    requires Chained(lines) && line.before == Last(lines)
    ensures Chained(lines + [line])
  {
    ChainEnd(lines, line);
    forall i | 0 <= i < |lines| ensures ChainedAt(lines + [line], i) {
      ChainPrefix(lines, lines + [line], i);
    }
  }

  /** A contract run from the preamble to the final tracked types. */
  ghost predicate IsRun(contracts: seq<Contract>, lines: seq<Printed>) {
    && Chained(lines) && Tracked(Last(lines))
    && forall i :: 0 <= i < |lines| ==> Emits(contracts, lines[i])
  }

  lemma RunGrows(contracts: seq<Contract>, lines: seq<Printed>, line: Printed)
    requires IsRun(contracts, lines)
    requires line.before == Last(lines) && Emits(contracts, line) && Tracked(line.After())
    ensures IsRun(contracts, lines + [line])
  {
    ChainGrows(lines, line);
  }

  lemma StepKeepsRun(contracts: seq<Contract>, lines: seq<Printed>, choice: Choice)
    requires Loaded(contracts) && IsRun(contracts, lines)
    ensures IsRun(contracts, Step(contracts, lines, choice))
  {
    var next := PrintedBy(contracts, Last(lines), choice);
    if next.Some? {
      PrintedEmits(contracts, Last(lines), choice);
      RunGrows(contracts, lines, next.value);
    }
  }

  lemma EmptyRun(contracts: seq<Contract>)
    ensures IsRun(contracts, [])
  {
    forall r | 0 <= r < 64 ensures exists t: nat :: t < TAGS && Preamble()[r] == {t} {
      var t := if r == 1 then INT64 else if r == 2 then FLOAT else if r == 3 then NODE_ID
               else if r == 4 then BITSET_HANDLE else if r == 5 then FLOAT_VECTOR
               else if r == 6 then NODE_VECTOR else NULL;
      assert Preamble()[r] == {t};
    }
  }

  /**
   * For every sequence of draws the program is a contract run from the preamble to the final tracked
   * types: each line is admissible exactly when its variant is not one of the three excluded ones, and
   * R0 to R6 keep the preamble's types.
   */
  lemma {:induction false} ProgramIsContractRun(contracts: seq<Contract>, choices: seq<Choice>)
    requires Loaded(contracts)
    ensures IsRun(contracts, Program(contracts, choices))
  {
    if choices == [] {
      EmptyRun(contracts);
    } else {
      var init := choices[..|choices| - 1];
      ProgramIsContractRun(contracts, init);
      StepKeepsRun(contracts, Program(contracts, init), choices[|choices| - 1]);
    }
  }

  // ---- Exactly which lines can be printed ----

  /** Set operations read only the tags of integers, nodes, bit sets, node vectors and lane frontiers. */
  ghost function MaskOf(m: Mnemonic, mask: nat): nat {
    if m.SetUnion? || m.SetIntersect? || m.SetDifference? then BitAnd(mask, 0x14036) else mask
  }

  /** Register r holds a type of the mask, other than the NULL of a register that nothing was written to. */
  ghost predicate CanRead(mask: nat, regs: Regs, r: nat) {
    r < 64 && exists t: nat :: regs[r] == {t} && Bit(mask, t) && (t == 0 ==> r == 0)
  }

  ghost predicate CanServe(mask: nat, skip: bool, regs: Regs) {
    mask == 0 || skip || exists r: nat :: CanRead(mask, regs, r)
  }

  lemma AcceptsIsReading(mask: nat, regs: Regs, r: nat)
    requires Tracked(regs) && r < 64
    ensures Accepts(mask, regs, r) <==> CanRead(mask, regs, r)
  {
    var t: nat :| t < TAGS && regs[r] == {t};
    assert t in regs[r];
  }

  lemma ServableIsServing(mask: nat, skip: bool, regs: Regs)
    requires Tracked(regs)
    ensures Servable(mask, skip, regs) <==> CanServe(mask, skip, regs)
  {
    forall r: nat ensures r in Valid(mask, regs, |regs|) <==> CanRead(mask, regs, r) {
      if r < 64 {
        AcceptsIsReading(mask, regs, r);
      }
    }
    var valid := Valid(mask, regs, |regs|);
    if valid != [] {
      assert valid[0] in valid;
    }
  }

  /** The operands a contract can be printed with. */
  ghost predicate CanPrint(c: Contract, regs: Regs, src: nat, aux1: nat) {
    var srcMask, auxMask := MaskOf(c.mnemonic, c.src), MaskOf(c.mnemonic, c.aux1);
    && !c.mnemonic.Other?
    && CanServe(srcMask, false, regs) && CanServe(auxMask, c.skip1, regs) && CanServe(c.aux2, c.skip2, regs)
    && (if srcMask == 0 then src == 0 else CanRead(srcMask, regs, src))
    && (if auxMask == 0 then aux1 == 0 else CanRead(auxMask, regs, aux1) || (c.skip1 && aux1 == 0))
  }

  lemma DrawReaches<T>(items: seq<T>, x: T) returns (k: nat)
    requires x in items
    ensures items[k % |items|] == x
  {
    k :| k < |items| && items[k] == x;
  }

  lemma EligibleIsServed(c: Contract, regs: Regs)
    requires Tracked(regs)
    ensures Eligible(c, regs) <==>
            && CanServe(MaskOf(c.mnemonic, c.src), false, regs) && CanServe(MaskOf(c.mnemonic, c.aux1), c.skip1, regs)
            && CanServe(c.aux2, c.skip2, regs)
  {
    ServableIsServing(c.Src(), false, regs);
    ServableIsServing(c.Aux1(), c.skip1, regs);
    ServableIsServing(c.aux2, c.skip2, regs);
  }

  /** Draws that print the operands wanted. */
  lemma OperandDraws(c: Contract, regs: Regs, src: nat, aux1: nat) returns (k: nat, skip: bool, j: nat)
    requires Tracked(regs) && Eligible(c, regs) && CanPrint(c, regs, src, aux1)
    ensures DrawSrc(c, regs, k) == src && DrawAux1(c, regs, skip, j) == aux1
  {
    k, skip, j := 0, false, 0;
    if c.Src() != 0 {
      AcceptsIsReading(c.Src(), regs, src);
      k := DrawReaches(Valid(c.Src(), regs, |regs|), src);
    }
    if c.Aux1() != 0 {
      if aux1 < 64 {
        AcceptsIsReading(c.Aux1(), regs, aux1);
      }
      if CanRead(c.Aux1(), regs, aux1) {
        j := DrawReaches(Valid(c.Aux1(), regs, |regs|), aux1);
      } else {
        skip := true;
      }
    }
  }

  /** Whatever is printed can be printed. */
  lemma PrintedCanBe(contracts: seq<Contract>, regs: Regs, choice: Choice)
    requires Tracked(regs) && PrintedBy(contracts, regs, choice).Some?
    ensures var p := PrintedBy(contracts, regs, choice).value;
            p.row in contracts && CanPrint(p.row, regs, p.src, p.aux1) && 10 <= p.dst < 32
  {
    var p := PrintedBy(contracts, regs, choice).value;
    EligibleIsServed(p.row, regs);
    AcceptsIsReading(p.row.Src(), regs, p.src);
    AcceptsIsReading(p.row.Aux1(), regs, p.aux1);
  }

  /** The draws select this contract and these operands. */
  ghost predicate Selects(eligible: seq<Contract>, regs: Regs, choice: Choice, c: Contract, src: nat, aux1: nat) {
    && eligible != [] && Draw(eligible, choice.row) == c && Eligible(c, regs) && !c.mnemonic.Other?
    && DrawSrc(c, regs, choice.src) == src && DrawAux1(c, regs, choice.skip1, choice.aux1) == aux1
  }

  lemma {:induction false} SelectedIsPrinted(contracts: seq<Contract>, eligible: seq<Contract>, regs: Regs,
                                             choice: Choice, c: Contract, dst: nat, src: nat, aux1: nat)
    requires eligible == EligibleList(contracts, regs) && Selects(eligible, regs, choice, c, src, aux1)
    requires dst == 10 + choice.dst % 22
    ensures Prints(contracts, regs, choice, c, dst, src, aux1)
  {
  }

  lemma PrintableIsEligible(c: Contract, regs: Regs, src: nat, aux1: nat)
    requires Tracked(regs) && CanPrint(c, regs, src, aux1)
    ensures Eligible(c, regs) && !c.mnemonic.Other?
  {
    EligibleIsServed(c, regs);
  }

  lemma Select(eligible: seq<Contract>, regs: Regs, c: Contract, dst: nat, src: nat, aux1: nat,
               k: nat, skip: bool, j: nat)
    returns (choice: Choice)
    requires c in eligible && Eligible(c, regs) && !c.mnemonic.Other?
    requires DrawSrc(c, regs, k) == src && DrawAux1(c, regs, skip, j) == aux1
    ensures Selects(eligible, regs, choice, c, src, aux1) && choice.dst == dst
  {
    var row := DrawReaches(eligible, c);
    choice := Choice(row, dst, k, skip, j, 0);
  }

  /** Whatever can be printed is selected by some draws. */
  lemma CanBeSelected(eligible: seq<Contract>, regs: Regs, c: Contract, dst: nat, src: nat, aux1: nat)
    returns (choice: Choice)
    requires Tracked(regs) && c in eligible && CanPrint(c, regs, src, aux1)
    ensures Selects(eligible, regs, choice, c, src, aux1) && choice.dst == dst
  {
    PrintableIsEligible(c, regs, src, aux1);
    var k, skip, j := OperandDraws(c, regs, src, aux1);
    choice := Select(eligible, regs, c, dst, src, aux1, k, skip, j);
  }

  lemma PrintsOnly(contracts: seq<Contract>, regs: Regs, choice: Choice, c: Contract, dst: nat, src: nat, aux1: nat)
    requires Tracked(regs) && Prints(contracts, regs, choice, c, dst, src, aux1)
    ensures c in contracts && CanPrint(c, regs, src, aux1) && 10 <= dst < 32
  {
    PrintedCanBe(contracts, regs, choice);
  }

  lemma SmallRemainder(x: nat, n: nat)
    requires x < n
    ensures x % n == x
  {
  }

  lemma {:induction false} PrintableIsListed(contracts: seq<Contract>, regs: Regs, c: Contract, src: nat, aux1: nat)
    requires Tracked(regs) && c in contracts && CanPrint(c, regs, src, aux1)
    ensures c in EligibleList(contracts, regs)
  {
    PrintableIsEligible(c, regs, src, aux1);
  }

  lemma CanBePrinted(contracts: seq<Contract>, regs: Regs, c: Contract, dst: nat, src: nat, aux1: nat)
    requires Tracked(regs) && c in contracts && CanPrint(c, regs, src, aux1) && 10 <= dst < 32
    ensures exists choice :: Prints(contracts, regs, choice, c, dst, src, aux1)
  {
    PrintableIsListed(contracts, regs, c, src, aux1);
    var choice := CanBeSelected(EligibleList(contracts, regs), regs, c, dst - 10, src, aux1);
    SmallRemainder(choice.dst, 22);
    SelectedIsPrinted(contracts, EligibleList(contracts, regs), regs, choice, c, dst, src, aux1);
  }

  /**
   * A line with given contract, destination and operands can be drawn next exactly when the contract is in
   * the file, the destination is one of R10 to R31, and the registers hold types the contract admits.
   */
  lemma LinesPrinted(contracts: seq<Contract>, regs: Regs, c: Contract, dst: nat, src: nat, aux1: nat)
    requires Tracked(regs)
    ensures (exists choice :: Prints(contracts, regs, choice, c, dst, src, aux1)) <==>
            c in contracts && CanPrint(c, regs, src, aux1) && 10 <= dst < 32
  {
    if choice :| Prints(contracts, regs, choice, c, dst, src, aux1) {
      PrintsOnly(contracts, regs, choice, c, dst, src, aux1);
    }
    if c in contracts && CanPrint(c, regs, src, aux1) && 10 <= dst < 32 {
      CanBePrinted(contracts, regs, c, dst, src, aux1);
    }
  }

  ghost predicate Prints(contracts: seq<Contract>, regs: Regs, choice: Choice, c: Contract, dst: nat, src: nat,
                         aux1: nat)
  {
    match PrintedBy(contracts, regs, choice)
    case None => false
    case Some(p) => p.row == c && p.dst == dst && p.src == src && p.aux1 == aux1
  }

  /** A set operation never reads a register typed as anything but a set, a node, an integer or a vector of IDs. */
  lemma {:induction false} SetOperandsDenoteSets(contracts: seq<Contract>, regs: Regs, choice: Choice)
    requires Loaded(contracts) && Tracked(regs) && PrintedBy(contracts, regs, choice).Some?
    requires var m := PrintedBy(contracts, regs, choice).value.row.mnemonic;
             m.SetUnion? || m.SetIntersect? || m.SetDifference?
    ensures var p := PrintedBy(contracts, regs, choice).value;
            exists t, u :: regs[p.src] == {t} && regs[p.aux1] == {u}
                           && t in {1, 2, 4, 5, 14, 16} && u in {1, 2, 4, 5, 14, 16}
  {
    var p := PrintedBy(contracts, regs, choice).value;
    PrintedCanBe(contracts, regs, choice);
    PrintedIsDrawn(contracts, regs, choice);
    SetOpMasks(p.row);
    var t: nat :| regs[p.src] == {t} && Bit(BitAnd(p.row.src, 0x14036), t);
    var u: nat :| regs[p.aux1] == {u} && Bit(BitAnd(p.row.aux1, 0x14036), u);
    BitOfAnd(p.row.src, 0x14036, t);
    BitOfAnd(p.row.aux1, 0x14036, u);
    SetTags(t);
    SetTags(u);
  }

  lemma {:induction false} SetTags(t: nat)
    requires Bit(0x14036, t)
    ensures t in {1, 2, 4, 5, 14, 16}
  {
    if t >= 17 {
      Pow2Values();
      assert Pow2(17) == 2 * Pow2(16);
      LowBitsBound(0x14036, 17);
      BitOfLow(0x14036, 17, t);
    }
  }

  /** What a line leaves in its destination: a move copies the type, vector maths is scalar on scalars only. */
  lemma TrackedResult(p: Printed)
    requires p.src < 64 && p.aux1 < 64 && p.dst < 64 && IsTracked(p.row, p.before, p.src, p.aux1, p.update)
    ensures p.row.mnemonic.Mov? ==> p.After()[p.dst] == p.before[p.src]
    ensures p.row.mnemonic.VecMathUnary? ==> p.After()[p.dst] == if p.before[p.src] == {8} then {8} else {12}
    ensures p.row.mnemonic.VecMathBinary? ==>
              p.After()[p.dst] == if p.before[p.src] == {8} && p.before[p.aux1] == {8} then {8} else {12}
    ensures p.row.mnemonic.ClearReg? ==> p.After()[p.dst] == {0}
    ensures p.row.mnemonic.SetCardinality? || p.row.mnemonic.CsrDegree? ==> p.After()[p.dst] == {1}
    ensures p.row.mnemonic.CsrWalk? || p.row.mnemonic.CscWalk? || p.row.mnemonic.SetUnion? ==> p.After()[p.dst] == {4}
    ensures p.row.mnemonic.SetIntersect? || p.row.mnemonic.SetDifference? ==> p.After()[p.dst] == {4}
    ensures p.row.mnemonic.AdaptiveWalk? || p.row.mnemonic.ExtractValidity? ==> p.After()[p.dst] == {4}
    ensures p.row.mnemonic.FloatVectorScale? ==> p.After() == p.before
  {
    var k :| p.update == Update(p.row, p.before, p.src, p.aux1, k);
  }

  /** Every output type of a contract whose result is drawn can be tracked, and nothing else. */
  lemma {:induction false} ResultsDrawn(c: Contract, regs: Regs, src: nat, aux1: nat, t: nat)
    requires src < 64 && aux1 < 64 && !FixedResult(c.mnemonic) && c.modifiesDst
    ensures (exists k :: Update(c, regs, src, aux1, k) == Some({t})) <==> t < 17 && Bit(c.output, t)
  {
    var types := TagsBelow(c.output, TAGS);
    if k :| Update(c, regs, src, aux1, k) == Some({t}) {
      assert t in {Draw(types, k)};
    }
    if t < 17 && Bit(c.output, t) {
      var k := DrawReaches(types, t);
      assert Update(c, regs, src, aux1, k) == Some({t});
    }
  }
}
