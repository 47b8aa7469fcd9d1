/** A small interpreter for the instruction forms the decryption emitter
    produces: `alloca`, `getelementptr`, `load`, `xor` and `store` over a
    byte-addressed memory. Every other instruction gets stuck (`None`). */
module Interp {
  import opened Wrappers
  import opened IR

  /** A memory object: the storage of a global, or the buffer of an alloca. */
  datatype Obj = GlobalObj(g: GlobalId) | StackObj(a: ValueId)

  datatype Value = VInt(i: int) | VByte(b: Byte) | VPtr(obj: Obj, off: int)

  datatype State = State(mem: map<Obj, seq<Byte>>, env: map<ValueId, Value>)

  function Gep(mem: map<Obj, seq<Byte>>, p: Value, indices: seq<int>): Option<Value> {
    if p.VPtr? && p.obj in mem then
      match ByteOffset(indices, |mem[p.obj]|)
      case None => None
      case Some(d) => Some(VPtr(p.obj, p.off + d))
    else None
  }

  function EvalConst(mem: map<Obj, seq<Byte>>, c: Const): Option<Value> {
    match c
    case CInt(v) => Some(VInt(v))
    case CGlobal(g) => Some(VPtr(GlobalObj(g), 0))
    case CFunction(_) => None
    case CGep(base, indices) =>
      (match EvalConst(mem, base)
       case None => None
       case Some(p) => Gep(mem, p, indices))
    case CCast(inner) => EvalConst(mem, inner)
  }

  function Eval(s: State, o: Operand): Option<Value> {
    match o
    case OConst(c) => EvalConst(s.mem, c)
    case Val(v) => if v in s.env then Some(s.env[v]) else None
    case Arg(_) => None
  }

  function EvalIndices(s: State, os: seq<Operand>): Option<seq<int>>
    decreases |os|
  {
    if |os| == 0 then Some([])
    else
      match Eval(s, os[0])
      case Some(VInt(i)) =>
        (match EvalIndices(s, os[1..])
         case None => None
         case Some(rest) => Some([i] + rest))
      case _ => None
  }

  predicate InBounds(mem: map<Obj, seq<Byte>>, p: Value) {
    p.VPtr? && p.obj in mem && 0 <= p.off < |mem[p.obj]|
  }

  /** One instruction. An alloca's fresh buffer starts zeroed. */
  function Step(s: State, x: Instr): Option<State> {
    match x
    case Alloca(id, n) =>
      Some(State(s.mem[StackObj(id) := seq(n, _ => 0)], s.env[id := VPtr(StackObj(id), 0)]))
    case Gep(id, _, base, indices) =>
      (match (Eval(s, base), EvalIndices(s, indices))
       case (Some(p), Some(idx)) =>
         (match Gep(s.mem, p, idx)
          case None => None
          case Some(q) => Some(s.(env := s.env[id := q])))
       case _ => None)
    case Load(id, addr) =>
      (match Eval(s, addr)
       case Some(p) =>
         if InBounds(s.mem, p) then Some(s.(env := s.env[id := VByte(s.mem[p.obj][p.off])]))
         else None
       case None => None)
    case BinOp(id, op, lhs, rhs, _, _) =>
      (match (Eval(s, lhs), Eval(s, rhs))
       case (Some(VByte(b)), Some(VInt(k))) =>
         if op == Xor && 0 <= k < 256 then Some(s.(env := s.env[id := VByte(b ^ (k as bv8))]))
         else None
       case _ => None)
    case Store(_, value, addr) =>
      (match (Eval(s, value), Eval(s, addr))
       case (Some(VByte(b)), Some(p)) =>
         if InBounds(s.mem, p) then Some(s.(mem := s.mem[p.obj := s.mem[p.obj][p.off := b]]))
         else None
       case _ => None)
    case _ => None
  }

  /** Executes a straight-line instruction list; `None` when it gets stuck. */
  function Run(s: State, xs: seq<Instr>): Option<State>
    decreases |xs|
  {
    if |xs| == 0 then Some(s)
    else
      match Step(s, xs[0])
      case None => None
      case Some(t) => Run(t, xs[1..])
  }

  /** The bytes a callee reading through operand `o` sees: from the
      pointed-to offset to the end of the object. */
  function Pointee(s: State, o: Operand): Option<seq<Byte>> {
    match Eval(s, o)
    case Some(VPtr(obj, off)) =>
      if obj in s.mem && 0 <= off <= |s.mem[obj]| then Some(s.mem[obj][off..]) else None
    case _ => None
  }

  /** Running a concatenation runs its halves one after the other. */
  lemma {:induction false} RunAppend(s: State, a: seq<Instr>, b: seq<Instr>)
    ensures Run(s, a + b) == (match Run(s, a) case None => None case Some(t) => Run(t, b))
    decreases |a|
  {
    if |a| == 0 {
      assert a + b == b;
    } else {
      assert (a + b)[0] == a[0];
      assert (a + b)[1..] == a[1..] + b;
      match Step(s, a[0])
      case None =>
      case Some(t) => RunAppend(t, a[1..], b);
    }
  }

  /** A list of instructions whose steps lead through the states `ts`, one
      per instruction, runs from the first state to the last, whatever
      follows it. */
  lemma {:induction false} RunSteps(s: State, xs: seq<Instr>, ts: seq<State>, rest: seq<Instr>)
    requires |ts| == |xs| + 1 && ts[0] == s
    requires forall k :: 0 <= k < |xs| ==> Step(ts[k], xs[k]) == Some(ts[k + 1])
    ensures Run(s, xs + rest) == Run(ts[|xs|], rest)
    decreases |xs|
  {
    if |xs| == 0 {
      assert xs + rest == rest;
    } else {
      assert (xs + rest)[0] == xs[0];
      assert (xs + rest)[1..] == xs[1..] + rest;
      RunSteps(ts[1], xs[1..], ts[1..], rest);
    }
  }

  /** Constants only ever point into globals, so their value depends on the
      global objects alone. */
  lemma {:induction false} EvalConstFrame(m1: map<Obj, seq<Byte>>, m2: map<Obj, seq<Byte>>, c: Const)
    requires forall g :: GlobalObj(g) in m1 <==> GlobalObj(g) in m2
    requires forall g :: GlobalObj(g) in m1 ==> |m1[GlobalObj(g)]| == |m2[GlobalObj(g)]|
    ensures EvalConst(m1, c) == EvalConst(m2, c)
  {
    match c
    case CGep(base, _) =>
      EvalConstFrame(m1, m2, base);
      var p := EvalConst(m1, base);
      if p.Some? && p.value.VPtr? {
        assert p.value.obj.GlobalObj? by { ConstPointsIntoGlobal(m1, base); }
      }
    case CCast(inner) => EvalConstFrame(m1, m2, inner);
    case _ =>
  }

  lemma {:induction false} ConstPointsIntoGlobal(m: map<Obj, seq<Byte>>, c: Const)
    ensures EvalConst(m, c).Some? && EvalConst(m, c).value.VPtr? ==> EvalConst(m, c).value.obj.GlobalObj?
  {
    match c
    case CGep(base, _) => ConstPointsIntoGlobal(m, base);
    case CCast(inner) => ConstPointsIntoGlobal(m, inner);
    case _ =>
  }
}
