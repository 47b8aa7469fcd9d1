/** The slice of LLVM IR that the obfuscation passes read and rewrite.

    A function is represented by the concatenation of its basic blocks in
    layout order: every pass here walks blocks in order and instructions
    within a block in order, and every instruction it creates is inserted
    in the block of the instruction it precedes. Instructions and globals
    are named by stable handles, and "replace all uses" is substitution of
    handles in operands. */
module IR {
  import opened Wrappers

  type Byte = bv8

  /** Handle of a global variable: its index in the module's global arena. */
  type GlobalId = nat

  /** Handle of an instruction (the SSA value it defines). */
  type ValueId = nat

  datatype Linkage =
    | ExternalLinkage
    | AvailableExternallyLinkage
    | LinkOnceAnyLinkage
    | LinkOnceODRLinkage
    | WeakAnyLinkage
    | WeakODRLinkage
    | AppendingLinkage
    | InternalLinkage
    | PrivateLinkage
    | ExternalWeakLinkage
    | CommonLinkage

  /** Initializer of a global. `ByteArray` is a `ConstantDataArray` whose
      elements are i8: what `isString()` accepts, since it asks for an array
      type and i8 elements (`isCString()` first calls `isString()`, so it
      accepts a subset of these). `WideArray` is a `ConstantDataArray` with
      wider elements. Everything else, including an i8 `ConstantDataVector`
      (`<N x i8>`, which `isString()` rejects as not an array), aggregates,
      zero initializers and scalars, is `OtherConstant`. */
  datatype Init =
    | ByteArray(bytes: seq<Byte>)
    | WideArray(elems: seq<int>)
    | OtherConstant

  datatype Global = Global(name: string, linkage: Linkage, isConst: bool, init: Option<Init>)

  /** Constants, including constant expressions (`ConstantExpr`). */
  datatype Const =
    | CInt(v: int)
    | CGlobal(g: GlobalId)
    | CFunction(fname: string)
    | CGep(base: Const, indices: seq<int>)
    | CCast(inner: Const)

  /** An instruction operand: a constant, the value of an instruction, or a
      formal argument of the enclosing function. */
  datatype Operand = OConst(c: Const) | Val(v: ValueId) | Arg(index: nat)

  datatype BinOpcode =
    | Add | Sub | Mul | UDiv | SDiv | URem | SRem
    | Shl | LShr | AShr | And | Or | Xor
    | FAdd | FSub | FMul | FDiv | FRem

  /** `nsw`/`nuw` are the no-signed-wrap and no-unsigned-wrap flags. `Other`
      stands for every opcode the passes never construct (its name is what
      `getOpcodeName` returns); by convention its name is never one of the
      modelled opcodes (`OtherIsUnmodelled`), so a call is always `Call` and
      an add is always a `BinOp`. */
  datatype Instr =
    | BinOp(id: ValueId, op: BinOpcode, lhs: Operand, rhs: Operand, nsw: bool, nuw: bool)
    | Call(id: ValueId, callee: Operand, args: seq<Operand>)
    | Alloca(id: ValueId, count: nat)
    | Gep(id: ValueId, inbounds: bool, base: Operand, indices: seq<Operand>)
    | Load(id: ValueId, addr: Operand)
    | Store(id: ValueId, value: Operand, addr: Operand)
    | Other(id: ValueId, opcodeName: string, operands: seq<Operand>)

  datatype Function = Function(name: string, body: seq<Instr>)

  /** Globals live in an append-only arena; `erased` holds the handles of
      globals removed from the module. The module's global list is the live
      handles in increasing order. */
  datatype Module = Module(globals: seq<Global>, erased: set<GlobalId>, functions: seq<Function>)

  predicate IsLive(m: Module, g: GlobalId) {
    g < |m.globals| && g !in m.erased
  }

  /** `Instruction::getOpcodeName`. */
  function BinOpName(op: BinOpcode): string {
    match op
    case Add => "add"
    case Sub => "sub"
    case Mul => "mul"
    case UDiv => "udiv"
    case SDiv => "sdiv"
    case URem => "urem"
    case SRem => "srem"
    case Shl => "shl"
    case LShr => "lshr"
    case AShr => "ashr"
    case And => "and"
    case Or => "or"
    case Xor => "xor"
    case FAdd => "fadd"
    case FSub => "fsub"
    case FMul => "fmul"
    case FDiv => "fdiv"
    case FRem => "frem"
  }

  function OpcodeName(x: Instr): string {
    match x
    case BinOp(_, op, _, _, _, _) => BinOpName(op)
    case Call(_, _, _) => "call"
    case Alloca(_, _) => "alloca"
    case Gep(_, _, _, _) => "getelementptr"
    case Load(_, _) => "load"
    case Store(_, _, _) => "store"
    case Other(_, name, _) => name
  }

  /** The opcode names that have their own constructor. */
  predicate ModelledOpcodeName(name: string) {
    || (exists op: BinOpcode :: BinOpName(op) == name)
    || name in ["call", "alloca", "getelementptr", "load", "store"]
  }

  /** The representation convention for `Other`: a `call`, an `add` or any
      other modelled opcode is never written as `Other`. */
  predicate OtherIsUnmodelled(x: Instr) {
    x.Other? ==> !ModelledOpcodeName(x.opcodeName)
  }

  /** Under the convention, the opcode name tells calls and adds apart from
      everything else, as `getOpcodeName` does. */
  lemma OpcodeNameOfConvention(x: Instr)
    requires OtherIsUnmodelled(x)
    ensures OpcodeName(x) == "call" <==> x.Call?
    ensures OpcodeName(x) == "add" <==> x.BinOp? && x.op == Add
    ensures OpcodeName(x) == "sub" <==> x.BinOp? && x.op == Sub
  {
    if x.Other? {
      assert BinOpName(Add) == "add" && BinOpName(Sub) == "sub";
      assert "call" in ["call", "alloca", "getelementptr", "load", "store"];
    }
  }

  /** Every operand of an instruction, in operand order. */
  function Operands(x: Instr): seq<Operand> {
    match x
    case BinOp(_, _, lhs, rhs, _, _) => [lhs, rhs]
    case Call(_, callee, args) => [callee] + args
    case Alloca(_, _) => []
    case Gep(_, _, base, indices) => [base] + indices
    case Load(_, addr) => [addr]
    case Store(_, value, addr) => [value, addr]
    case Other(_, _, operands) => operands
  }

  function Ids(body: seq<Instr>): seq<ValueId> {
    seq(|body|, k requires 0 <= k < |body| => body[k].id)
  }

  /** No two instructions share a handle, and every handle is below `next`,
      the first handle the next created instruction will get. */
  predicate FreshAbove(body: seq<Instr>, next: ValueId) {
    && (forall k :: 0 <= k < |body| ==> body[k].id < next)
    && (forall k, l :: 0 <= k < l < |body| ==> body[k].id != body[l].id)
  }

  /** Offset, in bytes, selected by GEP indices applied to a pointer into an
      object of `size` bytes: one index walks an `i8*`, two indices walk a
      `[size x i8]*` (the first index steps over whole arrays). */
  function ByteOffset(indices: seq<int>, size: nat): Option<int> {
    if |indices| == 1 then Some(indices[0])
    else if |indices| == 2 then Some(indices[0] * size + indices[1])
    else None
  }

  /** A handle above every instruction of a body: where new instructions
      start numbering. */
  function FirstFreeIdOf(body: seq<Instr>): (n: ValueId)
    ensures forall k :: 0 <= k < |body| ==> body[k].id < n
    decreases |body|
  {
    if |body| == 0 then 0
    else
      var rest := FirstFreeIdOf(body[1..]);
      assert forall k :: 1 <= k < |body| ==> body[k] == body[1..][k - 1];
      if body[0].id < rest then rest else body[0].id + 1
  }

  function FirstFreeId(fs: seq<Function>): (n: ValueId)
    ensures forall f, k :: 0 <= f < |fs| && 0 <= k < |fs[f].body| ==> fs[f].body[k].id < n
    decreases |fs|
  {
    if |fs| == 0 then 0
    else
      var rest := FirstFreeId(fs[1..]);
      assert forall f :: 1 <= f < |fs| ==> fs[f] == fs[1..][f - 1];
      var here := FirstFreeIdOf(fs[0].body);
      if here < rest then rest else here
  }

  // ---------------------------------------------------------------------
  // Replace-all-uses of instruction values

  /** Redirects every use of a value in the domain of `s` to its image. */
  function SubstOperand(s: map<ValueId, ValueId>, o: Operand): Operand {
    match o
    case Val(v) => if v in s then Val(s[v]) else o
    case _ => o
  }

  function SubstOperands(s: map<ValueId, ValueId>, os: seq<Operand>): seq<Operand> {
    seq(|os|, k requires 0 <= k < |os| => SubstOperand(s, os[k]))
  }

  function SubstInstr(s: map<ValueId, ValueId>, x: Instr): Instr {
    match x
    case BinOp(id, op, lhs, rhs, nsw, nuw) => BinOp(id, op, SubstOperand(s, lhs), SubstOperand(s, rhs), nsw, nuw)
    case Call(id, callee, args) => Call(id, SubstOperand(s, callee), SubstOperands(s, args))
    case Alloca(_, _) => x
    case Gep(id, ib, base, indices) => Gep(id, ib, SubstOperand(s, base), SubstOperands(s, indices))
    case Load(id, addr) => Load(id, SubstOperand(s, addr))
    case Store(id, value, addr) => Store(id, SubstOperand(s, value), SubstOperand(s, addr))
    case Other(id, name, operands) => Other(id, name, SubstOperands(s, operands))
  }

  function SubstBody(s: map<ValueId, ValueId>, body: seq<Instr>): seq<Instr> {
    seq(|body|, k requires 0 <= k < |body| => SubstInstr(s, body[k]))
  }

  /** `Value::replaceAllUsesWith` for an instruction value. */
  function ReplaceValueUses(body: seq<Instr>, from: ValueId, to: ValueId): seq<Instr> {
    SubstBody(map[from := to], body)
  }

  /** True when an operand reads value `v`. */
  predicate UsesValue(o: Operand, v: ValueId) {
    o.Val? && o.v == v
  }

  /** Substitution keeps every instruction's handle, kind, opcode and flags. */
  lemma SubstInstrShape(s: map<ValueId, ValueId>, x: Instr)
    ensures SubstInstr(s, x).id == x.id
    ensures SubstInstr(s, x).BinOp? <==> x.BinOp?
    ensures x.BinOp? ==> SubstInstr(s, x) == x.(lhs := SubstOperand(s, x.lhs), rhs := SubstOperand(s, x.rhs))
  {
  }

  lemma SubstBodyAppend(s: map<ValueId, ValueId>, a: seq<Instr>, b: seq<Instr>)
    ensures SubstBody(s, a + b) == SubstBody(s, a) + SubstBody(s, b)
  {
  }

  lemma SubstBodyEmpty(body: seq<Instr>)
    ensures SubstBody(map[], body) == body
  {
    forall k | 0 <= k < |body| ensures SubstInstr(map[], body[k]) == body[k] {
      assert forall os: seq<Operand> :: SubstOperands(map[], os) == os;
    }
  }

  /** Redirecting `a` after a substitution that neither reads nor writes `a`
      is one substitution with `a` added. */
  lemma SubstInstrCompose(s: map<ValueId, ValueId>, a: ValueId, a': ValueId, x: Instr)
    requires a !in s && forall k :: k in s ==> s[k] != a
    ensures SubstInstr(map[a := a'], SubstInstr(s, x)) == SubstInstr(s[a := a'], x)
  {
    assert forall o :: SubstOperand(map[a := a'], SubstOperand(s, o)) == SubstOperand(s[a := a'], o);
  }

  lemma SubstBodyCompose(s: map<ValueId, ValueId>, a: ValueId, a': ValueId, body: seq<Instr>)
    requires a !in s && forall k :: k in s ==> s[k] != a
    ensures SubstBody(map[a := a'], SubstBody(s, body)) == SubstBody(s[a := a'], body)
  {
    forall k | 0 <= k < |body| ensures SubstInstr(map[a := a'], SubstInstr(s, body[k])) == SubstInstr(s[a := a'], body[k]) {
      SubstInstrCompose(s, a, a', body[k]);
    }
  }

  // ---------------------------------------------------------------------
  // Replace-all-uses of globals

  /** Redirects every use of a global in the domain of `r` to its image,
      also inside constant expressions. */
  function RenameConst(r: map<GlobalId, GlobalId>, c: Const): Const {
    match c
    case CGlobal(g) => if g in r then CGlobal(r[g]) else c
    case CGep(base, indices) => CGep(RenameConst(r, base), indices)
    case CCast(inner) => CCast(RenameConst(r, inner))
    case _ => c
  }

  function RenameOperand(r: map<GlobalId, GlobalId>, o: Operand): Operand {
    match o
    case OConst(c) => OConst(RenameConst(r, c))
    case _ => o
  }

  function RenameOperands(r: map<GlobalId, GlobalId>, os: seq<Operand>): seq<Operand> {
    seq(|os|, k requires 0 <= k < |os| => RenameOperand(r, os[k]))
  }

  function RenameInstr(r: map<GlobalId, GlobalId>, x: Instr): Instr {
    match x
    case BinOp(id, op, lhs, rhs, nsw, nuw) => BinOp(id, op, RenameOperand(r, lhs), RenameOperand(r, rhs), nsw, nuw)
    case Call(id, callee, args) => Call(id, RenameOperand(r, callee), RenameOperands(r, args))
    case Alloca(_, _) => x
    case Gep(id, ib, base, indices) => Gep(id, ib, RenameOperand(r, base), RenameOperands(r, indices))
    case Load(id, addr) => Load(id, RenameOperand(r, addr))
    case Store(id, value, addr) => Store(id, RenameOperand(r, value), RenameOperand(r, addr))
    case Other(id, name, operands) => Other(id, name, RenameOperands(r, operands))
  }

  function RenameBody(r: map<GlobalId, GlobalId>, body: seq<Instr>): seq<Instr> {
    seq(|body|, k requires 0 <= k < |body| => RenameInstr(r, body[k]))
  }

  function RenameFunctions(r: map<GlobalId, GlobalId>, fs: seq<Function>): seq<Function> {
    seq(|fs|, k requires 0 <= k < |fs| => Function(fs[k].name, RenameBody(r, fs[k].body)))
  }

  /** `GlobalVariable::replaceAllUsesWith` over every function of a module. */
  function ReplaceGlobalUses(fs: seq<Function>, from: GlobalId, to: GlobalId): seq<Function> {
    RenameFunctions(map[from := to], fs)
  }

  predicate ConstUsesGlobal(c: Const, g: GlobalId) {
    match c
    case CGlobal(h) => h == g
    case CGep(base, _) => ConstUsesGlobal(base, g)
    case CCast(inner) => ConstUsesGlobal(inner, g)
    case _ => false
  }

  predicate OperandUsesGlobal(o: Operand, g: GlobalId) {
    o.OConst? && ConstUsesGlobal(o.c, g)
  }

  predicate InstrUsesGlobal(x: Instr, g: GlobalId) {
    exists k :: 0 <= k < |Operands(x)| && OperandUsesGlobal(Operands(x)[k], g)
  }

  predicate FunctionsUseGlobal(fs: seq<Function>, g: GlobalId) {
    exists f, k :: 0 <= f < |fs| && 0 <= k < |fs[f].body| && InstrUsesGlobal(fs[f].body[k], g)
  }

  /** Renaming only changes constant operands. */
  lemma RenameInstrOperands(r: map<GlobalId, GlobalId>, x: Instr)
    ensures Operands(RenameInstr(r, x)) == RenameOperands(r, Operands(x))
    ensures RenameInstr(r, x).id == x.id
    ensures OpcodeName(RenameInstr(r, x)) == OpcodeName(x)
  {
  }

  /** A renamed constant can only use a global the renaming leaves alone
      and the original used, or an image of the renaming. */
  lemma {:induction false} RenameConstUses(r: map<GlobalId, GlobalId>, c: Const, h: GlobalId)
    ensures ConstUsesGlobal(RenameConst(r, c), h) ==> (h !in r && ConstUsesGlobal(c, h)) || h in r.Values
  {
    match c
    case CGlobal(g) =>
      if g in r {
        assert r[g] in r.Values;
      }
    case CGep(base, _) => RenameConstUses(r, base, h);
    case CCast(inner) => RenameConstUses(r, inner, h);
    case _ =>
  }

  lemma RenameInstrUses(r: map<GlobalId, GlobalId>, x: Instr, h: GlobalId)
    ensures InstrUsesGlobal(RenameInstr(r, x), h) ==> (h !in r && InstrUsesGlobal(x, h)) || h in r.Values
  {
    RenameInstrOperands(r, x);
    if InstrUsesGlobal(RenameInstr(r, x), h) {
      var ops := Operands(x);
      var k :| 0 <= k < |ops| && OperandUsesGlobal(RenameOperands(r, ops)[k], h);
      RenameConstUses(r, ops[k].c, h);
      if h !in r.Values {
        assert OperandUsesGlobal(ops[k], h);
      }
    }
  }

  /** After renaming, no function uses a global in the domain of the
      renaming (when no image is itself renamed), and every used global
      was used before or is an image. */
  lemma RenameFunctionsUses(r: map<GlobalId, GlobalId>, fs: seq<Function>, h: GlobalId)
    ensures FunctionsUseGlobal(RenameFunctions(r, fs), h) ==> (h !in r && FunctionsUseGlobal(fs, h)) || h in r.Values
  {
    var rs := RenameFunctions(r, fs);
    if FunctionsUseGlobal(rs, h) {
      var f, k :| 0 <= f < |rs| && 0 <= k < |rs[f].body| && InstrUsesGlobal(rs[f].body[k], h);
      RenameInstrUses(r, fs[f].body[k], h);
    }
  }

  lemma {:induction false} RenameConstCompose(r: map<GlobalId, GlobalId>, from: GlobalId, to: GlobalId, c: Const)
    requires from !in r && from !in r.Values
    ensures RenameConst(map[from := to], RenameConst(r, c)) == RenameConst(r[from := to], c)
  {
    match c
    case CGep(base, _) => RenameConstCompose(r, from, to, base);
    case CCast(inner) => RenameConstCompose(r, from, to, inner);
    case CGlobal(g) =>
      if g in r {
        assert r[g] in r.Values;
      }
    case _ =>
  }

  lemma RenameInstrCompose(r: map<GlobalId, GlobalId>, from: GlobalId, to: GlobalId, x: Instr)
    requires from !in r && from !in r.Values
    ensures RenameInstr(map[from := to], RenameInstr(r, x)) == RenameInstr(r[from := to], x)
  {
    forall c {
      RenameConstCompose(r, from, to, c);
    }
  }

  /** Replacing the uses of one more global after a renaming that neither
      touches nor produces it is a single, larger renaming. */
  lemma RenameFunctionsCompose(r: map<GlobalId, GlobalId>, from: GlobalId, to: GlobalId, fs: seq<Function>)
    requires from !in r && from !in r.Values
    ensures ReplaceGlobalUses(RenameFunctions(r, fs), from, to) == RenameFunctions(r[from := to], fs)
  {
    var lhs := ReplaceGlobalUses(RenameFunctions(r, fs), from, to);
    var rhs := RenameFunctions(r[from := to], fs);
    forall f | 0 <= f < |fs| ensures lhs[f] == rhs[f] {
      var body := fs[f].body;
      forall k | 0 <= k < |body|
        ensures RenameInstr(map[from := to], RenameInstr(r, body[k])) == RenameInstr(r[from := to], body[k])
      {
        RenameInstrCompose(r, from, to, body[k]);
      }
      assert RenameBody(map[from := to], RenameBody(r, body)) == RenameBody(r[from := to], body);
    }
  }

  lemma RenameFunctionsEmpty(fs: seq<Function>)
    ensures RenameFunctions(map[], fs) == fs
  {
    var rs := RenameFunctions(map[], fs);
    forall f | 0 <= f < |fs| ensures rs[f] == fs[f] {
      var body := fs[f].body;
      forall k | 0 <= k < |body| ensures RenameInstr(map[], body[k]) == body[k] {
        forall c: Const ensures RenameConst(map[], c) == c {
          RenameConstEmpty(c);
        }
        var ops := Operands(body[k]);
        assert forall os: seq<Operand> :: RenameOperands(map[], os) == os;
      }
      assert RenameBody(map[], body) == body;
    }
  }

  lemma {:induction false} RenameConstEmpty(c: Const)
    ensures RenameConst(map[], c) == c
  {
    match c
    case CGep(base, _) => RenameConstEmpty(base);
    case CCast(inner) => RenameConstEmpty(inner);
    case _ =>
  }
}
