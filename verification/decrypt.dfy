/** The decryption code the string-encryption pass emits before a use site
    (`StringEncryption::decrypt`), and its meaning under the interpreter. */
module Decryption {
  import opened Wrappers
  import opened IR
  import opened Interp
  import Cipher

  /** The emitted instructions, the handle of the buffer the code fills (the
      value `decrypt` returns), and the first handle still unused. */
  datatype Emitted = Emitted(code: seq<Instr>, buffer: ValueId, next: ValueId)

  /** Indices of the source-byte address: a loaded `i8*` is walked with the
      single index `i`, anything else is a `[len x i8]*` walked with `0, i`. */
  function SrcIndices(dataIsLoad: bool, i: nat): seq<Operand> {
    if dataIsLoad then [OConst(CInt(i))] else [OConst(CInt(0)), OConst(CInt(i))]
  }

  /** The five instructions for byte `i` of the buffer allocated by `buf`:
      destination address, source address, load, xor with the key, store.
      Their handles are `buf + 1 + 5 * i` onwards. */
  function ByteBlock(data: Operand, dataIsLoad: bool, buf: ValueId, i: nat): seq<Instr> {
    var d := buf + 1 + 5 * i;
    [ Gep(d, true, Val(buf), [OConst(CInt(i))]),
      Gep(d + 1, false, data, SrcIndices(dataIsLoad, i)),
      Load(d + 2, Val(d + 1)),
      BinOp(d + 3, Xor, Val(d + 2), OConst(CInt(Cipher.Key as int)), false, false),
      Store(d + 4, Val(d + 3), Val(d)) ]
  }

  /** The emitted code calls nothing, and the only operand of it that can
      name a global is the data operand. */
  predicate OnlyDataOperands(x: Instr, data: Operand) {
    && !x.Call?
    && forall j :: 0 <= j < |Operands(x)| ==> Operands(x)[j] == data || Operands(x)[j].Val? || (Operands(x)[j].OConst? && Operands(x)[j].c.CInt?)
  }

  lemma OnlyDataUses(x: Instr, data: Operand, h: GlobalId)
    requires OnlyDataOperands(x, data)
    ensures InstrUsesGlobal(x, h) ==> OperandUsesGlobal(data, h)
  {
  }

  /** The byte loop, from index `i` up to `len - 1` in ascending order. */
  function EmitBytes(data: Operand, dataIsLoad: bool, buf: ValueId, i: nat, len: nat): (r: seq<Instr>)
    requires i <= len
    ensures |r| == 5 * (len - i)
    ensures forall j :: i <= j < len ==> r[5 * (j - i) .. 5 * (j - i) + 5] == ByteBlock(data, dataIsLoad, buf, j)
    ensures forall k :: 0 <= k < |r| ==> r[k].id == buf + 1 + 5 * i + k
    decreases len - i
  {
    if i == len then []
    else
      var rest := EmitBytes(data, dataIsLoad, buf, i + 1, len);
      var r := ByteBlock(data, dataIsLoad, buf, i) + rest;
      assert forall j :: i < j < len ==> r[5 * (j - i) .. 5 * (j - i) + 5] == ByteBlock(data, dataIsLoad, buf, j) by {
        forall j | i < j < len
          ensures r[5 * (j - i) .. 5 * (j - i) + 5] == ByteBlock(data, dataIsLoad, buf, j)
        {
          assert r[5 * (j - i) .. 5 * (j - i) + 5] == rest[5 * (j - i - 1) .. 5 * (j - i - 1) + 5];
        }
      }
      r
  }

  /** `decrypt(data, len, insertBefore)`: one `alloca` of `len` bytes, then
      the byte loop; the result is the alloca. Handles are taken in order
      from `next`. */
  function EmitDecrypt(data: Operand, dataIsLoad: bool, len: nat, next: ValueId): (e: Emitted)
    ensures |e.code| == 1 + 5 * len
    ensures e.code[0] == Alloca(next, len) && e.buffer == next
    ensures forall i :: 0 <= i < len ==> e.code[1 + 5 * i .. 6 + 5 * i] == ByteBlock(data, dataIsLoad, next, i)
    ensures e.next == next + |e.code|
    ensures forall k :: 0 <= k < |e.code| ==> e.code[k].id == next + k
  {
    var bytes := EmitBytes(data, dataIsLoad, next, 0, len);
    var code := [Alloca(next, len)] + bytes;
    assert forall i :: 0 <= i < len ==> code[1 + 5 * i .. 6 + 5 * i] == bytes[5 * i .. 5 * i + 5];
    Emitted(code, next, next + 1 + 5 * len)
  }

  lemma {:induction false} BytesOperands(data: Operand, dataIsLoad: bool, buf: ValueId, i: nat, len: nat)
    requires i <= len
    ensures forall k :: 0 <= k < |EmitBytes(data, dataIsLoad, buf, i, len)| ==> OnlyDataOperands(EmitBytes(data, dataIsLoad, buf, i, len)[k], data)
    decreases len - i
  {
    if i < len {
      BytesOperands(data, dataIsLoad, buf, i + 1, len);
      var block := ByteBlock(data, dataIsLoad, buf, i);
      assert forall k :: 0 <= k < 5 ==> OnlyDataOperands(block[k], data);
      assert EmitBytes(data, dataIsLoad, buf, i, len) == block + EmitBytes(data, dataIsLoad, buf, i + 1, len);
    }
  }

  /** The emitted code calls nothing and names no global but through `data`. */
  lemma EmittedOperands(data: Operand, dataIsLoad: bool, len: nat, next: ValueId)
    ensures forall k :: 0 <= k < |EmitDecrypt(data, dataIsLoad, len, next).code| ==> OnlyDataOperands(EmitDecrypt(data, dataIsLoad, len, next).code[k], data)
  {
    BytesOperands(data, dataIsLoad, next, 0, len);
    assert EmitDecrypt(data, dataIsLoad, len, next).code == [Alloca(next, len)] + EmitBytes(data, dataIsLoad, next, 0, len);
  }

  // ---------------------------------------------------------------------
  // Meaning of the emitted code

  /** State reached after the alloca and the first `i` byte blocks, relative
      to the state `s` before the code ran: the first `i` buffer bytes hold
      decrypted source bytes, and nothing but the buffer and the new
      handles changed. */
  ghost predicate Filled(s: State, data: Operand, o: Obj, p: int, len: nat, buf: ValueId, t: State, i: nat) {
    && StackObj(buf) in t.mem
    && |t.mem[StackObj(buf)]| == len
    && o in s.mem && 0 <= p && p + len <= |s.mem[o]|
    && i <= len
    && (forall k :: 0 <= k < i ==> t.mem[StackObj(buf)][k] == s.mem[o][p + k] ^ Cipher.Key)
    && buf in t.env && t.env[buf] == VPtr(StackObj(buf), 0)
    && t.mem.Keys == s.mem.Keys + {StackObj(buf)}
    && (forall q :: q in s.mem && q != StackObj(buf) ==> t.mem[q] == s.mem[q])
    && (forall v :: v in s.env && v < buf ==> v in t.env && t.env[v] == s.env[v])
    && Eval(t, data) == Some(VPtr(o, p))
  }

  /** The source operand still evaluates to the same pointer once the state
      has only changed in the buffer and in handles from `buf` on. */
  lemma DataStable(s: State, t: State, data: Operand, o: Obj, p: int, buf: ValueId)
    requires Eval(s, data) == Some(VPtr(o, p))
    requires data.Val? ==> data.v < buf
    requires t.mem.Keys == s.mem.Keys + {StackObj(buf)}
    requires forall q :: q in s.mem && q != StackObj(buf) ==> t.mem[q] == s.mem[q]
    requires forall v :: v in s.env && v < buf ==> v in t.env && t.env[v] == s.env[v]
    ensures Eval(t, data) == Some(VPtr(o, p))
  {
    if data.OConst? {
      EvalConstFrame(s.mem, t.mem, data.c);
    }
  }

  lemma {:induction false} ConstIndices(s: State, ks: seq<int>)
    ensures EvalIndices(s, seq(|ks|, j requires 0 <= j < |ks| => OConst(CInt(ks[j])))) == Some(ks)
    decreases |ks|
  {
    var os := seq(|ks|, j requires 0 <= j < |ks| => OConst(CInt(ks[j])));
    if |ks| > 0 {
      ConstIndices(s, ks[1..]);
      assert os[1..] == seq(|ks[1..]|, j requires 0 <= j < |ks[1..]| => OConst(CInt(ks[1..][j])));
      assert [ks[0]] + ks[1..] == ks;
    }
  }

  lemma StepDst(t: State, buf: ValueId, d: ValueId, i: int)
    requires StackObj(buf) in t.mem && buf in t.env && t.env[buf] == VPtr(StackObj(buf), 0)
    ensures Step(t, Gep(d, true, Val(buf), [OConst(CInt(i))])) == Some(t.(env := t.env[d := VPtr(StackObj(buf), i)]))
  {
    ConstIndices(t, [i]);
    assert [OConst(CInt(i))] == seq(|[i]|, j requires 0 <= j < |[i]| => OConst(CInt([i][j])));
  }

  lemma StepSrc(t: State, data: Operand, dataIsLoad: bool, o: Obj, p: int, d: ValueId, i: nat)
    requires Eval(t, data) == Some(VPtr(o, p)) && o in t.mem
    ensures Step(t, Gep(d, false, data, SrcIndices(dataIsLoad, i))) == Some(t.(env := t.env[d := VPtr(o, p + i)]))
  {
    ConstIndices(t, [i]);
    ConstIndices(t, [0, i]);
    assert [OConst(CInt(i))] == seq(|[i]|, j requires 0 <= j < |[i]| => OConst(CInt([i][j])));
    assert [OConst(CInt(0)), OConst(CInt(i))] == seq(|[0, i]|, j requires 0 <= j < |[0, i]| => OConst(CInt([0, i][j])));
  }

  lemma StepLoad(t: State, id: ValueId, a: ValueId, o: Obj, off: int)
    requires a in t.env && t.env[a] == VPtr(o, off) && o in t.mem && 0 <= off < |t.mem[o]|
    ensures Step(t, Load(id, Val(a))) == Some(t.(env := t.env[id := VByte(t.mem[o][off])]))
  {
  }

  lemma StepXor(t: State, id: ValueId, a: ValueId, b: Byte)
    requires a in t.env && t.env[a] == VByte(b)
    ensures Step(t, BinOp(id, Xor, Val(a), OConst(CInt(Cipher.Key as int)), false, false))
         == Some(t.(env := t.env[id := VByte(b ^ Cipher.Key)]))
  {
  }

  lemma StepStore(t: State, id: ValueId, v: ValueId, a: ValueId, b: Byte, o: Obj, off: int)
    requires v in t.env && t.env[v] == VByte(b)
    requires a in t.env && t.env[a] == VPtr(o, off) && o in t.mem && 0 <= off < |t.mem[o]|
    ensures Step(t, Store(id, Val(v), Val(a))) == Some(t.(mem := t.mem[o := t.mem[o][off := b]]))
  {
  }

  lemma EvalEnvUpdate(t: State, o: Operand, d: ValueId, v: Value)
    requires !(o.Val? && o.v == d)
    ensures Eval(t.(env := t.env[d := v]), o) == Eval(t, o)
  {
  }

  lemma RunCons(t: State, x: Instr, rest: seq<Instr>, t1: State)
    requires Step(t, x) == Some(t1)
    ensures Run(t, [x] + rest) == Run(t1, rest)
  {
    assert ([x] + rest)[1..] == rest;
  }

  /** The state after the block for byte `i`, written out. */
  function AfterBlock(t: State, o: Obj, p: int, buf: ValueId, i: nat, b: Byte): State
    requires StackObj(buf) in t.mem && i < |t.mem[StackObj(buf)]|
  {
    var d := buf + 1 + 5 * i;
    var B := StackObj(buf);
    State(t.mem[B := t.mem[B][i := b ^ Cipher.Key]],
          t.env[d := VPtr(B, i)][d + 1 := VPtr(o, p + i)][d + 2 := VByte(b)][d + 3 := VByte(b ^ Cipher.Key)])
  }

  /** The states the block for byte `i` passes through, holding source
      byte `b`: before it, after each of its five instructions. */
  function BlockStates(t: State, o: Obj, p: int, buf: ValueId, i: nat, b: Byte): seq<State>
    requires StackObj(buf) in t.mem && i < |t.mem[StackObj(buf)]|
  {
    var d := buf + 1 + 5 * i;
    var B := StackObj(buf);
    var t1 := t.(env := t.env[d := VPtr(B, i)]);
    var t2 := t1.(env := t1.env[d + 1 := VPtr(o, p + i)]);
    var t3 := t2.(env := t2.env[d + 2 := VByte(b)]);
    var t4 := t3.(env := t3.env[d + 3 := VByte(b ^ Cipher.Key)]);
    [t, t1, t2, t3, t4, AfterBlock(t, o, p, buf, i, b)]
  }

  /** What the block for byte `i` needs of the state it starts in. */
  ghost predicate BlockReady(t: State, data: Operand, o: Obj, p: int, buf: ValueId, i: nat) {
    && StackObj(buf) in t.mem && i < |t.mem[StackObj(buf)]|
    && buf in t.env && t.env[buf] == VPtr(StackObj(buf), 0)
    && o in t.mem && o != StackObj(buf) && 0 <= p + i < |t.mem[o]|
    && Eval(t, data) == Some(VPtr(o, p))
    && (data.Val? ==> data.v <= buf)
  }

  lemma BlockDst(t: State, data: Operand, dataIsLoad: bool, o: Obj, p: int, buf: ValueId, i: nat)
    requires BlockReady(t, data, o, p, buf, i)
    ensures var ts := BlockStates(t, o, p, buf, i, t.mem[o][p + i]);
      Step(ts[0], ByteBlock(data, dataIsLoad, buf, i)[0]) == Some(ts[1])
  {
    StepDst(t, buf, buf + 1 + 5 * i, i);
  }

  lemma BlockSrc(t: State, data: Operand, dataIsLoad: bool, o: Obj, p: int, buf: ValueId, i: nat)
    requires BlockReady(t, data, o, p, buf, i)
    ensures var ts := BlockStates(t, o, p, buf, i, t.mem[o][p + i]);
      Step(ts[1], ByteBlock(data, dataIsLoad, buf, i)[1]) == Some(ts[2])
  {
    var d := buf + 1 + 5 * i;
    var t1 := t.(env := t.env[d := VPtr(StackObj(buf), i)]);
    EvalEnvUpdate(t, data, d, VPtr(StackObj(buf), i));
    StepSrc(t1, data, dataIsLoad, o, p, d + 1, i);
  }

  lemma BlockLoad(t: State, data: Operand, dataIsLoad: bool, o: Obj, p: int, buf: ValueId, i: nat)
    requires BlockReady(t, data, o, p, buf, i)
    ensures var ts := BlockStates(t, o, p, buf, i, t.mem[o][p + i]);
      Step(ts[2], ByteBlock(data, dataIsLoad, buf, i)[2]) == Some(ts[3])
  {
    var d := buf + 1 + 5 * i;
    var ts := BlockStates(t, o, p, buf, i, t.mem[o][p + i]);
    StepLoad(ts[2], d + 2, d + 1, o, p + i);
  }

  lemma BlockXor(t: State, data: Operand, dataIsLoad: bool, o: Obj, p: int, buf: ValueId, i: nat)
    requires BlockReady(t, data, o, p, buf, i)
    ensures var ts := BlockStates(t, o, p, buf, i, t.mem[o][p + i]);
      Step(ts[3], ByteBlock(data, dataIsLoad, buf, i)[3]) == Some(ts[4])
  {
    var d := buf + 1 + 5 * i;
    var ts := BlockStates(t, o, p, buf, i, t.mem[o][p + i]);
    StepXor(ts[3], d + 3, d + 2, t.mem[o][p + i]);
  }

  lemma BlockStore(t: State, data: Operand, dataIsLoad: bool, o: Obj, p: int, buf: ValueId, i: nat)
    requires BlockReady(t, data, o, p, buf, i)
    ensures var ts := BlockStates(t, o, p, buf, i, t.mem[o][p + i]);
      Step(ts[4], ByteBlock(data, dataIsLoad, buf, i)[4]) == Some(ts[5])
  {
    var d := buf + 1 + 5 * i;
    var ts := BlockStates(t, o, p, buf, i, t.mem[o][p + i]);
    StepStore(ts[4], d + 4, d + 3, d, t.mem[o][p + i] ^ Cipher.Key, StackObj(buf), i);
  }

  /** The block for byte `i` decrypts source byte `p + i` into buffer byte
      `i`, whatever follows it. */
  lemma RunBlock(t: State, data: Operand, dataIsLoad: bool, o: Obj, p: int, len: nat, buf: ValueId, i: nat, rest: seq<Instr>)
    requires StackObj(buf) in t.mem && |t.mem[StackObj(buf)]| == len && i < len
    requires buf in t.env && t.env[buf] == VPtr(StackObj(buf), 0)
    requires o in t.mem && o != StackObj(buf) && 0 <= p + i < |t.mem[o]|
    requires Eval(t, data) == Some(VPtr(o, p))
    requires data.Val? ==> data.v <= buf
    ensures Run(t, ByteBlock(data, dataIsLoad, buf, i) + rest) == Run(AfterBlock(t, o, p, buf, i, t.mem[o][p + i]), rest)
  {
    var ts := BlockStates(t, o, p, buf, i, t.mem[o][p + i]);
    BlockDst(t, data, dataIsLoad, o, p, buf, i);
    BlockSrc(t, data, dataIsLoad, o, p, buf, i);
    BlockLoad(t, data, dataIsLoad, o, p, buf, i);
    BlockXor(t, data, dataIsLoad, o, p, buf, i);
    BlockStore(t, data, dataIsLoad, o, p, buf, i);
    assert forall k :: 0 <= k < 5 ==> Step(ts[k], ByteBlock(data, dataIsLoad, buf, i)[k]) == Some(ts[k + 1]) by {
      forall k | 0 <= k < 5 ensures Step(ts[k], ByteBlock(data, dataIsLoad, buf, i)[k]) == Some(ts[k + 1]) {
        assert k == 0 || k == 1 || k == 2 || k == 3 || k == 4;
      }
    }
    RunSteps(t, ByteBlock(data, dataIsLoad, buf, i), ts, rest);
  }

  /** The state after a block keeps the `Filled` invariant, one byte further. */
  lemma FilledAfterBlock(s: State, data: Operand, o: Obj, p: int, len: nat, buf: ValueId, t: State, i: nat)
    requires Filled(s, data, o, p, len, buf, t, i) && i < len
    requires o != StackObj(buf)
    requires data.Val? ==> data.v < buf
    ensures Filled(s, data, o, p, len, buf, AfterBlock(t, o, p, buf, i, t.mem[o][p + i]), i + 1)
  {
    var t' := AfterBlock(t, o, p, buf, i, t.mem[o][p + i]);
    var B := StackObj(buf);
    assert t'.mem[B] == t.mem[B][i := s.mem[o][p + i] ^ Cipher.Key];
    assert forall k :: 0 <= k < i + 1 ==> t'.mem[B][k] == s.mem[o][p + k] ^ Cipher.Key;
    DataStable(t, t', data, o, p, buf);
  }

  lemma EmitBytesCons(data: Operand, dataIsLoad: bool, buf: ValueId, i: nat, len: nat)
    requires i < len
    ensures EmitBytes(data, dataIsLoad, buf, i, len) == ByteBlock(data, dataIsLoad, buf, i) + EmitBytes(data, dataIsLoad, buf, i + 1, len)
  {
  }

  /** One byte block decrypts byte `i` into the buffer and hands the rest of
      the loop the state after it. */
  lemma BytesStep(s: State, data: Operand, dataIsLoad: bool, o: Obj, p: int, len: nat, buf: ValueId, t: State, i: nat)
    requires Filled(s, data, o, p, len, buf, t, i) && i < len
    requires o != StackObj(buf)
    requires data.Val? ==> data.v < buf
    ensures Run(t, EmitBytes(data, dataIsLoad, buf, i, len))
         == Run(AfterBlock(t, o, p, buf, i, t.mem[o][p + i]), EmitBytes(data, dataIsLoad, buf, i + 1, len))
    ensures Filled(s, data, o, p, len, buf, AfterBlock(t, o, p, buf, i, t.mem[o][p + i]), i + 1)
  {
    EmitBytesCons(data, dataIsLoad, buf, i, len);
    RunBlock(t, data, dataIsLoad, o, p, len, buf, i, EmitBytes(data, dataIsLoad, buf, i + 1, len));
    FilledAfterBlock(s, data, o, p, len, buf, t, i);
  }

  lemma BytesDone(s: State, data: Operand, dataIsLoad: bool, o: Obj, p: int, len: nat, buf: ValueId, t: State)
    requires Filled(s, data, o, p, len, buf, t, len)
    ensures Run(t, EmitBytes(data, dataIsLoad, buf, len, len)) == Some(t)
  {
  }

  /** The byte loop from index `i` on, run in a state where the first `i`
      bytes are done, fills the buffer. */
  lemma {:induction false} BytesFill(s: State, data: Operand, dataIsLoad: bool, o: Obj, p: int, len: nat, buf: ValueId, t: State, i: nat)
    requires Filled(s, data, o, p, len, buf, t, i)
    requires o != StackObj(buf)
    requires data.Val? ==> data.v < buf
    ensures Run(t, EmitBytes(data, dataIsLoad, buf, i, len)).Some?
    ensures Filled(s, data, o, p, len, buf, Run(t, EmitBytes(data, dataIsLoad, buf, i, len)).value, len)
    decreases len - i, 1
  {
    if i < len {
      BytesFillFrom(s, data, dataIsLoad, o, p, len, buf, t, i);
    } else {
      BytesDone(s, data, dataIsLoad, o, p, len, buf, t);
    }
  }

  lemma BytesFillFrom(s: State, data: Operand, dataIsLoad: bool, o: Obj, p: int, len: nat, buf: ValueId, t: State, i: nat)
    requires Filled(s, data, o, p, len, buf, t, i) && i < len
    requires o != StackObj(buf)
    requires data.Val? ==> data.v < buf
    ensures Run(t, EmitBytes(data, dataIsLoad, buf, i, len)).Some?
    ensures Filled(s, data, o, p, len, buf, Run(t, EmitBytes(data, dataIsLoad, buf, i, len)).value, len)
    decreases len - i, 0
  {
    BytesStep(s, data, dataIsLoad, o, p, len, buf, t, i);
    BytesFill(s, data, dataIsLoad, o, p, len, buf, AfterBlock(t, o, p, buf, i, t.mem[o][p + i]), i + 1);
  }

  /** The alloca starts the loop in a state where no byte is done yet. */
  lemma AllocaStarts(s: State, data: Operand, dataIsLoad: bool, len: nat, next: ValueId, o: Obj, p: int)
    requires Eval(s, data) == Some(VPtr(o, p))
    requires o in s.mem && o != StackObj(next)
    requires 0 <= p && p + len <= |s.mem[o]|
    requires data.Val? ==> data.v < next
    ensures var t1 := State(s.mem[StackObj(next) := seq(len, _ => 0)], s.env[next := VPtr(StackObj(next), 0)]);
      && Run(s, EmitDecrypt(data, dataIsLoad, len, next).code) == Run(t1, EmitBytes(data, dataIsLoad, next, 0, len))
      && Filled(s, data, o, p, len, next, t1, 0)
  {
    var e := EmitDecrypt(data, dataIsLoad, len, next);
    var t1 := State(s.mem[StackObj(next) := seq(len, _ => 0)], s.env[next := VPtr(StackObj(next), 0)]);
    assert e.code == [Alloca(next, len)] + EmitBytes(data, dataIsLoad, next, 0, len);
    RunCons(s, Alloca(next, len), EmitBytes(data, dataIsLoad, next, 0, len), t1);
    DataStable(s, t1, data, o, p, next);
  }

  /** Once every byte is done the buffer holds the decrypted source. */
  lemma FilledDecrypts(s: State, data: Operand, o: Obj, p: int, len: nat, buf: ValueId, t: State)
    requires Filled(s, data, o, p, len, buf, t, len)
    ensures t.mem[StackObj(buf)] == Cipher.Decrypt(s.mem[o][p .. p + len])
  {
  }

  /** Use-site equivalence of the emitted code: run in any state where the
      source operand points at `len` readable bytes, it leaves in the new
      buffer exactly those bytes decrypted, returns the buffer's address,
      and changes no other memory object and no earlier value. */
  lemma DecryptFillsBuffer(s: State, data: Operand, dataIsLoad: bool, len: nat, next: ValueId, o: Obj, p: int)
    requires Eval(s, data) == Some(VPtr(o, p))
    requires o in s.mem && o != StackObj(next)
    requires 0 <= p && p + len <= |s.mem[o]|
    requires data.Val? ==> data.v < next
    ensures Run(s, EmitDecrypt(data, dataIsLoad, len, next).code).Some?
    ensures var t := Run(s, EmitDecrypt(data, dataIsLoad, len, next).code).value;
      && StackObj(next) in t.mem && next in t.env
      && t.mem[StackObj(next)] == Cipher.Decrypt(s.mem[o][p .. p + len])
      && t.env[next] == VPtr(StackObj(next), 0)
      && t.mem.Keys == s.mem.Keys + {StackObj(next)}
      && (forall q :: q in s.mem && q != StackObj(next) ==> t.mem[q] == s.mem[q])
      && (forall v :: v in s.env && v < next ==> v in t.env && t.env[v] == s.env[v])
  {
    var t1 := State(s.mem[StackObj(next) := seq(len, _ => 0)], s.env[next := VPtr(StackObj(next), 0)]);
    AllocaStarts(s, data, dataIsLoad, len, next, o, p);
    BytesFill(s, data, dataIsLoad, o, p, len, next, t1, 0);
    FilledDecrypts(s, data, o, p, len, next, Run(t1, EmitBytes(data, dataIsLoad, next, 0, len)).value);
  }
}
