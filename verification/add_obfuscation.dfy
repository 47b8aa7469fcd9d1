/** The add/sub substitution pass. Each iteration walks the function once:
    every `a = add b, c` becomes `t = sub 0, c; a' = sub b, t` and every
    `a = sub b, c` becomes `t = sub 0, c; a' = add b, t`, the new pair
    inserted before the original. Uses of `a` are redirected to `a'` on the
    spot, and the originals are erased after the walk. The walk repeats
    `ObfTimes` times, at least once. */
module AddObfuscation {
  import opened Wrappers
  import opened IR
  import WordArith

  /** How the replacement gets its `nsw`/`nuw` flags: copied from the
      replaced instruction, or left clear. */
  datatype FlagRule = CopyFlags | DropFlags

  predicate IsAddSub(x: Instr) {
    x.BinOp? && (x.op == Add || x.op == Sub)
  }

  function Flip(op: BinOpcode): BinOpcode
    requires op == Add || op == Sub
  {
    if op == Add then Sub else Add
  }

  /** What `addNeg`/`subNeg` insert before `x`: the negation of its second
      operand (handle `next`) and the flipped operation (handle `next + 1`). */
  function Replacement(x: Instr, next: ValueId, rule: FlagRule): seq<Instr>
    requires IsAddSub(x)
  {
    [BinOp(next, Sub, OConst(CInt(0)), x.rhs, false, false),
     BinOp(next + 1, Flip(x.op), x.lhs, Val(next), rule == CopyFlags && x.nsw, rule == CopyFlags && x.nuw)]
  }

  /** The walk of one iteration, as the source performs it: `done` is the
      part already walked, `rest` the part ahead; rewriting an add/sub
      redirects its uses in the whole function at once, and its handle is
      queued in `dels`. */
  function Scan(done: seq<Instr>, rest: seq<Instr>, next: ValueId, rule: FlagRule, dels: seq<ValueId>)
    : (r: (seq<Instr>, seq<ValueId>, ValueId))
    decreases |rest|
  {
    if |rest| == 0 then (done, dels, next)
    else
      var x := rest[0];
      if IsAddSub(x) then
        Scan(ReplaceValueUses(done + Replacement(x, next, rule) + [x], x.id, next + 1),
             ReplaceValueUses(rest[1..], x.id, next + 1),
             next + 2, rule, dels + [x.id])
      else Scan(done + [x], rest[1..], next, rule, dels)
  }

  /** `eraseFromParent` of every queued instruction. */
  function Erase(body: seq<Instr>, dels: seq<ValueId>): (r: seq<Instr>)
    ensures forall x :: x in r <==> x in body && x.id !in dels
    decreases |body|
  {
    if |body| == 0 then []
    else (if body[0].id in dels then [] else [body[0]]) + Erase(body[1..], dels)
  }

  /** One pass of the do-while body: the walk, then the deletions. */
  function Iteration(body: seq<Instr>, next: ValueId, rule: FlagRule): (seq<Instr>, ValueId) {
    var (walked, dels, n) := Scan([], body, next, rule, []);
    (Erase(walked, dels), n)
  }

  // ---------------------------------------------------------------------
  // Reference definition: every add/sub expanded at once

  function AddSubCount(body: seq<Instr>): nat
    decreases |body|
  {
    if |body| == 0 then 0
    else (if IsAddSub(body[0]) then 1 else 0) + AddSubCount(body[1..])
  }

  function AddSubIds(body: seq<Instr>): seq<ValueId>
    decreases |body|
  {
    if |body| == 0 then []
    else (if IsAddSub(body[0]) then [body[0].id] else []) + AddSubIds(body[1..])
  }

  /** Each add/sub replaced by its pair, the j-th one taking handles
      `next + 2j` and `next + 2j + 1`. */
  function Expand(body: seq<Instr>, next: ValueId, rule: FlagRule): seq<Instr>
    decreases |body|
  {
    if |body| == 0 then []
    else if IsAddSub(body[0]) then Replacement(body[0], next, rule) + Expand(body[1..], next + 2, rule)
    else [body[0]] + Expand(body[1..], next, rule)
  }

  /** Like `Expand`, but keeping each original after its pair. */
  function ExpandKeep(body: seq<Instr>, next: ValueId, rule: FlagRule): seq<Instr>
    decreases |body|
  {
    if |body| == 0 then []
    else if IsAddSub(body[0]) then Replacement(body[0], next, rule) + [body[0]] + ExpandKeep(body[1..], next + 2, rule)
    else [body[0]] + ExpandKeep(body[1..], next, rule)
  }

  /** Where the uses of the j-th add/sub end up: its replacement's handle. */
  function Sigma(body: seq<Instr>, next: ValueId): map<ValueId, ValueId>
    decreases |body|
  {
    if |body| == 0 then map[]
    else if IsAddSub(body[0]) then Sigma(body[1..], next + 2)[body[0].id := next + 1]
    else Sigma(body[1..], next)
  }

  predicate UniqueIds(body: seq<Instr>) {
    forall i, j :: 0 <= i < j < |body| ==> body[i].id != body[j].id
  }

  /** The substitution only maps handles of `body`, and only to handles in
      `[next, next + 2 * AddSubCount(body))`. */
  lemma {:induction false} SigmaRange(body: seq<Instr>, next: ValueId)
    ensures forall k :: k in Sigma(body, next) ==> exists i :: 0 <= i < |body| && body[i].id == k && IsAddSub(body[i])
    ensures forall k :: k in Sigma(body, next) ==> next <= Sigma(body, next)[k] < next + 2 * AddSubCount(body)
    decreases |body|
  {
    if |body| > 0 {
      var n' := if IsAddSub(body[0]) then next + 2 else next;
      SigmaRange(body[1..], n');
      forall k | k in Sigma(body[1..], n')
        ensures exists i :: 0 <= i < |body| && body[i].id == k && IsAddSub(body[i])
      {
        var i :| 0 <= i < |body[1..]| && body[1..][i].id == k && IsAddSub(body[1..][i]);
        assert body[i + 1] == body[1..][i];
      }
    }
  }

  /** The walk's state is the reference's, for the part walked so far. */
  ghost predicate Separated(s: map<ValueId, ValueId>, rest: seq<Instr>, base: ValueId, next: ValueId) {
    && (forall k :: k in s ==> k < base && base <= s[k])
    && (forall i :: 0 <= i < |rest| ==> rest[i].id < base && rest[i].id !in s)
    && UniqueIds(rest)
    && base <= next
  }

  lemma ReplacementSubst(s: map<ValueId, ValueId>, x: Instr, next: ValueId, rule: FlagRule)
    requires IsAddSub(x) && next !in s
    ensures Replacement(SubstInstr(s, x), next, rule) == SubstBody(s, Replacement(x, next, rule))
  {
  }

  lemma SigmaStep(s: map<ValueId, ValueId>, rest: seq<Instr>, next: ValueId)
    requires |rest| > 0 && IsAddSub(rest[0])
    requires forall i :: 1 <= i < |rest| ==> rest[i].id != rest[0].id
    ensures s[rest[0].id := next + 1] + Sigma(rest[1..], next + 2) == s + Sigma(rest, next)
  {
    SigmaRange(rest[1..], next + 2);
  }

  lemma SeparatedStep(s: map<ValueId, ValueId>, rest: seq<Instr>, base: ValueId, next: ValueId)
    requires |rest| > 0 && Separated(s, rest, base, next)
    ensures IsAddSub(rest[0]) ==> Separated(s[rest[0].id := next + 1], rest[1..], base, next + 2)
    ensures !IsAddSub(rest[0]) ==> Separated(s, rest[1..], base, next)
  {
    var a := rest[0].id;
    forall i | 0 <= i < |rest[1..]| ensures rest[1..][i].id != a {
      assert rest[1..][i] == rest[i + 1];
    }
  }

  /** One step of the walk on an add/sub, in terms of the reference. */
  lemma ScanStepAddSub(s: map<ValueId, ValueId>, done: seq<Instr>, rest: seq<Instr>, base: ValueId, next: ValueId, rule: FlagRule)
    requires |rest| > 0 && IsAddSub(rest[0]) && Separated(s, rest, base, next)
    ensures var x := SubstInstr(s, rest[0]);
      var s' := s[rest[0].id := next + 1];
      && x.id == rest[0].id && IsAddSub(x)
      && ReplaceValueUses(SubstBody(s, done) + Replacement(x, next, rule) + [x], x.id, next + 1)
         == SubstBody(s', done + Replacement(rest[0], next, rule) + [rest[0]])
      && ReplaceValueUses(SubstBody(s, rest)[1..], x.id, next + 1) == SubstBody(s', rest[1..])
  {
    var x0 := rest[0];
    var a := x0.id;
    SubstInstrShape(s, x0);
    var x := SubstInstr(s, x0);
    ReplacementSubst(s, x0, next, rule);
    var d' := done + Replacement(x0, next, rule) + [x0];
    SubstBodyAppend(s, done + Replacement(x0, next, rule), [x0]);
    SubstBodyAppend(s, done, Replacement(x0, next, rule));
    assert SubstBody(s, done) + Replacement(x, next, rule) + [x] == SubstBody(s, d');
    SubstBodyCompose(s, a, next + 1, d');
    assert SubstBody(s, rest)[1..] == SubstBody(s, rest[1..]);
    SubstBodyCompose(s, a, next + 1, rest[1..]);
  }

  /** What the walk leaves, by the reference: every remaining add/sub
      expanded (originals kept), all redirections applied at once. */
  function ScanResult(s: map<ValueId, ValueId>, done: seq<Instr>, rest: seq<Instr>, next: ValueId, rule: FlagRule, dels: seq<ValueId>)
    : (seq<Instr>, seq<ValueId>, ValueId)
  {
    (SubstBody(s + Sigma(rest, next), done + ExpandKeep(rest, next, rule)),
     dels + AddSubIds(rest), next + 2 * AddSubCount(rest))
  }

  ghost predicate ScanMatches(s: map<ValueId, ValueId>, done: seq<Instr>, rest: seq<Instr>, next: ValueId, rule: FlagRule, dels: seq<ValueId>) {
    Scan(SubstBody(s, done), SubstBody(s, rest), next, rule, dels) == ScanResult(s, done, rest, next, rule, dels)
  }

  /** The walk's first step on an add/sub, seen through the substitution. */
  lemma ScanUnfoldAddSub(s: map<ValueId, ValueId>, done: seq<Instr>, rest: seq<Instr>, base: ValueId, next: ValueId, rule: FlagRule, dels: seq<ValueId>)
    requires |rest| > 0 && IsAddSub(rest[0]) && Separated(s, rest, base, next)
    ensures Scan(SubstBody(s, done), SubstBody(s, rest), next, rule, dels)
         == Scan(SubstBody(s[rest[0].id := next + 1], done + Replacement(rest[0], next, rule) + [rest[0]]),
                 SubstBody(s[rest[0].id := next + 1], rest[1..]), next + 2, rule, dels + [rest[0].id])
  {
    ScanStepAddSub(s, done, rest, base, next, rule);
    assert SubstBody(s, rest)[0] == SubstInstr(s, rest[0]);
  }

  /** The reference result does not change when one add/sub moves from the
      part ahead to the part walked. */
  lemma ScanResultAddSub(s: map<ValueId, ValueId>, done: seq<Instr>, rest: seq<Instr>, next: ValueId, rule: FlagRule, dels: seq<ValueId>)
    requires |rest| > 0 && IsAddSub(rest[0])
    requires forall i :: 1 <= i < |rest| ==> rest[i].id != rest[0].id
    ensures ScanResult(s[rest[0].id := next + 1], done + Replacement(rest[0], next, rule) + [rest[0]], rest[1..], next + 2, rule, dels + [rest[0].id])
         == ScanResult(s, done, rest, next, rule, dels)
  {
    var x := rest[0];
    var s1, s2 := s[x.id := next + 1] + Sigma(rest[1..], next + 2), s + Sigma(rest, next);
    SigmaStep(s, rest, next);
    var b1 := done + Replacement(x, next, rule) + [x] + ExpandKeep(rest[1..], next + 2, rule);
    var b2 := done + ExpandKeep(rest, next, rule);
    assert ExpandKeep(rest, next, rule) == Replacement(x, next, rule) + [x] + ExpandKeep(rest[1..], next + 2, rule);
    assert b1 == b2;
    assert AddSubIds(rest) == [x.id] + AddSubIds(rest[1..]);
    assert dels + [x.id] + AddSubIds(rest[1..]) == dels + AddSubIds(rest);
    assert AddSubCount(rest) == 1 + AddSubCount(rest[1..]);
    assert SubstBody(s1, b1) == SubstBody(s2, b2);
  }

  lemma ScanAddSubCase(s: map<ValueId, ValueId>, done: seq<Instr>, rest: seq<Instr>, base: ValueId, next: ValueId, rule: FlagRule, dels: seq<ValueId>)
    requires |rest| > 0 && IsAddSub(rest[0]) && Separated(s, rest, base, next)
    requires ScanMatches(s[rest[0].id := next + 1], done + Replacement(rest[0], next, rule) + [rest[0]], rest[1..], next + 2, rule, dels + [rest[0].id])
    ensures ScanMatches(s, done, rest, next, rule, dels)
  {
    ScanUnfoldAddSub(s, done, rest, base, next, rule, dels);
    assert forall i :: 1 <= i < |rest| ==> rest[i].id != rest[0].id;
    ScanResultAddSub(s, done, rest, next, rule, dels);
  }

  /** The walk's first step on any other instruction. */
  lemma ScanUnfoldOther(s: map<ValueId, ValueId>, done: seq<Instr>, rest: seq<Instr>, rule: FlagRule, next: ValueId, dels: seq<ValueId>)
    requires |rest| > 0 && !IsAddSub(rest[0])
    ensures Scan(SubstBody(s, done), SubstBody(s, rest), next, rule, dels)
         == Scan(SubstBody(s, done + [rest[0]]), SubstBody(s, rest[1..]), next, rule, dels)
  {
    SubstInstrShape(s, rest[0]);
    assert SubstBody(s, rest)[0] == SubstInstr(s, rest[0]);
    assert SubstBody(s, done) + [SubstInstr(s, rest[0])] == SubstBody(s, done + [rest[0]]);
    assert SubstBody(s, rest)[1..] == SubstBody(s, rest[1..]);
  }

  lemma ScanResultOther(s: map<ValueId, ValueId>, done: seq<Instr>, rest: seq<Instr>, rule: FlagRule, next: ValueId, dels: seq<ValueId>)
    requires |rest| > 0 && !IsAddSub(rest[0])
    ensures ScanResult(s, done + [rest[0]], rest[1..], next, rule, dels) == ScanResult(s, done, rest, next, rule, dels)
  {
    assert Sigma(rest, next) == Sigma(rest[1..], next);
    assert AddSubIds(rest) == AddSubIds(rest[1..]);
    assert done + [rest[0]] + ExpandKeep(rest[1..], next, rule) == done + ExpandKeep(rest, next, rule);
  }

  lemma ScanOtherCase(s: map<ValueId, ValueId>, done: seq<Instr>, rest: seq<Instr>, rule: FlagRule, next: ValueId, dels: seq<ValueId>)
    requires |rest| > 0 && !IsAddSub(rest[0])
    requires ScanMatches(s, done + [rest[0]], rest[1..], next, rule, dels)
    ensures ScanMatches(s, done, rest, next, rule, dels)
  {
    ScanUnfoldOther(s, done, rest, rule, next, dels);
    ScanResultOther(s, done, rest, rule, next, dels);
  }

  /** The walk from any point computes the reference for what is left. */
  lemma {:induction false} ScanIsReference(s: map<ValueId, ValueId>, done: seq<Instr>, rest: seq<Instr>, base: ValueId, next: ValueId, rule: FlagRule, dels: seq<ValueId>)
    requires Separated(s, rest, base, next)
    ensures ScanMatches(s, done, rest, next, rule, dels)
    decreases |rest|
  {
    if |rest| == 0 {
      assert s + map[] == s;
      assert done + [] == done;
      assert dels + [] == dels;
    } else {
      SeparatedStep(s, rest, base, next);
      if IsAddSub(rest[0]) {
        ScanIsReference(s[rest[0].id := next + 1], done + Replacement(rest[0], next, rule) + [rest[0]], rest[1..], base, next + 2, rule, dels + [rest[0].id]);
        ScanAddSubCase(s, done, rest, base, next, rule, dels);
      } else {
        ScanIsReference(s, done + [rest[0]], rest[1..], base, next, rule, dels);
        ScanOtherCase(s, done, rest, rule, next, dels);
      }
    }
  }

  lemma {:induction false} EraseAppend(a: seq<Instr>, b: seq<Instr>, dels: seq<ValueId>)
    ensures Erase(a + b, dels) == Erase(a, dels) + Erase(b, dels)
    decreases |a|
  {
    if |a| == 0 {
      assert a + b == b;
    } else {
      assert (a + b)[1..] == a[1..] + b;
      EraseAppend(a[1..], b, dels);
    }
  }

  lemma {:induction false} EraseSubst(s: map<ValueId, ValueId>, body: seq<Instr>, dels: seq<ValueId>)
    ensures Erase(SubstBody(s, body), dels) == SubstBody(s, Erase(body, dels))
    decreases |body|
  {
    if |body| > 0 {
      SubstInstrShape(s, body[0]);
      assert SubstBody(s, body)[1..] == SubstBody(s, body[1..]);
      EraseSubst(s, body[1..], dels);
      var head := if body[0].id in dels then [] else [body[0]];
      SubstBodyAppend(s, head, Erase(body[1..], dels));
    }
  }

  lemma EraseReplaced(x: Instr, next: ValueId, rule: FlagRule, dels: seq<ValueId>)
    requires IsAddSub(x) && x.id in dels && next !in dels && next + 1 !in dels
    ensures Erase(Replacement(x, next, rule) + [x], dels) == Replacement(x, next, rule)
  {
    var r := Replacement(x, next, rule);
    EraseAppend(r, [x], dels);
    EraseAppend([r[0]], [r[1]], dels);
    assert [r[0]] + [r[1]] == r;
  }

  /** Erasing the originals from the kept expansion gives the expansion. */
  lemma {:induction false} EraseKept(body: seq<Instr>, next: ValueId, rule: FlagRule, dels: seq<ValueId>)
    requires forall i :: 0 <= i < |body| ==> (body[i].id in dels <==> IsAddSub(body[i]))
    requires forall v :: v in dels ==> v < next
    ensures Erase(ExpandKeep(body, next, rule), dels) == Expand(body, next, rule)
    decreases |body|
  {
    if |body| > 0 {
      var x := body[0];
      var n' := if IsAddSub(x) then next + 2 else next;
      var head := if IsAddSub(x) then Replacement(x, next, rule) + [x] else [x];
      assert ExpandKeep(body, next, rule) == head + ExpandKeep(body[1..], n', rule);
      EraseAppend(head, ExpandKeep(body[1..], n', rule), dels);
      EraseKept(body[1..], n', rule, dels);
      if IsAddSub(x) {
        EraseReplaced(x, next, rule, dels);
      }
    }
  }

  lemma {:induction false} AddSubIdsMembers(body: seq<Instr>)
    requires UniqueIds(body)
    ensures forall i :: 0 <= i < |body| ==> (body[i].id in AddSubIds(body) <==> IsAddSub(body[i]))
    ensures forall v :: v in AddSubIds(body) ==> exists i :: 0 <= i < |body| && body[i].id == v && IsAddSub(body[i])
    decreases |body|
  {
    if |body| > 0 {
      AddSubIdsMembers(body[1..]);
      forall i | 1 <= i < |body| ensures body[i] == body[1..][i - 1] { }
      forall v | v in AddSubIds(body[1..]) ensures exists i :: 0 <= i < |body| && body[i].id == v && IsAddSub(body[i]) {
        var j :| 0 <= j < |body[1..]| && body[1..][j].id == v && IsAddSub(body[1..][j]);
        assert body[j + 1] == body[1..][j];
      }
    }
  }

  /** One iteration as the source performs it equals the reference: every
      add/sub expanded in place, then every use of an original redirected to
      its replacement. The handles used are the next `2 * AddSubCount`. */
  lemma IterationIsReference(body: seq<Instr>, next: ValueId, rule: FlagRule)
    requires FreshAbove(body, next)
    ensures Iteration(body, next, rule)
      == (SubstBody(Sigma(body, next), Expand(body, next, rule)), next + 2 * AddSubCount(body))
  {
    SubstBodyEmpty(body);
    SubstBodyEmpty([]);
    ScanIsReference(map[], [], body, next, next, rule, []);
    var sigma := Sigma(body, next);
    var kept := ExpandKeep(body, next, rule);
    assert map[] + sigma == sigma;
    assert [] + kept == kept;
    assert [] + AddSubIds(body) == AddSubIds(body);
    var sc := Scan([], body, next, rule, []);
    assert sc == (SubstBody(sigma, kept), AddSubIds(body), next + 2 * AddSubCount(body));
    AddSubIdsMembers(body);
    EraseSubst(sigma, kept, AddSubIds(body));
    EraseKept(body, next, rule, AddSubIds(body));
    assert Iteration(body, next, rule) == (Erase(sc.0, sc.1), sc.2);
  }

  // ---------------------------------------------------------------------
  // What one iteration does

  /** The instructions that are not add/sub, in order. */
  function Others(body: seq<Instr>): seq<Instr>
    decreases |body|
  {
    if |body| == 0 then []
    else (if IsAddSub(body[0]) then [] else [body[0]]) + Others(body[1..])
  }

  lemma {:induction false} CountAppend(a: seq<Instr>, b: seq<Instr>)
    ensures AddSubCount(a + b) == AddSubCount(a) + AddSubCount(b)
    ensures Others(a + b) == Others(a) + Others(b)
    decreases |a|
  {
    if |a| == 0 {
      assert a + b == b;
    } else {
      assert (a + b)[1..] == a[1..] + b;
      CountAppend(a[1..], b);
    }
  }

  lemma {:induction false} SubstKeepsKinds(s: map<ValueId, ValueId>, body: seq<Instr>)
    ensures AddSubCount(SubstBody(s, body)) == AddSubCount(body)
    ensures Others(SubstBody(s, body)) == SubstBody(s, Others(body))
    decreases |body|
  {
    if |body| > 0 {
      SubstInstrShape(s, body[0]);
      assert SubstBody(s, body)[1..] == SubstBody(s, body[1..]);
      SubstKeepsKinds(s, body[1..]);
      var head := if IsAddSub(body[0]) then [] else [body[0]];
      SubstBodyAppend(s, head, Others(body[1..]));
    }
  }

  /** The reference doubles the add/subs and keeps everything else. */
  lemma {:induction false} ExpandKinds(body: seq<Instr>, next: ValueId, rule: FlagRule)
    ensures AddSubCount(Expand(body, next, rule)) == 2 * AddSubCount(body)
    ensures Others(Expand(body, next, rule)) == Others(body)
    ensures |Expand(body, next, rule)| == |body| + AddSubCount(body)
    decreases |body|
  {
    if |body| > 0 {
      var x := body[0];
      var n' := if IsAddSub(x) then next + 2 else next;
      var head := if IsAddSub(x) then Replacement(x, next, rule) else [x];
      assert Expand(body, next, rule) == head + Expand(body[1..], n', rule);
      CountAppend(head, Expand(body[1..], n', rule));
      ExpandKinds(body[1..], n', rule);
      if IsAddSub(x) {
        var r := Replacement(x, next, rule);
        assert r == [r[0]] + [r[1]];
        CountAppend([r[0]], [r[1]]);
      }
    }
  }

  /** One iteration doubles the number of add/sub instructions (the
      negation is itself a `sub`), grows the body by one instruction per
      add/sub, and leaves every other instruction in place and in order,
      its operands redirected to the replacements. */
  lemma IterationKinds(body: seq<Instr>, next: ValueId, rule: FlagRule)
    requires FreshAbove(body, next)
    ensures var (out, n) := Iteration(body, next, rule);
      && AddSubCount(out) == 2 * AddSubCount(body)
      && |out| == |body| + AddSubCount(body)
      && Others(out) == SubstBody(Sigma(body, next), Others(body))
      && n == next + 2 * AddSubCount(body)
  {
    IterationIsReference(body, next, rule);
    ExpandKinds(body, next, rule);
    SubstKeepsKinds(Sigma(body, next), Expand(body, next, rule));
  }

  /** `y` is either new, with a handle in `[lo, hi)`, or an untouched
      instruction of `body`. */
  ghost predicate Origin(y: Instr, body: seq<Instr>, lo: ValueId, hi: ValueId) {
    (lo <= y.id < hi) || (exists i :: 0 <= i < |body| && y == body[i] && !IsAddSub(body[i]))
  }

  lemma {:induction false} ExpandOrigin(body: seq<Instr>, next: ValueId, rule: FlagRule)
    ensures forall k :: 0 <= k < |Expand(body, next, rule)| ==>
      Origin(Expand(body, next, rule)[k], body, next, next + 2 * AddSubCount(body))
    decreases |body|
  {
    if |body| > 0 {
      var x := body[0];
      var n' := if IsAddSub(x) then next + 2 else next;
      var head := if IsAddSub(x) then Replacement(x, next, rule) else [x];
      var tail := Expand(body[1..], n', rule);
      var e := Expand(body, next, rule);
      assert e == head + tail;
      ExpandOrigin(body[1..], n', rule);
      forall k | 0 <= k < |e| ensures Origin(e[k], body, next, next + 2 * AddSubCount(body)) {
        if k >= |head| {
          var k' := k - |head|;
          assert 0 <= k' < |tail|;
          assert Origin(tail[k'], body[1..], n', n' + 2 * AddSubCount(body[1..]));
          var y := tail[k'];
          assert e[k] == y;
          if !(n' <= y.id < n' + 2 * AddSubCount(body[1..])) {
            var i :| 0 <= i < |body[1..]| && y == body[1..][i] && !IsAddSub(body[1..][i]);
            assert body[1..][i] == body[i + 1];
          }
        }
      }
    }
  }

  /** The reference's handles: the untouched instructions keep theirs, the
      new ones take fresh handles from `next` on; no two coincide. */
  lemma {:induction false} ExpandIds(body: seq<Instr>, next: ValueId, rule: FlagRule)
    requires FreshAbove(body, next)
    ensures var e := Expand(body, next, rule);
      && (forall k :: 0 <= k < |e| ==> Origin(e[k], body, next, next + 2 * AddSubCount(body)))
      && UniqueIds(e)
    decreases |body|
  {
    ExpandOrigin(body, next, rule);
    if |body| > 0 {
      var x := body[0];
      var n' := if IsAddSub(x) then next + 2 else next;
      var head := if IsAddSub(x) then Replacement(x, next, rule) else [x];
      var tail := Expand(body[1..], n', rule);
      ExpandCons(body, next, rule);
      assert FreshAbove(body[1..], n');
      ExpandIds(body[1..], n', rule);
      ExpandOldIds(body[1..], n', rule);
      forall k, l | 0 <= k < |head| && 0 <= l < |tail| ensures head[k].id != tail[l].id {
        if tail[l].id < n' {
          var i :| 0 <= i < |body[1..]| && tail[l] == body[1..][i];
          assert body[1..][i] == body[i + 1];
        }
      }
      UniqueConcat(head, tail);
    }
  }

  /** The reference keeps an old handle only on an untouched instruction. */
  lemma ExpandOldIds(body: seq<Instr>, next: ValueId, rule: FlagRule)
    ensures var e := Expand(body, next, rule);
      forall l :: 0 <= l < |e| && e[l].id < next ==> exists i :: 0 <= i < |body| && e[l] == body[i]
  {
    ExpandOrigin(body, next, rule);
  }

  lemma UniqueConcat(a: seq<Instr>, b: seq<Instr>)
    requires UniqueIds(a) && UniqueIds(b)
    requires forall k, l :: 0 <= k < |a| && 0 <= l < |b| ==> a[k].id != b[l].id
    ensures UniqueIds(a + b)
  {
    forall k, l | 0 <= k < l < |a + b| ensures (a + b)[k].id != (a + b)[l].id {
      if l >= |a| {
        assert (a + b)[l] == b[l - |a|];
        if k >= |a| {
          assert (a + b)[k] == b[k - |a|];
        }
      }
    }
  }

  /** After an iteration the handles are again unique and below the next
      free one, and none of the erased originals' handles is left. */
  lemma IterationFresh(body: seq<Instr>, next: ValueId, rule: FlagRule)
    requires FreshAbove(body, next)
    ensures var (out, n) := Iteration(body, next, rule);
      && FreshAbove(out, n)
      && forall k :: 0 <= k < |out| ==> out[k].id !in AddSubIds(body)
  {
    IterationIsReference(body, next, rule);
    var sigma := Sigma(body, next);
    var e := Expand(body, next, rule);
    ExpandIds(body, next, rule);
    AddSubIdsMembers(body);
    var out := SubstBody(sigma, e);
    forall k | 0 <= k < |out| ensures out[k].id == e[k].id {
      SubstInstrShape(sigma, e[k]);
    }
  }

  lemma SubstOperandsOf(s: map<ValueId, ValueId>, x: Instr)
    ensures Operands(SubstInstr(s, x)) == SubstOperands(s, Operands(x))
  {
    match x
    case BinOp(_, _, lhs, rhs, _, _) =>
      assert SubstOperands(s, [lhs, rhs]) == [SubstOperand(s, lhs), SubstOperand(s, rhs)];
    case Call(_, callee, args) =>
      assert SubstOperands(s, [callee] + args) == [SubstOperand(s, callee)] + SubstOperands(s, args);
    case Alloca(_, _) =>
    case Gep(_, _, base, indices) =>
      assert SubstOperands(s, [base] + indices) == [SubstOperand(s, base)] + SubstOperands(s, indices);
    case Load(_, addr) =>
      assert SubstOperands(s, [addr]) == [SubstOperand(s, addr)];
    case Store(_, value, addr) =>
      assert SubstOperands(s, [value, addr]) == [SubstOperand(s, value), SubstOperand(s, addr)];
    case Other(_, _, operands) =>
  }

  lemma {:induction false} SigmaCovers(body: seq<Instr>, next: ValueId)
    ensures forall i :: 0 <= i < |body| && IsAddSub(body[i]) ==> body[i].id in Sigma(body, next)
    decreases |body|
  {
    if |body| > 0 {
      var n' := if IsAddSub(body[0]) then next + 2 else next;
      SigmaCovers(body[1..], n');
      forall i | 1 <= i < |body| && IsAddSub(body[i]) ensures body[i].id in Sigma(body, next) {
        assert body[i] == body[1..][i - 1];
      }
    }
  }

  /** No instruction left after an iteration reads an erased original:
      every use was redirected before the erasure. */
  lemma IterationNoDanglingUses(body: seq<Instr>, next: ValueId, rule: FlagRule)
    requires FreshAbove(body, next)
    ensures var out := Iteration(body, next, rule).0;
      forall k, j, a :: 0 <= k < |out| && 0 <= j < |Operands(out[k])| && a in AddSubIds(body) ==>
        !UsesValue(Operands(out[k])[j], a)
  {
    IterationIsReference(body, next, rule);
    var sigma := Sigma(body, next);
    AddSubIdsMembers(body);
    SigmaCovers(body, next);
    SigmaRange(body, next);
    forall a | a in AddSubIds(body) ensures a in sigma && a < next {
      var i :| 0 <= i < |body| && body[i].id == a && IsAddSub(body[i]);
    }
    NoRedirectedUses(sigma, Expand(body, next, rule), next, AddSubIds(body));
  }

  /** After a redirection into handles from `next` on, nothing reads a
      redirected handle below `next`. */
  lemma NoRedirectedUses(sigma: map<ValueId, ValueId>, e: seq<Instr>, next: ValueId, ids: seq<ValueId>)
    requires forall a :: a in ids ==> a in sigma && a < next
    requires forall k :: k in sigma ==> next <= sigma[k]
    ensures var out := SubstBody(sigma, e);
      forall k, j, a :: 0 <= k < |out| && 0 <= j < |Operands(out[k])| && a in ids ==>
        !UsesValue(Operands(out[k])[j], a)
  {
    var out := SubstBody(sigma, e);
    forall k, j, a | 0 <= k < |out| && 0 <= j < |Operands(out[k])| && a in ids
      ensures !UsesValue(Operands(out[k])[j], a)
    {
      SubstOperandsOf(sigma, e[k]);
    }
  }

  /** The pair for `x` with handles `n`, `n + 1` sits at position `p`. */
  ghost predicate PairAt(out: seq<Instr>, p: int, x: Instr, n: ValueId, rule: FlagRule)
    requires IsAddSub(x)
  {
    0 <= p && p + 2 <= |out| && out[p..p + 2] == Replacement(x, n, rule)
  }

  lemma PairShift(head: seq<Instr>, tail: seq<Instr>, p: int, x: Instr, n: ValueId, rule: FlagRule)
    requires IsAddSub(x) && PairAt(tail, p, x, n, rule)
    ensures PairAt(head + tail, p + |head|, x, n, rule)
  {
    assert (head + tail)[p + |head|..p + |head| + 2] == tail[p..p + 2];
  }

  lemma PairFront(x: Instr, n: ValueId, rule: FlagRule, tail: seq<Instr>)
    requires IsAddSub(x)
    ensures PairAt(Replacement(x, n, rule) + tail, 0, x, n, rule)
  {
    assert (Replacement(x, n, rule) + tail)[0..2] == Replacement(x, n, rule);
  }

  lemma ExpandCons(body: seq<Instr>, next: ValueId, rule: FlagRule)
    requires |body| > 0
    ensures IsAddSub(body[0]) ==> Expand(body, next, rule) == Replacement(body[0], next, rule) + Expand(body[1..], next + 2, rule)
    ensures !IsAddSub(body[0]) ==> Expand(body, next, rule) == [body[0]] + Expand(body[1..], next, rule)
  {
  }

  lemma {:induction false} ExpandPair(body: seq<Instr>, next: ValueId, rule: FlagRule, i: nat)
    requires UniqueIds(body) && i < |body| && IsAddSub(body[i])
    ensures body[i].id in Sigma(body, next)
    ensures exists p, n: ValueId ::
      (next <= n && Sigma(body, next)[body[i].id] == n + 1 && PairAt(Expand(body, next, rule), p, body[i], n, rule))
    decreases |body|
  {
    var x := body[0];
    var n' := if IsAddSub(x) then next + 2 else next;
    ExpandCons(body, next, rule);
    if i == 0 {
      PairFront(x, next, rule, Expand(body[1..], n', rule));
    } else {
      assert body[1..][i - 1] == body[i];
      ExpandPair(body[1..], n', rule, i - 1);
      var p, n: ValueId :| next <= n' <= n && Sigma(body[1..], n')[body[i].id] == n + 1 && PairAt(Expand(body[1..], n', rule), p, body[i], n, rule);
      assert body[i].id != x.id;
      if IsAddSub(x) {
        PairShift(Replacement(x, next, rule), Expand(body[1..], n', rule), p, body[i], n, rule);
      } else {
        PairShift([x], Expand(body[1..], n', rule), p, body[i], n, rule);
      }
    }
  }

  /** Each add/sub of the input leaves, in the output, its pair: the
      negation of its (redirected) second operand, then the flipped
      operation on its (redirected) first operand, whose handle is where the
      original's uses now point. */
  lemma IterationPair(body: seq<Instr>, next: ValueId, rule: FlagRule, i: nat)
    requires FreshAbove(body, next) && i < |body| && IsAddSub(body[i])
    ensures var sigma := Sigma(body, next);
      && body[i].id in sigma
      && exists p, n: ValueId :: sigma[body[i].id] == n + 1
           && PairAt(Iteration(body, next, rule).0, p, SubstInstr(sigma, body[i]), n, rule)
  {
    IterationIsReference(body, next, rule);
    var sigma := Sigma(body, next);
    var e := Expand(body, next, rule);
    ExpandPair(body, next, rule, i);
    var p, n: ValueId :| next <= n && sigma[body[i].id] == n + 1 && PairAt(e, p, body[i], n, rule);
    SigmaRange(body, next);
    assert n !in sigma;
    PairSubst(sigma, e, p, body[i], n, rule);
  }

  /** A pair survives the redirection of uses, when its own handle is not
      redirected. */
  lemma PairSubst(sigma: map<ValueId, ValueId>, e: seq<Instr>, p: int, x: Instr, n: ValueId, rule: FlagRule)
    requires IsAddSub(x) && n !in sigma && PairAt(e, p, x, n, rule)
    ensures IsAddSub(SubstInstr(sigma, x)) && PairAt(SubstBody(sigma, e), p, SubstInstr(sigma, x), n, rule)
  {
    SubstInstrShape(sigma, x);
    ReplacementSubst(sigma, x, n, rule);
    assert SubstBody(sigma, e)[p..p + 2] == SubstBody(sigma, e[p..p + 2]);
  }

  /** The flags of the replacing operation: copied exactly as written, for
      all four combinations, and clear in the corrected rule. */
  lemma ReplacementFlags(x: Instr, next: ValueId)
    requires IsAddSub(x)
    ensures var r := Replacement(x, next, CopyFlags)[1];
      r.nsw == x.nsw && r.nuw == x.nuw && r.op == Flip(x.op)
    ensures var r := Replacement(x, next, DropFlags)[1];
      !r.nsw && !r.nuw && r.op == Flip(x.op)
    ensures var t := Replacement(x, next, CopyFlags)[0];
      t == Replacement(x, next, DropFlags)[0] && t.op == Sub && !t.nsw && !t.nuw
  {
  }

  /** The operation that now produces an add/sub's value has the other
      opcode, carries the flags the rule gives it, and reads the negation. */
  lemma ProducerFlips(body: seq<Instr>, next: ValueId, rule: FlagRule, i: nat)
    requires FreshAbove(body, next) && i < |body| && IsAddSub(body[i])
    ensures var out := Iteration(body, next, rule).0;
      var sigma := Sigma(body, next);
      && body[i].id in sigma
      && exists p :: 0 <= p < |out| && out[p].id == sigma[body[i].id] && IsAddSub(out[p])
           && out[p].op == Flip(body[i].op)
           && out[p].nsw == (rule == CopyFlags && body[i].nsw)
           && out[p].nuw == (rule == CopyFlags && body[i].nuw)
           && out[p].rhs.Val? && out[p].rhs.v + 1 == sigma[body[i].id]
  {
    IterationPair(body, next, rule, i);
    var sigma := Sigma(body, next);
    var out := Iteration(body, next, rule).0;
    var p, n: ValueId :| sigma[body[i].id] == n + 1 && PairAt(out, p, SubstInstr(sigma, body[i]), n, rule);
    SubstInstrShape(sigma, body[i]);
    PairSecond(out, p, SubstInstr(sigma, body[i]), n, rule);
  }

  /** The second instruction of a pair is the flipped operation, reading
      the negation. */
  lemma PairSecond(out: seq<Instr>, p: int, x: Instr, n: ValueId, rule: FlagRule)
    requires IsAddSub(x) && PairAt(out, p, x, n, rule)
    ensures 0 <= p + 1 < |out| && out[p + 1].id == n + 1 && IsAddSub(out[p + 1])
    ensures out[p + 1].op == Flip(x.op) && out[p + 1].rhs == Val(n)
    ensures out[p + 1].nsw == (rule == CopyFlags && x.nsw) && out[p + 1].nuw == (rule == CopyFlags && x.nuw)
  {
    assert out[p + 1] == out[p..p + 2][1];
  }

  // ---------------------------------------------------------------------
  // The pass

  /** The option's default (`cl::init(1)`). */
  const DefaultTimes: int := 1

  /** The do-while of `runOnFunction`: the body runs, then `--times > 0`
      decides whether it runs again. */
  function Loop(body: seq<Instr>, next: ValueId, times: int, rule: FlagRule): (seq<Instr>, ValueId)
    decreases if times > 0 then times else 0
  {
    var (b, n) := Iteration(body, next, rule);
    if times - 1 > 0 then Loop(b, n, times - 1, rule) else (b, n)
  }

  /** `k` iterations in a row. */
  function Repeat(body: seq<Instr>, next: ValueId, k: nat, rule: FlagRule): (seq<Instr>, ValueId)
    decreases k
  {
    if k == 0 then (body, next)
    else
      var it := Iteration(body, next, rule);
      Repeat(it.0, it.1, k - 1, rule)
  }

  /** `runOnFunction`: new handles start above the function's; the pass
      reports that it changed nothing. */
  function RunOnFunction(f: Function, times: int, rule: FlagRule): (r: (Function, bool))
    ensures r.0.name == f.name
  {
    var (b, _) := Loop(f.body, FirstFreeIdOf(f.body), times, rule);
    (Function(f.name, b), false)
  }

  /** The loop body runs `max(1, times)` times: once when the option is
      zero or negative. */
  lemma {:induction false} LoopIterations(body: seq<Instr>, next: ValueId, times: int, rule: FlagRule)
    ensures times <= 1 ==> Loop(body, next, times, rule) == Repeat(body, next, 1, rule)
    ensures 1 <= times ==> Loop(body, next, times, rule) == Repeat(body, next, times, rule)
    decreases if times > 0 then times else 0
  {
    var (b, n) := Iteration(body, next, rule);
    assert Repeat(b, n, 0, rule) == (b, n);
    if times - 1 > 0 {
      LoopIterations(b, n, times - 1, rule);
    }
  }

  /** After `k` iterations the add/sub count is multiplied by `2^k`, each
      iteration adding one instruction per add/sub, and the handles stay
      unique and below the next free one. */
  lemma RepeatCons(body: seq<Instr>, next: ValueId, k: nat, rule: FlagRule)
    requires k > 0
    ensures var it := Iteration(body, next, rule);
      Repeat(body, next, k, rule) == Repeat(it.0, it.1, k - 1, rule)
  {
  }

  lemma IterationCounts(body: seq<Instr>, next: ValueId, rule: FlagRule)
    requires FreshAbove(body, next)
    ensures var it := Iteration(body, next, rule);
      && AddSubCount(it.0) == 2 * AddSubCount(body)
      && |it.0| == |body| + AddSubCount(body)
      && FreshAbove(it.0, it.1)
  {
    IterationKinds(body, next, rule);
    IterationFresh(body, next, rule);
  }

  lemma DoublingArith(c: nat, q: nat)
    ensures (2 * c) * q == c * (2 * q)
    ensures c * (q - 1) == c * q - c
  {
  }

  lemma {:induction false} RepeatFresh(body: seq<Instr>, next: ValueId, k: nat, rule: FlagRule)
    requires FreshAbove(body, next)
    ensures FreshAbove(Repeat(body, next, k, rule).0, Repeat(body, next, k, rule).1)
    decreases k
  {
    if k > 0 {
      var it := Iteration(body, next, rule);
      RepeatCons(body, next, k, rule);
      IterationCounts(body, next, rule);
      RepeatFresh(it.0, it.1, k - 1, rule);
    }
  }

  lemma {:induction false} RepeatCount(body: seq<Instr>, next: ValueId, k: nat, rule: FlagRule)
    requires FreshAbove(body, next)
    ensures AddSubCount(Repeat(body, next, k, rule).0) == AddSubCount(body) * WordArith.Pow2(k)
    decreases k
  {
    if k > 0 {
      var it := Iteration(body, next, rule);
      RepeatCons(body, next, k, rule);
      IterationCounts(body, next, rule);
      RepeatCount(it.0, it.1, k - 1, rule);
      DoublingArith(AddSubCount(body), WordArith.Pow2(k - 1));
    }
  }

  lemma {:induction false} RepeatLength(body: seq<Instr>, next: ValueId, k: nat, rule: FlagRule)
    requires FreshAbove(body, next)
    ensures |Repeat(body, next, k, rule).0| + AddSubCount(body) == |body| + AddSubCount(body) * WordArith.Pow2(k)
    decreases k
  {
    if k > 0 {
      var it := Iteration(body, next, rule);
      RepeatCons(body, next, k, rule);
      IterationCounts(body, next, rule);
      RepeatLength(it.0, it.1, k - 1, rule);
      DoublingArith(AddSubCount(body), WordArith.Pow2(k - 1));
    }
  }

  /** After `k` iterations the add/sub count is multiplied by `2^k`, the
      body grows by one instruction per add/sub created, and the handles
      stay unique and below the next free one. */
  lemma RepeatKinds(body: seq<Instr>, next: ValueId, k: nat, rule: FlagRule)
    requires FreshAbove(body, next)
    ensures AddSubCount(Repeat(body, next, k, rule).0) == AddSubCount(body) * WordArith.Pow2(k)
    ensures |Repeat(body, next, k, rule).0| == |body| + AddSubCount(body) * (WordArith.Pow2(k) - 1)
    ensures FreshAbove(Repeat(body, next, k, rule).0, Repeat(body, next, k, rule).1)
  {
    RepeatCount(body, next, k, rule);
    RepeatLength(body, next, k, rule);
    RepeatFresh(body, next, k, rule);
    DoublingArith(AddSubCount(body), WordArith.Pow2(k));
  }

  /** Where the value of original handle `a` is produced after `k`
      iterations: each iteration moves it to the replacement's handle. */
  ghost function Track(body: seq<Instr>, next: ValueId, k: nat, rule: FlagRule, a: ValueId): ValueId
    decreases k
  {
    if k == 0 then a
    else
      var sigma := Sigma(body, next);
      var it := Iteration(body, next, rule);
      Track(it.0, it.1, k - 1, rule, if a in sigma then sigma[a] else a)
  }

  /** Some add/sub of `out` with handle `a` has opcode `op`. */
  ghost predicate ProducedBy(out: seq<Instr>, a: ValueId, op: BinOpcode) {
    exists p :: 0 <= p < |out| && out[p].id == a && IsAddSub(out[p]) && out[p].op == op
  }

  /** The opcode after `k` flips. */
  function FlippedTimes(op: BinOpcode, k: nat): BinOpcode
    requires op == Add || op == Sub
  {
    if k % 2 == 0 then op else Flip(op)
  }

  lemma ParityStep(body: seq<Instr>, next: ValueId, k: nat, rule: FlagRule, i: nat, p: nat)
    requires 0 < k && i < |body| && IsAddSub(body[i]) && body[i].id in Sigma(body, next)
    requires var b := Iteration(body, next, rule).0;
      p < |b| && b[p].id == Sigma(body, next)[body[i].id] && IsAddSub(b[p]) && b[p].op == Flip(body[i].op)
    requires var it := Iteration(body, next, rule);
      ProducedBy(Repeat(it.0, it.1, k - 1, rule).0, Track(it.0, it.1, k - 1, rule, it.0[p].id), FlippedTimes(it.0[p].op, k - 1))
    ensures ProducedBy(Repeat(body, next, k, rule).0, Track(body, next, k, rule, body[i].id), FlippedTimes(body[i].op, k))
  {
  }

  lemma ParityBase(body: seq<Instr>, next: ValueId, rule: FlagRule, i: nat)
    requires i < |body| && IsAddSub(body[i])
    ensures ProducedBy(Repeat(body, next, 0, rule).0, Track(body, next, 0, rule, body[i].id), FlippedTimes(body[i].op, 0))
  {
    assert Repeat(body, next, 0, rule).0[i] == body[i];
  }

  /** The position of the operation that produces an add/sub's value after
      one iteration. */
  lemma ProducerAt(body: seq<Instr>, next: ValueId, rule: FlagRule, i: nat) returns (p: nat)
    requires FreshAbove(body, next) && i < |body| && IsAddSub(body[i])
    ensures var b := Iteration(body, next, rule).0;
      && body[i].id in Sigma(body, next)
      && p < |b| && b[p].id == Sigma(body, next)[body[i].id] && IsAddSub(b[p]) && b[p].op == Flip(body[i].op)
  {
    ProducerFlips(body, next, rule, i);
    var b := Iteration(body, next, rule).0;
    p :| 0 <= p < |b| && b[p].id == Sigma(body, next)[body[i].id] && IsAddSub(b[p]) && b[p].op == Flip(body[i].op);
  }

  /** The instruction producing an add/sub's value alternates between `add`
      and `sub`, flipping once per iteration. */
  lemma {:induction false} ProducerParity(body: seq<Instr>, next: ValueId, k: nat, rule: FlagRule, i: nat)
    requires FreshAbove(body, next) && i < |body| && IsAddSub(body[i])
    ensures ProducedBy(Repeat(body, next, k, rule).0, Track(body, next, k, rule, body[i].id), FlippedTimes(body[i].op, k))
    decreases k
  {
    if k == 0 {
      ParityBase(body, next, rule, i);
    } else {
      var it := Iteration(body, next, rule);
      var p := ProducerAt(body, next, rule, i);
      IterationFresh(body, next, rule);
      ProducerParity(it.0, it.1, k - 1, rule, p);
      ParityStep(body, next, k, rule, i, p);
    }
  }

  /** The whole pass on one function: `max(1, times)` iterations, the
      add/sub count multiplied by two per iteration, unique handles, and
      `false` returned whatever changed. */
  lemma RunOnFunctionEffect(f: Function, times: int, rule: FlagRule)
    requires UniqueIds(f.body)
    ensures var k := if times <= 1 then 1 else times;
      var (g, changed) := RunOnFunction(f, times, rule);
      && !changed
      && g.body == Repeat(f.body, FirstFreeIdOf(f.body), k, rule).0
      && AddSubCount(g.body) == AddSubCount(f.body) * WordArith.Pow2(k)
      && UniqueIds(g.body)
  {
    var next := FirstFreeIdOf(f.body);
    var k := if times <= 1 then 1 else times;
    LoopIterations(f.body, next, times, rule);
    RepeatKinds(f.body, next, k, rule);
  }

  /** With the default option the walk runs exactly once. */
  lemma DefaultRunsOnce(f: Function, rule: FlagRule)
    ensures RunOnFunction(f, DefaultTimes, rule).0.body == Iteration(f.body, FirstFreeIdOf(f.body), rule).0
  {
    LoopIterations(f.body, FirstFreeIdOf(f.body), DefaultTimes, rule);
  }

  // ---------------------------------------------------------------------
  // Meaning: straight-line add/sub code over `iW`

  /** An operand's value in environment `env`: a w-bit pattern, or poison
      (`Some(None)`); `None` when the operand has no value here. */
  function EvalOperand(w: WordArith.Width, args: seq<int>, env: map<ValueId, Option<int>>, o: Operand): (r: Option<Option<int>>)
    ensures r.Some? && r.value.Some? ==> WordArith.IsWord(w, r.value.value)
  {
    match o
    case OConst(CInt(v)) => Some(Some(WordArith.Wrap(w, v)))
    case Arg(i) => if i < |args| then Some(Some(WordArith.Wrap(w, args[i]))) else None
    case Val(v) =>
      if v !in env then None
      else if env[v].None? then Some(None)
      else Some(Some(WordArith.Wrap(w, env[v].value)))
    case _ => None
  }

  /** `add`/`sub` with flags; poison in, poison out. */
  function Combine(w: WordArith.Width, op: BinOpcode, a: Option<int>, b: Option<int>, nsw: bool, nuw: bool): Option<int>
    requires op == Add || op == Sub
    requires a.Some? ==> WordArith.IsWord(w, a.value)
    requires b.Some? ==> WordArith.IsWord(w, b.value)
  {
    if a.None? || b.None? then None
    else if op == Add then WordArith.EvalAdd(w, a.value, b.value, nsw, nuw)
    else WordArith.EvalSub(w, a.value, b.value, nsw, nuw)
  }

  /** Runs a body for the values of its `add`/`sub` instructions. Any other
      instruction (a `ret`, a call, a store) is stepped over without binding
      its handle, so an `add`/`sub` operand that reads it, like any operand
      without a value, makes the run undefined (`None`). */
  function Exec(w: WordArith.Width, args: seq<int>, env: map<ValueId, Option<int>>, body: seq<Instr>)
    : Option<map<ValueId, Option<int>>>
    decreases |body|
  {
    if |body| == 0 then Some(env)
    else
      var x := body[0];
      if !IsAddSub(x) then Exec(w, args, env, body[1..])
      else
        match (EvalOperand(w, args, env, x.lhs), EvalOperand(w, args, env, x.rhs))
        case (Some(a), Some(b)) => Exec(w, args, env[x.id := Combine(w, x.op, a, b, x.nsw, x.nuw)], body[1..])
        case _ => None
  }

  lemma {:induction false} ExecAppend(w: WordArith.Width, args: seq<int>, env: map<ValueId, Option<int>>, a: seq<Instr>, b: seq<Instr>)
    ensures Exec(w, args, env, a + b) == (match Exec(w, args, env, a) case None => None case Some(e) => Exec(w, args, e, b))
    decreases |a|
  {
    if |a| > 0 {
      assert (a + b)[0] == a[0];
      assert (a + b)[1..] == a[1..] + b;
      var x := a[0];
      if IsAddSub(x) {
        match (EvalOperand(w, args, env, x.lhs), EvalOperand(w, args, env, x.rhs))
        case (Some(u), Some(v)) => ExecAppend(w, args, env[x.id := Combine(w, x.op, u, v, x.nsw, x.nuw)], a[1..], b);
        case _ =>
      } else {
        ExecAppend(w, args, env, a[1..], b);
      }
    } else {
      assert a + b == b;
    }
  }

  /** A defined value stays the same; poison may become anything. */
  predicate Refines(x: Option<int>, y: Option<int>) {
    x.Some? ==> y == x
  }

  /** Every value of the original run is refined by the value at its
      redirected handle in the rewritten run. */
  ghost predicate Related(env: map<ValueId, Option<int>>, env': map<ValueId, Option<int>>, sigma: map<ValueId, ValueId>) {
    forall a :: a in env ==> a in sigma && sigma[a] in env' && Refines(env[a], env'[sigma[a]])
  }

  lemma OperandRelated(w: WordArith.Width, args: seq<int>, env: map<ValueId, Option<int>>, env': map<ValueId, Option<int>>, sigma: map<ValueId, ValueId>, o: Operand)
    requires Related(env, env', sigma)
    requires EvalOperand(w, args, env, o).Some?
    ensures EvalOperand(w, args, env', SubstOperand(sigma, o)).Some?
    ensures Refines(EvalOperand(w, args, env, o).value, EvalOperand(w, args, env', SubstOperand(sigma, o)).value)
  {
  }

  /** The pair replacing one `add`/`sub`, without flags, computes a
      refinement of the original's value. */
  lemma PairRefines(w: WordArith.Width, op: BinOpcode, a: Option<int>, a': Option<int>, b: Option<int>, b': Option<int>, nsw: bool, nuw: bool)
    requires op == Add || op == Sub
    requires a.Some? ==> WordArith.IsWord(w, a.value)
    requires b.Some? ==> WordArith.IsWord(w, b.value)
    requires a'.Some? ==> WordArith.IsWord(w, a'.value)
    requires b'.Some? ==> WordArith.IsWord(w, b'.value)
    requires Refines(a, a') && Refines(b, b')
    ensures var t := Combine(w, Sub, Some(0), b', false, false);
      && (t.Some? ==> WordArith.IsWord(w, t.value))
      && Refines(Combine(w, op, a, b, nsw, nuw), Combine(w, Flip(op), a', t, false, false))
  {
    if a.Some? && b.Some? {
      var t := Combine(w, Sub, Some(0), b', false, false);
      assert t == Some(WordArith.Neg(w, b.value));
      if op == Add {
        WordArith.AddRewriteRefines(w, a.value, b.value, nsw, nuw);
      } else {
        WordArith.SubRewriteRefines(w, a.value, b.value, nsw, nuw);
      }
    }
  }

  /** The value the original add/sub `x` computes in `env`. */
  function Computed(w: WordArith.Width, args: seq<int>, env: map<ValueId, Option<int>>, x: Instr): Option<int>
    requires IsAddSub(x)
    requires EvalOperand(w, args, env, x.lhs).Some? && EvalOperand(w, args, env, x.rhs).Some?
  {
    Combine(w, x.op, EvalOperand(w, args, env, x.lhs).value, EvalOperand(w, args, env, x.rhs).value, x.nsw, x.nuw)
  }

  lemma ExecHead(w: WordArith.Width, args: seq<int>, env: map<ValueId, Option<int>>, body: seq<Instr>)
    requires |body| > 0 && IsAddSub(body[0]) && Exec(w, args, env, body).Some?
    ensures EvalOperand(w, args, env, body[0].lhs).Some? && EvalOperand(w, args, env, body[0].rhs).Some?
    ensures Exec(w, args, env, body) == Exec(w, args, env[body[0].id := Computed(w, args, env, body[0])], body[1..])
  {
  }

  /** Running a flag-free pair: the negation lands at `n`, the flipped
      operation at `n + 1`. */
  lemma ExecPairOf(w: WordArith.Width, args: seq<int>, env: map<ValueId, Option<int>>, n: ValueId, op: BinOpcode, l: Operand, r: Operand)
    requires op == Add || op == Sub
    requires EvalOperand(w, args, env, l).Some? && EvalOperand(w, args, env, r).Some? && l != Val(n)
    ensures var t := Combine(w, Sub, Some(0), EvalOperand(w, args, env, r).value, false, false);
      && (t.Some? ==> WordArith.IsWord(w, t.value))
      && Exec(w, args, env, [BinOp(n, Sub, OConst(CInt(0)), r, false, false), BinOp(n + 1, op, l, Val(n), false, false)])
         == Some(env[n := t][n + 1 := Combine(w, op, EvalOperand(w, args, env, l).value, t, false, false)])
  {
    var pair := [BinOp(n, Sub, OConst(CInt(0)), r, false, false), BinOp(n + 1, op, l, Val(n), false, false)];
    var t := Combine(w, Sub, Some(0), EvalOperand(w, args, env, r).value, false, false);
    assert EvalOperand(w, args, env, OConst(CInt(0))) == Some(Some(0));
    var env1 := env[n := t];
    assert EvalOperand(w, args, env1, l) == EvalOperand(w, args, env, l);
    assert EvalOperand(w, args, env1, Val(n)) == Some(t);
    assert Exec(w, args, env, pair) == Exec(w, args, env1, pair[1..]);
    var env2 := env1[n + 1 := Combine(w, op, EvalOperand(w, args, env, l).value, t, false, false)];
    assert pair[1..][0] == BinOp(n + 1, op, l, Val(n), false, false);
    assert Exec(w, args, env1, pair[1..]) == Exec(w, args, env2, pair[1..][1..]);
    assert pair[1..][1..] == [];
  }

  /** Writing the pair's two results keeps the relation, with `x`'s value
      now at `n + 1`. */
  lemma RelatedExtend(env: map<ValueId, Option<int>>, env': map<ValueId, Option<int>>, sigma: map<ValueId, ValueId>,
                      id: ValueId, c: Option<int>, n: ValueId, t: Option<int>, c': Option<int>)
    requires Related(env, env', sigma)
    requires forall a :: a in env ==> sigma[a] < n
    requires id in sigma && sigma[id] == n + 1 && Refines(c, c')
    ensures Related(env[id := c], env'[n := t][n + 1 := c'], sigma)
    ensures forall a :: a in env[id := c] ==> sigma[a] < n + 2
  {
  }

  /** The flag-free pair for `x`, run on a related environment, keeps the
      relation with `x`'s value now at handle `n + 1`. */
  lemma PairStep(w: WordArith.Width, args: seq<int>, env: map<ValueId, Option<int>>, env': map<ValueId, Option<int>>,
                 sigma: map<ValueId, ValueId>, x: Instr, n: ValueId)
    requires Related(env, env', sigma)
    requires forall a :: a in env ==> sigma[a] < n
    requires forall k :: k in sigma ==> k < n
    requires IsAddSub(x) && x.id in sigma && sigma[x.id] == n + 1
    requires EvalOperand(w, args, env, x.lhs).Some? && EvalOperand(w, args, env, x.rhs).Some?
    ensures var out := Exec(w, args, env', SubstBody(sigma, Replacement(x, n, DropFlags)));
      && out.Some?
      && Related(env[x.id := Computed(w, args, env, x)], out.value, sigma)
      && (forall a :: a in env[x.id := Computed(w, args, env, x)] ==> sigma[a] < n + 2)
  {
    var l', r' := SubstOperand(sigma, x.lhs), SubstOperand(sigma, x.rhs);
    assert SubstBody(sigma, Replacement(x, n, DropFlags))
      == [BinOp(n, Sub, OConst(CInt(0)), r', false, false), BinOp(n + 1, Flip(x.op), l', Val(n), false, false)];
    OperandRelated(w, args, env, env', sigma, x.lhs);
    OperandRelated(w, args, env, env', sigma, x.rhs);
    assert l' != Val(n);
    ExecPairOf(w, args, env', n, Flip(x.op), l', r');
    var a, b := EvalOperand(w, args, env, x.lhs).value, EvalOperand(w, args, env, x.rhs).value;
    var a', b' := EvalOperand(w, args, env', l').value, EvalOperand(w, args, env', r').value;
    PairRefines(w, x.op, a, a', b, b', x.nsw, x.nuw);
    var t := Combine(w, Sub, Some(0), b', false, false);
    RelatedExtend(env, env', sigma, x.id, Computed(w, args, env, x), n, t, Combine(w, Flip(x.op), a', t, false, false));
  }

  lemma SigmaTailAgrees(sigma: map<ValueId, ValueId>, rest: seq<Instr>, n: ValueId)
    requires |rest| > 0 && IsAddSub(rest[0]) && UniqueIds(rest)
    requires forall k :: k in Sigma(rest, n) ==> k in sigma && sigma[k] == Sigma(rest, n)[k]
    ensures forall k :: k in Sigma(rest[1..], n + 2) ==> k in sigma && sigma[k] == Sigma(rest[1..], n + 2)[k]
  {
    SigmaRange(rest[1..], n + 2);
    forall k | k in Sigma(rest[1..], n + 2)
      ensures k in sigma && sigma[k] == Sigma(rest[1..], n + 2)[k]
    {
      var i :| 0 <= i < |rest[1..]| && rest[1..][i].id == k && IsAddSub(rest[1..][i]);
      assert rest[i + 1].id == k;
      assert Sigma(rest, n)[k] == Sigma(rest[1..], n + 2)[k];
    }
  }

  /** Running the flag-free expansion, with uses redirected by `sigma`,
      keeps the relation with the original run. */
  lemma {:induction false} ExecExpand(w: WordArith.Width, args: seq<int>, env: map<ValueId, Option<int>>, env': map<ValueId, Option<int>>,
                                      sigma: map<ValueId, ValueId>, rest: seq<Instr>, n: ValueId)
    requires Related(env, env', sigma)
    requires forall a :: a in env ==> sigma[a] < n
    requires forall k :: k in sigma ==> k < n
    requires forall k :: k in Sigma(rest, n) ==> k in sigma && sigma[k] == Sigma(rest, n)[k]
    requires UniqueIds(rest)
    requires Exec(w, args, env, rest).Some?
    ensures Exec(w, args, env', SubstBody(sigma, Expand(rest, n, DropFlags))).Some?
    ensures Related(Exec(w, args, env, rest).value, Exec(w, args, env', SubstBody(sigma, Expand(rest, n, DropFlags))).value, sigma)
    decreases |rest|, 1
  {
    if |rest| == 0 {
      assert SubstBody(sigma, Expand(rest, n, DropFlags)) == [];
    } else if !IsAddSub(rest[0]) {
      ExecSkip(w, args, env, env', sigma, rest, n);
    } else {
      var x := rest[0];
      ExecHead(w, args, env, rest);
      var env1 := env[x.id := Computed(w, args, env, x)];
      PairStep(w, args, env, env', sigma, x, n);
      var pair := SubstBody(sigma, Replacement(x, n, DropFlags));
      var env1' := Exec(w, args, env', pair).value;
      SigmaTailAgrees(sigma, rest, n);
      ExecExpand(w, args, env1, env1', sigma, rest[1..], n + 2);
      SubstBodyAppend(sigma, Replacement(x, n, DropFlags), Expand(rest[1..], n + 2, DropFlags));
      ExecAppend(w, args, env', pair, SubstBody(sigma, Expand(rest[1..], n + 2, DropFlags)));
    }
  }

  /** An instruction other than add/sub binds nothing on either side, and the
      rest of the run keeps the relation. */
  lemma {:induction false} ExecSkip(w: WordArith.Width, args: seq<int>, env: map<ValueId, Option<int>>, env': map<ValueId, Option<int>>,
                                    sigma: map<ValueId, ValueId>, rest: seq<Instr>, n: ValueId)
    requires Related(env, env', sigma)
    requires forall a :: a in env ==> sigma[a] < n
    requires forall k :: k in sigma ==> k < n
    requires forall k :: k in Sigma(rest, n) ==> k in sigma && sigma[k] == Sigma(rest, n)[k]
    requires UniqueIds(rest)
    requires |rest| > 0 && !IsAddSub(rest[0])
    requires Exec(w, args, env, rest).Some?
    ensures Exec(w, args, env', SubstBody(sigma, Expand(rest, n, DropFlags))).Some?
    ensures Related(Exec(w, args, env, rest).value, Exec(w, args, env', SubstBody(sigma, Expand(rest, n, DropFlags))).value, sigma)
    decreases |rest|, 0
  {
    var x := rest[0];
    assert Exec(w, args, env, rest) == Exec(w, args, env, rest[1..]);
    assert Sigma(rest, n) == Sigma(rest[1..], n);
    assert UniqueIds(rest[1..]) by {
      forall i, j | 0 <= i < j < |rest[1..]| ensures rest[1..][i].id != rest[1..][j].id {
        assert rest[1..][i] == rest[i + 1] && rest[1..][j] == rest[j + 1];
      }
    }
    ExecExpand(w, args, env, env', sigma, rest[1..], n);
    var y := SubstInstr(sigma, x);
    SubstInstrShape(sigma, x);
    assert Expand(rest, n, DropFlags) == [x] + Expand(rest[1..], n, DropFlags);
    SubstBodyAppend(sigma, [x], Expand(rest[1..], n, DropFlags));
    assert SubstBody(sigma, [x]) == [y];
    ExecAppend(w, args, env', [y], SubstBody(sigma, Expand(rest[1..], n, DropFlags)));
    assert Exec(w, args, env', [y]) == Exec(w, args, env', [y][1..]);
  }

  /** One iteration without flags refines the body: wherever the original
      run is defined the rewritten one is too, and every value of the
      original is found, unchanged unless it was poison, at its redirected
      handle. */
  lemma IterationRefines(w: WordArith.Width, args: seq<int>, body: seq<Instr>, next: ValueId)
    requires FreshAbove(body, next)
    requires Exec(w, args, map[], body).Some?
    ensures Exec(w, args, map[], Iteration(body, next, DropFlags).0).Some?
    ensures Related(Exec(w, args, map[], body).value, Exec(w, args, map[], Iteration(body, next, DropFlags).0).value, Sigma(body, next))
  {
    IterationIsReference(body, next, DropFlags);
    var sigma := Sigma(body, next);
    SigmaRange(body, next);
    ExecExpand(w, args, map[], map[], sigma, body, next);
  }

  /** After `k` iterations the original values sit, refined, at their
      tracked handles. */
  ghost predicate TrackedRefines(env: map<ValueId, Option<int>>, out: map<ValueId, Option<int>>, body: seq<Instr>, next: ValueId, k: nat) {
    forall a :: a in env ==> Track(body, next, k, DropFlags, a) in out && Refines(env[a], out[Track(body, next, k, DropFlags, a)])
  }

  lemma {:induction false} RepeatRefines(w: WordArith.Width, args: seq<int>, body: seq<Instr>, next: ValueId, k: nat)
    requires FreshAbove(body, next)
    requires Exec(w, args, map[], body).Some?
    ensures Exec(w, args, map[], Repeat(body, next, k, DropFlags).0).Some?
    ensures TrackedRefines(Exec(w, args, map[], body).value, Exec(w, args, map[], Repeat(body, next, k, DropFlags).0).value, body, next, k)
    decreases k
  {
    var env := Exec(w, args, map[], body).value;
    if k > 0 {
      var it := Iteration(body, next, DropFlags);
      var sigma := Sigma(body, next);
      IterationRefines(w, args, body, next);
      IterationFresh(body, next, DropFlags);
      RepeatRefines(w, args, it.0, it.1, k - 1);
      assert Repeat(body, next, k, DropFlags) == Repeat(it.0, it.1, k - 1, DropFlags);
      var env1 := Exec(w, args, map[], it.0).value;
      forall a | a in env
        ensures Track(body, next, k, DropFlags, a) == Track(it.0, it.1, k - 1, DropFlags, sigma[a])
      {
      }
    } else {
      assert forall a :: Track(body, next, 0, DropFlags, a) == a;
    }
  }

  /** The corrected pass on a function whose body runs: the result runs
      too, and every original value survives at its tracked handle. */
  lemma RunOnFunctionRefines(w: WordArith.Width, args: seq<int>, f: Function, times: int)
    requires UniqueIds(f.body)
    requires Exec(w, args, map[], f.body).Some?
    ensures var k := if times <= 1 then 1 else times;
      var g := RunOnFunction(f, times, DropFlags).0;
      && Exec(w, args, map[], g.body).Some?
      && TrackedRefines(Exec(w, args, map[], f.body).value, Exec(w, args, map[], g.body).value, f.body, FirstFreeIdOf(f.body), k)
  {
    var next := FirstFreeIdOf(f.body);
    var k := if times <= 1 then 1 else times;
    LoopIterations(f.body, next, times, DropFlags);
    RepeatRefines(w, args, f.body, next, k);
  }

  /** `%0 = add i8 %a0, %a1; ret i8 %0`: a body ending in a terminator. */
  function AddRetBody(): seq<Instr> {
    [BinOp(0, Add, Arg(0), Arg(1), false, false), Other(1, "ret", [Val(0)])]
  }

  /** The refinement covers a body that ends in `ret`: on arguments 1 and 2
      the add yields 3, and after the corrected pass the rewritten body runs
      and yields 3 at the add's tracked handle, the one the `ret` now reads. */
  lemma AddRetRefined()
    ensures Exec(8, [1, 2], map[], AddRetBody()) == Some(map[0 := Some(3)])
    ensures var g := RunOnFunction(Function("f", AddRetBody()), 1, DropFlags).0;
      var a := Track(AddRetBody(), FirstFreeIdOf(AddRetBody()), 1, DropFlags, 0);
      && Exec(8, [1, 2], map[], g.body).Some?
      && a in Exec(8, [1, 2], map[], g.body).value
      && Exec(8, [1, 2], map[], g.body).value[a] == Some(3)
  {
    var body := AddRetBody();
    assert WordArith.Wrap(8, 1) == 1 && WordArith.Wrap(8, 2) == 2;
    assert Exec(8, [1, 2], map[], body) == Exec(8, [1, 2], map[0 := Some(3)], body[1..]);
    assert Exec(8, [1, 2], map[0 := Some(3)], body[1..]) == Exec(8, [1, 2], map[0 := Some(3)], body[1..][1..]);
    RunOnFunctionRefines(8, [1, 2], Function("f", body), 1);
  }

  // ---------------------------------------------------------------------
  // The flags as copied by the pass

  /** `%0 = add nuw i8 %a0, %a1`. */
  function NuwBody(): seq<Instr> {
    [BinOp(0, Add, Arg(0), Arg(1), false, true)]
  }

  /** What one iteration with copied flags makes of `NuwBody`. */
  function NuwPair(): seq<Instr> {
    [BinOp(1, Sub, OConst(CInt(0)), Arg(1), false, false), BinOp(2, Sub, Arg(0), Val(1), false, true)]
  }

  /** One iteration with the flags copied rewrites `%0 = add nuw %a0, %a1`
      into the pair of `NuwPair`, the flipped `sub` keeping `nuw`, and
      redirects `%0` to `%2`. */
  lemma CopiedFlagsRewrite()
    ensures Iteration(NuwBody(), 1, CopyFlags).0 == NuwPair()
    ensures Sigma(NuwBody(), 1) == map[0 := 2]
  {
    var body := NuwBody();
    IterationIsReference(body, 1, CopyFlags);
    assert Expand(body, 1, CopyFlags) == Replacement(body[0], 1, CopyFlags) + Expand(body[1..], 3, CopyFlags);
  }

  /** With the flags copied, one iteration turns `add nuw 1, 1` (which is
      2) into `sub nuw 1, 255`, which is poison. */
  lemma CopiedFlagsPoison()
    ensures Exec(8, [1, 1], map[], NuwBody()) == Some(map[0 := Some(2)])
    ensures Iteration(NuwBody(), 1, CopyFlags).0 == NuwPair()
    ensures Exec(8, [1, 1], map[], NuwPair()) == Some(map[1 := Some(255), 2 := None])
  {
    WordArith.CopiedNuwExample();
    assert WordArith.Wrap(8, 1) == 1;
    assert Exec(8, [1, 1], map[], NuwBody()) == Exec(8, [1, 1], map[0 := Some(2)], []);
    CopiedFlagsRewrite();
    var out := NuwPair();
    var e1 := map[1 := Some(WordArith.Neg(8, 1))];
    assert Exec(8, [1, 1], map[], out) == Exec(8, [1, 1], e1, out[1..]);
    assert Exec(8, [1, 1], e1, out[1..]) == Exec(8, [1, 1], e1[2 := None], out[1..][1..]);
  }
}
