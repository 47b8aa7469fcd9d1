/** The opcode-histogram function pass (`CountInstruction::runOnFunction`).

    The pass keeps a map from opcode name to count in the pass object. For
    one function it bumps the entry of every instruction's opcode name,
    reports the map, clears it and reports that nothing changed. */
module CountInstruction {
  import opened IR

  /** The pass's `opCounter`: opcode name to count. */
  type Counter = map<string, int>

  /** The count of `name`, zero when it has no entry. */
  function Get(c: Counter, name: string): int {
    if name in c then c[name] else 0
  }

  /** One instruction: a missing name enters with 1, a present one grows
      by one. */
  function Bump(c: Counter, name: string): Counter {
    if name !in c then c[name := 1] else c[name := c[name] + 1]
  }

  /** The walk over the instructions, front to back. */
  function Tally(c: Counter, body: seq<Instr>): Counter
    decreases |body|
  {
    if |body| == 0 then c else Tally(Bump(c, OpcodeName(body[0])), body[1..])
  }

  /** `runOnFunction`: the map as reported, the map left in the pass
      object, and the "changed" result. */
  function RunOnFunction(c: Counter, f: Function): (r: (Counter, Counter, bool))
    ensures r.1 == map[] && !r.2
  {
    (Tally(c, f.body), map[], false)
  }

  // ---------------------------------------------------------------------
  // Reference: counting from the back

  /** The number of instructions of `body` whose opcode name is `name`. */
  function Occurrences(body: seq<Instr>, name: string): nat
    decreases |body|
  {
    if |body| == 0 then 0
    else Occurrences(body[..|body| - 1], name) + (if OpcodeName(body[|body| - 1]) == name then 1 else 0)
  }

  /** The opcode names that occur in `body`. */
  function NamesOf(body: seq<Instr>): set<string> {
    set i | 0 <= i < |body| :: OpcodeName(body[i])
  }

  lemma {:induction false} OccurrencesCons(body: seq<Instr>, name: string)
    requires |body| > 0
    ensures Occurrences(body, name) == (if OpcodeName(body[0]) == name then 1 else 0) + Occurrences(body[1..], name)
    decreases |body|
  {
    if |body| > 1 {
      var init := body[..|body| - 1];
      OccurrencesCons(init, name);
      assert init[1..] == body[1..][..|body[1..]| - 1];
      assert body[1..][|body[1..]| - 1] == body[|body| - 1];
    } else {
      assert body[..0] == [];
      assert body[1..] == [];
    }
  }

  /** A name occurs exactly when its count is positive. */
  lemma {:induction false} OccurrencesPositive(body: seq<Instr>, name: string)
    ensures name in NamesOf(body) <==> Occurrences(body, name) > 0
    decreases |body|
  {
    if |body| > 0 {
      OccurrencesCons(body, name);
      OccurrencesPositive(body[1..], name);
      if name in NamesOf(body[1..]) {
        var i :| 0 <= i < |body[1..]| && OpcodeName(body[1..][i]) == name;
        assert OpcodeName(body[i + 1]) == name;
      }
      if name in NamesOf(body) && OpcodeName(body[0]) != name {
        var i :| 0 <= i < |body| && OpcodeName(body[i]) == name;
        assert OpcodeName(body[1..][i - 1]) == name;
      }
    }
  }

  // ---------------------------------------------------------------------
  // What the walk computes

  /** Every count grows by the number of occurrences of its name. */
  lemma {:induction false} TallyCounts(c: Counter, body: seq<Instr>, name: string)
    ensures Get(Tally(c, body), name) == Get(c, name) + Occurrences(body, name)
    decreases |body|
  {
    if |body| > 0 {
      OccurrencesCons(body, name);
      TallyCounts(Bump(c, OpcodeName(body[0])), body[1..], name);
    }
  }

  /** The walk adds exactly the names that occur. */
  lemma {:induction false} TallyKeys(c: Counter, body: seq<Instr>)
    ensures Tally(c, body).Keys == c.Keys + NamesOf(body)
    decreases |body|
  {
    if |body| > 0 {
      TallyKeys(Bump(c, OpcodeName(body[0])), body[1..]);
      assert NamesOf(body) == {OpcodeName(body[0])} + NamesOf(body[1..]) by {
        forall n | n in NamesOf(body) ensures n in {OpcodeName(body[0])} + NamesOf(body[1..]) {
          var i :| 0 <= i < |body| && OpcodeName(body[i]) == n;
          if i > 0 {
            assert OpcodeName(body[1..][i - 1]) == n;
          }
        }
        forall n | n in NamesOf(body[1..]) ensures n in NamesOf(body) {
          var i :| 0 <= i < |body[1..]| && OpcodeName(body[1..][i]) == n;
          assert OpcodeName(body[i + 1]) == n;
        }
      }
    }
  }

  // ---------------------------------------------------------------------
  // The total of the counts

  /** The sum of the counts of a map. */
  ghost function Total(c: Counter): int
    decreases |c.Keys|
  {
    if c == map[] then 0
    else
      var k :| k in c;
      c[k] + Total(c - {k})
  }

  /** The sum does not depend on which key is taken first. */
  lemma {:induction false} TotalRemove(c: Counter, k: string)
    requires k in c
    ensures Total(c) == c[k] + Total(c - {k})
    decreases |c.Keys|
  {
    var j :| j in c && Total(c) == c[j] + Total(c - {j});
    if j != k {
      var cj, ck := c - {j}, c - {k};
      assert |cj.Keys| < |c.Keys| by { assert cj.Keys < c.Keys; }
      assert |ck.Keys| < |c.Keys| by { assert ck.Keys < c.Keys; }
      TotalRemove(cj, k);
      TotalRemove(ck, j);
      assert cj - {k} == ck - {j};
    }
  }

  lemma TotalBump(c: Counter, name: string)
    ensures Total(Bump(c, name)) == Total(c) + 1
  {
    var b := Bump(c, name);
    TotalRemove(b, name);
    assert b - {name} == c - {name};
    if name in c {
      TotalRemove(c, name);
    } else {
      assert c - {name} == c;
    }
  }

  /** The walk adds one to the total per instruction. */
  lemma {:induction false} TallyTotal(c: Counter, body: seq<Instr>)
    ensures Total(Tally(c, body)) == Total(c) + |body|
    decreases |body|
  {
    if |body| > 0 {
      TotalBump(c, OpcodeName(body[0]));
      TallyTotal(Bump(c, OpcodeName(body[0])), body[1..]);
    }
  }

  // ---------------------------------------------------------------------
  // The pass

  /** Started from an empty map, the report has exactly one entry per
      opcode name that occurs, holding its number of occurrences (at least
      one), and the counts add up to the number of instructions. */
  lemma ReportIsHistogram(f: Function)
    ensures var report := RunOnFunction(map[], f).0;
      && report.Keys == NamesOf(f.body)
      && (forall n :: n in report ==> report[n] == Occurrences(f.body, n) >= 1)
      && Total(report) == |f.body|
  {
    var report := RunOnFunction(map[], f).0;
    TallyKeys(map[], f.body);
    TallyTotal(map[], f.body);
    assert Total(map[]) == 0;
    forall n | n in report ensures report[n] == Occurrences(f.body, n) >= 1 {
      TallyCounts(map[], f.body, n);
      OccurrencesPositive(f.body, n);
    }
  }

  /** The pass object run over functions one after another: the reports,
      and the map left at the end. */
  function RunAll(c: Counter, fs: seq<Function>): (seq<Counter>, Counter)
    decreases |fs|
  {
    if |fs| == 0 then ([], c)
    else
      var r := RunOnFunction(c, fs[0]);
      var rest := RunAll(r.1, fs[1..]);
      ([r.0] + rest.0, rest.1)
  }

  /** Because the map is cleared after every function, counts do not carry
      over: after the first function each report is the histogram of its
      own function alone, and the pass object ends empty. */
  lemma {:induction false} ReportsAreIndependent(c: Counter, fs: seq<Function>)
    ensures |RunAll(c, fs).0| == |fs|
    ensures forall i :: 0 < i < |fs| ==> RunAll(c, fs).0[i] == Tally(map[], fs[i].body)
    ensures |fs| > 0 ==> RunAll(c, fs).0[0] == Tally(c, fs[0].body) && RunAll(c, fs).1 == map[]
    decreases |fs|
  {
    if |fs| > 0 {
      ReportsAreIndependent(map[], fs[1..]);
      var rest := RunAll(map[], fs[1..]);
      forall i | 0 < i < |fs| ensures RunAll(c, fs).0[i] == Tally(map[], fs[i].body) {
        assert RunAll(c, fs).0[i] == rest.0[i - 1];
        assert fs[1..][i - 1] == fs[i];
        if i > 1 {
          assert rest.0[i - 1] == Tally(map[], fs[1..][i - 1].body);
        } else {
          assert rest.0[0] == Tally(map[], fs[1..][0].body);
        }
      }
    }
  }
}
