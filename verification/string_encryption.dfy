/** The string-encryption module pass (`StringEncryption::runOnModule`).

    Four phases run one after the other over one pass state:
    1. select every constant, locally linked global holding i8 data;
    2. give each a twin global holding its XOR-encrypted bytes, named
       `.ollvmstr<k>` from a counter, and redirect every use to the twin;
    3. before every call, decrypt into a fresh stack buffer each argument
       that is a constant GEP into a twin, and pass the buffer instead;
    4. erase the original globals. */
module StringEncryption {
  import opened Wrappers
  import opened IR
  import Cipher
  import Decimal
  import Decryption
  import Interp

  // ---------------------------------------------------------------------
  // Phase 1: selection (`initNeedEncryptStrings`)

  predicate EncryptableLinkage(l: Linkage) {
    l == PrivateLinkage || l == InternalLinkage || l == LinkOnceAnyLinkage || l == LinkOnceODRLinkage
  }

  /** Private, internal or link-once linkage, an initializer, constant, and
      an i8 data array (`isString() || isCString()` accepts exactly the i8
      `ConstantDataArray`s, since every C string is a string; an i8 vector
      is rejected by both). */
  predicate IsCandidate(g: Global) {
    && EncryptableLinkage(g.linkage)
    && g.init.Some?
    && g.isConst
    && g.init.value.ByteArray?
  }

  /** The candidates among the live globals with handle `from` or above, in
      module order. */
  function SelectCandidates(m: Module, from: nat): (cs: seq<GlobalId>)
    requires from <= |m.globals|
    ensures forall g :: g in cs <==> from <= g && IsLive(m, g) && IsCandidate(m.globals[g])
    ensures forall a, b :: 0 <= a < b < |cs| ==> cs[a] < cs[b]
    ensures forall i :: 0 <= i < |cs| ==> IsLive(m, cs[i]) && IsCandidate(m.globals[cs[i]])
    decreases |m.globals| - from
  {
    if from == |m.globals| then []
    else
      var rest := SelectCandidates(m, from + 1);
      assert forall b :: 0 <= b < |rest| ==> rest[b] in rest;
      if IsLive(m, from) && IsCandidate(m.globals[from]) then [from] + rest else rest
  }

  // ---------------------------------------------------------------------
  // Naming

  const NamePrefix: string := ".ollvmstr"

  /** The name requested for the ciphertext twin made when the counter is `k`. */
  function CounterName(k: nat): string {
    NamePrefix + Decimal.NatToString(k)
  }

  /** The names taken in the module's symbol table. LLVM keeps one table for
      all global values, so the functions' names are taken as well as the
      live globals'. */
  function LiveNames(m: Module): set<string> {
    (set g | 0 <= g < |m.globals| && g !in m.erased :: m.globals[g].name)
    + FunctionNames(m.functions)
  }

  function FunctionNames(fs: seq<Function>): set<string> {
    set k | 0 <= k < |fs| :: fs[k].name
  }

  /** Redirecting uses of globals keeps every function's name. */
  lemma RenameKeepsFunctionNames(r: map<GlobalId, GlobalId>, fs: seq<Function>)
    ensures FunctionNames(RenameFunctions(r, fs)) == FunctionNames(fs)
  {
    var fs' := RenameFunctions(r, fs);
    forall n | n in FunctionNames(fs) ensures n in FunctionNames(fs') {
      var k :| 0 <= k < |fs| && fs[k].name == n;
      assert fs'[k].name == n;
    }
    forall n | n in FunctionNames(fs') ensures n in FunctionNames(fs) {
      var k :| 0 <= k < |fs'| && fs'[k].name == n;
      assert fs[k].name == n;
    }
  }

  function Suffixed(base: string, k: nat): string {
    base + "." + Decimal.NatToString(k)
  }

  /** The name a new global receives: the requested name when no live global
      has it, otherwise the first free `requested.k`, k >= 1. */
  function UniqueName(requested: string, taken: set<string>): (n: string)
    ensures n !in taken
    ensures requested !in taken ==> n == requested
    ensures requested in taken ==> exists k: nat :: 1 <= k && n == Suffixed(requested, k)
  {
    if requested !in taken then requested else FirstFreeSuffix(requested, taken, 1)
  }

  ghost function TakenSuffixes(base: string, taken: set<string>, k: nat): set<string> {
    set s | s in taken && exists j: nat :: k <= j && s == Suffixed(base, j)
  }

  function FirstFreeSuffix(base: string, taken: set<string>, k: nat): (n: string)
    ensures n !in taken
    ensures exists j: nat :: k <= j && n == Suffixed(base, j)
    decreases |TakenSuffixes(base, taken, k)|
  {
    var candidate := Suffixed(base, k);
    if candidate !in taken then candidate
    else
      TakenSuffixesShrink(base, taken, k);
      FirstFreeSuffix(base, taken, k + 1)
  }

  lemma TakenSuffixesShrink(base: string, taken: set<string>, k: nat)
    requires Suffixed(base, k) in taken
    ensures |TakenSuffixes(base, taken, k + 1)| < |TakenSuffixes(base, taken, k)|
  {
    var later := TakenSuffixes(base, taken, k + 1);
    var x := Suffixed(base, k);
    forall j: nat | k + 1 <= j ensures x != Suffixed(base, j) {
      Decimal.PrefixedInjective(base + ".", k, j);
    }
    assert TakenSuffixes(base, taken, k) == later + {x};
  }

  /** A suffixed name is never a counter name: the character after the
      counter digits is a dot. */
  lemma SuffixedIsNotCounterName(i: nat, j: nat, k: nat)
    ensures Suffixed(CounterName(i), j) != CounterName(k)
  {
    var s := Suffixed(CounterName(i), j);
    var pos := |NamePrefix| + |Decimal.NatToString(i)|;
    assert s[pos] == '.';
    var c := CounterName(k);
    if |c| == |s| {
      assert c[pos] == Decimal.NatToString(k)[pos - |NamePrefix|];
      assert Decimal.IsDigit(c[pos]);
    }
  }

  /** The name a twin ends up with: its counter name, possibly suffixed. */
  ghost predicate NamedAfter(s: string, i: nat) {
    s == CounterName(i) || exists j: nat :: 1 <= j && s == Suffixed(CounterName(i), j)
  }

  lemma NamedAfterOnly(s: string, i: nat, k: nat)
    requires NamedAfter(s, i) && i != k
    ensures s != CounterName(k)
  {
    if s == CounterName(i) {
      Decimal.PrefixedInjective(NamePrefix, i, k);
    } else {
      var j: nat :| 1 <= j && s == Suffixed(CounterName(i), j);
      SuffixedIsNotCounterName(i, j, k);
    }
  }

  // ---------------------------------------------------------------------
  // Phase 2: encryption (`encryptString`)

  /** The fields of the pass object. `next` is the handle the next created
      instruction receives. */
  datatype PassState = PassState(
    m: Module,
    needEncrypt: seq<GlobalId>,
    needDeleteStrings: seq<GlobalId>,
    needDeleteInstrs: seq<ValueId>,
    names: map<string, GlobalId>,
    counter: nat,
    next: ValueId)

  /** The state the constructor sets up. */
  function Initial(m: Module): PassState {
    PassState(m, [], [], [], map[], 0, FirstFreeId(m.functions))
  }

  /** One iteration of the encryption loop, for global `g`. */
  function EncryptOne(st: PassState, g: GlobalId): (r: PassState)
    requires g < |st.m.globals|
    ensures |r.m.globals| >= |st.m.globals|
  {
    var gv := st.m.globals[g];
    if gv.init.None? || !gv.init.value.ByteArray? then st
    else
      var requested := CounterName(st.counter);
      var twin := |st.m.globals|;
      var cipher := Global(UniqueName(requested, LiveNames(st.m)), gv.linkage, true,
                           Some(ByteArray(Cipher.Encrypt(gv.init.value.bytes))));
      st.(m := Module(st.m.globals + [cipher], st.m.erased, ReplaceGlobalUses(st.m.functions, g, twin)),
          names := st.names[requested := twin],
          counter := st.counter + 1,
          needDeleteStrings := st.needDeleteStrings + [g])
  }

  function EncryptString(st: PassState, cs: seq<GlobalId>): PassState
    requires forall i :: 0 <= i < |cs| ==> cs[i] < |st.m.globals|
    decreases |cs|
  {
    if |cs| == 0 then st
    else EncryptString(EncryptOne(st, cs[0]), cs[1..])
  }

  // ---------------------------------------------------------------------
  // What encryption establishes

  /** No instruction refers to a global outside the module or erased from it. */
  ghost predicate WellFormed(m: Module) {
    && (forall g :: g in m.erased ==> g < |m.globals|)
    && (forall h :: FunctionsUseGlobal(m.functions, h) ==> IsLive(m, h))
  }

  /** `t` is the ciphertext twin made for candidate `c` when the counter was `i`. */
  ghost predicate IsTwin(m: Module, c: GlobalId, i: nat, t: Global) {
    && c < |m.globals| && IsCandidate(m.globals[c])
    && t.linkage == m.globals[c].linkage
    && t.isConst
    && t.init == Some(ByteArray(Cipher.Encrypt(m.globals[c].init.value.bytes)))
    && NamedAfter(t.name, i)
    && (t.name == CounterName(i) <==> CounterName(i) !in LiveNames(m))
  }

  /** The redirection encryption performs: the i-th candidate to the i-th
      appended global, for the first `k` candidates. */
  function Twins(cs: seq<GlobalId>, base: nat, k: nat): map<GlobalId, GlobalId>
    requires k <= |cs|
    decreases k
  {
    if k == 0 then map[] else Twins(cs, base, k - 1)[cs[k - 1] := base + k - 1]
  }

  /** The i-th candidate goes to handle `base + i`, and nothing else moves. */
  lemma {:induction false} TwinsSpec(cs: seq<GlobalId>, base: nat, k: nat)
    requires k <= |cs|
    requires forall a, b :: 0 <= a < b < |cs| ==> cs[a] < cs[b]
    ensures forall i :: 0 <= i < k ==> cs[i] in Twins(cs, base, k) && Twins(cs, base, k)[cs[i]] == base + i
    ensures forall g :: g in Twins(cs, base, k) ==> exists i :: 0 <= i < k && cs[i] == g
    decreases k
  {
    if k > 0 {
      TwinsSpec(cs, base, k - 1);
    }
  }

  /** Where the encryption loop stands after the first `k` candidates of
      `m`: the pass's bookkeeping, ... */
  ghost predicate EncryptedBookkeeping(m: Module, cs: seq<GlobalId>, k: nat, st: PassState) {
    && cs == SelectCandidates(m, 0)
    && k <= |cs|
    && (forall i :: 0 <= i < |cs| ==> cs[i] < |m.globals|)
    && |st.m.globals| == |m.globals| + k
    && st.m.erased == m.erased
    && st.needEncrypt == cs
    && st.needDeleteStrings == cs[..k]
    && st.needDeleteInstrs == []
    && st.counter == k
    && st.next == FirstFreeId(m.functions)
  }

  /** ... the globals, ... */
  ghost predicate EncryptedGlobals(m: Module, cs: seq<GlobalId>, k: nat, st: PassState) {
    var base := |m.globals|;
    && k <= |cs| && base + k <= |st.m.globals|
    && st.m.globals[..base] == m.globals
    && (forall i :: 0 <= i < k ==> IsTwin(m, cs[i], i, st.m.globals[base + i]))
    && LiveNames(m) <= LiveNames(st.m)
    && (forall s :: s in LiveNames(st.m) && s !in LiveNames(m) ==> exists i :: 0 <= i < k && NamedAfter(s, i))
  }

  /** ... the name map, ... */
  ghost predicate EncryptedNames(m: Module, k: nat, st: PassState) {
    CounterMap(st.names, |m.globals|, k)
  }

  /** `names` maps the first `k` counter names, and nothing else, to the
      handles from `base` on. */
  ghost predicate CounterMap(names: map<string, GlobalId>, base: nat, k: nat) {
    && (forall i :: 0 <= i < k ==> CounterName(i) in names && names[CounterName(i)] == base + i)
    && names.Keys == CounterNames(k)
    && |names| == k
  }

  /** The first `k` counter names. */
  function CounterNames(k: nat): set<string> {
    if k == 0 then {} else CounterNames(k - 1) + {CounterName(k - 1)}
  }

  lemma {:induction false} CounterNamesSpec(k: nat)
    ensures forall s :: s in CounterNames(k) <==> exists i :: 0 <= i < k && s == CounterName(i)
  {
    if k > 0 {
      CounterNamesSpec(k - 1);
      assert CounterNames(k) == CounterNames(k - 1) + {CounterName(k - 1)};
      forall s ensures s in CounterNames(k) <==> exists i :: 0 <= i < k && s == CounterName(i) {
        if exists i :: 0 <= i < k && s == CounterName(i) {
          var i :| 0 <= i < k && s == CounterName(i);
          if i < k - 1 {
            assert s in CounterNames(k - 1);
          }
        }
      }
    }
  }

  /** ... and the functions. */
  ghost predicate EncryptedFunctions(m: Module, cs: seq<GlobalId>, k: nat, st: PassState)
    requires EncryptedBookkeeping(m, cs, k, st)
  {
    st.m.functions == RenameFunctions(Twins(cs, |m.globals|, k), m.functions)
  }

  ghost predicate Encrypted(m: Module, cs: seq<GlobalId>, k: nat, st: PassState) {
    && EncryptedBookkeeping(m, cs, k, st)
    && EncryptedGlobals(m, cs, k, st)
    && EncryptedNames(m, k, st)
    && EncryptedFunctions(m, cs, k, st)
  }

  function AfterSelection(m: Module): PassState {
    Initial(m).(needEncrypt := SelectCandidates(m, 0))
  }

  function AfterEncryption(m: Module): PassState {
    var st := AfterSelection(m);
    EncryptString(st, st.needEncrypt)
  }

  lemma LiveNamesAppend(m: Module, x: Global)
    requires forall g :: g in m.erased ==> g < |m.globals|
    ensures LiveNames(m.(globals := m.globals + [x])) == LiveNames(m) + {x.name}
  {
    var m' := m.(globals := m.globals + [x]);
    assert m'.globals[|m.globals|] == x;
    forall g | 0 <= g < |m.globals| ensures m'.globals[g] == m.globals[g] { }
  }

  /** The name of the k-th twin, given the invariant for the first k. */
  lemma TwinName(m: Module, cs: seq<GlobalId>, k: nat, st: PassState)
    requires EncryptedBookkeeping(m, cs, k, st) && EncryptedGlobals(m, cs, k, st)
    ensures var n := UniqueName(CounterName(k), LiveNames(st.m));
      && NamedAfter(n, k)
      && (n == CounterName(k) <==> CounterName(k) !in LiveNames(m))
  {
    var r := CounterName(k);
    var n := UniqueName(r, LiveNames(st.m));
    if r in LiveNames(st.m) && r !in LiveNames(m) {
      var i :| 0 <= i < k && NamedAfter(r, i);
      NamedAfterOnly(r, i, k);
    }
    if r in LiveNames(st.m) {
      var j: nat :| 1 <= j && n == Suffixed(r, j);
      assert |n| > |r|;
    }
  }

  lemma TwinsStep(cs: seq<GlobalId>, base: nat, k: nat)
    requires k < |cs|
    requires forall a, b :: 0 <= a < b < |cs| ==> cs[a] < cs[b]
    requires forall i :: 0 <= i < |cs| ==> cs[i] < base
    ensures cs[k] !in Twins(cs, base, k) && cs[k] !in Twins(cs, base, k).Values
    ensures Twins(cs, base, k)[cs[k] := base + k] == Twins(cs, base, k + 1)
  {
    TwinsSpec(cs, base, k);
  }

  /** The state after encrypting the k-th candidate, spelled out. */
  function Twin(m: Module, k: nat, st: PassState, c: GlobalId): Global
    requires c < |m.globals| && IsCandidate(m.globals[c])
  {
    var gv := m.globals[c];
    Global(UniqueName(CounterName(k), LiveNames(st.m)), gv.linkage, true, Some(ByteArray(Cipher.Encrypt(gv.init.value.bytes))))
  }

  lemma EncryptOneShape(m: Module, cs: seq<GlobalId>, k: nat, st: PassState)
    requires EncryptedBookkeeping(m, cs, k, st) && st.m.globals[..|m.globals|] == m.globals && k < |cs|
    ensures cs[k] < |m.globals| && IsCandidate(m.globals[cs[k]])
    ensures var r := EncryptOne(st, cs[k]);
      && r.m.globals == st.m.globals + [Twin(m, k, st, cs[k])]
      && r.m.erased == st.m.erased
      && r.m.functions == ReplaceGlobalUses(st.m.functions, cs[k], |m.globals| + k)
      && r.names == st.names[CounterName(k) := |m.globals| + k]
      && r.counter == k + 1
      && r.needDeleteStrings == st.needDeleteStrings + [cs[k]]
      && r.needEncrypt == st.needEncrypt
      && r.needDeleteInstrs == st.needDeleteInstrs
      && r.next == st.next
  {
    assert st.m.globals[cs[k]] == m.globals[cs[k]];
  }

  lemma EncryptOneNames(m: Module, cs: seq<GlobalId>, k: nat, st: PassState)
    requires EncryptedBookkeeping(m, cs, k, st) && st.m.globals[..|m.globals|] == m.globals && k < |cs|
    ensures EncryptOne(st, cs[k]).names == st.names[CounterName(k) := |m.globals| + k]
  {
    EncryptOneShape(m, cs, k, st);
  }

  lemma EncryptStepBookkeeping(m: Module, cs: seq<GlobalId>, k: nat, st: PassState)
    requires EncryptedBookkeeping(m, cs, k, st) && st.m.globals[..|m.globals|] == m.globals && k < |cs|
    ensures EncryptedBookkeeping(m, cs, k + 1, EncryptOne(st, cs[k]))
  {
    EncryptOneShape(m, cs, k, st);
    assert cs[..k + 1] == cs[..k] + [cs[k]];
  }

  lemma EncryptStepTwins(m: Module, cs: seq<GlobalId>, k: nat, st: PassState)
    requires EncryptedBookkeeping(m, cs, k, st) && EncryptedGlobals(m, cs, k, st) && k < |cs|
    ensures var st' := EncryptOne(st, cs[k]);
      && |st'.m.globals| == |m.globals| + k + 1
      && st'.m.globals[..|m.globals|] == m.globals
      && (forall i :: 0 <= i < k + 1 ==> IsTwin(m, cs[i], i, st'.m.globals[|m.globals| + i]))
  {
    EncryptOneShape(m, cs, k, st);
    NewTwin(m, cs, k, st);
    AppendTwin(m, cs, k, st.m.globals, Twin(m, k, st, cs[k]));
  }

  /** The global made for the k-th candidate is its twin. */
  lemma NewTwin(m: Module, cs: seq<GlobalId>, k: nat, st: PassState)
    requires EncryptedBookkeeping(m, cs, k, st) && EncryptedGlobals(m, cs, k, st) && k < |cs|
    ensures cs[k] < |m.globals| && IsCandidate(m.globals[cs[k]])
    ensures IsTwin(m, cs[k], k, Twin(m, k, st, cs[k]))
  {
    EncryptOneShape(m, cs, k, st);
    TwinName(m, cs, k, st);
  }

  /** Appending the k-th twin extends the twins of the first k candidates. */
  lemma AppendTwin(m: Module, cs: seq<GlobalId>, k: nat, globals: seq<Global>, x: Global)
    requires k < |cs| && |globals| == |m.globals| + k && globals[..|m.globals|] == m.globals
    requires forall i :: 0 <= i < k ==> IsTwin(m, cs[i], i, globals[|m.globals| + i])
    requires IsTwin(m, cs[k], k, x)
    ensures var g := globals + [x];
      && |g| == |m.globals| + k + 1
      && g[..|m.globals|] == m.globals
      && (forall i :: 0 <= i < k + 1 ==> IsTwin(m, cs[i], i, g[|m.globals| + i]))
  {
    var base := |m.globals|;
    var g := globals + [x];
    forall i | 0 <= i < k + 1 ensures IsTwin(m, cs[i], i, g[base + i]) {
      if i < k {
        assert g[base + i] == globals[base + i];
      }
    }
    assert g[..base] == globals[..base];
  }

  lemma EncryptStepLiveNames(m: Module, cs: seq<GlobalId>, k: nat, st: PassState)
    requires WellFormed(m)
    requires EncryptedBookkeeping(m, cs, k, st) && EncryptedGlobals(m, cs, k, st) && k < |cs|
    ensures var st' := EncryptOne(st, cs[k]);
      && LiveNames(m) <= LiveNames(st'.m)
      && (forall s :: s in LiveNames(st'.m) && s !in LiveNames(m) ==> exists i :: 0 <= i < k + 1 && NamedAfter(s, i))
  {
    EncryptOneShape(m, cs, k, st);
    var st' := EncryptOne(st, cs[k]);
    var twin := Twin(m, k, st, cs[k]);
    TwinName(m, cs, k, st);
    LiveNamesAppend(st.m, twin);
    RenameKeepsFunctionNames(map[cs[k] := |m.globals| + k], st.m.functions);
    assert st'.m == st.m.(globals := st.m.globals + [twin], functions := st'.m.functions);
    assert LiveNames(st'.m) == LiveNames(st.m.(globals := st.m.globals + [twin]));
    forall s | s in LiveNames(st'.m) && s !in LiveNames(m) ensures exists i :: 0 <= i < k + 1 && NamedAfter(s, i) {
      if s != twin.name {
        var i :| 0 <= i < k && NamedAfter(s, i);
      }
    }
  }

  lemma EncryptStepGlobals(m: Module, cs: seq<GlobalId>, k: nat, st: PassState)
    requires WellFormed(m)
    requires EncryptedBookkeeping(m, cs, k, st) && EncryptedGlobals(m, cs, k, st) && k < |cs|
    ensures EncryptedBookkeeping(m, cs, k + 1, EncryptOne(st, cs[k]))
    ensures EncryptedGlobals(m, cs, k + 1, EncryptOne(st, cs[k]))
  {
    EncryptStepBookkeeping(m, cs, k, st);
    EncryptStepTwins(m, cs, k, st);
    EncryptStepLiveNames(m, cs, k, st);
  }

  lemma EncryptStepNames(m: Module, k: nat, st: PassState, st': PassState)
    requires EncryptedNames(m, k, st)
    requires st'.names == st.names[CounterName(k) := |m.globals| + k]
    ensures EncryptedNames(m, k + 1, st')
  {
    NameMapStep(st.names, |m.globals|, k, st'.names);
  }

  /** Entering the k-th counter name into a map holding the first k. */
  lemma NameMapStep(names: map<string, GlobalId>, base: nat, k: nat, names': map<string, GlobalId>)
    requires CounterMap(names, base, k)
    requires names' == names[CounterName(k) := base + k]
    ensures CounterMap(names', base, k + 1)
  {
    CounterNameFresh(k, k);
    assert names'.Keys == names.Keys + {CounterName(k)};
    assert |names'| == |names| + 1;
  }

  /** A counter name is not among the names of smaller counters. */
  lemma {:induction false} CounterNameFresh(j: nat, k: nat)
    requires k <= j
    ensures CounterName(j) !in CounterNames(k)
  {
    if k > 0 {
      CounterNameFresh(j, k - 1);
      CounterNamesDistinct(j, k - 1);
    }
  }

  lemma {:induction false} EncryptStepFunctions(m: Module, cs: seq<GlobalId>, k: nat, st: PassState)
    requires EncryptedBookkeeping(m, cs, k, st) && st.m.globals[..|m.globals|] == m.globals
    requires EncryptedFunctions(m, cs, k, st) && k < |cs|
    ensures EncryptedBookkeeping(m, cs, k + 1, EncryptOne(st, cs[k]))
    ensures EncryptedFunctions(m, cs, k + 1, EncryptOne(st, cs[k]))
  {
    EncryptStepBookkeeping(m, cs, k, st);
    assert st.m.globals[cs[k]] == m.globals[cs[k]];
    EncryptOneFunctions(st, cs[k]);
    RenameStep(m.functions, cs, |m.globals|, k, st.m.functions, EncryptOne(st, cs[k]).m.functions);
  }

  /** Encrypting a byte-array global redirects its uses to the new twin. */
  lemma EncryptOneFunctions(st: PassState, g: GlobalId)
    requires g < |st.m.globals| && st.m.globals[g].init.Some? && st.m.globals[g].init.value.ByteArray?
    ensures EncryptOne(st, g).m.functions == ReplaceGlobalUses(st.m.functions, g, |st.m.globals|)
  {
  }

  /** Redirecting the k-th candidate after the first k extends the
      renaming by one entry. */
  lemma RenameStep(fs: seq<Function>, cs: seq<GlobalId>, base: nat, k: nat, before: seq<Function>, after: seq<Function>)
    requires k < |cs|
    requires forall a, b :: 0 <= a < b < |cs| ==> cs[a] < cs[b]
    requires forall i :: 0 <= i < |cs| ==> cs[i] < base
    requires before == RenameFunctions(Twins(cs, base, k), fs)
    requires after == ReplaceGlobalUses(before, cs[k], base + k)
    ensures after == RenameFunctions(Twins(cs, base, k + 1), fs)
  {
    TwinsStep(cs, base, k);
    RenameFunctionsCompose(Twins(cs, base, k), cs[k], base + k, fs);
  }

  /** The bookkeeping, and the input's globals at the front, survive a step. */
  lemma PrefixStep(m: Module, cs: seq<GlobalId>, k: nat, st: PassState)
    requires EncryptedBookkeeping(m, cs, k, st) && st.m.globals[..|m.globals|] == m.globals && k < |cs|
    ensures cs[k] < |st.m.globals|
    ensures EncryptedBookkeeping(m, cs, k + 1, EncryptOne(st, cs[k]))
    ensures EncryptOne(st, cs[k]).m.globals[..|m.globals|] == m.globals
  {
    EncryptStepBookkeeping(m, cs, k, st);
    EncryptOneShape(m, cs, k, st);
    var g := st.m.globals + [Twin(m, k, st, cs[k])];
    assert g[..|m.globals|] == st.m.globals[..|m.globals|];
  }

  /** The encryption loop keeps the bookkeeping invariant. */
  lemma {:induction false} LoopBookkeeping(m: Module, cs: seq<GlobalId>, k: nat, st: PassState, rest: seq<GlobalId>)
    requires EncryptedBookkeeping(m, cs, k, st) && st.m.globals[..|m.globals|] == m.globals && rest == cs[k..]
    ensures forall i :: 0 <= i < |rest| ==> rest[i] < |st.m.globals|
    ensures EncryptedBookkeeping(m, cs, |cs|, EncryptString(st, rest))
    decreases |rest|
  {
    forall i | 0 <= i < |rest| ensures rest[i] < |st.m.globals| { assert rest[i] in cs; }
    if |rest| > 0 {
      PrefixStep(m, cs, k, st);
      assert rest[0] == cs[k] && rest[1..] == cs[k + 1..];
      var st' := EncryptOne(st, rest[0]);
      LoopBookkeeping(m, cs, k + 1, st', rest[1..]);
      assert EncryptString(st, rest) == EncryptString(st', rest[1..]);
    }
  }

  /** The encryption loop keeps the globals invariant. */
  lemma {:induction false} LoopGlobals(m: Module, cs: seq<GlobalId>, k: nat, st: PassState, rest: seq<GlobalId>)
    requires WellFormed(m)
    requires EncryptedBookkeeping(m, cs, k, st) && EncryptedGlobals(m, cs, k, st) && rest == cs[k..]
    ensures forall i :: 0 <= i < |rest| ==> rest[i] < |st.m.globals|
    ensures EncryptedGlobals(m, cs, |cs|, EncryptString(st, rest))
    decreases |rest|
  {
    forall i | 0 <= i < |rest| ensures rest[i] < |st.m.globals| { assert rest[i] in cs; }
    if |rest| > 0 {
      EncryptStepGlobals(m, cs, k, st);
      assert rest[0] == cs[k] && rest[1..] == cs[k + 1..];
      var st' := EncryptOne(st, rest[0]);
      LoopGlobals(m, cs, k + 1, st', rest[1..]);
      assert EncryptString(st, rest) == EncryptString(st', rest[1..]);
    }
  }

  /** The encryption loop keeps the name map invariant. */
  lemma {:induction false} LoopNames(m: Module, cs: seq<GlobalId>, k: nat, st: PassState, rest: seq<GlobalId>)
    requires EncryptedBookkeeping(m, cs, k, st) && st.m.globals[..|m.globals|] == m.globals && rest == cs[k..]
    requires EncryptedNames(m, k, st)
    ensures forall i :: 0 <= i < |rest| ==> rest[i] < |st.m.globals|
    ensures EncryptedNames(m, |cs|, EncryptString(st, rest))
    decreases |rest|
  {
    forall i | 0 <= i < |rest| ensures rest[i] < |st.m.globals| { assert rest[i] in cs; }
    if |rest| > 0 {
      PrefixStep(m, cs, k, st);
      EncryptOneNames(m, cs, k, st);
      EncryptStepNames(m, k, st, EncryptOne(st, cs[k]));
      assert rest[0] == cs[k] && rest[1..] == cs[k + 1..];
      var st' := EncryptOne(st, rest[0]);
      LoopNames(m, cs, k + 1, st', rest[1..]);
      assert EncryptString(st, rest) == EncryptString(st', rest[1..]);
    }
  }

  /** The encryption loop keeps the functions invariant. */
  lemma {:induction false} LoopFunctions(m: Module, cs: seq<GlobalId>, k: nat, st: PassState, rest: seq<GlobalId>)
    requires EncryptedBookkeeping(m, cs, k, st) && st.m.globals[..|m.globals|] == m.globals && rest == cs[k..]
    requires EncryptedFunctions(m, cs, k, st)
    ensures forall i :: 0 <= i < |rest| ==> rest[i] < |st.m.globals|
    ensures EncryptString(st, rest).m.functions == RenameFunctions(Twins(cs, |m.globals|, |cs|), m.functions)
    decreases |rest|
  {
    forall i | 0 <= i < |rest| ensures rest[i] < |st.m.globals| { assert rest[i] in cs; }
    if |rest| > 0 {
      assert rest[0] == cs[k] && rest[1..] == cs[k + 1..];
      var st' := EncryptOne(st, cs[k]);
      PrefixStep(m, cs, k, st);
      EncryptStepFunctions(m, cs, k, st);
      LoopFunctions(m, cs, k + 1, st', rest[1..]);
      assert EncryptString(st, rest) == EncryptString(st', rest[1..]);
    }
  }

  /** Encryption processes every candidate, in order. */
  lemma EncryptionInvariant(m: Module)
    requires WellFormed(m)
    ensures Encrypted(m, SelectCandidates(m, 0), |SelectCandidates(m, 0)|, AfterEncryption(m))
  {
    var st := AfterSelection(m);
    var cs := st.needEncrypt;
    RenameFunctionsEmpty(m.functions);
    assert st.m.globals[..|m.globals|] == m.globals;
    assert cs[0..] == cs;
    assert EncryptedBookkeeping(m, cs, 0, st);
    LoopBookkeeping(m, cs, 0, st, cs);
    LoopGlobals(m, cs, 0, st, cs);
    LoopNames(m, cs, 0, st, cs);
    LoopFunctions(m, cs, 0, st, cs);
  }

  lemma TwinsOf(m: Module, cs: seq<GlobalId>, st: PassState)
    requires EncryptedBookkeeping(m, cs, |cs|, st) && EncryptedGlobals(m, cs, |cs|, st)
    ensures |st.m.globals| == |m.globals| + |cs|
    ensures forall i :: 0 <= i < |cs| ==> IsTwin(m, cs[i], i, st.m.globals[|m.globals| + i])
  {
  }

  /** Each candidate gets a twin, appended after the input's globals in
      candidate order. The twin keeps the candidate's linkage, is constant,
      and holds exactly the encrypted bytes: no terminator is added, so it
      has the plaintext's length. A twin is itself a candidate for a later
      run of the pass. */
  lemma TwinGlobals(m: Module)
    requires WellFormed(m)
    ensures var cs := SelectCandidates(m, 0);
      var m2 := AfterEncryption(m).m;
      && |m2.globals| == |m.globals| + |cs|
      && m2.globals[..|m.globals|] == m.globals
      && forall i :: 0 <= i < |cs| ==>
           var plain := m.globals[cs[i]].init.value.bytes;
           var twin := m2.globals[|m.globals| + i];
           && twin.linkage == m.globals[cs[i]].linkage
           && twin.isConst
           && twin.init == Some(ByteArray(Cipher.Encrypt(plain)))
           && |twin.init.value.bytes| == |plain|
           && IsCandidate(twin)
  {
    var cs := SelectCandidates(m, 0);
    var st := AfterEncryption(m);
    EncryptionInvariant(m);
    TwinsOf(m, cs, st);
    forall i | 0 <= i < |cs|
      ensures var plain := m.globals[cs[i]].init.value.bytes;
        var twin := st.m.globals[|m.globals| + i];
        && twin.linkage == m.globals[cs[i]].linkage
        && twin.isConst
        && twin.init == Some(ByteArray(Cipher.Encrypt(plain)))
        && |twin.init.value.bytes| == |plain|
        && IsCandidate(twin)
    {
      TwinFacts(m, cs[i], i, st.m.globals[|m.globals| + i]);
    }
  }

  lemma TwinFacts(m: Module, c: GlobalId, i: nat, t: Global)
    requires IsTwin(m, c, i, t)
    ensures var plain := m.globals[c].init.value.bytes;
      && t.linkage == m.globals[c].linkage
      && t.isConst
      && t.init == Some(ByteArray(Cipher.Encrypt(plain)))
      && |t.init.value.bytes| == |plain|
      && IsCandidate(t)
  {
  }

  lemma NamesOf(m: Module, cs: seq<GlobalId>, st: PassState)
    requires EncryptedBookkeeping(m, cs, |cs|, st) && EncryptedGlobals(m, cs, |cs|, st)
    ensures forall i :: 0 <= i < |cs| ==>
      (st.m.globals[|m.globals| + i].name == CounterName(i) <==> CounterName(i) !in LiveNames(m))
  {
    TwinsOf(m, cs, st);
    forall i | 0 <= i < |cs|
      ensures st.m.globals[|m.globals| + i].name == CounterName(i) <==> CounterName(i) !in LiveNames(m)
    {
      assert IsTwin(m, cs[i], i, st.m.globals[|m.globals| + i]);
    }
  }

  /** The i-th twin requests the name `.ollvmstr<i>`, and the name map sends
      exactly these names, one per candidate, to the twins. A twin carries
      its requested name unless the input's symbol table already holds it,
      as the name of a live global or of a function. */
  lemma CounterNaming(m: Module)
    requires WellFormed(m)
    ensures var cs := SelectCandidates(m, 0);
      var st := AfterEncryption(m);
      && st.counter == |cs|
      && |st.m.globals| == |m.globals| + |cs|
      && |st.names| == |cs|
      && (forall i :: 0 <= i < |cs| ==> CounterName(i) in st.names && st.names[CounterName(i)] == |m.globals| + i)
      && (forall s :: s in st.names ==> exists i :: 0 <= i < |cs| && s == CounterName(i))
      && (forall i :: 0 <= i < |cs| ==>
            (st.m.globals[|m.globals| + i].name == CounterName(i) <==> CounterName(i) !in LiveNames(m)))
  {
    var cs := SelectCandidates(m, 0);
    var st := AfterEncryption(m);
    EncryptionInvariant(m);
    NamesOf(m, cs, st);
    NameKeys(st.names, |cs|);
  }

  /** Every key of a map keyed by the first `k` counter names is one of them. */
  lemma NameKeys(names: map<string, GlobalId>, k: nat)
    requires names.Keys == CounterNames(k)
    ensures forall s :: s in names ==> exists i :: 0 <= i < k && s == CounterName(i)
  {
    CounterNamesSpec(k);
  }

  /** Distinct counter values request distinct names. */
  lemma CounterNamesDistinct(i: nat, k: nat)
    ensures CounterName(i) == CounterName(k) <==> i == k
  {
    Decimal.PrefixedInjective(NamePrefix, i, k);
  }

  /** After encryption every use of a candidate has been redirected to its
      twin, so no instruction uses a candidate; the delete list holds the
      candidates in order. */
  lemma UsesRedirected(m: Module)
    requires WellFormed(m)
    ensures var cs := SelectCandidates(m, 0);
      var st := AfterEncryption(m);
      && st.m.functions == RenameFunctions(Twins(cs, |m.globals|, |cs|), m.functions)
      && (forall i :: 0 <= i < |cs| ==> !FunctionsUseGlobal(st.m.functions, cs[i]))
      && st.needDeleteStrings == cs
  {
    EncryptionInvariant(m);
    var cs := SelectCandidates(m, 0);
    var r := Twins(cs, |m.globals|, |cs|);
    TwinsSpec(cs, |m.globals|, |cs|);
    forall i | 0 <= i < |cs| ensures !FunctionsUseGlobal(AfterEncryption(m).m.functions, cs[i]) {
      RenameFunctionsUses(r, m.functions, cs[i]);
    }
    assert cs[..|cs|] == cs;
  }

  // ---------------------------------------------------------------------
  // Phase 3: decryption at call sites (`insertDecryptCode`, `handleCall`)

  /** `AsWritten` is the pass as written; `Corrected` looks the twin up by
      handle rather than by name and keeps the argument's GEP offset. */
  datatype Variant = AsWritten | Corrected

  /** Element count of a twin's initializer (`getNumElements`). */
  function CipherLength(m: Module, g: GlobalId): nat {
    if g < |m.globals| && m.globals[g].init.Some? && m.globals[g].init.value.ByteArray?
    then |m.globals[g].init.value.bytes| else 0
  }

  /** The twin whose decryption replaces call argument `a`, if any: the
      argument must be a constant GEP expression based on a global variable.
      As written, the base's name must be a key of the name map, and the
      twin is the global the map sends it to. */
  function MatchArg(st: PassState, a: Operand, variant: Variant): Option<GlobalId> {
    match a
    case OConst(CGep(CGlobal(g), indices)) =>
      (match variant
       case AsWritten =>
         if g < |st.m.globals| && st.m.globals[g].name in st.names then Some(st.names[st.m.globals[g].name]) else None
       case Corrected =>
         if g in st.names.Values && ByteOffset(indices, CipherLength(st.m, g)).Some? then Some(g) else None)
    case _ => None
  }

  /** Byte offset of a constant GEP argument into an object of `len` bytes. */
  function ArgOffset(a: Operand, len: nat): int {
    match a
    case OConst(CGep(_, indices)) => (match ByteOffset(indices, len) case Some(d) => d case None => 0)
    case _ => 0
  }

  datatype Rewrite = Rewrite(code: seq<Instr>, replacement: Operand, next: ValueId)

  /** The code emitted before the call for one matched argument, and the
      value passed in its place: as written, the decrypted buffer itself;
      corrected, the buffer advanced by the argument's offset. */
  function DecryptArg(st: PassState, a: Operand, twin: GlobalId, next: ValueId, variant: Variant): (r: Rewrite)
    ensures r.replacement.Val? && next <= r.replacement.v < r.next
    ensures next < r.next
    ensures forall k :: 0 <= k < |r.code| ==> next <= r.code[k].id < r.next && !r.code[k].Call?
  {
    var len := CipherLength(st.m, twin);
    var e := Decryption.EmitDecrypt(OConst(CGlobal(twin)), false, len, next);
    Decryption.EmittedOperands(OConst(CGlobal(twin)), false, len, next);
    match variant
    case AsWritten => Rewrite(e.code, Val(e.buffer), e.next)
    case Corrected =>
      Rewrite(e.code + [Gep(e.next, true, Val(e.buffer), [OConst(CInt(ArgOffset(a, len)))])], Val(e.next), e.next + 1)
  }

  datatype ArgsRewrite = ArgsRewrite(code: seq<Instr>, args: seq<Operand>, next: ValueId)

  /** `handleCall` from argument `i` on: decryption code for every matched
      argument, in argument order, and the rewritten argument list. */
  function HandleArgs(st: PassState, args: seq<Operand>, i: nat, next: ValueId, variant: Variant): (r: ArgsRewrite)
    requires i <= |args|
    ensures |r.args| == |args| && next <= r.next
    ensures forall j :: 0 <= j < i ==> r.args[j] == args[j]
    ensures forall j :: i <= j < |args| && MatchArg(st, args[j], variant).None? ==> r.args[j] == args[j]
    ensures forall j :: i <= j < |args| && MatchArg(st, args[j], variant).Some? ==>
      r.args[j].Val? && next <= r.args[j].v < r.next
    ensures forall j :: i <= j < |args| ==> MatchArg(st, r.args[j], variant).None?
    ensures forall k :: 0 <= k < |r.code| ==> next <= r.code[k].id < r.next && !r.code[k].Call?
    decreases |args| - i
  {
    if i == |args| then ArgsRewrite([], args, next)
    else
      match MatchArg(st, args[i], variant)
      case None => HandleArgs(st, args, i + 1, next, variant)
      case Some(twin) =>
        var d := DecryptArg(st, args[i], twin, next, variant);
        var rest := HandleArgs(st, args[i := d.replacement], i + 1, d.next, variant);
        ArgsRewrite(d.code + rest.code, rest.args, rest.next)
  }

  datatype BodyRewrite = BodyRewrite(body: seq<Instr>, next: ValueId)

  /** What the walk puts in place of one instruction: a call preceded by the
      decryption code of its matched arguments; anything else unchanged. */
  function HandleInstr(st: PassState, x: Instr, next: ValueId, variant: Variant): (r: BodyRewrite)
    ensures next <= r.next
    ensures forall k, j :: 0 <= k < |r.body| && r.body[k].Call? && 0 <= j < |r.body[k].args| ==>
      MatchArg(st, r.body[k].args[j], variant).None?
  {
    if x.Call? then
      var a := HandleArgs(st, x.args, 0, next, variant);
      var here := a.code + [x.(args := a.args)];
      assert forall k :: 0 <= k < |here| && here[k].Call? ==> k == |here| - 1;
      BodyRewrite(here, a.next)
    else BodyRewrite([x], next)
  }

  /** The instruction walk of one function: only calls are handled; the
      decryption code goes right before its call and is not revisited. */
  function HandleBody(st: PassState, body: seq<Instr>, next: ValueId, variant: Variant): (r: BodyRewrite)
    ensures next <= r.next
    ensures forall k, j :: 0 <= k < |r.body| && r.body[k].Call? && 0 <= j < |r.body[k].args| ==>
      MatchArg(st, r.body[k].args[j], variant).None?
    decreases |body|
  {
    if |body| == 0 then BodyRewrite([], next)
    else
      var here := HandleInstr(st, body[0], next, variant);
      var tail := HandleBody(st, body[1..], here.next, variant);
      BodyRewrite(here.body + tail.body, tail.next)
  }

  /** `insertDecryptCode`: every function in module order, with handles for
      new instructions taken in order from `next`. */
  function HandleFunctions(st: PassState, fs: seq<Function>, next: ValueId, variant: Variant): (r: (seq<Function>, ValueId))
    ensures |r.0| == |fs| && next <= r.1
    ensures forall f :: 0 <= f < |fs| ==> r.0[f].name == fs[f].name
    ensures forall f, k, j :: 0 <= f < |fs| && 0 <= k < |r.0[f].body| && r.0[f].body[k].Call? && 0 <= j < |r.0[f].body[k].args| ==>
      MatchArg(st, r.0[f].body[k].args[j], variant).None?
    decreases |fs|
  {
    if |fs| == 0 then ([], next)
    else
      var b := HandleBody(st, fs[0].body, next, variant);
      var rest := HandleFunctions(st, fs[1..], b.next, variant);
      ([Function(fs[0].name, b.body)] + rest.0, rest.1)
  }

  function InsertDecryptCode(st: PassState, variant: Variant): PassState {
    var (fs, next) := HandleFunctions(st, st.m.functions, st.next, variant);
    st.(m := st.m.(functions := fs), next := next)
  }

  // ---------------------------------------------------------------------
  // Phase 4: deletion (`deleteInstructionAndGlobalVariable`)

  /** The instructions of a body whose handles are not in `ids`. */
  function EraseInstructions(body: seq<Instr>, ids: seq<ValueId>): (r: seq<Instr>)
    ensures forall k :: 0 <= k < |r| ==> r[k] in body && r[k].id !in ids
    ensures forall k :: 0 <= k < |body| && body[k].id !in ids ==> body[k] in r
    decreases |body|
  {
    if |body| == 0 then []
    else
      var rest := EraseInstructions(body[1..], ids);
      assert forall k :: 1 <= k < |body| ==> body[k] == body[1..][k - 1];
      if body[0].id in ids then rest else [body[0]] + rest
  }

  /** Erases the queued globals, then the queued instructions. */
  function DeleteInstructionAndGlobalVariable(st: PassState): Module {
    var fs := st.m.functions;
    Module(st.m.globals, st.m.erased + (set g | g in st.needDeleteStrings),
           seq(|fs|, f requires 0 <= f < |fs| => Function(fs[f].name, EraseInstructions(fs[f].body, st.needDeleteInstrs))))
  }

  // ---------------------------------------------------------------------
  // The pass

  function AfterDecryption(m: Module, variant: Variant): PassState {
    InsertDecryptCode(AfterEncryption(m), variant)
  }

  /** `runOnModule`: the transformed module, and whether the pass reports a
      change. */
  function RunOnModule(m: Module, variant: Variant): (Module, bool) {
    (DeleteInstructionAndGlobalVariable(AfterDecryption(m, variant)), true)
  }

  // ---------------------------------------------------------------------
  // Which globals the rewritten code uses

  predicate BodyUses(body: seq<Instr>, h: GlobalId) {
    exists k :: 0 <= k < |body| && InstrUsesGlobal(body[k], h)
  }

  /** A matched argument is always decrypted from a twin. */
  lemma MatchIsTwin(st: PassState, a: Operand, variant: Variant)
    ensures MatchArg(st, a, variant).Some? ==> MatchArg(st, a, variant).value in st.names.Values
  {
  }

  lemma DecryptArgUses(st: PassState, a: Operand, twin: GlobalId, next: ValueId, variant: Variant, h: GlobalId)
    ensures BodyUses(DecryptArg(st, a, twin, next, variant).code, h) ==> h == twin
  {
    var len := CipherLength(st.m, twin);
    var data := OConst(CGlobal(twin));
    var e := Decryption.EmitDecrypt(data, false, len, next);
    var code := DecryptArg(st, a, twin, next, variant).code;
    Decryption.EmittedOperands(data, false, len, next);
    forall k | 0 <= k < |code| && InstrUsesGlobal(code[k], h) ensures h == twin {
      if k < |e.code| {
        assert code[k] == e.code[k];
        Decryption.OnlyDataUses(e.code[k], data, h);
      } else {
        assert false;
      }
    }
  }

  lemma {:induction false} HandleArgsUses(st: PassState, args: seq<Operand>, i: nat, next: ValueId, variant: Variant, h: GlobalId)
    requires i <= |args|
    ensures var r := HandleArgs(st, args, i, next, variant);
      && (BodyUses(r.code, h) ==> h in st.names.Values)
      && (forall j :: 0 <= j < |args| && OperandUsesGlobal(r.args[j], h) ==> OperandUsesGlobal(args[j], h))
    decreases |args| - i
  {
    if i < |args| {
      MatchIsTwin(st, args[i], variant);
      match MatchArg(st, args[i], variant)
      case None => HandleArgsUses(st, args, i + 1, next, variant, h);
      case Some(twin) =>
        var d := DecryptArg(st, args[i], twin, next, variant);
        var args' := args[i := d.replacement];
        HandleArgsUses(st, args', i + 1, d.next, variant, h);
        DecryptArgUses(st, args[i], twin, next, variant, h);
        var rest := HandleArgs(st, args', i + 1, d.next, variant);
        BodyUsesAppend(d.code, rest.code, h);
    }
  }

  lemma CallUses(x: Instr, args': seq<Operand>, h: GlobalId)
    requires x.Call? && |args'| == |x.args|
    requires forall j :: 0 <= j < |x.args| && OperandUsesGlobal(args'[j], h) ==> OperandUsesGlobal(x.args[j], h)
    ensures InstrUsesGlobal(x.(args := args'), h) ==> InstrUsesGlobal(x, h)
  {
    if InstrUsesGlobal(x.(args := args'), h) {
      var ops := Operands(x.(args := args'));
      var j :| 0 <= j < |ops| && OperandUsesGlobal(ops[j], h);
      assert OperandUsesGlobal(Operands(x)[j], h);
    }
  }

  lemma BodyUsesAppend(a: seq<Instr>, b: seq<Instr>, h: GlobalId)
    ensures BodyUses(a + b, h) <==> BodyUses(a, h) || BodyUses(b, h)
  {
    if BodyUses(a + b, h) {
      var k :| 0 <= k < |a + b| && InstrUsesGlobal((a + b)[k], h);
      if k >= |a| {
        assert InstrUsesGlobal(b[k - |a|], h);
      }
    }
    if BodyUses(b, h) {
      var k :| 0 <= k < |b| && InstrUsesGlobal(b[k], h);
      assert InstrUsesGlobal((a + b)[k + |a|], h);
    }
    if BodyUses(a, h) {
      var k :| 0 <= k < |a| && InstrUsesGlobal(a[k], h);
      assert InstrUsesGlobal((a + b)[k], h);
    }
  }

  lemma HandleInstrUses(st: PassState, x: Instr, next: ValueId, variant: Variant, h: GlobalId)
    ensures BodyUses(HandleInstr(st, x, next, variant).body, h) ==> InstrUsesGlobal(x, h) || h in st.names.Values
  {
    if x.Call? {
      var a := HandleArgs(st, x.args, 0, next, variant);
      HandleArgsUses(st, x.args, 0, next, variant, h);
      CallUses(x, a.args, h);
      BodyUsesAppend(a.code, [x.(args := a.args)], h);
    }
  }

  /** Phase 3 introduces uses of twins only. */
  lemma {:induction false} HandleBodyUses(st: PassState, body: seq<Instr>, next: ValueId, variant: Variant, h: GlobalId)
    ensures BodyUses(HandleBody(st, body, next, variant).body, h) ==> BodyUses(body, h) || h in st.names.Values
    decreases |body|
  {
    if |body| > 0 {
      var here := HandleInstr(st, body[0], next, variant);
      var tail := HandleBody(st, body[1..], here.next, variant);
      HandleBodyUses(st, body[1..], here.next, variant, h);
      HandleInstrUses(st, body[0], next, variant, h);
      BodyUsesAppend(here.body, tail.body, h);
      BodyUsesAppend([body[0]], body[1..], h);
      assert [body[0]] + body[1..] == body;
    }
  }

  /** A function list uses `h` when its first body or the rest does. */
  lemma FunctionsUseCons(fs: seq<Function>, h: GlobalId)
    requires |fs| > 0
    ensures FunctionsUseGlobal(fs, h) <==> BodyUses(fs[0].body, h) || FunctionsUseGlobal(fs[1..], h)
  {
    if FunctionsUseGlobal(fs, h) {
      var f, k :| 0 <= f < |fs| && 0 <= k < |fs[f].body| && InstrUsesGlobal(fs[f].body[k], h);
      if f > 0 {
        assert fs[1..][f - 1] == fs[f];
      }
    }
    if FunctionsUseGlobal(fs[1..], h) {
      var f, k :| 0 <= f < |fs[1..]| && 0 <= k < |fs[1..][f].body| && InstrUsesGlobal(fs[1..][f].body[k], h);
      assert fs[f + 1] == fs[1..][f];
    }
  }

  lemma {:induction false} HandleFunctionsUses(st: PassState, fs: seq<Function>, next: ValueId, variant: Variant, h: GlobalId)
    ensures FunctionsUseGlobal(HandleFunctions(st, fs, next, variant).0, h) ==> FunctionsUseGlobal(fs, h) || h in st.names.Values
    decreases |fs|
  {
    if |fs| > 0 {
      var b := HandleBody(st, fs[0].body, next, variant);
      var rest := HandleFunctions(st, fs[1..], b.next, variant);
      HandleFunctionsUses(st, fs[1..], b.next, variant, h);
      HandleBodyUses(st, fs[0].body, next, variant, h);
      var out := HandleFunctions(st, fs, next, variant).0;
      assert out == [Function(fs[0].name, b.body)] + rest.0;
      assert out[0].body == b.body && out[1..] == rest.0;
      FunctionsUseCons(out, h);
      FunctionsUseCons(fs, h);
    }
  }

  // ---------------------------------------------------------------------
  // The whole pass

  lemma {:induction false} EraseNothing(body: seq<Instr>)
    ensures EraseInstructions(body, []) == body
    decreases |body|
  {
    if |body| > 0 {
      EraseNothing(body[1..]);
      assert [body[0]] + body[1..] == body;
    }
  }

  /** Twins and the name map's values are exactly the appended handles. */
  lemma {:induction false} TwinHandles(m: Module, cs: seq<GlobalId>, st: PassState)
    requires EncryptedBookkeeping(m, cs, |cs|, st) && EncryptedNames(m, |cs|, st)
    ensures forall h :: h in st.names.Values ==> |m.globals| <= h < |m.globals| + |cs|
    ensures forall h :: h in Twins(cs, |m.globals|, |cs|).Values ==> |m.globals| <= h < |m.globals| + |cs|
  {
    CounterMapValues(st.names, |m.globals|, |cs|);
    TwinsValues(cs, |m.globals|);
  }

  lemma {:induction false} CounterMapValues(names: map<string, GlobalId>, base: nat, k: nat)
    requires CounterMap(names, base, k)
    ensures forall h :: h in names.Values ==> base <= h < base + k
  {
    NameKeys(names, k);
    forall h | h in names.Values ensures base <= h < base + k {
      var s :| s in names && names[s] == h;
      var i :| 0 <= i < k && s == CounterName(i);
    }
  }

  lemma {:induction false} TwinsValues(cs: seq<GlobalId>, base: nat)
    requires forall a, b :: 0 <= a < b < |cs| ==> cs[a] < cs[b]
    ensures forall h :: h in Twins(cs, base, |cs|).Values ==> base <= h < base + |cs|
  {
    var r := Twins(cs, base, |cs|);
    TwinsSpec(cs, base, |cs|);
    forall h | h in r.Values ensures base <= h < base + |cs| {
      var g :| g in r && r[g] == h;
      var i :| 0 <= i < |cs| && cs[i] == g;
    }
  }

  lemma FinalUses(m: Module, variant: Variant, h: GlobalId)
    requires WellFormed(m)
    ensures var cs := SelectCandidates(m, 0);
      FunctionsUseGlobal(AfterDecryption(m, variant).m.functions, h) ==>
        (IsLive(m, h) && h !in cs) || |m.globals| <= h < |m.globals| + |cs|
  {
    EncryptionInvariant(m);
    FinalUsesOf(m, SelectCandidates(m, 0), AfterEncryption(m), variant, h);
  }

  lemma FinalUsesOf(m: Module, cs: seq<GlobalId>, st: PassState, variant: Variant, h: GlobalId)
    requires WellFormed(m)
    requires EncryptedBookkeeping(m, cs, |cs|, st) && EncryptedNames(m, |cs|, st) && EncryptedFunctions(m, cs, |cs|, st)
    ensures FunctionsUseGlobal(InsertDecryptCode(st, variant).m.functions, h) ==>
      (IsLive(m, h) && h !in cs) || |m.globals| <= h < |m.globals| + |cs|
  {
    TwinHandles(m, cs, st);
    var r := Twins(cs, |m.globals|, |cs|);
    TwinsSpec(cs, |m.globals|, |cs|);
    HandleFunctionsUses(st, st.m.functions, st.next, variant, h);
    RenameFunctionsUses(r, m.functions, h);
    assert InsertDecryptCode(st, variant).m.functions == HandleFunctions(st, st.m.functions, st.next, variant).0;
    if h in cs {
      var i :| 0 <= i < |cs| && cs[i] == h;
      assert h in r;
    }
  }

  lemma EncryptionBookkeeping(m: Module)
    requires WellFormed(m)
    ensures EncryptedBookkeeping(m, SelectCandidates(m, 0), |SelectCandidates(m, 0)|, AfterEncryption(m))
  {
    EncryptionInvariant(m);
  }

  /** Call-site decryption changes the functions and nothing else. */
  lemma InsertKeeps(st: PassState, variant: Variant)
    ensures var st' := InsertDecryptCode(st, variant);
      && st'.m.globals == st.m.globals && st'.m.erased == st.m.erased
      && st'.needDeleteStrings == st.needDeleteStrings && st'.needDeleteInstrs == st.needDeleteInstrs
      && st'.names == st.names
  {
  }

  lemma DeletionKeeps(st: PassState)
    requires st.needDeleteInstrs == []
    ensures var out := DeleteInstructionAndGlobalVariable(st);
      && out.globals == st.m.globals
      && out.erased == st.m.erased + (set g | g in st.needDeleteStrings)
      && out.functions == st.m.functions
  {
    var out := DeleteInstructionAndGlobalVariable(st);
    var fs := st.m.functions;
    forall f | 0 <= f < |fs| ensures out.functions[f] == fs[f] {
      EraseNothing(fs[f].body);
    }
  }

  /** The pass keeps the module well formed: the globals it erases are
      exactly the candidates, and no instruction is left using an erased
      global. The instruction-deletion list stays empty (only the GEP
      handler, which nothing calls, would fill it), so deletion leaves the
      functions alone; and the pass always reports a change. */
  lemma PassResult(m: Module, variant: Variant)
    requires WellFormed(m)
    ensures var cs := SelectCandidates(m, 0);
      var out := RunOnModule(m, variant);
      && out.1
      && AfterDecryption(m, variant).needDeleteInstrs == []
      && out.0.erased == m.erased + (set g | g in cs)
      && out.0.globals == AfterEncryption(m).m.globals
      && out.0.functions == AfterDecryption(m, variant).m.functions
      && WellFormed(out.0)
  {
    var cs := SelectCandidates(m, 0);
    var st2 := AfterEncryption(m);
    var st3 := AfterDecryption(m, variant);
    EncryptionBookkeeping(m);
    InsertKeeps(st2, variant);
    DeletionKeeps(st3);
    var out := RunOnModule(m, variant).0;
    assert st3.needDeleteStrings == cs by {
      assert cs[..|cs|] == cs;
    }
    forall h | FunctionsUseGlobal(out.functions, h) ensures IsLive(out, h) {
      FinalUses(m, variant, h);
    }
  }

  lemma SelectsAppended(out: Module, base: nat)
    requires base <= |out.globals|
    requires forall g :: g in out.erased ==> g < base
    requires forall g :: base <= g < |out.globals| ==> IsCandidate(out.globals[g])
    ensures forall g :: base <= g < |out.globals| ==> g in SelectCandidates(out, 0)
  {
    forall g | base <= g < |out.globals| ensures g in SelectCandidates(out, 0) {
      assert IsLive(out, g);
    }
  }

  lemma AppendedOf(m: Module, cs: seq<GlobalId>, st: PassState)
    requires EncryptedBookkeeping(m, cs, |cs|, st) && EncryptedGlobals(m, cs, |cs|, st)
    ensures forall g :: |m.globals| <= g < |st.m.globals| ==> IsCandidate(st.m.globals[g])
  {
    forall g | |m.globals| <= g < |st.m.globals| ensures IsCandidate(st.m.globals[g]) {
      var i := g - |m.globals|;
      assert IsTwin(m, cs[i], i, st.m.globals[|m.globals| + i]);
    }
  }

  lemma AppendedAreCandidates(m: Module)
    requires WellFormed(m)
    ensures var gs := AfterEncryption(m).m.globals;
      && |m.globals| <= |gs|
      && forall g :: |m.globals| <= g < |gs| ==> IsCandidate(gs[g])
  {
    EncryptionInvariant(m);
    AppendedOf(m, SelectCandidates(m, 0), AfterEncryption(m));
  }

  /** Every twin is selected again by a second run of the pass. */
  lemma SecondRunReselects(m: Module, variant: Variant)
    requires WellFormed(m)
    ensures var out := RunOnModule(m, variant).0;
      && |out.globals| == |m.globals| + |SelectCandidates(m, 0)|
      && forall g :: |m.globals| <= g < |out.globals| ==> g in SelectCandidates(out, 0)
  {
    var cs := SelectCandidates(m, 0);
    var out := RunOnModule(m, variant).0;
    PassResult(m, variant);
    AppendedAreCandidates(m);
    EncryptionBookkeeping(m);
    assert forall g :: g in out.erased ==> g < |m.globals| by {
      forall g | g in out.erased ensures g < |m.globals| {
        if g !in m.erased {
          assert g in cs;
        }
      }
    }
    SelectsAppended(out, |m.globals|);
  }

  // ---------------------------------------------------------------------
  // What the call-site walk keeps

  /** The instructions of a body whose handles are below `bound`, in order. */
  function Below(body: seq<Instr>, bound: ValueId): seq<Instr>
    decreases |body|
  {
    if |body| == 0 then [] else (if body[0].id < bound then [body[0]] else []) + Below(body[1..], bound)
  }

  lemma {:induction false} BelowAppend(a: seq<Instr>, b: seq<Instr>, bound: ValueId)
    ensures Below(a + b, bound) == Below(a, bound) + Below(b, bound)
    decreases |a|
  {
    if |a| > 0 {
      assert (a + b)[1..] == a[1..] + b;
      BelowAppend(a[1..], b, bound);
    } else {
      assert a + b == b;
    }
  }

  lemma {:induction false} BelowNone(code: seq<Instr>, bound: ValueId)
    requires forall k :: 0 <= k < |code| ==> bound <= code[k].id
    ensures Below(code, bound) == []
    decreases |code|
  {
    if |code| > 0 {
      BelowNone(code[1..], bound);
    }
  }

  /** `y` is what the walk leaves of input instruction `x`: a call keeps its
      handle and callee, and only its matched arguments are replaced, by
      values created after `bound`; anything else is untouched. */
  ghost predicate RewrittenFrom(st: PassState, variant: Variant, x: Instr, y: Instr, bound: ValueId) {
    if x.Call? then
      && y.Call? && y.id == x.id && y.callee == x.callee && |y.args| == |x.args|
      && forall j :: 0 <= j < |x.args| ==>
           if MatchArg(st, x.args[j], variant).Some? then y.args[j].Val? && bound <= y.args[j].v
           else y.args[j] == x.args[j]
    else y == x
  }

  lemma HandleInstrSkeleton(st: PassState, x: Instr, bound: ValueId, next: ValueId, variant: Variant)
    requires x.id < bound <= next
    ensures var out := Below(HandleInstr(st, x, next, variant).body, bound);
      |out| == 1 && RewrittenFrom(st, variant, x, out[0], bound)
  {
    if x.Call? {
      var a := HandleArgs(st, x.args, 0, next, variant);
      BelowAppend(a.code, [x.(args := a.args)], bound);
      BelowNone(a.code, bound);
    }
  }

  /** The walk keeps every input instruction, in order, as described by
      `RewrittenFrom`; all it adds are new instructions. */
  lemma {:induction false} HandleBodySkeleton(st: PassState, body: seq<Instr>, bound: ValueId, next: ValueId, variant: Variant)
    requires bound <= next
    requires forall k :: 0 <= k < |body| ==> body[k].id < bound
    ensures var out := Below(HandleBody(st, body, next, variant).body, bound);
      && |out| == |body|
      && forall k :: 0 <= k < |body| ==> RewrittenFrom(st, variant, body[k], out[k], bound)
    decreases |body|
  {
    if |body| > 0 {
      var here := HandleInstr(st, body[0], next, variant);
      var tail := HandleBody(st, body[1..], here.next, variant);
      HandleInstrSkeleton(st, body[0], bound, next, variant);
      HandleBodySkeleton(st, body[1..], bound, here.next, variant);
      BelowAppend(here.body, tail.body, bound);
      var out := Below(HandleBody(st, body, next, variant).body, bound);
      assert out == Below(here.body, bound) + Below(tail.body, bound);
      forall k | 1 <= k < |body| ensures RewrittenFrom(st, variant, body[k], out[k], bound) {
        assert body[k] == body[1..][k - 1];
      }
    }
  }

  lemma {:induction false} HandleFunctionsSkeleton(st: PassState, fs: seq<Function>, bound: ValueId, next: ValueId, variant: Variant)
    requires bound <= next
    requires forall f, k :: 0 <= f < |fs| && 0 <= k < |fs[f].body| ==> fs[f].body[k].id < bound
    ensures var out := HandleFunctions(st, fs, next, variant).0;
      forall f :: 0 <= f < |fs| ==>
        && |Below(out[f].body, bound)| == |fs[f].body|
        && forall k :: 0 <= k < |fs[f].body| ==> RewrittenFrom(st, variant, fs[f].body[k], Below(out[f].body, bound)[k], bound)
    decreases |fs|
  {
    if |fs| > 0 {
      var b := HandleBody(st, fs[0].body, next, variant);
      HandleBodySkeleton(st, fs[0].body, bound, next, variant);
      HandleFunctionsSkeleton(st, fs[1..], bound, b.next, variant);
      var out := HandleFunctions(st, fs, next, variant).0;
      forall f | 1 <= f < |fs| ensures out[f] == HandleFunctions(st, fs[1..], b.next, variant).0[f - 1] && fs[f] == fs[1..][f - 1] {
      }
    }
  }

  /** Only calls are touched: every instruction of the input survives the
      pass in order, non-call instructions exactly as encryption left them
      (each use of a candidate redirected to its twin), calls with only their
      matched arguments replaced. */
  lemma CallsOnlyRewritten(m: Module, variant: Variant)
    requires WellFormed(m)
    ensures var st := AfterEncryption(m);
      var out := RunOnModule(m, variant).0;
      var bound := FirstFreeId(m.functions);
      var r := Twins(SelectCandidates(m, 0), |m.globals|, |SelectCandidates(m, 0)|);
      && |out.functions| == |m.functions|
      && forall f :: 0 <= f < |m.functions| ==>
           && out.functions[f].name == m.functions[f].name
           && |Below(out.functions[f].body, bound)| == |m.functions[f].body|
           && forall k :: 0 <= k < |m.functions[f].body| ==>
                RewrittenFrom(st, variant, RenameInstr(r, m.functions[f].body[k]), Below(out.functions[f].body, bound)[k], bound)
  {
    var st := AfterEncryption(m);
    EncryptionInvariant(m);
    PassResult(m, variant);
    var bound := FirstFreeId(m.functions);
    var fs := st.m.functions;
    forall f, k | 0 <= f < |fs| && 0 <= k < |fs[f].body| ensures fs[f].body[k].id < bound {
      RenameInstrOperands(Twins(SelectCandidates(m, 0), |m.globals|, |SelectCandidates(m, 0)|), m.functions[f].body[k]);
    }
    HandleFunctionsSkeleton(st, fs, bound, st.next, variant);
  }

  // ---------------------------------------------------------------------
  // What a rewritten call sees

  /** `t` is `s` after running code whose fresh handles start at `next`: the
      memory only grew or changed at buffers allocated from `next` on, and the
      values below `next` are as they were. */
  ghost predicate Extends(s: Interp.State, t: Interp.State, next: ValueId) {
    && (forall q :: q in s.mem ==> q in t.mem)
    && (forall q :: q in s.mem && !(q.StackObj? && next <= q.a) ==> t.mem[q] == s.mem[q])
    && (forall q :: q in t.mem && !(q.StackObj? && next <= q.a) ==> q in s.mem)
    && (forall v :: v in s.env && v < next ==> v in t.env && t.env[v] == s.env[v])
  }

  lemma ExtendsTrans(s: Interp.State, t: Interp.State, u: Interp.State, n1: ValueId, n2: ValueId)
    requires Extends(s, t, n1) && Extends(t, u, n2) && n1 <= n2
    ensures Extends(s, u, n1)
  {
  }

  /** Operand `o` is a value below `n` holding a pointer into a buffer
      allocated below `n`. */
  ghost predicate PointsBelow(t: Interp.State, o: Operand, n: ValueId) {
    && o.Val? && o.v < n && o.v in t.env
    && t.env[o.v].VPtr? && t.env[o.v].obj.StackObj? && t.env[o.v].obj.a < n
    && t.env[o.v].obj in t.mem
  }

  lemma PointeeStable(t: Interp.State, u: Interp.State, o: Operand, n: ValueId)
    requires PointsBelow(t, o, n) && Extends(t, u, n)
    ensures PointsBelow(u, o, n) && Interp.Pointee(u, o) == Interp.Pointee(t, o)
  {
  }

  /** The twins are in memory, each object as long as the twin's data. */
  ghost predicate TwinsLoaded(st: PassState, s: Interp.State) {
    forall g :: g in st.names.Values ==>
      Interp.GlobalObj(g) in s.mem && |s.mem[Interp.GlobalObj(g)]| == CipherLength(st.m, g)
  }

  /** Memory as if global `g` held the decryption of its bytes. */
  function PlainView(s: Interp.State, g: GlobalId): Interp.State
    requires Interp.GlobalObj(g) in s.mem
  {
    s.(mem := s.mem[Interp.GlobalObj(g) := Cipher.Decrypt(s.mem[Interp.GlobalObj(g)])])
  }

  /** A constant sees only the global objects. */
  lemma ConstPointeeFrame(s1: Interp.State, s2: Interp.State, c: Const)
    requires forall g :: Interp.GlobalObj(g) in s1.mem <==> Interp.GlobalObj(g) in s2.mem
    requires forall g :: Interp.GlobalObj(g) in s1.mem ==> s1.mem[Interp.GlobalObj(g)] == s2.mem[Interp.GlobalObj(g)]
    ensures Interp.Pointee(s1, OConst(c)) == Interp.Pointee(s2, OConst(c))
  {
    Interp.EvalConstFrame(s1.mem, s2.mem, c);
    Interp.ConstPointsIntoGlobal(s1.mem, c);
  }

  /** The decryption loop emitted for a twin, run where the twin is loaded. */
  lemma BufferRun(st: PassState, twin: GlobalId, next: ValueId, s: Interp.State)
    requires Interp.GlobalObj(twin) in s.mem && |s.mem[Interp.GlobalObj(twin)]| == CipherLength(st.m, twin)
    ensures var e := Decryption.EmitDecrypt(OConst(CGlobal(twin)), false, CipherLength(st.m, twin), next);
      && Interp.Run(s, e.code).Some?
      && var t := Interp.Run(s, e.code).value;
      && Extends(s, t, next)
      && Interp.StackObj(next) in t.mem && next in t.env
      && t.mem[Interp.StackObj(next)] == Cipher.Decrypt(s.mem[Interp.GlobalObj(twin)])
      && t.env[next] == Interp.VPtr(Interp.StackObj(next), 0)
  {
    var len := CipherLength(st.m, twin);
    var o := Interp.GlobalObj(twin);
    Decryption.DecryptFillsBuffer(s, OConst(CGlobal(twin)), false, len, next, o, 0);
    assert s.mem[o][0..len] == s.mem[o];
    var t := Interp.Run(s, Decryption.EmitDecrypt(OConst(CGlobal(twin)), false, len, next).code).value;
    ExtendsByAlloc(s, t, next);
  }

  /** Allocating one buffer at `next` and defining values from `next` on
      extends the state. */
  lemma ExtendsByAlloc(s: Interp.State, t: Interp.State, next: ValueId)
    requires t.mem.Keys == s.mem.Keys + {Interp.StackObj(next)}
    requires forall q :: q in s.mem && q != Interp.StackObj(next) ==> t.mem[q] == s.mem[q]
    requires forall v :: v in s.env && v < next ==> v in t.env && t.env[v] == s.env[v]
    ensures Extends(s, t, next)
  {
  }

  lemma DecryptArgAsWritten(st: PassState, a: Operand, twin: GlobalId, next: ValueId, s: Interp.State)
    requires Interp.GlobalObj(twin) in s.mem && |s.mem[Interp.GlobalObj(twin)]| == CipherLength(st.m, twin)
    ensures var d := DecryptArg(st, a, twin, next, AsWritten);
      && Interp.Run(s, d.code).Some?
      && var t := Interp.Run(s, d.code).value;
      && Extends(s, t, next)
      && PointsBelow(t, d.replacement, d.next)
      && Interp.Pointee(t, d.replacement) == Some(Cipher.Decrypt(s.mem[Interp.GlobalObj(twin)]))
  {
    BufferRun(st, twin, next, s);
    var t := Interp.Run(s, DecryptArg(st, a, twin, next, AsWritten).code).value;
    assert t.mem[Interp.StackObj(next)][0..] == t.mem[Interp.StackObj(next)];
  }

  /** The corrected argument, read in the plain view, is `off` bytes into
      the twin's plaintext. */
  lemma PlainPointee(st: PassState, a: Operand, twin: GlobalId, s: Interp.State)
    requires MatchArg(st, a, Corrected) == Some(twin)
    requires Interp.GlobalObj(twin) in s.mem && |s.mem[Interp.GlobalObj(twin)]| == CipherLength(st.m, twin)
    ensures Interp.Eval(PlainView(s, twin), a)
      == Some(Interp.VPtr(Interp.GlobalObj(twin), ArgOffset(a, CipherLength(st.m, twin))))
    ensures var plain, off := Cipher.Decrypt(s.mem[Interp.GlobalObj(twin)]), ArgOffset(a, CipherLength(st.m, twin));
      Interp.Pointee(PlainView(s, twin), a) == (if 0 <= off <= |plain| then Some(plain[off..]) else None)
  {
    var pv := PlainView(s, twin);
    var o := Interp.GlobalObj(twin);
    assert |pv.mem[o]| == CipherLength(st.m, twin);
    match a
    case OConst(CGep(CGlobal(g), indices)) =>
      assert g == twin;
      assert Interp.EvalConst(pv.mem, CGlobal(g)) == Some(Interp.VPtr(o, 0));
  }

  /** The pointer step the corrected rewrite appends after the loop. */
  lemma OffsetStep(t1: Interp.State, next: ValueId, d: ValueId, off: int)
    requires Interp.StackObj(next) in t1.mem && next in t1.env && t1.env[next] == Interp.VPtr(Interp.StackObj(next), 0)
    ensures Interp.Run(t1, [Gep(d, true, Val(next), [OConst(CInt(off))])])
      == Some(t1.(env := t1.env[d := Interp.VPtr(Interp.StackObj(next), off)]))
  {
    Decryption.StepDst(t1, next, d, off);
  }

  lemma DecryptArgCorrected(st: PassState, a: Operand, twin: GlobalId, next: ValueId, s: Interp.State)
    requires MatchArg(st, a, Corrected) == Some(twin)
    requires Interp.GlobalObj(twin) in s.mem && |s.mem[Interp.GlobalObj(twin)]| == CipherLength(st.m, twin)
    ensures var d := DecryptArg(st, a, twin, next, Corrected);
      && Interp.Run(s, d.code).Some?
      && var t := Interp.Run(s, d.code).value;
      && Extends(s, t, next)
      && PointsBelow(t, d.replacement, d.next)
      && Interp.Pointee(t, d.replacement) == Interp.Pointee(PlainView(s, twin), a)
  {
    var len := CipherLength(st.m, twin);
    var e := Decryption.EmitDecrypt(OConst(CGlobal(twin)), false, len, next);
    var off := ArgOffset(a, len);
    var gep := Gep(e.next, true, Val(next), [OConst(CInt(off))]);
    var d := DecryptArg(st, a, twin, next, Corrected);
    assert d == Rewrite(e.code + [gep], Val(e.next), e.next + 1);
    BufferRun(st, twin, next, s);
    var t1 := Interp.Run(s, e.code).value;
    Interp.RunAppend(s, e.code, [gep]);
    OffsetStep(t1, next, e.next, off);
    var t2 := t1.(env := t1.env[e.next := Interp.VPtr(Interp.StackObj(next), off)]);
    assert Interp.Run(s, d.code) == Some(t2);
    GepTail(s, t1, next, e.next, off);
    PlainPointee(st, a, twin, s);
  }

  /** The final `getelementptr` of the corrected rewrite: a fresh value
      pointing `off` bytes into the buffer. */
  lemma GepTail(s: Interp.State, t1: Interp.State, next: ValueId, d: ValueId, off: int)
    requires Extends(s, t1, next) && next <= d
    requires Interp.StackObj(next) in t1.mem && next in t1.env && t1.env[next] == Interp.VPtr(Interp.StackObj(next), 0)
    ensures var t2 := t1.(env := t1.env[d := Interp.VPtr(Interp.StackObj(next), off)]);
      var buf := t1.mem[Interp.StackObj(next)];
      && Extends(s, t2, next)
      && PointsBelow(t2, Val(d), d + 1)
      && Interp.Pointee(t2, Val(d)) == (if 0 <= off <= |buf| then Some(buf[off..]) else None)
  {
  }

  /** What the callee should see through a matched argument: as written, the
      whole decrypted twin; corrected, what the original argument would show
      if the twin held its plaintext. */
  ghost function Expected(s: Interp.State, a: Operand, twin: GlobalId, variant: Variant): Option<seq<Byte>>
    requires Interp.GlobalObj(twin) in s.mem
  {
    match variant
    case AsWritten => Some(Cipher.Decrypt(s.mem[Interp.GlobalObj(twin)]))
    case Corrected => Interp.Pointee(PlainView(s, twin), a)
  }

  /** Argument `a` was rewritten to `b`, and in state `t` the callee sees
      through `b` what it should. */
  ghost predicate ArgSeen(st: PassState, s: Interp.State, a: Operand, b: Operand, t: Interp.State, n: ValueId, variant: Variant) {
    match MatchArg(st, a, variant)
    case Some(twin) =>
      Interp.GlobalObj(twin) in s.mem && PointsBelow(t, b, n) && Interp.Pointee(t, b) == Expected(s, a, twin, variant)
    case None => a.OConst? ==> Interp.Pointee(t, b) == Interp.Pointee(s, a)
  }

  /** Running code that leaves the global objects alone changes neither the
      expected view nor what constants point to. */
  lemma ExpectedFrame(s: Interp.State, t: Interp.State, a: Operand, twin: GlobalId, variant: Variant, next: ValueId)
    requires Extends(s, t, next) && Interp.GlobalObj(twin) in s.mem
    requires variant == Corrected ==> a.OConst?
    ensures Interp.GlobalObj(twin) in t.mem
    ensures Expected(t, a, twin, variant) == Expected(s, a, twin, variant)
  {
    if variant == Corrected {
      ConstPointeeFrame(PlainView(s, twin), PlainView(t, twin), a.c);
    }
  }

  lemma ConstFrame(s: Interp.State, t: Interp.State, a: Operand, next: ValueId)
    requires Extends(s, t, next) && a.OConst?
    ensures Interp.Pointee(t, a) == Interp.Pointee(s, a)
  {
    ConstPointeeFrame(s, t, a.c);
  }

  ghost predicate DecryptArgRunsPost(st: PassState, a: Operand, twin: GlobalId, next: ValueId, variant: Variant, s: Interp.State) {
    var d := DecryptArg(st, a, twin, next, variant);
    && Interp.Run(s, d.code).Some?
    && var t := Interp.Run(s, d.code).value;
    && Extends(s, t, next) && TwinsLoaded(st, t)
    && ArgSeen(st, s, a, d.replacement, t, d.next, variant)
  }

  lemma DecryptArgRuns(st: PassState, a: Operand, twin: GlobalId, next: ValueId, variant: Variant, s: Interp.State)
    requires MatchArg(st, a, variant) == Some(twin)
    requires TwinsLoaded(st, s)
    ensures DecryptArgRunsPost(st, a, twin, next, variant, s)
  {
    MatchIsTwin(st, a, variant);
    if variant == AsWritten {
      DecryptArgAsWritten(st, a, twin, next, s);
    } else {
      DecryptArgCorrected(st, a, twin, next, s);
    }
  }

  /** An argument seen correctly from `t1` is seen correctly from `s` when
      `t1` only extends `s`. */
  lemma ArgSeenFrame(st: PassState, s: Interp.State, t1: Interp.State, a: Operand, b: Operand, t: Interp.State, n: ValueId, variant: Variant, next: ValueId)
    requires Extends(s, t1, next) && TwinsLoaded(st, s)
    requires ArgSeen(st, t1, a, b, t, n, variant)
    ensures ArgSeen(st, s, a, b, t, n, variant)
  {
    match MatchArg(st, a, variant)
    case Some(tw) =>
      MatchIsTwin(st, a, variant);
      ExpectedFrame(s, t1, a, tw, variant, next);
    case None =>
      if a.OConst? {
        ConstFrame(s, t1, a, next);
      }
  }

  /** The rewrite of arguments `i..` ran from `s` to `t`, as described above. */
  ghost predicate ArgsRan(st: PassState, args: seq<Operand>, i: nat, r: ArgsRewrite, next: ValueId, variant: Variant, s: Interp.State)
    requires i <= |args| == |r.args|
  {
    && Interp.Run(s, r.code).Some?
    && var t := Interp.Run(s, r.code).value;
    && Extends(s, t, next) && TwinsLoaded(st, t)
    && forall j :: i <= j < |args| ==> ArgSeen(st, s, args[j], r.args[j], t, r.next, variant)
  }

  lemma ArgsRanMatched(st: PassState, args: seq<Operand>, i: nat, next: ValueId, variant: Variant, s: Interp.State, twin: GlobalId)
    requires i < |args| && TwinsLoaded(st, s) && MatchArg(st, args[i], variant) == Some(twin)
    requires var d := DecryptArg(st, args[i], twin, next, variant);
      DecryptArgRunsPost(st, args[i], twin, next, variant, s)
      && ArgsRan(st, args[i := d.replacement], i + 1, HandleArgs(st, args[i := d.replacement], i + 1, d.next, variant),
                 d.next, variant, Interp.Run(s, d.code).value)
    ensures ArgsRan(st, args, i, HandleArgs(st, args, i, next, variant), next, variant, s)
  {
    var r := HandleArgs(st, args, i, next, variant);
    var d := DecryptArg(st, args[i], twin, next, variant);
    var args' := args[i := d.replacement];
    var rest := HandleArgs(st, args', i + 1, d.next, variant);
    assert r == ArgsRewrite(d.code + rest.code, rest.args, rest.next);
    var t1 := Interp.Run(s, d.code).value;
    var t := Interp.Run(t1, rest.code).value;
    Interp.RunAppend(s, d.code, rest.code);
    assert Interp.Run(s, r.code) == Some(t);
    ExtendsTrans(s, t1, t, next, d.next);
    PointeeStable(t1, t, d.replacement, d.next);
    assert ArgSeen(st, s, args[i], r.args[i], t, r.next, variant);
    forall j | i < j < |args|
      ensures ArgSeen(st, s, args[j], r.args[j], t, r.next, variant)
    {
      assert args'[j] == args[j];
      ArgSeenFrame(st, s, t1, args[j], r.args[j], t, r.next, variant, next);
    }
  }

  lemma ArgsRanUnmatched(st: PassState, args: seq<Operand>, i: nat, next: ValueId, variant: Variant, s: Interp.State)
    requires i < |args| && MatchArg(st, args[i], variant).None?
    requires ArgsRan(st, args, i + 1, HandleArgs(st, args, i + 1, next, variant), next, variant, s)
    ensures ArgsRan(st, args, i, HandleArgs(st, args, i, next, variant), next, variant, s)
  {
    var r := HandleArgs(st, args, i, next, variant);
    var t := Interp.Run(s, r.code).value;
    if args[i].OConst? {
      ConstFrame(s, t, args[i], next);
    }
  }

  /** Use-site equivalence of `handleCall`: the emitted code runs, touches
      only its own fresh buffers, and each matched argument is replaced by a
      pointer through which the callee sees the decrypted string. */
  lemma {:induction false} HandleArgsSemantics(st: PassState, args: seq<Operand>, i: nat, next: ValueId, variant: Variant, s: Interp.State)
    requires i <= |args| && TwinsLoaded(st, s)
    ensures ArgsRan(st, args, i, HandleArgs(st, args, i, next, variant), next, variant, s)
    decreases |args| - i
  {
    if i < |args| {
      match MatchArg(st, args[i], variant)
      case None =>
        HandleArgsSemantics(st, args, i + 1, next, variant, s);
        ArgsRanUnmatched(st, args, i, next, variant, s);
      case Some(twin) =>
        var d := DecryptArg(st, args[i], twin, next, variant);
        DecryptArgRuns(st, args[i], twin, next, variant, s);
        HandleArgsSemantics(st, args[i := d.replacement], i + 1, d.next, variant, Interp.Run(s, d.code).value);
        ArgsRanMatched(st, args, i, next, variant, s, twin);
    }
  }

  /** In the plain view a twin reads like the candidate it replaced: a
      constant GEP into the twin shows what the same GEP into the candidate
      showed before the pass. */
  lemma PlainViewMatchesOriginal(s: Interp.State, c: GlobalId, twin: GlobalId, indices: seq<int>)
    requires c != twin && Interp.GlobalObj(c) in s.mem && Interp.GlobalObj(twin) in s.mem
    requires s.mem[Interp.GlobalObj(twin)] == Cipher.Encrypt(s.mem[Interp.GlobalObj(c)])
    ensures Interp.Pointee(PlainView(s, twin), OConst(CGep(CGlobal(twin), indices)))
         == Interp.Pointee(s, OConst(CGep(CGlobal(c), indices)))
  {
    var pv := PlainView(s, twin);
    Cipher.DecryptEncrypt(s.mem[Interp.GlobalObj(c)]);
    assert pv.mem[Interp.GlobalObj(twin)] == s.mem[Interp.GlobalObj(c)];
    assert Interp.EvalConst(pv.mem, CGep(CGlobal(twin), indices))
        == Interp.Gep(pv.mem, Interp.VPtr(Interp.GlobalObj(twin), 0), indices);
    assert Interp.EvalConst(s.mem, CGep(CGlobal(c), indices))
        == Interp.Gep(s.mem, Interp.VPtr(Interp.GlobalObj(c), 0), indices);
  }

  // ---------------------------------------------------------------------
  // Findings

  /** As written, a call argument that points `off` bytes into a string is
      replaced by the start of the decrypted buffer: the callee sees the
      whole string instead of its tail. The corrected rewrite keeps the
      offset. */
  lemma AsWrittenDropsOffset(st: PassState, twin: GlobalId, indices: seq<int>, s: Interp.State)
    requires twin < |st.m.globals| && st.m.globals[twin].name in st.names
    requires st.names[st.m.globals[twin].name] == twin
    requires Interp.GlobalObj(twin) in s.mem && |s.mem[Interp.GlobalObj(twin)]| == CipherLength(st.m, twin)
    requires ByteOffset(indices, CipherLength(st.m, twin)).Some?
    requires 0 < ByteOffset(indices, CipherLength(st.m, twin)).value <= CipherLength(st.m, twin)
    ensures var a := OConst(CGep(CGlobal(twin), indices));
      var plain := Cipher.Decrypt(s.mem[Interp.GlobalObj(twin)]);
      var off := ByteOffset(indices, CipherLength(st.m, twin)).value;
      && MatchArg(st, a, AsWritten) == Some(twin)
      && MatchArg(st, a, Corrected) == Some(twin)
      && Expected(s, a, twin, AsWritten) == Some(plain)
      && Expected(s, a, twin, Corrected) == Some(plain[off..])
      && Expected(s, a, twin, AsWritten) != Expected(s, a, twin, Corrected)
  {
    var a := OConst(CGep(CGlobal(twin), indices));
    assert twin in st.names.Values;
    PlainPointee(st, a, twin, s);
  }

  /** As written, handleCall finds a twin by its name. When the module
      already has a live global or a function called `.ollvmstr<i>`, the
      i-th twin is renamed on creation, so its own uses are left encrypted;
      and when the owner of the name is a global `u`, uses of `u` are
      replaced by the twin's plaintext. */
  lemma {:induction false} NameClashMissesTwin(m: Module, u: GlobalId, i: nat, indices: seq<int>)
    requires WellFormed(m)
    requires i < |SelectCandidates(m, 0)|
    requires CounterName(i) in LiveNames(m)
    ensures var st := AfterEncryption(m);
      var twin := |m.globals| + i;
      && MatchArg(st, OConst(CGep(CGlobal(twin), indices)), AsWritten).None?
      && (IsLive(m, u) && m.globals[u].name == CounterName(i) ==>
            MatchArg(st, OConst(CGep(CGlobal(u), indices)), AsWritten) == Some(twin))
  {
    var st := AfterEncryption(m);
    var twin := |m.globals| + i;
    ClashedTwinUnnamed(m, i);
    AsWrittenMiss(st, twin, indices);
    if IsLive(m, u) && m.globals[u].name == CounterName(i) {
      ClashOwnerNamed(m, u, i);
      AsWrittenLookup(st, u, st.m.globals[u].name, indices);
    }
  }

  /** The as-written lookup of a global whose name is a key of the name map. */
  lemma AsWrittenLookup(st: PassState, g: GlobalId, name: string, indices: seq<int>)
    requires g < |st.m.globals| && st.m.globals[g].name == name && name in st.names
    ensures MatchArg(st, OConst(CGep(CGlobal(g), indices)), AsWritten) == Some(st.names[name])
  {
  }

  /** The as-written lookup of a global whose name is not a key misses. */
  lemma AsWrittenMiss(st: PassState, g: GlobalId, indices: seq<int>)
    requires g < |st.m.globals| && st.m.globals[g].name !in st.names
    ensures MatchArg(st, OConst(CGep(CGlobal(g), indices)), AsWritten).None?
  {
  }

  /** Where the i-th twin sits, the key that leads to it, and when it keeps
      that key as its name. */
  lemma TwinOfCounter(m: Module, i: nat)
    requires WellFormed(m)
    requires i < |SelectCandidates(m, 0)|
    ensures var st := AfterEncryption(m);
      var twin := |m.globals| + i;
      && twin < |st.m.globals|
      && CounterName(i) in st.names && st.names[CounterName(i)] == twin
      && (st.m.globals[twin].name == CounterName(i) <==> CounterName(i) !in LiveNames(m))
  {
    CounterNaming(m);
  }

  lemma ClashedTwinUnnamed(m: Module, i: nat)
    requires WellFormed(m)
    requires i < |SelectCandidates(m, 0)|
    requires CounterName(i) in LiveNames(m)
    ensures var st := AfterEncryption(m);
      |m.globals| + i < |st.m.globals| && st.m.globals[|m.globals| + i].name !in st.names
  {
    var cs := SelectCandidates(m, 0);
    var st := AfterEncryption(m);
    var twin := |m.globals| + i;
    CounterNaming(m);
    EncryptionInvariant(m);
    TwinsOf(m, cs, st);
    assert IsTwin(m, cs[i], i, st.m.globals[twin]);
    var name := st.m.globals[twin].name;
    assert name != CounterName(i);
    forall k | 0 <= k < |cs| ensures name != CounterName(k) {
      if k != i {
        NamedAfterOnly(name, i, k);
      }
    }
  }

  lemma ClashOwnerNamed(m: Module, u: GlobalId, i: nat)
    requires WellFormed(m)
    requires i < |SelectCandidates(m, 0)|
    requires IsLive(m, u) && m.globals[u].name == CounterName(i)
    ensures var st := AfterEncryption(m);
      && u < |st.m.globals| && st.m.globals[u].name in st.names
      && st.names[st.m.globals[u].name] == |m.globals| + i
  {
    var st := AfterEncryption(m);
    CounterNaming(m);
    TwinGlobals(m);
    assert st.m.globals[u] == st.m.globals[..|m.globals|][u];
  }

  /** Without a clash the as-written lookup finds the twin. */
  lemma {:induction false} AsWrittenFindsUnclashedTwin(m: Module, i: nat, indices: seq<int>)
    requires WellFormed(m)
    requires i < |SelectCandidates(m, 0)|
    requires CounterName(i) !in LiveNames(m)
    ensures var twin := |m.globals| + i;
      MatchArg(AfterEncryption(m), OConst(CGep(CGlobal(twin), indices)), AsWritten) == Some(twin)
  {
    TwinOfCounter(m, i);
    AsWrittenLookup(AfterEncryption(m), |m.globals| + i, CounterName(i), indices);
  }

  /** The corrected lookup goes by handle: every twin is found whatever its
      name, and no global of the input is ever taken for a twin. */
  lemma CorrectedFindsEveryTwin(m: Module, i: nat, g: GlobalId, indices: seq<int>)
    requires WellFormed(m)
    requires i < |SelectCandidates(m, 0)|
    requires g < |m.globals|
    ensures var st := AfterEncryption(m);
      var twin := |m.globals| + i;
      && (ByteOffset(indices, CipherLength(st.m, twin)).Some? ==>
            MatchArg(st, OConst(CGep(CGlobal(twin), indices)), Corrected) == Some(twin))
      && MatchArg(st, OConst(CGep(CGlobal(g), indices)), Corrected).None?
  {
    EncryptionInvariant(m);
    CorrectedFindsTwinOf(m, SelectCandidates(m, 0), AfterEncryption(m), i, g, indices);
  }

  lemma CorrectedFindsTwinOf(m: Module, cs: seq<GlobalId>, st: PassState, i: nat, g: GlobalId, indices: seq<int>)
    requires EncryptedBookkeeping(m, cs, |cs|, st) && EncryptedNames(m, |cs|, st)
    requires i < |cs| && g < |m.globals|
    ensures var twin := |m.globals| + i;
      && (ByteOffset(indices, CipherLength(st.m, twin)).Some? ==>
            MatchArg(st, OConst(CGep(CGlobal(twin), indices)), Corrected) == Some(twin))
      && MatchArg(st, OConst(CGep(CGlobal(g), indices)), Corrected).None?
  {
    TwinHandles(m, cs, st);
    assert CounterName(i) in st.names && st.names[CounterName(i)] == |m.globals| + i;
    CorrectedLookup(st, |m.globals|, |m.globals| + i, g, indices);
  }

  /** The corrected lookup accepts exactly the name map's targets. */
  lemma CorrectedLookup(st: PassState, base: nat, twin: GlobalId, g: GlobalId, indices: seq<int>)
    requires forall h :: h in st.names.Values ==> base <= h
    requires twin in st.names.Values && g < base
    ensures ByteOffset(indices, CipherLength(st.m, twin)).Some? ==>
      MatchArg(st, OConst(CGep(CGlobal(twin), indices)), Corrected) == Some(twin)
    ensures MatchArg(st, OConst(CGep(CGlobal(g), indices)), Corrected).None?
  {
  }

  /** A module in which the clash happens: a non-constant global already
      called `.ollvmstr0` next to one candidate string. */
  function ClashModule(): Module {
    Module([Global(".ollvmstr0", ExternalLinkage, false, None),
            Global("s", PrivateLinkage, true, Some(ByteArray([104, 105])))], {}, [])
  }

  lemma ClashExample()
    ensures var m := ClashModule();
      && SelectCandidates(m, 0) == [1]
      && MatchArg(AfterEncryption(m), OConst(CGep(CGlobal(2), [0, 0])), AsWritten).None?
      && MatchArg(AfterEncryption(m), OConst(CGep(CGlobal(0), [0, 0])), AsWritten) == Some(2)
  {
    var m := ClashModule();
    assert IsCandidate(m.globals[1]) && !IsCandidate(m.globals[0]);
    var cs := SelectCandidates(m, 0);
    assert cs == [1] by {
      assert forall g :: g in cs <==> g == 1;
    }
    assert CounterName(0) == ".ollvmstr0";
    NameClashMissesTwin(m, 0, 0, [0, 0]);
  }

  /** A module in which a function owns the name: a function called
      `.ollvmstr0` next to one candidate string. */
  function FunctionClashModule(): Module {
    Module([Global("s", PrivateLinkage, true, Some(ByteArray([104, 105])))], {},
           [Function(".ollvmstr0", [])])
  }

  /** The twin of "hi" cannot take the function's name, so it is renamed
      and the as-written lookup misses it: its uses keep the ciphertext. */
  lemma FunctionClashExample()
    ensures var m := FunctionClashModule();
      && SelectCandidates(m, 0) == [0]
      && AfterEncryption(m).m.globals[1].name != ".ollvmstr0"
      && MatchArg(AfterEncryption(m), OConst(CGep(CGlobal(1), [0, 0])), AsWritten).None?
  {
    var m := FunctionClashModule();
    assert IsCandidate(m.globals[0]);
    var cs := SelectCandidates(m, 0);
    assert cs == [0] by {
      assert forall g :: g in cs <==> g == 0;
    }
    assert CounterName(0) == ".ollvmstr0";
    assert m.functions[0] in m.functions;
    assert CounterName(0) in LiveNames(m);
    TwinOfCounter(m, 0);
    NameClashMissesTwin(m, 0, 0, [0, 0]);
  }
}
