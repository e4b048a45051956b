/** The cache of module bytes that concurrent callers share.

    `get_runtime` takes the lock twice, to look up and to insert, and anything may happen
    in between. The class gives each critical section; the state machine below lets any
    number of callers interleave them with evictions. */
module RuntimePool {
  import opened FabricksModules
  import opened Wrappers

  type Modules = map<string, Bytes>

  function Max(a: nat, b: nat): (m: nat)
    ensures (m == a || m == b) && m >= a && m >= b
  {
    if a < b then b else a
  }

  /** The effect of inserting: at capacity, some cached module makes room first. Which one
      is up to the iteration order of a hash map. */
  ghost predicate Inserted(maxModules: nat, before: Modules, digest: string, wasm: Bytes, after: Modules) {
    if |before| >= maxModules && before != map[] then
      exists victim :: victim in before && after == (before - {victim})[digest := wasm]
    else
      after == before[digest := wasm]
  }

  class RuntimePool {
    const maxModules: nat
    var modules: Modules

    constructor (maxModules: nat)
      ensures this.maxModules == maxModules && modules == map[]
    {
      this.maxModules, modules := maxModules, map[];
    }

    /** First critical section of `get_runtime`. */
    method Check(digest: string) returns (cached: Option<Bytes>)
      ensures cached == Get(modules, digest)
    {
      cached := if digest in modules then Some(modules[digest]) else None;
    }

    /** Second critical section of `get_runtime`, entered after a miss. */
    method EvictAndInsert(digest: string, wasm: Bytes)
      modifies this
      ensures Inserted(maxModules, old(modules), digest, wasm, modules)
      ensures digest in modules && modules[digest] == wasm
      ensures forall d :: d in modules && d != digest ==> d in old(modules) && modules[d] == old(modules)[d]
      ensures if |old(modules)| < maxModules || old(modules) == map[] then
                modules.Keys == old(modules).Keys + {digest}
              else
                exists victim :: victim in old(modules) && modules.Keys == (old(modules).Keys - {victim}) + {digest}
      ensures |old(modules)| <= Max(1, maxModules) ==> |modules| <= Max(1, maxModules)
      ensures |old(modules).Keys - modules.Keys| <= 1
    {
      ghost var before := modules;
      if |modules| >= maxModules {
        if modules.Keys != {} {
          var victim :| victim in modules.Keys;
          modules := modules - {victim};
        }
      }
      modules := modules[digest := wasm];
      assert Inserted(maxModules, before, digest, wasm, modules);
      hide Inserted;
      InsertKeepsBound(maxModules, before, digest, wasm, modules);
      InsertedKeys(maxModules, before, digest, wasm, modules);
    }

    /** A call that nobody interrupts: the cached bytes if there are any, or else the
        caller's own, which are then cached. */
    method GetRuntime(digest: string, wasm: Bytes) returns (bytes: Bytes)
      modifies this
      ensures bytes == if digest in old(modules) then old(modules)[digest] else wasm
      ensures if digest in old(modules) then modules == old(modules)
              else Inserted(maxModules, old(modules), digest, wasm, modules)
      ensures digest in modules && modules[digest] == bytes
    {
      var cached := Check(digest);
      if cached.Some? {
        return cached.value;
      }
      EvictAndInsert(digest, wasm);
      return wasm;
    }

    method HasModule(digest: string) returns (present: bool)
      ensures present <==> digest in modules
    {
      present := digest in modules;
    }

    method Evict(digest: string)
      modifies this
      ensures modules == old(modules) - {digest}
    {
      modules := modules - {digest};
    }

    method Clear()
      modifies this
      ensures modules == map[]
    {
      modules := map[];
    }

    method CachedCount() returns (count: nat)
      ensures count == |modules|
    {
      count := |modules|;
    }
  }

  // ---------------------------------------------------------------- interleavings

  datatype Call = Call(digest: string, wasm: Bytes)

  datatype Phase = Started | Missed | Returned(bytes: Bytes)

  datatype Thread = Thread(call: Call, phase: Phase)

  /** The shared cache and every call made so far, each somewhere in its protocol. */
  datatype Pool = Pool(maxModules: nat, modules: Modules, threads: map<nat, Thread>)

  datatype Step =
    | Start(id: nat, call: Call)
    | Lookup(id: nat)
    | Insert(id: nat)
    | EvictOne(digest: string)
    | ClearAll

  ghost predicate Init(s: Pool) {
    s.modules == map[] && s.threads == map[]
  }

  ghost predicate Next(s: Pool, t: Pool, step: Step) {
    && t.maxModules == s.maxModules
    && match step
       case Start(id, call) =>
         id !in s.threads && t.modules == s.modules && t.threads == s.threads[id := Thread(call, Started)]
       case Lookup(id) =>
         && id in s.threads && s.threads[id].phase == Started && t.modules == s.modules
         && (var call := s.threads[id].call;
             t.threads == s.threads[id := Thread(call, if call.digest in s.modules
                                                       then Returned(s.modules[call.digest]) else Missed)])
       case Insert(id) =>
         && id in s.threads && s.threads[id].phase == Missed
         && (var call := s.threads[id].call;
             && Inserted(s.maxModules, s.modules, call.digest, call.wasm, t.modules)
             && t.threads == s.threads[id := Thread(call, Returned(call.wasm))])
       case EvictOne(digest) => t.modules == s.modules - {digest} && t.threads == s.threads
       case ClearAll => t.modules == map[] && t.threads == s.threads
  }

  ghost predicate Enabled(s: Pool, step: Step) {
    match step
    case Start(id, _) => id !in s.threads
    case Lookup(id) => id in s.threads && s.threads[id].phase == Started
    case Insert(id) => id in s.threads && s.threads[id].phase == Missed
    case EvictOne(_) => true
    case ClearAll => true
  }

  /** The critical sections of the pool are the steps of the machine. */
  method Take(pool: RuntimePool, s: Pool, step: Step) returns (t: Pool)
    requires s.maxModules == pool.maxModules && s.modules == pool.modules && Enabled(s, step)
    modifies pool
    ensures Next(s, t, step) && t.modules == pool.modules
  {
    var threads := s.threads;
    match step {
      case Start(id, call) =>
        threads := threads[id := Thread(call, Started)];
      case Lookup(id) =>
        var cached := pool.Check(threads[id].call.digest);
        var phase := if cached.Some? then Returned(cached.value) else Missed;
        threads := threads[id := Thread(threads[id].call, phase)];
      case Insert(id) =>
        var call := threads[id].call;
        pool.EvictAndInsert(call.digest, call.wasm);
        threads := threads[id := Thread(call, Returned(call.wasm))];
      case EvictOne(digest) =>
        pool.Evict(digest);
      case ClearAll =>
        pool.Clear();
    }
    t := Pool(s.maxModules, pool.modules, threads);
  }

  ghost predicate CanFollow(s: Pool, t: Pool) {
    exists step :: Next(s, t, step)
  }

  ghost predicate IsRun(run: seq<Pool>) {
    && run != [] && Init(run[0])
    && forall i :: 0 <= i < |run| - 1 ==> CanFollow(run[i], run[i + 1])
  }

  // ---------------------------------------------------------------- safety

  ghost predicate Supplied(s: Pool, digest: string, bytes: Bytes) {
    exists id :: id in s.threads && s.threads[id].call == Call(digest, bytes)
  }

  /** The cache is small, and whatever is cached under or returned for a digest was
      supplied by some caller for that digest. */
  ghost predicate Safe(s: Pool) {
    && |s.modules| <= Max(1, s.maxModules)
    && (forall digest :: digest in s.modules ==> Supplied(s, digest, s.modules[digest]))
    && (forall id :: id in s.threads && s.threads[id].phase.Returned?
          ==> Supplied(s, s.threads[id].call.digest, s.threads[id].phase.bytes))
  }

  ghost predicate CallersAgree(s: Pool) {
    forall i, j :: i in s.threads && j in s.threads && s.threads[i].call.digest == s.threads[j].call.digest
                   ==> s.threads[i].call.wasm == s.threads[j].call.wasm
  }

  /** Every call got what it would get without a cache: its own bytes. */
  ghost predicate Transparent(s: Pool) {
    forall id :: id in s.threads && s.threads[id].phase.Returned?
      ==> s.threads[id].phase.bytes == s.threads[id].call.wasm
  }

  lemma InsertKeepsBound(maxModules: nat, before: Modules, digest: string, wasm: Bytes, after: Modules)
    requires Inserted(maxModules, before, digest, wasm, after)
    ensures |before| <= Max(1, maxModules) ==> |after| <= Max(1, maxModules)
  {
  }

  /** The module is in, nothing else has changed, and only a full cache has lost a module,
      namely one. */
  lemma InsertedKeys(maxModules: nat, before: Modules, digest: string, wasm: Bytes, after: Modules)
    requires Inserted(maxModules, before, digest, wasm, after)
    ensures digest in after && after[digest] == wasm
    ensures forall d :: d in after && d != digest ==> d in before && after[d] == before[d]
    ensures if |before| < maxModules || before == map[] then after.Keys == before.Keys + {digest}
            else exists victim :: victim in before && after.Keys == (before.Keys - {victim}) + {digest}
    ensures |before.Keys - after.Keys| <= 1
  {
    if |before| >= maxModules && before != map[] {
      var victim :| victim in before && after == (before - {victim})[digest := wasm];
      ReplacedOne(before, victim, digest, wasm);
    } else {
      LostNone(before, digest, wasm);
    }
  }

  lemma ReplacedOne(before: Modules, victim: string, digest: string, wasm: Bytes)
    ensures (before - {victim})[digest := wasm].Keys == (before.Keys - {victim}) + {digest}
    ensures |before.Keys - (before - {victim})[digest := wasm].Keys| <= 1
  {
    SubsetSize(before.Keys - (before - {victim})[digest := wasm].Keys, victim);
  }

  lemma LostNone(before: Modules, digest: string, wasm: Bytes)
    ensures before[digest := wasm].Keys == before.Keys + {digest}
    ensures |before.Keys - before[digest := wasm].Keys| == 0
  {
    assert before.Keys - before[digest := wasm].Keys == {};
  }

  lemma SubsetSize(s: set<string>, x: string)
    requires s <= {x}
    ensures |s| <= 1
  {
    assert s == {} || s == {x};
  }

  lemma SuppliedStays(s: Pool, t: Pool, digest: string, bytes: Bytes)
    requires CanFollow(s, t) && Supplied(s, digest, bytes)
    ensures Supplied(t, digest, bytes)
  {
    var id :| id in s.threads && s.threads[id].call == Call(digest, bytes);
    assert id in t.threads && t.threads[id].call == s.threads[id].call;
  }

  lemma StepIsSafe(s: Pool, t: Pool, step: Step)
    requires Safe(s) && Next(s, t, step)
    ensures Safe(t)
  {
    forall digest, bytes | Supplied(s, digest, bytes)
      ensures Supplied(t, digest, bytes)
    {
      SuppliedStays(s, t, digest, bytes);
    }
    match step
    case Start(_, _) =>
    case Lookup(_) =>
    case Insert(id) =>
      var call := s.threads[id].call;
      InsertKeepsBound(s.maxModules, s.modules, call.digest, call.wasm, t.modules);
      assert t.threads[id].call == Call(call.digest, call.wasm);
      assert Supplied(t, call.digest, call.wasm);
    case EvictOne(digest) =>
      assert t.modules.Keys == s.modules.Keys - {digest};
    case ClearAll =>
  }

  lemma {:induction false} RunsAreSafe(run: seq<Pool>)
    requires IsRun(run)
    ensures forall s :: s in run ==> Safe(s)
    decreases |run|
  {
    var n := |run| - 1;
    if n > 0 {
      var init := run[..n];
      forall i | 0 <= i < |init| - 1
        ensures CanFollow(init[i], init[i + 1])
      {
        assert CanFollow(run[i], run[i + 1]);
      }
      RunsAreSafe(init);
      assert CanFollow(run[n - 1], run[n - 1 + 1]);
      var step :| Next(run[n - 1], run[n], step);
      assert init[n - 1] in init;
      StepIsSafe(run[n - 1], run[n], step);
      assert run == init + [run[n]];
    }
  }

  /** In every interleaving the cache stays within its bound, and it is invisible to
      callers who agree on what a digest stands for. */
  lemma CacheIsTransparent(run: seq<Pool>)
    requires IsRun(run)
    ensures forall s :: s in run ==> |s.modules| <= Max(1, s.maxModules)
    ensures forall s :: s in run && CallersAgree(s) ==> Transparent(s)
  {
    RunsAreSafe(run);
    forall s | s in run && CallersAgree(s)
      ensures Transparent(s)
    {
      forall id | id in s.threads && s.threads[id].phase.Returned?
        ensures s.threads[id].phase.bytes == s.threads[id].call.wasm
      {
        assert Supplied(s, s.threads[id].call.digest, s.threads[id].phase.bytes);
      }
    }
  }

  // ---------------------------------------------------------------- the hypotheses are needed

  ghost function Alone(maxModules: nat, first: Call): seq<Pool> {
    [ Pool(maxModules, map[], map[]),
      Pool(maxModules, map[], map[0 := Thread(first, Started)]),
      Pool(maxModules, map[], map[0 := Thread(first, Missed)]),
      Pool(maxModules, map[first.digest := first.wasm], map[0 := Thread(first, Returned(first.wasm))]) ]
  }

  lemma AloneIsRun(maxModules: nat, first: Call)
    ensures IsRun(Alone(maxModules, first))
  {
    var run := Alone(maxModules, first);
    assert Next(run[0], run[1], Start(0, first));
    assert Next(run[1], run[2], Lookup(0));
    assert Inserted(maxModules, map[], first.digest, first.wasm, map[first.digest := first.wasm]);
    assert Next(run[2], run[3], Insert(0));
  }

  /** A pool of capacity zero still caches one module, so the bound cannot be the capacity. */
  lemma ZeroCapacityCachesOne(first: Call)
    ensures exists run: seq<Pool> :: IsRun(run) && exists s: Pool :: s in run && |s.modules| > s.maxModules
  {
    var run := Alone(0, first);
    AloneIsRun(0, first);
    assert run[3] in run && |run[3].modules| > run[3].maxModules;
  }

  lemma ExtendRun(run: seq<Pool>, t: Pool, step: Step)
    requires IsRun(run) && Next(run[|run| - 1], t, step)
    ensures IsRun(run + [t])
  {
  }

  /** Callers who disagree about a digest can be served each other's bytes, at any capacity. */
  lemma DisagreementShows(maxModules: nat, first: Call, second: Call)
    requires first.digest == second.digest && first.wasm != second.wasm
    ensures exists run: seq<Pool> :: IsRun(run) && run[0].maxModules == maxModules && !Transparent(run[|run| - 1])
  {
    var run := Alone(maxModules, first);
    AloneIsRun(maxModules, first);
    var s := run[3];
    var t := s.(threads := s.threads[1 := Thread(second, Started)]);
    ExtendRun(run, t, Start(1, second));
    var u := t.(threads := t.threads[1 := Thread(second, Returned(first.wasm))]);
    ExtendRun(run + [t], u, Lookup(1));
    var whole := run + [t] + [u];
    assert whole[|whole| - 1] == u && u.threads[1].phase.bytes != second.wasm;
    assert whole[0].maxModules == maxModules;
  }
}
