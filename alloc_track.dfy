/** The tracking allocator of `src/lib.rs`: the per-thread re-entrancy flag,
    the pointer map, the per-backtrace ledger, the per-slot counters and the
    two reports built from them. The wrapped allocator is an oracle: the
    pointer it hands out for an allocation is a parameter, and every call
    passed through to it is logged. */
module AllocTrack {
  import opened Wrappers
  import opened TrackConfig
  import opened UnsignedMath
  import opened Backtraces
  import ReportOrder
  import ThreadReports

  /** `PointerData`: the slot that made an allocation and the hash of the
      stack it was made from. */
  datatype PointerData = PointerData(allocThreadId: nat, traceHash: nat)

  /** A call passed through to the wrapped allocator. */
  datatype InnerCall = InnerAlloc(size: nat, ptr: nat) | InnerDealloc(ptr: nat, size: nat)

  /** The panics of `alloc` and `dealloc`: the `assert!` on the slot, the
      `expect("double free")`, and the out-of-bounds index into
      `THREAD_STORE` when a slot at or above the limit frees memory. */
  datatype Failure =
    | ThreadLimitExceeded(tid: nat)
    | DoubleFree(ptr: nat)
    | SlotIndexOutOfBounds(tid: nat)

  // ---------------------------------------------------------------------
  // The backtrace ledger (`TRACE_MAP`)

  /** The `or_insert_with` + `+=` of `alloc`: the first stack seen for a hash
      is kept with zeroed totals, then the size and one allocation are
      added. */
  function RecordAlloc(tm: map<nat, TraceInfo>, trace: HashedBacktrace, mode: BacktraceMode, size: nat): (r: map<nat, TraceInfo>)
    ensures r.Keys == tm.Keys + {trace.hash}
    ensures forall h :: h in tm && h != trace.hash ==> r[h] == tm[h]
    ensures trace.hash in tm ==>
      var prev := tm[trace.hash];
      r[trace.hash] == TraceInfo(prev.backtrace, prev.allocatedBytes + size, prev.freedBytes, prev.allocations + 1, prev.mode)
    ensures trace.hash !in tm ==> r[trace.hash] == TraceInfo(trace, size, 0, 1, mode)
  {
    var info := if trace.hash in tm then tm[trace.hash] else TraceInfo(trace, 0, 0, 0, mode);
    tm[trace.hash := info.(allocatedBytes := info.allocatedBytes + size, allocations := info.allocations + 1)]
  }

  /** The `get_mut` + `+=` of `dealloc`: the freed size is added to the
      record of the hash if there is one; a missing hash changes nothing. */
  function RecordFree(tm: map<nat, TraceInfo>, hash: nat, size: nat): (r: map<nat, TraceInfo>)
    ensures r.Keys == tm.Keys
    ensures forall h :: h in tm && h != hash ==> r[h] == tm[h]
    ensures hash in tm ==> r[hash] == tm[hash].(freedBytes := tm[hash].freedBytes + size)
    ensures hash !in tm ==> r == tm
  {
    if hash in tm then tm[hash := tm[hash].(freedBytes := tm[hash].freedBytes + size)] else tm
  }

  /** Two allocations from the same call site share one record: the first
      stack is kept, the sizes add up and the count is two. */
  lemma SameSiteSharesRecord(tm: map<nat, TraceInfo>, t1: HashedBacktrace, t2: HashedBacktrace, mode: BacktraceMode, s1: nat, s2: nat)
    requires t1.hash !in tm && SameSite(t1, t2)
    ensures var r := RecordAlloc(RecordAlloc(tm, t1, mode, s1), t2, mode, s2);
      r.Keys == tm.Keys + {t1.hash}
      && r[t1.hash] == TraceInfo(t1, s1 + s2, 0, 2, mode)
  {
  }

  /** Freeing an allocation gives back exactly what allocating it added to
      the bytes in use of its record. */
  lemma FreeUndoesAlloc(tm: map<nat, TraceInfo>, t: HashedBacktrace, mode: BacktraceMode, size: nat)
    ensures var r := RecordFree(RecordAlloc(tm, t, mode, size), t.hash, size);
      r.Keys == tm.Keys + {t.hash}
      && (t.hash in tm ==> InUse(MetricOf(r[t.hash])) == InUse(MetricOf(tm[t.hash])))
      && (t.hash !in tm ==> InUse(MetricOf(r[t.hash])) == 0)
      && r[t.hash].allocations == (if t.hash in tm then tm[t.hash].allocations else 0) + 1
  {
  }

  // ---------------------------------------------------------------------
  // The report of backtraces

  function EntryOf(info: TraceInfo): (e: ReportEntry)
    ensures e.backtrace == info.backtrace && e.metric == MetricOf(info)
  {
    ReportEntry(info.backtrace, MetricOf(info))
  }

  /** The records of the given hashes that the filter keeps, as report
      entries. */
  function Selected(tm: map<nat, TraceInfo>, filter: (Backtrace, BacktraceMetric) -> bool, hs: set<nat>): set<ReportEntry>
    requires forall h :: h in tm ==> tm[h].backtrace.inner.Some?
  {
    set h | h in hs && h in tm && filter(tm[h].backtrace.inner.value, MetricOf(tm[h])) :: EntryOf(tm[h])
  }

  /** The ledger is keyed by the hash of each record's stack. */
  predicate KeyedByHash(tm: map<nat, TraceInfo>) {
    forall h :: h in tm ==> tm[h].backtrace.hash == h && tm[h].backtrace.inner.Some?
  }

  /** Visiting one more hash adds its entry, if the filter keeps it, to the
      multiset of entries collected so far. Entries of distinct hashes are
      distinct, so nothing is counted twice. */
  lemma SelectedStep(tm: map<nat, TraceInfo>, filter: (Backtrace, BacktraceMetric) -> bool, done: set<nat>, h: nat)
    requires KeyedByHash(tm) && h in tm && h !in done
    ensures var e := EntryOf(tm[h]);
      if filter(tm[h].backtrace.inner.value, MetricOf(tm[h]))
      then multiset(Selected(tm, filter, done + {h})) == multiset(Selected(tm, filter, done)) + multiset{e}
      else Selected(tm, filter, done + {h}) == Selected(tm, filter, done)
  {
    var e := EntryOf(tm[h]);
    var a := Selected(tm, filter, done);
    var b := Selected(tm, filter, done + {h});
    if filter(tm[h].backtrace.inner.value, MetricOf(tm[h])) {
      assert e !in a;
      assert b == a + {e};
    }
  }

  /** Every selected entry has a stack and the ledger's mode, which is not
      None. */
  lemma SelectedPrintable(tm: map<nat, TraceInfo>, filter: (Backtrace, BacktraceMetric) -> bool, mode: BacktraceMode)
    requires KeyedByHash(tm)
    requires forall h :: h in tm ==> tm[h].mode == mode && !mode.None?
    ensures forall e :: e in Selected(tm, filter, tm.Keys) ==> Printable(e) && e.metric.mode == mode
  {
  }

  // ---------------------------------------------------------------------
  // The invariant of the maps

  /** What `alloc` and `dealloc` keep true of `PTR_MAP` and `TRACE_MAP`:
      every pointer belongs to a slot below the limit; with capture
      disabled the ledger stays empty and every pointer has the sentinel
      hash, otherwise every pointer's hash has a record; each record is
      keyed by its own stack's hash, carries the tracker's mode and counts
      at least one allocation. */
  predicate Consistent(mode: BacktraceMode, ptrMap: map<nat, PointerData>, traceMap: map<nat, TraceInfo>) {
    && (forall p :: p in ptrMap ==> ptrMap[p].allocThreadId < MaxThreads)
    && (mode.None? ==> traceMap == map[] && forall p :: p in ptrMap ==> ptrMap[p].traceHash == 0)
    && (!mode.None? ==> forall p :: p in ptrMap ==> ptrMap[p].traceHash in traceMap)
    && KeyedByHash(traceMap)
    && (forall h :: h in traceMap ==> traceMap[h].mode == mode && traceMap[h].allocations >= 1)
  }

  /** A tracked allocation keeps the maps consistent. */
  lemma AllocKeepsConsistent(mode: BacktraceMode, ptrMap: map<nat, PointerData>, traceMap: map<nat, TraceInfo>,
                             ptr: nat, slot: nat, trace: HashedBacktrace, size: nat)
    requires Consistent(mode, ptrMap, traceMap) && slot < MaxThreads
    requires mode.None? <==> trace.inner.None?
    requires mode.None? ==> trace.hash == 0
    ensures Consistent(mode, ptrMap[ptr := PointerData(slot, trace.hash)],
                       if mode.None? then traceMap else RecordAlloc(traceMap, trace, mode, size))
  {
  }

  /** A tracked free of a known pointer keeps the maps consistent, and the
      pointer's record is always there to be credited when capture is
      enabled. */
  lemma FreeKeepsConsistent(mode: BacktraceMode, ptrMap: map<nat, PointerData>, traceMap: map<nat, TraceInfo>,
                            ptr: nat, size: nat)
    requires Consistent(mode, ptrMap, traceMap) && ptr in ptrMap
    ensures !mode.None? ==> ptrMap[ptr].traceHash in traceMap
    ensures Consistent(mode, ptrMap - {ptr},
                       if mode.None? then traceMap else RecordFree(traceMap, ptrMap[ptr].traceHash, size))
  {
  }

  // ---------------------------------------------------------------------
  // The allocations `backtrace_report` makes for its result

  /** A tracked allocation made while the report is cloned: its size, the
      address the wrapped allocator returns, and the stack it is made from. */
  datatype Request = Request(size: nat, ptr: nat, stack: Backtrace)

  /** A block freed when the original report is dropped: its address and
      size. */
  datatype Release = Release(ptr: nat, size: nat)

  /** The addresses handed out for the requests. */
  function Addresses(rs: seq<Request>): (ps: set<nat>)
    ensures forall q :: q in rs ==> q.ptr in ps
    ensures forall p :: p in ps ==> exists q :: q in rs && q.ptr == p
  {
    set q | q in rs :: q.ptr
  }

  /** The bytes the requests ask for. */
  function RequestedBytes(rs: seq<Request>): nat {
    if |rs| == 0 then 0 else RequestedBytes(rs[..|rs| - 1]) + rs[|rs| - 1].size
  }

  /** The per-slot counters with `n` bytes added to the one of `slot`, if
      there is one. */
  function Raised(counters: seq<nat>, slot: nat, n: nat): seq<nat> {
    if slot < |counters| then counters[slot := counters[slot] + n] else counters
  }

  /** Only the counter of `slot` moves, and it moves by `n`. */
  lemma RaisedAt(counters: seq<nat>, slot: nat, n: nat)
    ensures |Raised(counters, slot, n)| == |counters|
    ensures forall i :: 0 <= i < |counters| ==>
      Raised(counters, slot, n)[i] == counters[i] + if i == slot then n else 0
  {
  }

  /** Raising a counter twice raises it by the sum. */
  lemma RaisedTwice(counters: seq<nat>, slot: nat, a: nat, b: nat)
    ensures Raised(Raised(counters, slot, a), slot, b) == Raised(counters, slot, a + b)
  {
  }

  /** Raising a counter by nothing leaves the counters alone. */
  lemma RaisedNothing(counters: seq<nat>, slot: nat)
    ensures Raised(counters, slot, 0) == counters
  {
    if slot < |counters| {
      assert counters[slot := counters[slot] + 0] == counters;
    }
  }

  /** One more raise of the same counter adds up with the earlier ones. */
  lemma RaisedStep(counters: seq<nat>, before: seq<nat>, after: seq<nat>, slot: nat, a: nat, b: nat, total: nat)
    requires before == Raised(counters, slot, a) && after == Raised(before, slot, b) && total == a + b
    ensures after == Raised(counters, slot, total)
  {
    RaisedTwice(counters, slot, a, b);
  }

  /** One more call appended to a log that extends `calls` by `done`. */
  lemma AppendStep<T>(calls: seq<T>, done: seq<T>, before: seq<T>, after: seq<T>, c: T)
    requires before == calls + done && after == before + [c]
    ensures after == calls + (done + [c])
  {
  }

  /** The calls that tracked allocations pass to the wrapped allocator. */
  function AllocCalls(rs: seq<Request>): seq<InnerCall> {
    if |rs| == 0 then [] else AllocCalls(rs[..|rs| - 1]) + [InnerAlloc(rs[|rs| - 1].size, rs[|rs| - 1].ptr)]
  }

  /** The calls that untracked frees pass to the wrapped allocator. */
  function DeallocCalls(ds: seq<Release>): seq<InnerCall> {
    if |ds| == 0 then [] else DeallocCalls(ds[..|ds| - 1]) + [InnerDealloc(ds[|ds| - 1].ptr, ds[|ds| - 1].size)]
  }

  /** `PTR_MAP` after the requests are tracked for `slot`, one after the
      other. */
  function PtrsAfter(pm: map<nat, PointerData>, slot: nat, mode: BacktraceMode, hasher: Hasher, rs: seq<Request>): map<nat, PointerData> {
    if |rs| == 0 then pm
    else
      var q := rs[|rs| - 1];
      PtrsAfter(pm, slot, mode, hasher, rs[..|rs| - 1])[q.ptr := PointerData(slot, Capture(mode, q.stack, hasher).hash)]
  }

  /** `TRACE_MAP` after the requests are recorded one after the other. */
  function TraceAfter(tm: map<nat, TraceInfo>, mode: BacktraceMode, hasher: Hasher, rs: seq<Request>): map<nat, TraceInfo> {
    if |rs| == 0 then tm
    else
      var q := rs[|rs| - 1];
      RecordAlloc(TraceAfter(tm, mode, hasher, rs[..|rs| - 1]), Capture(mode, q.stack, hasher), mode, q.size)
  }

  /** One more request: one more step of each fold. */
  lemma RequestStep(pm: map<nat, PointerData>, tm: map<nat, TraceInfo>, slot: nat, mode: BacktraceMode, hasher: Hasher,
                    rs: seq<Request>, k: nat)
    requires k < |rs|
    ensures var q, trace := rs[k], Capture(mode, rs[k].stack, hasher);
      && PtrsAfter(pm, slot, mode, hasher, rs[..k + 1]) == PtrsAfter(pm, slot, mode, hasher, rs[..k])[q.ptr := PointerData(slot, trace.hash)]
      && TraceAfter(tm, mode, hasher, rs[..k + 1]) == RecordAlloc(TraceAfter(tm, mode, hasher, rs[..k]), trace, mode, q.size)
      && AllocCalls(rs[..k + 1]) == AllocCalls(rs[..k]) + [InnerAlloc(q.size, q.ptr)]
      && RequestedBytes(rs[..k + 1]) == RequestedBytes(rs[..k]) + q.size
  {
    assert rs[..k + 1][..k] == rs[..k];
  }

  /** After the clone, every address it was handed belongs to the calling
      slot, so dropping the returned report later is a tracked free and not
      a double free; every other address keeps its entry. */
  lemma {:induction false} PtrsAfterOwned(pm: map<nat, PointerData>, slot: nat, mode: BacktraceMode, hasher: Hasher, rs: seq<Request>)
    ensures PtrsAfter(pm, slot, mode, hasher, rs).Keys == pm.Keys + Addresses(rs)
    ensures forall p :: p in pm && p !in Addresses(rs) ==> PtrsAfter(pm, slot, mode, hasher, rs)[p] == pm[p]
    ensures forall q :: q in rs ==> PtrsAfter(pm, slot, mode, hasher, rs)[q.ptr].allocThreadId == slot
  {
    if |rs| > 0 {
      var init := rs[..|rs| - 1];
      assert rs == init + [rs[|rs| - 1]];
      PtrsAfterOwned(pm, slot, mode, hasher, init);
    }
  }

  /** After the clone, the ledger holds a record for the stack of every
      request and no other new record. */
  lemma {:induction false} TraceAfterKeys(tm: map<nat, TraceInfo>, mode: BacktraceMode, hasher: Hasher, rs: seq<Request>)
    ensures TraceAfter(tm, mode, hasher, rs).Keys == tm.Keys + set q | q in rs :: Capture(mode, q.stack, hasher).hash
  {
    if |rs| > 0 {
      var init := rs[..|rs| - 1];
      assert rs == init + [rs[|rs| - 1]];
      TraceAfterKeys(tm, mode, hasher, init);
    }
  }

  // ---------------------------------------------------------------------
  // Thread state

  /** The thread-local state of one thread: its slot (`THREAD_ID`) and the
      re-entrancy flag (`IN_ALLOC`). */
  class ThreadCtx {
    const slot: nat
    var inAlloc: bool

    constructor (slot: nat)
      ensures this.slot == slot && !inAlloc
    {
      this.slot := slot;
      inAlloc := false;
    }

    /** The entry half of `enter_alloc`: remember the flag, then set it. */
    method Enter() returns (saved: bool)
      modifies this
      ensures inAlloc && saved == old(inAlloc)
    {
      saved := inAlloc;
      inAlloc := true;
    }

    /** The exit half of `enter_alloc`: put the remembered flag back. It is
        not reached when the bookkeeping panics. */
    method Leave(saved: bool)
      modifies this
      ensures inAlloc == saved
    {
      inAlloc := saved;
    }
  }

  // ---------------------------------------------------------------------
  // The tracker

  /** `AllocTrack` together with the global state it updates: `THREAD_STORE`
      as the counters `allocs[slot]` and the matrix `frees[freer, allocator]`,
      `PTR_MAP` and `TRACE_MAP`. */
  class Tracker {
    const mode: BacktraceMode
    const hasher: Hasher
    const allocs: array<nat>
    const frees: array2<nat>
    var ptrMap: map<nat, PointerData>
    var traceMap: map<nat, TraceInfo>
    var innerCalls: seq<InnerCall>

    ghost predicate Valid()
      reads this
    {
      && allocs.Length == MaxThreads
      && frees.Length0 == MaxThreads && frees.Length1 == MaxThreads
      && Consistent(mode, ptrMap, traceMap)
    }

    /** `AllocTrack::new` over zero-initialised global state. */
    constructor (mode: BacktraceMode, hasher: Hasher)
      ensures Valid() && this.mode == mode && this.hasher == hasher
      ensures fresh(allocs) && fresh(frees)
      ensures forall i :: 0 <= i < allocs.Length ==> allocs[i] == 0
      ensures forall i, j :: 0 <= i < frees.Length0 && 0 <= j < frees.Length1 ==> frees[i, j] == 0
      ensures ptrMap == map[] && traceMap == map[] && innerCalls == []
    {
      this.mode := mode;
      this.hasher := hasher;
      allocs := new nat[MaxThreads](_ => 0);
      frees := new nat[MaxThreads, MaxThreads]((_, _) => 0);
      ptrMap := map[];
      traceMap := map[];
      innerCalls := [];
    }

    /** The matrix of frees as values, row `j` being what slot `j` freed. */
    function FreeMatrix(): (m: seq<seq<nat>>)
      reads this, frees
      ensures |m| == frees.Length0
      ensures forall j :: 0 <= j < |m| ==> |m[j]| == frees.Length1
      ensures forall j, i :: 0 <= j < |m| && 0 <= i < |m[j]| ==> m[j][i] == frees[j, i]
    {
      seq(frees.Length0, j reads frees =>
        seq(frees.Length1, i reads frees => if 0 <= j < frees.Length0 && 0 <= i < frees.Length1 then frees[j, i] else 0))
    }

    /** `GlobalAlloc::alloc`. `ptr` is what the wrapped allocator returns
        and `stack` the current call stack. */
    method Alloc(ctx: ThreadCtx, size: nat, ptr: nat, stack: Backtrace) returns (r: Result<nat, Failure>)
      requires Valid()
      modifies this, allocs, ctx
      ensures Valid()
      ensures innerCalls == old(innerCalls) + [InnerAlloc(size, ptr)]
      // re-entrant call: straight through to the wrapped allocator
      ensures old(ctx.inAlloc) ==>
        r == Ok(ptr) && ctx.inAlloc
        && ptrMap == old(ptrMap) && traceMap == old(traceMap) && unchanged(allocs)
      // the `assert!` fails: nothing recorded, the flag stays set
      ensures !old(ctx.inAlloc) && ctx.slot >= MaxThreads ==>
        r == Err(ThreadLimitExceeded(ctx.slot)) && ctx.inAlloc
        && ptrMap == old(ptrMap) && traceMap == old(traceMap) && unchanged(allocs)
      // tracked allocation
      ensures !old(ctx.inAlloc) && ctx.slot < MaxThreads ==>
        var trace := Capture(mode, stack, hasher);
        r == Ok(ptr) && !ctx.inAlloc
        && allocs[ctx.slot] == old(allocs[ctx.slot]) + size
        && (forall i :: 0 <= i < allocs.Length && i != ctx.slot ==> allocs[i] == old(allocs[i]))
        && ptrMap == old(ptrMap)[ptr := PointerData(ctx.slot, trace.hash)]
        && traceMap == (if mode.None? then old(traceMap) else RecordAlloc(old(traceMap), trace, mode, size))
    {
      if ctx.inAlloc {
        innerCalls := innerCalls + [InnerAlloc(size, ptr)];
        return Ok(ptr);
      }
      var saved := ctx.Enter();
      innerCalls := innerCalls + [InnerAlloc(size, ptr)];
      var tid := ctx.slot;
      if tid >= MaxThreads {
        return Err(ThreadLimitExceeded(tid));
      }
      allocs[tid] := allocs[tid] + size;
      var trace := Capture(mode, stack, hasher);
      AllocKeepsConsistent(mode, ptrMap, traceMap, ptr, tid, trace, size);
      ptrMap := ptrMap[ptr := PointerData(tid, trace.hash)];
      if !mode.None? {
        traceMap := RecordAlloc(traceMap, trace, mode, size);
      }
      ctx.Leave(saved);
      return Ok(ptr);
    }

    /** `GlobalAlloc::dealloc`. */
    method Dealloc(ctx: ThreadCtx, ptr: nat, size: nat) returns (r: Outcome<Failure>)
      requires Valid()
      modifies this, frees, ctx
      ensures Valid()
      // re-entrant call: straight through to the wrapped allocator
      ensures old(ctx.inAlloc) ==>
        r == Pass && ctx.inAlloc && innerCalls == old(innerCalls) + [InnerDealloc(ptr, size)]
        && ptrMap == old(ptrMap) && traceMap == old(traceMap) && unchanged(frees)
      // `expect("double free")` fails before anything changes
      ensures !old(ctx.inAlloc) && ptr !in old(ptrMap) ==>
        r == Fail(DoubleFree(ptr)) && ctx.inAlloc && innerCalls == old(innerCalls)
        && ptrMap == old(ptrMap) && traceMap == old(traceMap) && unchanged(frees)
      // the pointer is forgotten, its record credited and the memory released
      ensures !old(ctx.inAlloc) && ptr in old(ptrMap) ==>
        var target := old(ptrMap)[ptr];
        ptrMap == old(ptrMap) - {ptr}
        && (!mode.None? ==> target.traceHash in old(traceMap))
        && traceMap == (if mode.None? then old(traceMap) else RecordFree(old(traceMap), target.traceHash, size))
        && innerCalls == old(innerCalls) + [InnerDealloc(ptr, size)]
      // ... and the freeing slot's cell for the allocating slot grows
      ensures !old(ctx.inAlloc) && ptr in old(ptrMap) && ctx.slot < MaxThreads ==>
        var target := old(ptrMap)[ptr];
        r == Pass && !ctx.inAlloc
        && frees[ctx.slot, target.allocThreadId] == old(frees[ctx.slot, target.allocThreadId]) + size
        && (forall i, j :: 0 <= i < frees.Length0 && 0 <= j < frees.Length1 && (i, j) != (ctx.slot, target.allocThreadId)
              ==> frees[i, j] == old(frees[i, j]))
      // ... unless the freeing slot is out of range: the index panics last
      ensures !old(ctx.inAlloc) && ptr in old(ptrMap) && ctx.slot >= MaxThreads ==>
        r == Fail(SlotIndexOutOfBounds(ctx.slot)) && ctx.inAlloc && unchanged(frees)
    {
      if ctx.inAlloc {
        innerCalls := innerCalls + [InnerDealloc(ptr, size)];
        return Pass;
      }
      var saved := ctx.Enter();
      if ptr !in ptrMap {
        return Fail(DoubleFree(ptr));
      }
      var target := ptrMap[ptr];
      FreeKeepsConsistent(mode, ptrMap, traceMap, ptr, size);
      ptrMap := ptrMap - {ptr};
      if !mode.None? {
        traceMap := RecordFree(traceMap, target.traceHash, size);
      }
      innerCalls := innerCalls + [InnerDealloc(ptr, size)];
      var tid := ctx.slot;
      if tid >= MaxThreads {
        return Fail(SlotIndexOutOfBounds(tid));
      }
      frees[tid, target.allocThreadId] := frees[tid, target.allocThreadId] + size;
      ctx.Leave(saved);
      return Pass;
    }

    /** `backtrace_report`: the records the filter keeps, in ascending order
        of bytes in use. The records are visited in no particular order.
        Collecting and sorting run with the flag set, so the calls they make
        to the allocator (`collecting`: the growth of `out`, the clones of
        the stacks) only reach the wrapped allocator. The result is then
        cloned with the flag clear, so the clone's allocations `rs` are
        tracked for the calling slot; the original is dropped with the flag
        set, so its frees `ds` only reach the wrapped allocator. */
    method BacktraceReport(ctx: ThreadCtx, filter: (Backtrace, BacktraceMetric) -> bool,
                           collecting: seq<InnerCall>, rs: seq<Request>, ds: seq<Release>)
      returns (r: Result<seq<ReportEntry>, Failure>)
      requires Valid()
      modifies this, allocs, frees, ctx
      ensures Valid() && unchanged(frees)
      // the `assert!` of `alloc` fails on the first allocation of the clone
      ensures ctx.slot >= MaxThreads && |rs| > 0 ==>
        r == Err(ThreadLimitExceeded(ctx.slot)) && ctx.inAlloc
        && innerCalls == old(innerCalls) + collecting + [InnerAlloc(rs[0].size, rs[0].ptr)]
        && ptrMap == old(ptrMap) && traceMap == old(traceMap) && unchanged(allocs)
      ensures ctx.slot < MaxThreads || |rs| == 0 ==>
        r.Ok? && !ctx.inAlloc
        && multiset(r.value) == multiset(Selected(old(traceMap), filter, old(traceMap).Keys))
        && ReportOrder.SortedByInUse(r.value)
        && (forall e :: e in r.value ==> Printable(e) && e.metric.mode == mode)
        && innerCalls == old(innerCalls) + collecting + AllocCalls(rs) + DeallocCalls(ds)
        && allocs[..] == Raised(old(allocs[..]), ctx.slot, RequestedBytes(rs))
        && ptrMap == PtrsAfter(old(ptrMap), ctx.slot, mode, hasher, rs)
        && traceMap == (if mode.None? then old(traceMap) else TraceAfter(old(traceMap), mode, hasher, rs))
    {
      ctx.inAlloc := true;
      var out := CollectSelected(filter);
      var report := ReportOrder.SortByInUse(out);
      SelectedPrintable(traceMap, filter, mode);
      forall e | e in report
        ensures Printable(e) && e.metric.mode == mode
      {
        assert e in multiset(report);
      }
      r := HandOver(ctx, collecting, rs, ds, report);
    }

    /** The end of `backtrace_report` once the report is sorted: the calls
        made while collecting reach the wrapped allocator, the report is
        cloned with the flag clear and the original dropped with the flag
        set. */
    method HandOver(ctx: ThreadCtx, collecting: seq<InnerCall>, rs: seq<Request>, ds: seq<Release>, report: seq<ReportEntry>)
      returns (r: Result<seq<ReportEntry>, Failure>)
      requires Valid() && ctx.inAlloc
      modifies this, allocs, frees, ctx
      ensures Valid() && unchanged(frees)
      ensures ctx.slot >= MaxThreads && |rs| > 0 ==>
        r == Err(ThreadLimitExceeded(ctx.slot)) && ctx.inAlloc
        && innerCalls == old(innerCalls) + collecting + [InnerAlloc(rs[0].size, rs[0].ptr)]
        && ptrMap == old(ptrMap) && traceMap == old(traceMap) && unchanged(allocs)
      ensures ctx.slot < MaxThreads || |rs| == 0 ==>
        r == Ok(report) && !ctx.inAlloc
        && innerCalls == old(innerCalls) + collecting + AllocCalls(rs) + DeallocCalls(ds)
        && allocs[..] == Raised(old(allocs[..]), ctx.slot, RequestedBytes(rs))
        && ptrMap == PtrsAfter(old(ptrMap), ctx.slot, mode, hasher, rs)
        && traceMap == (if mode.None? then old(traceMap) else TraceAfter(old(traceMap), mode, hasher, rs))
    {
      PassThrough(ctx, collecting);
      ctx.inAlloc := false;
      if |rs| > 0 && ctx.slot >= MaxThreads {
        var failed := Alloc(ctx, rs[0].size, rs[0].ptr, rs[0].stack);
        return Err(ThreadLimitExceeded(ctx.slot));
      }
      CloneAllocs(ctx, rs);
      ghost var raised := allocs[..];
      ctx.inAlloc := true;
      PassThrough(ctx, DeallocCalls(ds));
      assert allocs[..] == raised;
      ctx.inAlloc := false;
      return Ok(report);
    }

    /** `out.clone()` with the flag clear: one tracked `alloc` per request,
        all made by the calling slot. */
    method CloneAllocs(ctx: ThreadCtx, rs: seq<Request>)
      requires Valid() && !ctx.inAlloc && (ctx.slot < MaxThreads || |rs| == 0)
      modifies this, allocs, ctx
      ensures Valid() && !ctx.inAlloc
      ensures innerCalls == old(innerCalls) + AllocCalls(rs)
      ensures allocs[..] == Raised(old(allocs[..]), ctx.slot, RequestedBytes(rs))
      ensures ptrMap == PtrsAfter(old(ptrMap), ctx.slot, mode, hasher, rs)
      ensures traceMap == if mode.None? then old(traceMap) else TraceAfter(old(traceMap), mode, hasher, rs)
    {
      ghost var counters, pm, tm, calls := allocs[..], ptrMap, traceMap, innerCalls;
      var k := 0;
      assert RequestedBytes(rs[..0]) == 0;
      RaisedNothing(counters, ctx.slot);
      while k < |rs|
        invariant 0 <= k <= |rs|
        invariant Valid() && !ctx.inAlloc
        invariant innerCalls == calls + AllocCalls(rs[..k])
        invariant allocs[..] == Raised(counters, ctx.slot, RequestedBytes(rs[..k]))
        invariant ptrMap == PtrsAfter(pm, ctx.slot, mode, hasher, rs[..k])
        invariant traceMap == if mode.None? then tm else TraceAfter(tm, mode, hasher, rs[..k])
      {
        RequestStep(pm, tm, ctx.slot, mode, hasher, rs, k);
        ghost var before, logged := allocs[..], innerCalls;
        TrackOne(ctx, rs[k]);
        RaisedStep(counters, before, allocs[..], ctx.slot, RequestedBytes(rs[..k]), rs[k].size, RequestedBytes(rs[..k + 1]));
        AppendStep(calls, AllocCalls(rs[..k]), logged, innerCalls, InnerAlloc(rs[k].size, rs[k].ptr));
        k := k + 1;
      }
      assert rs[..|rs|] == rs;
    }

    /** One allocation of the clone, on the tracked path of `alloc`. */
    method TrackOne(ctx: ThreadCtx, q: Request)
      requires Valid() && !ctx.inAlloc && ctx.slot < MaxThreads
      modifies this, allocs, ctx
      ensures Valid() && !ctx.inAlloc
      ensures innerCalls == old(innerCalls) + [InnerAlloc(q.size, q.ptr)]
      ensures allocs[..] == Raised(old(allocs[..]), ctx.slot, q.size)
      ensures ptrMap == old(ptrMap)[q.ptr := PointerData(ctx.slot, Capture(mode, q.stack, hasher).hash)]
      ensures traceMap == if mode.None? then old(traceMap) else RecordAlloc(old(traceMap), Capture(mode, q.stack, hasher), mode, q.size)
    {
      var tracked := Alloc(ctx, q.size, q.ptr, q.stack);
    }

    /** Allocator calls made with the flag set, as by `backtrace_report`
        while it collects and while it drops `out`: each goes straight to
        the wrapped allocator and nothing is recorded. */
    method PassThrough(ctx: ThreadCtx, calls: seq<InnerCall>)
      requires Valid() && ctx.inAlloc
      modifies this, allocs, frees, ctx
      ensures Valid() && ctx.inAlloc && unchanged(allocs) && unchanged(frees)
      ensures innerCalls == old(innerCalls) + calls
      ensures ptrMap == old(ptrMap) && traceMap == old(traceMap)
    {
      ghost var logged := innerCalls;
      var k := 0;
      while k < |calls|
        invariant 0 <= k <= |calls|
        invariant Valid() && ctx.inAlloc && unchanged(allocs) && unchanged(frees)
        invariant innerCalls == logged + calls[..k]
        invariant ptrMap == old(ptrMap) && traceMap == old(traceMap)
      {
        ghost var before := innerCalls;
        match calls[k] {
          case InnerAlloc(size, ptr) =>
            var passed := Alloc(ctx, size, ptr, Backtrace([]));
          case InnerDealloc(ptr, size) =>
            var passed := Dealloc(ctx, ptr, size);
        }
        assert calls[..k + 1] == calls[..k] + [calls[k]];
        AppendStep(logged, calls[..k], before, innerCalls, calls[k]);
        k := k + 1;
      }
      assert calls[..|calls|] == calls;
    }

    /** The loop of `backtrace_report` over `TRACE_MAP`: every record is
        visited once, in no particular order, and the entry of each record
        the filter keeps is pushed. */
    method CollectSelected(filter: (Backtrace, BacktraceMetric) -> bool) returns (out: seq<ReportEntry>)
      requires KeyedByHash(traceMap)
      ensures multiset(out) == multiset(Selected(traceMap, filter, traceMap.Keys))
    {
      out := [];
      var todo := traceMap.Keys;
      ghost var done: set<nat> := {};
      while todo != {}
        invariant todo + done == traceMap.Keys && todo !! done
        invariant multiset(out) == multiset(Selected(traceMap, filter, done))
        decreases |todo|
      {
        var h :| h in todo;
        var info := traceMap[h];
        var metric := MetricOf(info);
        SelectedStep(traceMap, filter, done, h);
        if filter(info.backtrace.inner.value, metric) {
          out := out + [EntryOf(info)];
        }
        todo := todo - {h};
        done := done + {h};
      }
    }

    /** `thread_report`, over the slot names given by `names`. */
    method ThreadReport(names: ThreadReports.Names) returns (report: map<string, ThreadReports.ThreadMetric>)
      requires Valid()
      ensures ThreadReports.IsSnapshot(allocs[..], FreeMatrix())
      ensures report == ThreadReports.ThreadReport(names, allocs[..], FreeMatrix())
    {
      ghost var alloc := allocs[..];
      ghost var free := FreeMatrix();
      assert ThreadReports.IsSnapshot(alloc, free);
      report := map[];
      for i := 0 to MaxThreads
        invariant report == ThreadReports.ReportUpTo(names, alloc, free, i)
      {
        if i !in names {
          continue;
        }
        var name := names[i];
        var alloced := allocs[i];
        var metric := if name in report then report[name] else ThreadReports.EmptyMetric;
        var totalFree, freedBy := FreedOf(names, i, metric.freedByOthers, free);
        var ownFree := FreedBySlot(i, free);
        ghost var before := metric;
        metric := ThreadReports.ThreadMetric(
          metric.totalAlloc + alloced,
          metric.totalDidFree + totalFree,
          metric.totalFreed + ownFree,
          metric.currentUsed + SaturatingSub(alloced, totalFree),
          freedBy);
        assert metric == ThreadReports.AddSlot(before, names, alloc, free, i);
        report := report[name := metric];
      }
    }

    /** The inner loop of `thread_report` for allocator slot `i`: the bytes
        of slot `i` that named slots freed, in total and added per freer
        name onto `acc`. */
    method FreedOf(names: ThreadReports.Names, i: nat, acc: map<string, nat>, ghost free: seq<seq<nat>>)
      returns (totalFree: nat, freedBy: map<string, nat>)
      requires Valid() && i < MaxThreads && free == FreeMatrix()
      ensures totalFree == ThreadReports.DidFree(names, free, i, MaxThreads)
      ensures freedBy == ThreadReports.FreedBy(acc, names, free, i, MaxThreads)
    {
      totalFree := 0;
      freedBy := acc;
      for j := 0 to MaxThreads
        invariant totalFree == ThreadReports.DidFree(names, free, i, j)
        invariant freedBy == ThreadReports.FreedBy(acc, names, free, i, j)
      {
        if j !in names {
          continue;
        }
        var freed := frees[j, i];
        if freed == 0 {
          continue;
        }
        totalFree := totalFree + freed;
        freedBy := freedBy[names[j] := ThreadReports.Get(freedBy, names[j]) + freed];
      }
    }

    /** The sum of `free` of slot `i` over every allocator slot: what slot
        `i` freed. */
    method FreedBySlot(i: nat, ghost free: seq<seq<nat>>) returns (ownFree: nat)
      requires Valid() && i < MaxThreads && free == FreeMatrix()
      ensures ownFree == ThreadReports.RowSum(free[i])
    {
      ghost var row := free[i];
      ownFree := 0;
      for k := 0 to MaxThreads
        invariant ownFree == ThreadReports.RowSum(row[..k])
      {
        assert row[..k + 1][..k] == row[..k];
        ownFree := ownFree + frees[i, k];
      }
      assert row[..MaxThreads] == row;
    }
  }

  // ---------------------------------------------------------------------
  // A worked run

  /** Thread 0 allocates 1024 bytes at address 42 and thread 1 frees them,
      then frees them again. The address is recorded as slot 0's; the first
      free is credited to the cell of slot 1 for slot 0 and leaves slot 0's
      own counter alone; the second is a double free. */
  method CrossThreadFree(stack: Backtrace, hasher: Hasher)
    returns (first: Outcome<Failure>, second: Outcome<Failure>, owner: nat, cell: nat, allocDelta: nat)
    ensures owner == 0
    ensures first == Pass && second == Fail(DoubleFree(42))
    ensures cell == 1024 && allocDelta == 0
  {
    var t := new Tracker(BacktraceMode.Short, hasher);
    var main := new ThreadCtx(0);
    var worker := new ThreadCtx(1);
    var a := t.Alloc(main, 1024, 42, stack);
    owner := t.ptrMap[42].allocThreadId;
    var before := t.allocs[0];
    first := t.Dealloc(worker, 42, 1024);
    cell := t.frees[1, 0];
    allocDelta := t.allocs[0] - before;
    second := t.Dealloc(worker, 42, 1024);
  }

  /** After the same allocation and free, the backtrace report holds the
      one record of the stack, with everything freed and nothing in use. */
  method ReportAfterFree(stack: Backtrace, hasher: Hasher) returns (report: seq<ReportEntry>)
    ensures |report| == 1
    ensures report[0].backtrace == Capture(BacktraceMode.Short, stack, hasher)
    ensures report[0].metric == BacktraceMetric(1024, 1024, 1, BacktraceMode.Short)
    ensures InUse(report[0].metric) == 0
  {
    var t := new Tracker(BacktraceMode.Short, hasher);
    var main := new ThreadCtx(0);
    var worker := new ThreadCtx(1);
    var trace := Capture(BacktraceMode.Short, stack, hasher);
    var a := t.Alloc(main, 1024, 42, stack);
    assert t.traceMap == map[trace.hash := TraceInfo(trace, 1024, 0, 1, BacktraceMode.Short)];
    var d := t.Dealloc(worker, 42, 1024);
    assert t.traceMap == map[trace.hash := TraceInfo(trace, 1024, 1024, 1, BacktraceMode.Short)];
    var everything := (b: Backtrace, m: BacktraceMetric) => true;
    var r := t.BacktraceReport(main, everything, [], [], []);
    report := r.value;
    SingleSelected(t.traceMap, everything, trace.hash);
    SingleEntryReport(report, EntryOf(t.traceMap[trace.hash]));
  }

  /** Slot 0 allocates 1024 bytes at address 42, then asks for a report.
      Collecting it allocates 48 bytes at address 9 with the flag set; the
      clone allocates 48 bytes at address 7 from the same stack; dropping
      the original frees address 9. The report shows the record as it was,
      the clone is tracked for slot 0 so the caller can later drop the
      report without a double free, and the untracked block never enters
      `PTR_MAP`. */
  method ReportCloneIsTracked(stack: Backtrace, hasher: Hasher)
    returns (r: Result<seq<ReportEntry>, Failure>, counter: nat, dropped: Outcome<Failure>, calls: seq<InnerCall>)
    ensures r.Ok? && |r.value| == 1
    ensures r.value[0].metric == BacktraceMetric(1024, 0, 1, BacktraceMode.Short)
    ensures counter == 1024 + 48
    ensures dropped == Pass
    ensures calls == [InnerAlloc(1024, 42), InnerAlloc(48, 9), InnerAlloc(48, 7), InnerDealloc(9, 48), InnerDealloc(7, 48)]
  {
    var t := new Tracker(BacktraceMode.Short, hasher);
    var main := new ThreadCtx(0);
    var trace := Capture(BacktraceMode.Short, stack, hasher);
    var a := t.Alloc(main, 1024, 42, stack);
    assert t.allocs[0] == 1024;
    r := ReportOneRecord(t, main, stack, trace);
    counter := t.allocs[0];
    ghost var reported := t.innerCalls;
    dropped := t.Dealloc(main, 7, 48);
    calls := t.innerCalls;
    assert calls == reported + [InnerDealloc(7, 48)];
  }

  /** The report step of `ReportCloneIsTracked`, on a ledger holding one
      record of 1024 bytes at address 42. */
  method ReportOneRecord(t: Tracker, main: ThreadCtx, stack: Backtrace, trace: HashedBacktrace)
    returns (r: Result<seq<ReportEntry>, Failure>)
    requires t.Valid() && t.mode == BacktraceMode.Short && main.slot == 0 && !main.inAlloc
    requires trace == Capture(BacktraceMode.Short, stack, t.hasher)
    requires t.traceMap == map[trace.hash := TraceInfo(trace, 1024, 0, 1, BacktraceMode.Short)]
    requires t.ptrMap == map[42 := PointerData(0, trace.hash)]
    requires t.innerCalls == [InnerAlloc(1024, 42)] && t.allocs[0] == 1024
    modifies t, t.allocs, t.frees, main
    ensures t.Valid() && !main.inAlloc
    ensures r.Ok? && |r.value| == 1
    ensures r.value[0].metric == BacktraceMetric(1024, 0, 1, BacktraceMode.Short)
    ensures t.innerCalls == [InnerAlloc(1024, 42), InnerAlloc(48, 9), InnerAlloc(48, 7), InnerDealloc(9, 48)]
    ensures t.ptrMap == map[42 := PointerData(0, trace.hash), 7 := PointerData(0, trace.hash)]
    ensures t.allocs[0] == 1024 + 48
  {
    var everything := (b: Backtrace, m: BacktraceMetric) => true;
    SingleSelected(t.traceMap, everything, trace.hash);
    var entry := EntryOf(t.traceMap[trace.hash]);
    var clone := [Request(48, 7, stack)];
    var drop := [Release(9, 48)];
    assert clone[..0] == [] && drop[..0] == [];
    assert AllocCalls(clone) == [InnerAlloc(48, 7)] && DeallocCalls(drop) == [InnerDealloc(9, 48)];
    assert RequestedBytes(clone) == 48;
    r := t.BacktraceReport(main, everything, [InnerAlloc(48, 9)], clone, drop);
    SingleEntryReport(r.value, entry);
  }

  /** A ledger of one record, kept by the filter, selects exactly that
      record's entry. */
  lemma SingleSelected(tm: map<nat, TraceInfo>, filter: (Backtrace, BacktraceMetric) -> bool, h: nat)
    requires KeyedByHash(tm) && tm.Keys == {h}
    requires filter(tm[h].backtrace.inner.value, MetricOf(tm[h]))
    ensures Selected(tm, filter, tm.Keys) == {EntryOf(tm[h])}
  {
  }

  /** A report with the entries of a one-element set is that one entry. */
  lemma SingleEntryReport(report: seq<ReportEntry>, e: ReportEntry)
    requires multiset(report) == multiset({e})
    ensures report == [e]
  {
    assert |report| == |multiset(report)| == 1;
    assert report[0] in multiset(report);
  }
}
