/** `thread_report` as a fold over a snapshot of the accounting state: one
    total-allocated counter per thread slot and the matrix
    `free[freer][allocator]` of bytes freed by one slot that another slot
    allocated. Display names come from a slot-to-name map; a slot without a
    name takes no part, neither as a row nor as a freer. */
module ThreadReports {
  import opened UnsignedMath
  import opened Strings

  /** `ThreadMetric`. Note the code's meaning of two fields, which their doc
      comments state the other way round: totalDidFree is what others freed
      of this slot's allocations, totalFreed what this slot freed. */
  datatype ThreadMetric = ThreadMetric(
    totalAlloc: nat,
    totalDidFree: nat,
    totalFreed: nat,
    currentUsed: nat,
    freedByOthers: map<string, nat>)

  const EmptyMetric: ThreadMetric := ThreadMetric(0, 0, 0, 0, map[])

  /** Slot to display name; a missing slot has no name. */
  type Names = map<nat, string>

  /** One counter per slot, and a square matrix of the same size. */
  predicate IsSnapshot(alloc: seq<nat>, free: seq<seq<nat>>) {
    |free| == |alloc| && forall j :: 0 <= j < |free| ==> |free[j]| == |alloc|
  }

  function Get(m: map<string, nat>, k: string): nat {
    if k in m then m[k] else 0
  }

  /** `total_free` after the inner loop has visited freers 0 .. n-1 for
      allocator slot i: the bytes of slot i freed by named slots. */
  function DidFree(names: Names, free: seq<seq<nat>>, i: nat, n: nat): nat
    requires n <= |free| && forall j :: 0 <= j < n ==> i < |free[j]|
  {
    if n == 0 then 0
    else DidFree(names, free, i, n - 1) + (if n - 1 in names then free[n - 1][i] else 0)
  }

  /** `freed_by_others` after the inner loop has visited freers 0 .. n-1,
      starting from `acc`: each nonzero cell of a named freer is added under
      that freer's name. */
  function FreedBy(acc: map<string, nat>, names: Names, free: seq<seq<nat>>, i: nat, n: nat): map<string, nat>
    requires n <= |free| && forall j :: 0 <= j < n ==> i < |free[j]|
  {
    if n == 0 then acc
    else
      var m := FreedBy(acc, names, free, i, n - 1);
      var j := n - 1;
      if j in names && free[j][i] != 0 then m[names[j] := Get(m, names[j]) + free[j][i]] else m
  }

  /** Sum of a matrix row: everything that one slot freed. */
  function RowSum(row: seq<nat>): nat {
    if |row| == 0 then 0 else RowSum(row[..|row| - 1]) + row[|row| - 1]
  }

  /** The body of the outer loop for named slot i, applied to the metric
      already stored under its name. */
  function AddSlot(metric: ThreadMetric, names: Names, alloc: seq<nat>, free: seq<seq<nat>>, i: nat): ThreadMetric
    requires IsSnapshot(alloc, free) && i < |alloc|
  {
    var did := DidFree(names, free, i, |alloc|);
    ThreadMetric(
      metric.totalAlloc + alloc[i],
      metric.totalDidFree + did,
      metric.totalFreed + RowSum(free[i]),
      metric.currentUsed + SaturatingSub(alloc[i], did),
      FreedBy(metric.freedByOthers, names, free, i, |alloc|))
  }

  /** The report after the outer loop has visited slots 0 .. n-1. */
  function ReportUpTo(names: Names, alloc: seq<nat>, free: seq<seq<nat>>, n: nat): map<string, ThreadMetric>
    requires IsSnapshot(alloc, free) && n <= |alloc|
  {
    if n == 0 then map[]
    else
      var m := ReportUpTo(names, alloc, free, n - 1);
      var i := n - 1;
      if i !in names then m
      else
        var name := names[i];
        var metric := if name in m then m[name] else EmptyMetric;
        m[name := AddSlot(metric, names, alloc, free, i)]
  }

  /** `thread_report` on a snapshot. */
  function ThreadReport(names: Names, alloc: seq<nat>, free: seq<seq<nat>>): map<string, ThreadMetric>
    requires IsSnapshot(alloc, free)
  {
    ReportUpTo(names, alloc, free, |alloc|)
  }

  // ---------------------------------------------------------------------
  // Which names appear

  predicate NamedSlotBelow(names: Names, n: nat, k: string) {
    exists i :: 0 <= i < n && i in names && names[i] == k
  }

  lemma {:induction false} ReportUpToKeys(names: Names, alloc: seq<nat>, free: seq<seq<nat>>, n: nat, k: string)
    requires IsSnapshot(alloc, free) && n <= |alloc|
    ensures k in ReportUpTo(names, alloc, free, n) <==> NamedSlotBelow(names, n, k)
  {
    if n > 0 {
      ReportUpToKeys(names, alloc, free, n - 1, k);
      if NamedSlotBelow(names, n, k) && !(n - 1 in names && names[n - 1] == k) {
        var i :| 0 <= i < n && i in names && names[i] == k;
        assert NamedSlotBelow(names, n - 1, k);
      }
      if NamedSlotBelow(names, n - 1, k) {
        var i :| 0 <= i < n - 1 && i in names && names[i] == k;
        assert NamedSlotBelow(names, n, k);
      }
    }
  }

  /** The report's names are exactly the names of the named slots: an
      unnamed slot leaves no row. */
  lemma ThreadReportKeys(names: Names, alloc: seq<nat>, free: seq<seq<nat>>, k: string)
    requires IsSnapshot(alloc, free)
    ensures k in ThreadReport(names, alloc, free) <==>
      exists i :: 0 <= i < |alloc| && i in names && names[i] == k
  {
    ReportUpToKeys(names, alloc, free, |alloc|, k);
  }

  // ---------------------------------------------------------------------
  // The metric of one slot

  /** What slot i contributes on its own. */
  function SlotMetric(names: Names, alloc: seq<nat>, free: seq<seq<nat>>, i: nat): ThreadMetric
    requires IsSnapshot(alloc, free) && i < |alloc|
  {
    AddSlot(EmptyMetric, names, alloc, free, i)
  }

  /** Field-wise sum of two metrics, adding the per-freer figures name by
      name. */
  function MergeAdd(a: map<string, nat>, b: map<string, nat>): (r: map<string, nat>)
    ensures r.Keys == a.Keys + b.Keys
    ensures forall k :: k in r ==> r[k] == Get(a, k) + Get(b, k)
  {
    map k | k in a.Keys + b.Keys :: Get(a, k) + Get(b, k)
  }

  function Plus(a: ThreadMetric, b: ThreadMetric): ThreadMetric {
    ThreadMetric(
      a.totalAlloc + b.totalAlloc,
      a.totalDidFree + b.totalDidFree,
      a.totalFreed + b.totalFreed,
      a.currentUsed + b.currentUsed,
      MergeAdd(a.freedByOthers, b.freedByOthers))
  }

  lemma {:induction false} FreedByAt(acc: map<string, nat>, names: Names, free: seq<seq<nat>>, i: nat, n: nat, x: string)
    requires n <= |free| && forall j :: 0 <= j < n ==> i < |free[j]|
    ensures x in FreedBy(acc, names, free, i, n) <==> x in acc || x in FreedBy(map[], names, free, i, n)
    ensures Get(FreedBy(acc, names, free, i, n), x) == Get(acc, x) + Get(FreedBy(map[], names, free, i, n), x)
  {
    if n > 0 {
      FreedByAt(acc, names, free, i, n - 1, x);
    }
  }

  lemma FreedBySplits(acc: map<string, nat>, names: Names, free: seq<seq<nat>>, i: nat, n: nat)
    requires n <= |free| && forall j :: 0 <= j < n ==> i < |free[j]|
    ensures FreedBy(acc, names, free, i, n) == MergeAdd(acc, FreedBy(map[], names, free, i, n))
  {
    var lhs := FreedBy(acc, names, free, i, n);
    var rhs := MergeAdd(acc, FreedBy(map[], names, free, i, n));
    forall x
      ensures x in lhs <==> x in rhs
      ensures x in lhs ==> lhs[x] == rhs[x]
    {
      FreedByAt(acc, names, free, i, n, x);
    }
    assert lhs.Keys == rhs.Keys;
  }

  lemma PlusEmpty(b: ThreadMetric)
    ensures Plus(EmptyMetric, b) == b
  {
    assert MergeAdd(map[], b.freedByOthers) == b.freedByOthers;
  }

  lemma AddSlotIsPlus(metric: ThreadMetric, names: Names, alloc: seq<nat>, free: seq<seq<nat>>, i: nat)
    requires IsSnapshot(alloc, free) && i < |alloc|
    ensures AddSlot(metric, names, alloc, free, i) == Plus(metric, SlotMetric(names, alloc, free, i))
  {
    FreedBySplits(metric.freedByOthers, names, free, i, |alloc|);
    FreedBySplits(map[], names, free, i, |alloc|);
  }

  /** The sum of the metrics of the slots below n that carry name k. */
  function NamedTotal(names: Names, alloc: seq<nat>, free: seq<seq<nat>>, k: string, n: nat): ThreadMetric
    requires IsSnapshot(alloc, free) && n <= |alloc|
  {
    if n == 0 then EmptyMetric
    else
      var rest := NamedTotal(names, alloc, free, k, n - 1);
      if n - 1 in names && names[n - 1] == k then Plus(rest, SlotMetric(names, alloc, free, n - 1)) else rest
  }

  lemma {:induction false} NamedTotalOfUnused(names: Names, alloc: seq<nat>, free: seq<seq<nat>>, k: string, n: nat)
    requires IsSnapshot(alloc, free) && n <= |alloc|
    requires !NamedSlotBelow(names, n, k)
    ensures NamedTotal(names, alloc, free, k, n) == EmptyMetric
  {
    if n > 0 {
      NamedTotalOfUnused(names, alloc, free, k, n - 1);
    }
  }

  lemma {:induction false} ReportUpToAccumulates(names: Names, alloc: seq<nat>, free: seq<seq<nat>>, k: string, n: nat)
    requires IsSnapshot(alloc, free) && n <= |alloc|
    requires k in ReportUpTo(names, alloc, free, n)
    ensures ReportUpTo(names, alloc, free, n)[k] == NamedTotal(names, alloc, free, k, n)
  {
    var i := n - 1;
    var m := ReportUpTo(names, alloc, free, n - 1);
    if i in names && names[i] == k {
      AddSlotIsPlus(if k in m then m[k] else EmptyMetric, names, alloc, free, i);
      if k in m {
        ReportUpToAccumulates(names, alloc, free, k, n - 1);
      } else {
        ReportUpToKeys(names, alloc, free, n - 1, k);
        NamedTotalOfUnused(names, alloc, free, k, n - 1);
        PlusEmpty(SlotMetric(names, alloc, free, i));
      }
    } else {
      ReportUpToAccumulates(names, alloc, free, k, n - 1);
    }
  }

  /** Slots that share a display name accumulate into one metric: the row of
      name k is the field-wise sum of the metrics of every slot named k. */
  lemma ThreadReportAccumulates(names: Names, alloc: seq<nat>, free: seq<seq<nat>>, k: string)
    requires IsSnapshot(alloc, free)
    requires k in ThreadReport(names, alloc, free)
    ensures ThreadReport(names, alloc, free)[k] == NamedTotal(names, alloc, free, k, |alloc|)
  {
    ReportUpToAccumulates(names, alloc, free, k, |alloc|);
  }

  lemma {:induction false} NamedTotalOfUnique(names: Names, alloc: seq<nat>, free: seq<seq<nat>>, i: nat, n: nat)
    requires IsSnapshot(alloc, free) && i < n <= |alloc| && i in names
    requires forall j :: 0 <= j < |alloc| && j in names && j != i ==> names[j] != names[i]
    ensures NamedTotal(names, alloc, free, names[i], n) == SlotMetric(names, alloc, free, i)
  {
    if n - 1 == i {
      assert !NamedSlotBelow(names, i, names[i]);
      NamedTotalOfUnused(names, alloc, free, names[i], i);
      PlusEmpty(SlotMetric(names, alloc, free, i));
    } else {
      NamedTotalOfUnique(names, alloc, free, i, n - 1);
    }
  }

  /** A slot whose name no other slot shares has exactly its own metric as
      its row. */
  lemma ThreadReportOfUniqueName(names: Names, alloc: seq<nat>, free: seq<seq<nat>>, i: nat)
    requires IsSnapshot(alloc, free) && i < |alloc| && i in names
    requires forall j :: 0 <= j < |alloc| && j in names && j != i ==> names[j] != names[i]
    ensures names[i] in ThreadReport(names, alloc, free)
    ensures ThreadReport(names, alloc, free)[names[i]] == SlotMetric(names, alloc, free, i)
  {
    ThreadReportKeys(names, alloc, free, names[i]);
    ThreadReportAccumulates(names, alloc, free, names[i]);
    NamedTotalOfUnique(names, alloc, free, i, |alloc|);
  }

  // ---------------------------------------------------------------------
  // The figures of one slot

  /** Sum of a column over the freers below n that carry name k. */
  function NamedColumn(names: Names, free: seq<seq<nat>>, i: nat, n: nat, k: string): nat
    requires n <= |free| && forall j :: 0 <= j < n ==> i < |free[j]|
  {
    if n == 0 then 0
    else NamedColumn(names, free, i, n - 1, k) + (if n - 1 in names && names[n - 1] == k then free[n - 1][i] else 0)
  }

  /** Sum of a whole column: everything freed of slot i's allocations. */
  function ColumnSum(free: seq<seq<nat>>, i: nat, n: nat): nat
    requires n <= |free| && forall j :: 0 <= j < n ==> i < |free[j]|
  {
    if n == 0 then 0 else ColumnSum(free, i, n - 1) + free[n - 1][i]
  }

  /** Some key of a non-empty map. */
  ghost function SomeKey(m: map<string, nat>): (k: string)
    requires |m| > 0
    ensures k in m
  {
    assert m.Keys != {};
    var k :| k in m; k
  }

  /** Sum of the values of a map. */
  ghost function MapSum(m: map<string, nat>): nat
    decreases |m|
  {
    if |m| == 0 then 0
    else
      var k := SomeKey(m);
      m[k] + MapSum(m - {k})
  }

  lemma {:induction false} MapSumRemove(m: map<string, nat>, k: string)
    requires k in m
    ensures MapSum(m) == m[k] + MapSum(m - {k})
    decreases |m|
  {
    var k' := SomeKey(m);
    if k' != k {
      var a, b := m - {k'}, m - {k};
      assert a.Keys == m.Keys - {k'} && b.Keys == m.Keys - {k};
      assert |a| == |m| - 1 && |b| == |m| - 1;
      MapSumRemove(a, k);
      MapSumRemove(b, k');
      assert a - {k} == b - {k'};
    }
  }

  lemma MapSumAdd(m: map<string, nat>, k: string, c: nat)
    ensures MapSum(m[k := Get(m, k) + c]) == MapSum(m) + c
  {
    var m' := m[k := Get(m, k) + c];
    MapSumRemove(m', k);
    if k in m {
      MapSumRemove(m, k);
      assert m' - {k} == m - {k};
    } else {
      assert m' - {k} == m;
    }
  }

  lemma {:induction false} FreedByTotals(names: Names, free: seq<seq<nat>>, i: nat, n: nat)
    requires n <= |free| && forall j :: 0 <= j < n ==> i < |free[j]|
    ensures MapSum(FreedBy(map[], names, free, i, n)) == DidFree(names, free, i, n)
  {
    if n == 0 {
      assert |FreedBy(map[], names, free, i, n)| == 0;
    } else {
      FreedByTotals(names, free, i, n - 1);
      var j := n - 1;
      var k := if j in names then names[j] else "";
      SumStep(FreedBy(map[], names, free, i, j), k, free[j][i], j in names);
    }
  }

  /** One step of the inner loop raises the sum of the map by what it adds
      to the total. */
  lemma SumStep(m: map<string, nat>, k: string, c: nat, named: bool)
    ensures MapSum(if named && c != 0 then m[k := Get(m, k) + c] else m) == MapSum(m) + (if named then c else 0)
  {
    if named && c != 0 {
      MapSumAdd(m, k, c);
    }
  }

  lemma {:induction false} FreedByEntries(names: Names, free: seq<seq<nat>>, i: nat, n: nat, k: string)
    requires n <= |free| && forall j :: 0 <= j < n ==> i < |free[j]|
    ensures k in FreedBy(map[], names, free, i, n) <==>
      exists j :: 0 <= j < n && j in names && names[j] == k && free[j][i] != 0
    ensures Get(FreedBy(map[], names, free, i, n), k) == NamedColumn(names, free, i, n, k)
  {
    if n > 0 {
      FreedByEntries(names, free, i, n - 1, k);
      if exists j :: 0 <= j < n && j in names && names[j] == k && free[j][i] != 0 {
        var j :| 0 <= j < n && j in names && names[j] == k && free[j][i] != 0;
        if j < n - 1 {
          assert exists j' :: 0 <= j' < n - 1 && j' in names && names[j'] == k && free[j'][i] != 0;
        }
      }
    }
  }

  /** The metric of a named slot i, field by field:
      - totalAlloc: its own allocation counter;
      - freedByOthers: for every named freer with a nonzero cell, under that
        freer's name, the cells of all freers of that name, and no other
        entry;
      - totalDidFree: the sum of the cells of named freers, which is the sum
        of the freedByOthers values;
      - totalFreed: the sum of its own matrix row, over every slot;
      - currentUsed: totalAlloc minus totalDidFree, saturating at 0. */
  lemma SlotMetricFields(names: Names, alloc: seq<nat>, free: seq<seq<nat>>, i: nat)
    requires IsSnapshot(alloc, free) && i < |alloc|
    ensures SlotMetric(names, alloc, free, i).totalAlloc == alloc[i]
    ensures SlotMetric(names, alloc, free, i).totalDidFree == DidFree(names, free, i, |alloc|)
    ensures MapSum(SlotMetric(names, alloc, free, i).freedByOthers) == SlotMetric(names, alloc, free, i).totalDidFree
    ensures forall k :: k in SlotMetric(names, alloc, free, i).freedByOthers <==>
      exists j :: 0 <= j < |alloc| && j in names && names[j] == k && free[j][i] != 0
    ensures forall k :: Get(SlotMetric(names, alloc, free, i).freedByOthers, k) == NamedColumn(names, free, i, |alloc|, k)
    ensures SlotMetric(names, alloc, free, i).totalFreed == RowSum(free[i])
    ensures SlotMetric(names, alloc, free, i).currentUsed == SaturatingSub(alloc[i], DidFree(names, free, i, |alloc|))
  {
    FreedByTotals(names, free, i, |alloc|);
    forall k
      ensures k in SlotMetric(names, alloc, free, i).freedByOthers <==>
        exists j :: 0 <= j < |alloc| && j in names && names[j] == k && free[j][i] != 0
      ensures Get(SlotMetric(names, alloc, free, i).freedByOthers, k) == NamedColumn(names, free, i, |alloc|, k)
    {
      FreedByEntries(names, free, i, |alloc|, k);
    }
  }

  /** When every slot is named, totalDidFree is the whole column: everything
      freed, by anyone, of what slot i allocated. */
  lemma {:induction false} DidFreeAllNamed(names: Names, free: seq<seq<nat>>, i: nat, n: nat)
    requires n <= |free| && forall j :: 0 <= j < n ==> i < |free[j]|
    requires forall j :: 0 <= j < n ==> j in names
    ensures DidFree(names, free, i, n) == ColumnSum(free, i, n)
  {
    if n > 0 {
      DidFreeAllNamed(names, free, i, n - 1);
    }
  }

  /** A freer whose name no other slot shares shows up with exactly its own
      cell. */
  lemma {:induction false} NamedColumnOfUnique(names: Names, free: seq<seq<nat>>, i: nat, n: nat, j: nat)
    requires n <= |free| && forall j' :: 0 <= j' < n ==> i < |free[j']|
    requires j < n && j in names
    requires forall j' :: 0 <= j' < n && j' in names && j' != j ==> names[j'] != names[j]
    ensures NamedColumn(names, free, i, n, names[j]) == free[j][i]
  {
    if n - 1 > j {
      NamedColumnOfUnique(names, free, i, n - 1, j);
    } else {
      NamedColumnOfNone(names, free, i, j, names[j]);
    }
  }

  lemma {:induction false} NamedColumnOfNone(names: Names, free: seq<seq<nat>>, i: nat, n: nat, k: string)
    requires n <= |free| && forall j' :: 0 <= j' < n ==> i < |free[j']|
    requires forall j' :: 0 <= j' < n && j' in names ==> names[j'] != k
    ensures NamedColumn(names, free, i, n, k) == 0
  {
    if n > 0 {
      NamedColumnOfNone(names, free, i, n - 1, k);
    }
  }

  // ---------------------------------------------------------------------
  // Naming and a worked scenario

  /** The naming of a build without the `fs` feature: every slot is named
      by its decimal index. */
  function IndexNames(n: nat): (names: Names)
    ensures forall i: nat :: i in names <==> i < n
  {
    map i | 0 <= i < n :: NatToString(i)
  }

  /** With index naming every slot has a row of its own, holding exactly
      its own metric. */
  lemma IndexNamedReport(alloc: seq<nat>, free: seq<seq<nat>>, i: nat)
    requires IsSnapshot(alloc, free) && i < |alloc|
    ensures NatToString(i) in ThreadReport(IndexNames(|alloc|), alloc, free)
    ensures ThreadReport(IndexNames(|alloc|), alloc, free)[NatToString(i)]
         == SlotMetric(IndexNames(|alloc|), alloc, free, i)
  {
    var names := IndexNames(|alloc|);
    forall j | 0 <= j < |alloc| && j in names && j != i
      ensures names[j] != names[i]
    {
      if names[j] == names[i] {
        NatToStringInjective(j, i);
      }
    }
    ThreadReportOfUniqueName(names, alloc, free, i);
  }

  /** Thread "main" (slot 0) allocates 1024 bytes and thread "worker"
      (slot 1) frees them: main's row shows everything freed, by worker, and
      nothing in use; worker's row shows no allocation and 1024 bytes freed. */
  lemma MainWorkerScenario()
    ensures var r := ThreadReport(map[0 := "main", 1 := "worker"], [1024, 0], [[0, 0], [1024, 0]]);
      && r.Keys == {"main", "worker"}
      && r["main"].totalAlloc == 1024
      && r["main"].totalDidFree == 1024
      && r["main"].currentUsed == 0
      && r["main"].freedByOthers == map["worker" := 1024]
      && r["worker"].totalAlloc == 0
      && r["worker"].totalFreed == 1024
      && r["worker"].freedByOthers == map[]
  {
    var names: Names := map[0 := "main", 1 := "worker"];
    var alloc, free := [1024, 0], [[0, 0], [1024, 0]];
    var r := ThreadReport(names, alloc, free);
    ThreadReportOfUniqueName(names, alloc, free, 0);
    ThreadReportOfUniqueName(names, alloc, free, 1);
    forall k | k in r ensures k == "main" || k == "worker" {
      ThreadReportKeys(names, alloc, free, k);
    }
    SlotMetricFields(names, alloc, free, 0);
    SlotMetricFields(names, alloc, free, 1);
    assert free[1][0] == 1024;
    var fb := r["main"].freedByOthers;
    assert "worker" in fb by {
      assert 1 in names && names[1] == "worker" && free[1][0] != 0;
    }
    forall k | k in fb ensures k == "worker" {
      var j :| 0 <= j < 2 && j in names && names[j] == k && free[j][0] != 0;
    }
    assert fb.Keys == {"worker"};
    assert NamedColumn(names, free, 0, 2, "worker") == 1024;
    assert Get(fb, "worker") == 1024;
    var fw := r["worker"].freedByOthers;
    assert fw.Keys == {};
  }
}
