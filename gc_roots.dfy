/**
 * The roots `mp_thread_gc_others` hands to the collector, as a sequence in
 * the order the walk emits them. For every record it emits the record
 * itself and the record's `arg`; it emits the record's stack range only
 * when the record belongs to another task and that task is ready.
 */
module GcRootWalk {
  import opened Wrappers
  import opened ThreadRecords

  /**
   * `RecordRoot(pos)` stands for the root the walk takes of the record at
   * position `pos` of the list; `ArgRoot` for the record's argument pointer;
   * `StackRange` for a stack of `len` words starting at `base`.
   */
  datatype Root = RecordRoot(pos: nat) | ArgRoot(arg: Addr) | StackRange(base: Addr, len: nat)

  /**
   * Whether the walk made by task `current` scans the stack of record `r`:
   * it skips the caller's own record and every record that is not ready.
   */
  predicate StackScanned(r: ThreadRecord, current: TaskId): (scanned: bool)
    ensures r.id == current ==> !scanned
    ensures !r.ready ==> !scanned
    ensures r.id != current && r.ready ==> scanned
  {
    r.id != current && r.ready
  }

  function RangeOf(r: ThreadRecord): Root
  {
    StackRange(r.stack, r.stackLen)
  }

  /**
   * The roots emitted for the record at position `pos`: its record root and
   * its argument, then its stack range exactly when the stack is scanned.
   */
  function NodeRoots(pos: nat, r: ThreadRecord, current: TaskId): (roots: seq<Root>)
    ensures |roots| == if StackScanned(r, current) then 3 else 2
    ensures roots[0] == RecordRoot(pos) && roots[1] == ArgRoot(r.arg)
    ensures RangeOf(r) in roots <==> StackScanned(r, current)
  {
    [RecordRoot(pos), ArgRoot(r.arg)] + (if StackScanned(r, current) then [RangeOf(r)] else [])
  }

  /**
   * Everything the walk over `ts` emits, record by record from the head: two
   * or three roots per record (the exact count is `GcRootsCount`).
   */
  function GcRoots(ts: seq<ThreadRecord>, current: TaskId): (roots: seq<Root>)
    ensures 2 * |ts| <= |roots| <= 3 * |ts|
    decreases |ts|
  {
    if ts == [] then []
    else GcRoots(ts[..|ts| - 1], current) + NodeRoots(|ts| - 1, ts[|ts| - 1], current)
  }

  /** The positions, in list order, of the records whose stacks the walk scans. */
  function ScannedPositions(ts: seq<ThreadRecord>, current: TaskId): (ps: seq<nat>)
    ensures forall j :: 0 <= j < |ps| ==> ps[j] < |ts|
    ensures forall k :: 0 <= k < |ts| ==> (k in ps <==> StackScanned(ts[k], current))
    ensures forall i, j :: 0 <= i < j < |ps| ==> ps[i] < ps[j]
    decreases |ts|
  {
    if ts == [] then []
    else
      var n := |ts| - 1;
      var pre := ScannedPositions(ts[..n], current);
      assert forall k :: 0 <= k < n ==> ts[..n][k] == ts[k];
      pre + (if StackScanned(ts[n], current) then [n] else [])
  }

  /** The record roots of a root sequence, in order. */
  function RecordRootsOf(roots: seq<Root>): seq<nat>
    decreases |roots|
  {
    if roots == [] then []
    else (if roots[0].RecordRoot? then [roots[0].pos] else []) + RecordRootsOf(roots[1..])
  }

  /** The argument roots of a root sequence, in order. */
  function ArgRootsOf(roots: seq<Root>): seq<Addr>
    decreases |roots|
  {
    if roots == [] then []
    else (if roots[0].ArgRoot? then [roots[0].arg] else []) + ArgRootsOf(roots[1..])
  }

  /** The stack ranges of a root sequence, in order. */
  function StackRangesOf(roots: seq<Root>): seq<Root>
    decreases |roots|
  {
    if roots == [] then []
    else (if roots[0].StackRange? then [roots[0]] else []) + StackRangesOf(roots[1..])
  }

  lemma {:induction false} RecordRootsDistribute(a: seq<Root>, b: seq<Root>)
    ensures RecordRootsOf(a + b) == RecordRootsOf(a) + RecordRootsOf(b)
    decreases |a|
  {
    if a == [] {
      assert a + b == b;
    } else {
      var head := if a[0].RecordRoot? then [a[0].pos] else [];
      assert (a + b)[0] == a[0];
      assert (a + b)[1..] == a[1..] + b;
      RecordRootsDistribute(a[1..], b);
      assert RecordRootsOf(a + b) == head + RecordRootsOf(a[1..] + b);
      assert RecordRootsOf(a) == head + RecordRootsOf(a[1..]);
      assert head + (RecordRootsOf(a[1..]) + RecordRootsOf(b)) == (head + RecordRootsOf(a[1..])) + RecordRootsOf(b);
    }
  }

  lemma {:induction false} ArgRootsDistribute(a: seq<Root>, b: seq<Root>)
    ensures ArgRootsOf(a + b) == ArgRootsOf(a) + ArgRootsOf(b)
    decreases |a|
  {
    if a == [] {
      assert a + b == b;
    } else {
      var head := if a[0].ArgRoot? then [a[0].arg] else [];
      assert (a + b)[0] == a[0];
      assert (a + b)[1..] == a[1..] + b;
      ArgRootsDistribute(a[1..], b);
      assert ArgRootsOf(a + b) == head + ArgRootsOf(a[1..] + b);
      assert ArgRootsOf(a) == head + ArgRootsOf(a[1..]);
      assert head + (ArgRootsOf(a[1..]) + ArgRootsOf(b)) == (head + ArgRootsOf(a[1..])) + ArgRootsOf(b);
    }
  }

  lemma {:induction false} StackRangesDistribute(a: seq<Root>, b: seq<Root>)
    ensures StackRangesOf(a + b) == StackRangesOf(a) + StackRangesOf(b)
    decreases |a|
  {
    if a == [] {
      assert a + b == b;
    } else {
      var head := if a[0].StackRange? then [a[0]] else [];
      assert (a + b)[0] == a[0];
      assert (a + b)[1..] == a[1..] + b;
      StackRangesDistribute(a[1..], b);
      assert StackRangesOf(a + b) == head + StackRangesOf(a[1..] + b);
      assert StackRangesOf(a) == head + StackRangesOf(a[1..]);
      assert head + (StackRangesOf(a[1..]) + StackRangesOf(b)) == (head + StackRangesOf(a[1..])) + StackRangesOf(b);
    }
  }

  /** Each view of a root sequence distributes over concatenation. */
  lemma ProjectionsDistribute(a: seq<Root>, b: seq<Root>)
    ensures RecordRootsOf(a + b) == RecordRootsOf(a) + RecordRootsOf(b)
    ensures ArgRootsOf(a + b) == ArgRootsOf(a) + ArgRootsOf(b)
    ensures StackRangesOf(a + b) == StackRangesOf(a) + StackRangesOf(b)
  {
    RecordRootsDistribute(a, b);
    ArgRootsDistribute(a, b);
    StackRangesDistribute(a, b);
  }

  /** The roots of one record, viewed by kind. */
  lemma NodeProjections(pos: nat, r: ThreadRecord, current: TaskId)
    ensures RecordRootsOf(NodeRoots(pos, r, current)) == [pos]
    ensures ArgRootsOf(NodeRoots(pos, r, current)) == [r.arg]
    ensures StackRangesOf(NodeRoots(pos, r, current)) == (if StackScanned(r, current) then [RangeOf(r)] else [])
  {
    ProjectionsDistribute([RecordRoot(pos), ArgRoot(r.arg)], if StackScanned(r, current) then [RangeOf(r)] else []);
  }

  /** Each view of the walk over a list extends the view over the list without its last record. */
  lemma WalkStep(ts: seq<ThreadRecord>, current: TaskId)
    requires ts != []
    ensures var n := |ts| - 1;
      RecordRootsOf(GcRoots(ts, current)) == RecordRootsOf(GcRoots(ts[..n], current)) + [n] &&
      ArgRootsOf(GcRoots(ts, current)) == ArgRootsOf(GcRoots(ts[..n], current)) + [ts[n].arg] &&
      StackRangesOf(GcRoots(ts, current)) == StackRangesOf(GcRoots(ts[..n], current)) +
        (if StackScanned(ts[n], current) then [RangeOf(ts[n])] else [])
  {
    var n := |ts| - 1;
    ProjectionsDistribute(GcRoots(ts[..n], current), NodeRoots(n, ts[n], current));
    NodeProjections(n, ts[n], current);
  }

  /** The walk emits exactly one record root per record, in list order. */
  lemma {:induction false} RecordRootsInListOrder(ts: seq<ThreadRecord>, current: TaskId)
    ensures RecordRootsOf(GcRoots(ts, current)) == seq(|ts|, k => k)
    decreases |ts|
  {
    if ts != [] {
      var n := |ts| - 1;
      RecordRootsInListOrder(ts[..n], current);
      WalkStep(ts, current);
      assert seq(|ts|, k => k) == seq(n, k => k) + [n];
    }
  }

  /** The arguments of the records, in list order. */
  function Args(ts: seq<ThreadRecord>): (args: seq<Addr>)
    ensures |args| == |ts|
  {
    seq(|ts|, k requires 0 <= k < |ts| => ts[k].arg)
  }

  lemma ArgsStep(ts: seq<ThreadRecord>)
    requires ts != []
    ensures Args(ts) == Args(ts[..|ts| - 1]) + [ts[|ts| - 1].arg]
  {
  }

  /** The walk emits every record's argument, in list order. */
  lemma {:induction false} ArgRootsInListOrder(ts: seq<ThreadRecord>, current: TaskId)
    ensures ArgRootsOf(GcRoots(ts, current)) == Args(ts)
    decreases |ts|
  {
    if ts != [] {
      var n := |ts| - 1;
      var pre := ts[..n];
      ArgRootsInListOrder(pre, current);
      WalkStep(ts, current);
      ArgsStep(ts);
    }
  }

  /** The ranges of the records at positions `ps`, in that order. */
  function RangesAt(ts: seq<ThreadRecord>, ps: seq<nat>): (rs: seq<Root>)
    requires forall j :: 0 <= j < |ps| ==> ps[j] < |ts|
    ensures |rs| == |ps|
  {
    seq(|ps|, j requires 0 <= j < |ps| => RangeOf(ts[ps[j]]))
  }

  /** Ranges at positions of a shorter list, and one more position appended. */
  lemma RangesAtStep(ts: seq<ThreadRecord>, ps: seq<nat>)
    requires ts != []
    requires forall j :: 0 <= j < |ps| ==> ps[j] < |ts| - 1
    ensures RangesAt(ts[..|ts| - 1], ps) == RangesAt(ts, ps)
    ensures RangesAt(ts, ps + [|ts| - 1]) == RangesAt(ts, ps) + [RangeOf(ts[|ts| - 1])]
  {
  }

  /**
   * The stack ranges the walk emits are exactly those of the scanned
   * records, in list order; so their number is the number of ready records
   * of other tasks.
   */
  lemma {:induction false} StackRangesOfScanned(ts: seq<ThreadRecord>, current: TaskId)
    ensures StackRangesOf(GcRoots(ts, current)) == RangesAt(ts, ScannedPositions(ts, current))
    decreases |ts|
  {
    if ts != [] {
      var n := |ts| - 1;
      StackRangesOfScanned(ts[..n], current);
      WalkStep(ts, current);
      var ps := ScannedPositions(ts[..n], current);
      RangesAtStep(ts, ps);
      if !StackScanned(ts[n], current) {
        assert ps + [] == ps;
      }
    }
  }

  /** The three views of the walk together. */
  lemma WalkViews(ts: seq<ThreadRecord>, current: TaskId)
    ensures RecordRootsOf(GcRoots(ts, current)) == seq(|ts|, k => k)
    ensures ArgRootsOf(GcRoots(ts, current)) == Args(ts)
    ensures StackRangesOf(GcRoots(ts, current)) == RangesAt(ts, ScannedPositions(ts, current))
  {
    RecordRootsInListOrder(ts, current);
    ArgRootsInListOrder(ts, current);
    StackRangesOfScanned(ts, current);
  }

  /** The walk emits two roots per record plus one per scanned stack. */
  lemma {:induction false} GcRootsCount(ts: seq<ThreadRecord>, current: TaskId)
    ensures |GcRoots(ts, current)| == 2 * |ts| + |ScannedPositions(ts, current)|
    decreases |ts|
  {
    if ts != [] {
      GcRootsCount(ts[..|ts| - 1], current);
    }
  }

  /** Some ready record of another task has the range `x`. */
  ghost predicate HasScannedRange(ts: seq<ThreadRecord>, current: TaskId, x: Root)
  {
    exists k :: 0 <= k < |ts| && StackScanned(ts[k], current) && RangeOf(ts[k]) == x
  }

  lemma HasScannedRangeStep(ts: seq<ThreadRecord>, current: TaskId, x: Root)
    requires ts != []
    ensures HasScannedRange(ts, current, x) <==>
      HasScannedRange(ts[..|ts| - 1], current, x) || (StackScanned(ts[|ts| - 1], current) && RangeOf(ts[|ts| - 1]) == x)
  {
    var n := |ts| - 1;
    if HasScannedRange(ts, current, x) {
      var k :| 0 <= k < |ts| && StackScanned(ts[k], current) && RangeOf(ts[k]) == x;
      if k < n {
        assert ts[..n][k] == ts[k];
      }
    }
    if HasScannedRange(ts[..n], current, x) {
      var k :| 0 <= k < n && StackScanned(ts[..n][k], current) && RangeOf(ts[..n][k]) == x;
      assert ts[k] == ts[..n][k];
    }
  }

  /**
   * A stack range is emitted if and only if some record of another task
   * that is ready has that range. In particular the caller's own stack and
   * the stack of a task that is not ready are never scanned through their
   * records.
   */
  lemma {:induction false} StackRangeEmitted(ts: seq<ThreadRecord>, current: TaskId, base: Addr, len: nat)
    ensures StackRange(base, len) in GcRoots(ts, current) <==> HasScannedRange(ts, current, StackRange(base, len))
    decreases |ts|
  {
    if ts != [] {
      var n := |ts| - 1;
      var x := StackRange(base, len);
      StackRangeEmitted(ts[..n], current, base, len);
      HasScannedRangeStep(ts, current, x);
      var node := NodeRoots(n, ts[n], current);
      assert x in node <==> StackScanned(ts[n], current) && RangeOf(ts[n]) == x;
      assert x in GcRoots(ts, current) <==> x in GcRoots(ts[..n], current) || x in node;
    }
  }

  /** Every record's own root and its argument are emitted whatever its state. */
  lemma {:induction false} EveryRecordRooted(ts: seq<ThreadRecord>, current: TaskId, k: nat)
    requires k < |ts|
    ensures RecordRoot(k) in GcRoots(ts, current)
    ensures ArgRoot(ts[k].arg) in GcRoots(ts, current)
    decreases |ts|
  {
    var n := |ts| - 1;
    if k < n {
      EveryRecordRooted(ts[..n], current, k);
    }
    assert RecordRoot(k) in GcRoots(ts[..n], current) + NodeRoots(n, ts[n], current);
    assert ArgRoot(ts[k].arg) in GcRoots(ts[..n], current) + NodeRoots(n, ts[n], current);
  }

  /**
   * A task that has announced completion no longer has its stack scanned,
   * while its record and its argument remain roots.
   */
  lemma FinishedStackNotScanned(ts: seq<ThreadRecord>, id: TaskId, current: TaskId, k: nat)
    requires FirstIndex(ts, id) == Some(k)
    ensures k !in ScannedPositions(MarkReady(ts, id, false), current)
    ensures RecordRoot(k) in GcRoots(MarkReady(ts, id, false), current)
    ensures ArgRoot(ts[k].arg) in GcRoots(MarkReady(ts, id, false), current)
  {
    EveryRecordRooted(MarkReady(ts, id, false), current, k);
  }

  /**
   * A freshly created record (not ready, pushed at the head) has no stack
   * scanned; once its task starts, any other task's walk scans it.
   */
  lemma CreatedThenStartedScanned(ts: seq<ThreadRecord>, r: ThreadRecord, current: TaskId)
    requires !r.ready && r.id != current
    ensures 0 !in ScannedPositions([r] + ts, current)
    ensures 0 in ScannedPositions(MarkReady([r] + ts, r.id, true), current)
  {
    assert FirstIndex([r] + ts, r.id) == Some(0);
  }
}
