/** The diff step of `display_update` as values: which canvas columns differ
    from the shadow buffer, and the commands they put on the chips' queues. */
module Sync {
  import opened Max7219
  import opened CommandQueue

  /** The command for canvas column `col`: digit register col % 8 + 1 of
      chip col / 8, carrying the column's byte. */
  function ColumnCommand(col: nat, value: bv8): (c: Command)
    ensures 1 <= c.reg <= 8 && c.data == value
  {
    Command((col % 8 + 1) as bv8, value)
  }

  /** Column addressing is one-to-one: (chip, register) determines the
      column, and every column of an n-chip canvas reaches one of the n
      chips. */
  lemma ColumnAddress(col: nat, n: nat)
    requires col < 8 * n
    ensures col / 8 < n
    ensures col == 8 * (col / 8) + (ColumnCommand(col, 0).reg as int - 1)
  {
  }

  /** Every listed column lies on a canvas `width` columns wide. */
  predicate OnCanvas(cols: seq<nat>, width: nat)
  {
    forall k :: 0 <= k < |cols| ==> cols[k] < width
  }

  /** The columns below n where canvas and shadow differ, increasing. */
  function DiffUpTo(cv: seq<bv8>, buf: seq<bv8>, n: nat): (cols: seq<nat>)
    requires |cv| == |buf| && n <= |cv|
    ensures OnCanvas(cols, |cv|)
  {
    if n == 0 then []
    else DiffUpTo(cv, buf, n - 1) + (if cv[n - 1] != buf[n - 1] then [n - 1] else [])
  }

  /** The columns the scan of `display_update` finds different. */
  function Diff(cv: seq<bv8>, buf: seq<bv8>): (cols: seq<nat>)
    requires |cv| == |buf|
    ensures OnCanvas(cols, |cv|)
  {
    DiffUpTo(cv, buf, |cv|)
  }

  /** DiffUpTo(n) lists, in increasing order, exactly the differing columns
      below n. */
  lemma {:induction false} DiffUpToExact(cv: seq<bv8>, buf: seq<bv8>, n: nat)
    requires |cv| == |buf| && n <= |cv|
    ensures forall k :: 0 <= k < |DiffUpTo(cv, buf, n)| ==>
              DiffUpTo(cv, buf, n)[k] < n && cv[DiffUpTo(cv, buf, n)[k]] != buf[DiffUpTo(cv, buf, n)[k]]
    ensures forall k, l :: 0 <= k < l < |DiffUpTo(cv, buf, n)| ==> DiffUpTo(cv, buf, n)[k] < DiffUpTo(cv, buf, n)[l]
    ensures forall x :: 0 <= x < n && cv[x] != buf[x] ==> x in DiffUpTo(cv, buf, n)
  {
    if n > 0 {
      DiffUpToExact(cv, buf, n - 1);
    }
  }

  /** A canvas compared with itself has no differing column. */
  lemma {:induction false} DiffUpToEqual(cv: seq<bv8>, n: nat)
    requires n <= |cv|
    ensures DiffUpTo(cv, cv, n) == []
  {
    if n > 0 {
      DiffUpToEqual(cv, n - 1);
    }
  }

  /** Every differing column appears once, in increasing order, and no
      equal column appears. */
  lemma DiffExact(cv: seq<bv8>, buf: seq<bv8>)
    requires |cv| == |buf|
    ensures forall k :: 0 <= k < |Diff(cv, buf)| ==>
              Diff(cv, buf)[k] < |cv| && cv[Diff(cv, buf)[k]] != buf[Diff(cv, buf)[k]]
    ensures forall k, l :: 0 <= k < l < |Diff(cv, buf)| ==> Diff(cv, buf)[k] < Diff(cv, buf)[l]
    ensures forall x :: 0 <= x < |cv| && cv[x] != buf[x] ==> x in Diff(cv, buf)
    ensures Diff(cv, buf) == [] <==> cv == buf
  {
    DiffUpToExact(cv, buf, |cv|);
    if cv == buf {
      DiffUpToEqual(cv, |cv|);
    }
    var d := Diff(cv, buf);
    if cv != buf {
      var x :| 0 <= x < |cv| && cv[x] != buf[x];
      assert x in d;
    }
  }

  /** One column of the scan of `display_update`: its command is pushed
      onto its chip when the canvas and the shadow differ there. */
  function ScanColumn(p: Queues, cv: seq<bv8>, buf: seq<bv8>, x: nat): (r: Queues)
    requires Valid(p) && |cv| == |buf| <= 8 * Chips(p) && x < |cv|
    ensures Valid(r) && Chips(r) == Chips(p) && r.len == p.len && r.cur == p.cur
  {
    if cv[x] != buf[x] then Push(p, x / 8, ColumnCommand(x, cv[x])) else p
  }

  /** The queues after the scan has visited columns 0 .. n - 1 in order. */
  function Scanned(q: Queues, cv: seq<bv8>, buf: seq<bv8>, n: nat): (r: Queues)
    requires Valid(q) && |cv| == |buf| <= 8 * Chips(q) && n <= |cv|
    ensures Valid(r) && Chips(r) == Chips(q) && r.len == q.len && r.cur == q.cur
  {
    if n == 0 then q else ScanColumn(Scanned(q, cv, buf, n - 1), cv, buf, n - 1)
  }

  /** Visiting column n - 1 extends the scan of the columns below it. */
  lemma ScannedNext(q: Queues, cv: seq<bv8>, buf: seq<bv8>, n: nat)
    requires Valid(q) && |cv| == |buf| <= 8 * Chips(q) && 0 < n <= |cv|
    ensures Scanned(q, cv, buf, n) == ScanColumn(Scanned(q, cv, buf, n - 1), cv, buf, n - 1)
  {
  }

  /** A scan over equal canvas and shadow pushes nothing. */
  lemma {:induction false} ScannedEqual(q: Queues, cv: seq<bv8>, n: nat)
    requires Valid(q) && |cv| <= 8 * Chips(q) && n <= |cv|
    ensures Scanned(q, cv, cv, n) == q
  {
    if n > 0 {
      ScannedEqual(q, cv, n - 1);
    }
  }

  /** The commands the listed columns address to chip s, in list order. */
  function ChipCommands(cv: seq<bv8>, cols: seq<nat>, s: nat): (r: seq<Command>)
    requires OnCanvas(cols, |cv|)
    ensures |r| <= |cols|
    decreases |cols|
  {
    if cols == [] then []
    else
      var last := cols[|cols| - 1];
      ChipCommands(cv, cols[..|cols| - 1], s) + (if last / 8 == s then [ColumnCommand(last, cv[last])] else [])
  }

  /** Scanning column n - 1 adds its command to chip s's list exactly when
      the column differs and belongs to chip s. */
  lemma ChipCommandsStep(cv: seq<bv8>, buf: seq<bv8>, n: nat, s: nat)
    requires |cv| == |buf| && 0 < n <= |cv|
    ensures ChipCommands(cv, DiffUpTo(cv, buf, n), s) ==
              ChipCommands(cv, DiffUpTo(cv, buf, n - 1), s) +
              (if cv[n - 1] != buf[n - 1] && (n - 1) / 8 == s then [ColumnCommand(n - 1, cv[n - 1])] else [])
  {
    var d, e := DiffUpTo(cv, buf, n - 1), DiffUpTo(cv, buf, n);
    if cv[n - 1] != buf[n - 1] {
      assert e[..|e| - 1] == d && e[|e| - 1] == n - 1;
    } else {
      assert e == d;
    }
  }

  /** A chip's list of commands grows by at most one as the scan advances,
      and only at the chip's own columns. */
  lemma ChipCommandsGrow(cv: seq<bv8>, buf: seq<bv8>, n: nat, s: nat)
    requires |cv| == |buf| && 0 < n <= |cv|
    ensures |ChipCommands(cv, DiffUpTo(cv, buf, n - 1), s)| <= |ChipCommands(cv, DiffUpTo(cv, buf, n), s)|
    ensures |ChipCommands(cv, DiffUpTo(cv, buf, n), s)| <=
              |ChipCommands(cv, DiffUpTo(cv, buf, n - 1), s)| + (if (n - 1) / 8 == s then 1 else 0)
  {
    ChipCommandsStep(cv, buf, n, s);
  }

  /** As long as chip s's queue does not overflow, the scan of columns
      0 .. n - 1 grows it by exactly the commands of its differing columns,
      in column order. */
  lemma {:induction false} ScannedPending(q: Queues, cv: seq<bv8>, buf: seq<bv8>, n: nat, s: nat)
    requires Valid(q) && |cv| == |buf| <= 8 * Chips(q) && n <= |cv| && s < Chips(q)
    requires Count(q, s) + |ChipCommands(cv, DiffUpTo(cv, buf, n), s)| < q.len
    ensures Pending(Scanned(q, cv, buf, n), s) == Pending(q, s) + ChipCommands(cv, DiffUpTo(cv, buf, n), s)
  {
    if n == 0 {
      ScannedNone(q, cv, buf, s);
    } else {
      ChipCommandsGrow(cv, buf, n, s);
      ScannedPending(q, cv, buf, n - 1, s);
      ScannedPendingStep(q, cv, buf, n, s);
    }
  }

  /** The base case of ScannedPending: before any column, nothing is
      added. */
  lemma ScannedNone(q: Queues, cv: seq<bv8>, buf: seq<bv8>, s: nat)
    requires Valid(q) && |cv| == |buf| <= 8 * Chips(q) && s < Chips(q)
    ensures Pending(Scanned(q, cv, buf, 0), s) == Pending(q, s) + ChipCommands(cv, DiffUpTo(cv, buf, 0), s)
  {
    assert DiffUpTo(cv, buf, 0) == [];
    assert Pending(q, s) + [] == Pending(q, s);
  }

  /** The inductive step of ScannedPending. */
  lemma ScannedPendingStep(q: Queues, cv: seq<bv8>, buf: seq<bv8>, n: nat, s: nat)
    requires Valid(q) && |cv| == |buf| <= 8 * Chips(q) && 0 < n <= |cv| && s < Chips(q)
    requires Count(q, s) + |ChipCommands(cv, DiffUpTo(cv, buf, n), s)| < q.len
    requires Pending(Scanned(q, cv, buf, n - 1), s) == Pending(q, s) + ChipCommands(cv, DiffUpTo(cv, buf, n - 1), s)
    ensures Pending(Scanned(q, cv, buf, n), s) == Pending(q, s) + ChipCommands(cv, DiffUpTo(cv, buf, n), s)
  {
    var x := n - 1;
    var p := Scanned(q, cv, buf, x);
    var e := if cv[x] != buf[x] && x / 8 == s then [ColumnCommand(x, cv[x])] else [];
    ChipCommandsStep(cv, buf, n, s);
    ScannedNext(q, cv, buf, n);
    ScanColumnPending(p, cv, buf, x, s);
    AppendAssoc(Pending(q, s), ChipCommands(cv, DiffUpTo(cv, buf, x), s), e);
  }

  /** Visiting column x appends its command to chip s's queue when the
      column differs and belongs to s, provided the queue has room, and
      leaves the queue alone otherwise. */
  lemma ScanColumnPending(p: Queues, cv: seq<bv8>, buf: seq<bv8>, x: nat, s: nat)
    requires Valid(p) && |cv| == |buf| <= 8 * Chips(p) && x < |cv| && s < Chips(p)
    requires cv[x] != buf[x] && x / 8 == s ==> Count(p, s) < p.len - 1
    ensures Pending(ScanColumn(p, cv, buf, x), s) ==
              Pending(p, s) + (if cv[x] != buf[x] && x / 8 == s then [ColumnCommand(x, cv[x])] else [])
  {
    if cv[x] != buf[x] {
      if x / 8 == s {
        PushEnqueues(p, s, ColumnCommand(x, cv[x]));
      } else {
        PushOther(p, x / 8, ColumnCommand(x, cv[x]), s);
        assert Pending(p, s) + [] == Pending(p, s);
      }
    } else {
      assert Pending(p, s) + [] == Pending(p, s);
    }
  }

  /** How many of chip s's eight columns lie below n. */
  function ColumnsBelow(n: nat, s: nat): nat
  {
    if n <= 8 * s then 0 else if n - 8 * s <= 8 then n - 8 * s else 8
  }

  /** Column n - 1 is one of chip s's columns exactly when (n - 1) / 8 == s. */
  lemma ColumnsBelowStep(n: nat, s: nat)
    requires 0 < n
    ensures ColumnsBelow(n, s) == ColumnsBelow(n - 1, s) + (if (n - 1) / 8 == s then 1 else 0)
  {
  }

  /** The scan below n addresses at most ColumnsBelow(n, s) commands to
      chip s, so never more than eight. */
  lemma {:induction false} DiffPerChip(cv: seq<bv8>, buf: seq<bv8>, n: nat, s: nat)
    requires |cv| == |buf| && n <= |cv|
    ensures |ChipCommands(cv, DiffUpTo(cv, buf, n), s)| <= ColumnsBelow(n, s)
  {
    if n > 0 {
      DiffPerChip(cv, buf, n - 1, s);
      ColumnsBelowStep(n, s);
      ChipCommandsGrow(cv, buf, n, s);
      var before, after := |ChipCommands(cv, DiffUpTo(cv, buf, n - 1), s)|, |ChipCommands(cv, DiffUpTo(cv, buf, n), s)|;
      var own := if (n - 1) / 8 == s then 1 else 0;
      assert after <= before + own && before <= ColumnsBelow(n - 1, s);
    }
  }

  /** Every differing column of an n-chip canvas addresses one of the n
      chips. */
  lemma DiffAddressesChips(cv: seq<bv8>, buf: seq<bv8>, n: nat)
    requires |cv| == |buf| == 8 * n
    ensures forall k :: 0 <= k < |Diff(cv, buf)| ==> Diff(cv, buf)[k] / 8 < n
  {
    var d := Diff(cv, buf);
    forall k | 0 <= k < |d| ensures d[k] / 8 < n {
      ColumnAddress(d[k], n);
    }
  }

  /** The scan addresses at most eight commands to any chip of the chain. */
  lemma DiffPerChipAtMostEight(cv: seq<bv8>, buf: seq<bv8>, s: nat)
    requires |cv| == |buf|
    ensures |ChipCommands(cv, Diff(cv, buf), s)| <= 8
  {
    DiffPerChip(cv, buf, |cv|, s);
  }

  /** Reconciling onto idle queues whose capacity exceeds 8 leaves on every
      chip's queue exactly the commands of its differing columns. */
  lemma UpdateQueues(q: Queues, cv: seq<bv8>, buf: seq<bv8>, s: nat)
    requires Valid(q) && !HasCommands(q) && q.len > 8
    requires |cv| == |buf| == 8 * Chips(q) && s < Chips(q)
    ensures Pending(Scanned(q, cv, buf, |cv|), s) == ChipCommands(cv, Diff(cv, buf), s)
  {
    IdleIsEmpty(q);
    DiffPerChipAtMostEight(cv, buf, s);
    ScannedPending(q, cv, buf, |cv|, s);
    assert Pending(q, s) + ChipCommands(cv, Diff(cv, buf), s) == ChipCommands(cv, Diff(cv, buf), s);
  }

  /** After reconciling onto idle queues, transfer cycle k hands every chip
      the k-th command of its differing columns, or a NOOP frame once it has
      none left. */
  lemma UpdateCycle(q: Queues, cv: seq<bv8>, buf: seq<bv8>, k: nat, j: nat)
    requires Valid(q) && !HasCommands(q) && q.len > 8
    requires |cv| == |buf| == 8 * Chips(q)
    requires k < |Cycles(Scanned(q, cv, buf, |cv|))|
    requires j < Chips(q)
    ensures var cs := ChipCommands(cv, Diff(cv, buf), Chips(q) - 1 - j);
            Cycles(Scanned(q, cv, buf, |cv|))[k][j] == if k < |cs| then cs[k] else NoopFrame
  {
    UpdateQueues(q, cv, buf, Chips(q) - 1 - j);
    CyclesDeliverKnown(Scanned(q, cv, buf, |cv|), k, j, ChipCommands(cv, Diff(cv, buf), Chips(q) - 1 - j));
  }

  /** A second update with an unchanged canvas finds no difference and, on
      the drained queues the first one left, runs no transfer cycle. */
  lemma SecondUpdateSilent(q: Queues, cv: seq<bv8>)
    requires Valid(q) && |cv| <= 8 * Chips(q)
    ensures Diff(cv, cv) == [] && Cycles(Scanned(Flushed(q), cv, cv, |cv|)) == []
  {
    DiffExact(cv, cv);
    ScannedEqual(Flushed(q), cv, |cv|);
  }
}
