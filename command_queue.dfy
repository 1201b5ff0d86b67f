/** The per-chip command queues of display.c as values: one ring of `len`
    (register, data) slots per chip with a write index (`display_cmd_max`)
    and a read index (`display_cmd_cur`), and the lock-step transfer cycle
    that takes one frame from every chip at a time. */
module CommandQueue {
  import opened Max7219

  /** `slots[s]` is chip s's ring, `max[s]` its write index, `cur[s]` its read
      index, `len` the ring capacity (DISPLAY_QUEUE_LENGTH). */
  datatype Queues = Queues(slots: seq<seq<Command>>, max: seq<nat>, cur: seq<nat>, len: nat)

  predicate Valid(q: Queues)
  {
    q.len >= 1 && |q.slots| == |q.max| && |q.cur| == |q.max| &&
    (forall s :: 0 <= s < |q.slots| ==> |q.slots[s]| == q.len) &&
    (forall s :: 0 <= s < |q.max| ==> q.max[s] < q.len) &&
    (forall s :: 0 <= s < |q.cur| ==> q.cur[s] < q.len)
  }

  /** Number of chips in the chain. */
  function Chips(q: Queues): nat
  {
    |q.max|
  }

  /** Below 2n, `% n` subtracts n at most once. */
  lemma ModBelowTwice(i: nat, n: nat)
    requires 0 < n && i < 2 * n
    ensures i % n == if i < n then i else i - n
  {
    if i >= n {
      assert i == 1 * n + (i - n);
    }
  }

  /** A ring index below 2n brought back into 0..n-1: the value of
      `i % n` the ring arithmetic needs. */
  function Wrap(i: nat, n: nat): (r: nat)
    requires 0 < n && i < 2 * n
    ensures r < n
  {
    if i < n then i else i - n
  }

  /** Wrap is the `%` of the ring index updates. */
  lemma WrapIsMod(i: nat, n: nat)
    requires 0 < n && i < 2 * n
    ensures Wrap(i, n) == i % n
  {
    ModBelowTwice(i, n);
  }

  /** Number of unread entries of chip s. */
  function Count(q: Queues, s: nat): (n: nat)
    requires Valid(q) && s < Chips(q)
    ensures n < q.len
    ensures n == 0 <==> q.max[s] == q.cur[s]
  {
    if q.cur[s] <= q.max[s] then q.max[s] - q.cur[s] else q.max[s] + q.len - q.cur[s]
  }

  /** The count is the distance from read to write index, modulo the
      capacity. */
  lemma CountIsMod(q: Queues, s: nat)
    requires Valid(q) && s < Chips(q)
    ensures Count(q, s) == (q.max[s] as int - q.cur[s]) % q.len
  {
    if q.cur[s] > q.max[s] {
      assert q.max[s] as int - q.cur[s] == -1 * q.len + (q.max[s] + q.len - q.cur[s]);
    }
  }

  /** The unread entries of chip s, oldest first. */
  function Pending(q: Queues, s: nat): (p: seq<Command>)
    requires Valid(q) && s < Chips(q)
    ensures |p| == Count(q, s)
  {
    seq(Count(q, s), k requires 0 <= k < Count(q, s) => q.slots[s][Wrap(q.cur[s] + k, q.len)])
  }

  /** `display_have_commands`: some chip has max != cur. */
  predicate HasCommands(q: Queues)
    requires Valid(q)
  {
    exists s :: 0 <= s < Chips(q) && q.max[s] != q.cur[s]
  }

  lemma HasCommandsIffPending(q: Queues)
    requires Valid(q)
    ensures HasCommands(q) <==> exists s :: 0 <= s < Chips(q) && Pending(q, s) != []
  {
    if HasCommands(q) {
      var s :| 0 <= s < Chips(q) && q.max[s] != q.cur[s];
      assert Pending(q, s) != [];
    }
  }

  /** `display_push_cmd(s, reg, data)`: the command goes into slot max[s] and
      max[s] advances modulo the capacity. */
  function Push(q: Queues, s: nat, c: Command): (r: Queues)
    requires Valid(q) && s < Chips(q)
    ensures Valid(r) && Chips(r) == Chips(q) && r.len == q.len
  {
    q.(slots := q.slots[s := q.slots[s][q.max[s] := c]],
       max := q.max[s := Wrap(q.max[s] + 1, q.len)])
  }

  /** Push writes exactly one slot and one write index, and no read index. */
  lemma PushFrame(q: Queues, s: nat, c: Command)
    requires Valid(q) && s < Chips(q)
    ensures Push(q, s, c).cur == q.cur
    ensures Push(q, s, c).slots[s][q.max[s]] == c
    ensures Push(q, s, c).max[s] == if q.max[s] + 1 < q.len then q.max[s] + 1 else 0
    ensures forall t, p :: 0 <= t < Chips(q) && 0 <= p < q.len && (t != s || p != q.max[s]) ==>
              Push(q, s, c).slots[t][p] == q.slots[t][p]
    ensures forall t :: 0 <= t < Chips(q) && t != s ==> Push(q, s, c).max[t] == q.max[t]
  {
    ModBelowTwice(q.max[s] + 1, q.len);
  }

  /** Below capacity, Push appends to chip s's queue and leaves every other
      chip's queue alone. */
  lemma PushEnqueues(q: Queues, s: nat, c: Command)
    requires Valid(q) && s < Chips(q)
    requires Count(q, s) < q.len - 1
    ensures Pending(Push(q, s, c), s) == Pending(q, s) + [c]
    ensures forall t :: 0 <= t < Chips(q) && t != s ==> Pending(Push(q, s, c), t) == Pending(q, t)
  {
    var r := Push(q, s, c);
    assert Count(r, s) == Count(q, s) + 1;
    forall k | 0 <= k < Count(r, s)
      ensures Pending(r, s)[k] == (Pending(q, s) + [c])[k]
    {
      var p := Wrap(q.cur[s] + k, q.len);
      if k < Count(q, s) {
        assert p != q.max[s];
      } else {
        assert p == q.max[s];
      }
    }
  }

  /** Push onto chip u leaves the queue of every other chip alone, whatever
      u's fill level. */
  lemma PushOther(q: Queues, u: nat, c: Command, s: nat)
    requires Valid(q) && u < Chips(q) && s < Chips(q) && s != u
    ensures Pending(Push(q, u, c), s) == Pending(q, s)
  {
    var r := Push(q, u, c);
    assert r.slots[s] == q.slots[s] && r.max[s] == q.max[s] && r.cur[s] == q.cur[s];
    assert Count(r, s) == Count(q, s);
    forall k | 0 <= k < Count(q, s) ensures Pending(r, s)[k] == Pending(q, s)[k] {
    }
  }

  /** Pushing onto a queue that already holds len - 1 entries makes it look
      empty: the pending entries are lost. */
  lemma PushOverflow(q: Queues, s: nat, c: Command)
    requires Valid(q) && s < Chips(q)
    requires Count(q, s) == q.len - 1
    ensures Pending(Push(q, s, c), s) == []
  {
    ModBelowTwice(q.max[s] + 1, q.len);
  }

  /** The frame chip s contributes to a transfer cycle. */
  function Frame(q: Queues, s: nat): Command
    requires Valid(q) && s < Chips(q)
  {
    if q.max[s] == q.cur[s] then NoopFrame else q.slots[s][q.cur[s]]
  }

  /** The frame is the head of chip s's queue, or NOOP when it is empty. */
  lemma FrameIsHead(q: Queues, s: nat)
    requires Valid(q) && s < Chips(q)
    ensures Frame(q, s) == if Pending(q, s) == [] then NoopFrame else Pending(q, s)[0]
  {
    if Pending(q, s) != [] {
      assert Pending(q, s)[0] == q.slots[s][Wrap(q.cur[s] + 0, q.len)];
    }
  }

  /** The frames of one `display_execute`, in the order they are sent: the
      last chip of the chain first, chip 0 last. */
  function CycleFrames(q: Queues): (r: seq<Command>)
    requires Valid(q)
    ensures |r| == Chips(q)
  {
    seq(Chips(q), k requires 0 <= k < Chips(q) => Frame(q, Chips(q) - 1 - k))
  }

  /** Position k of a cycle carries the head of chip Chips - 1 - k's queue,
      or a NOOP frame when that queue is empty. */
  lemma CycleFramesHeads(q: Queues, k: nat)
    requires Valid(q) && k < Chips(q)
    ensures CycleFrames(q)[k] == if Pending(q, Chips(q) - 1 - k) == [] then NoopFrame
                                 else Pending(q, Chips(q) - 1 - k)[0]
  {
    assert CycleFrames(q)[k] == Frame(q, Chips(q) - 1 - k);
    FrameIsHead(q, Chips(q) - 1 - k);
  }

  /** Chip s's frame in a cycle, read straight off its ring. */
  lemma CycleFrameAt(q: Queues, s: nat)
    requires Valid(q) && s < Chips(q)
    ensures CycleFrames(q)[Chips(q) - 1 - s] ==
              if q.max[s] == q.cur[s] then NoopFrame else q.slots[s][q.cur[s]]
  {
    assert CycleFrames(q)[Chips(q) - 1 - s] == Frame(q, s);
  }

  /** The read indices after one `display_execute`. */
  function Advance(q: Queues): (r: Queues)
    requires Valid(q)
    ensures Valid(r) && Chips(r) == Chips(q)
    ensures r.slots == q.slots && r.max == q.max && r.len == q.len
  {
    q.(cur := seq(|q.cur|, s requires 0 <= s < |q.cur| =>
                    if q.max[s] == q.cur[s] then q.cur[s] else Wrap(q.cur[s] + 1, q.len)))
  }

  /** The read indices part-way through a cycle: chips above i have already
      advanced, chips 0..i not yet. */
  function AdvancedAbove(q: Queues, i: int): (r: seq<nat>)
    requires Valid(q) && -1 <= i < Chips(q)
    ensures |r| == Chips(q) && forall s :: 0 <= s < |r| ==> r[s] < q.len
  {
    var next := Advance(q).cur;
    seq(Chips(q), s requires 0 <= s < Chips(q) => if s > i then next[s] else q.cur[s])
  }

  /** Before the first chip nothing has advanced; after chip 0 every
      chip has. */
  lemma AdvancedAboveEnds(q: Queues)
    requires Valid(q)
    ensures AdvancedAbove(q, Chips(q) - 1) == q.cur
    ensures AdvancedAbove(q, -1) == Advance(q).cur
  {
  }

  /** Visiting chip i advances its read index when its queue is non-empty. */
  lemma AdvancedAboveStep(q: Queues, i: nat)
    requires Valid(q) && i < Chips(q)
    ensures AdvancedAbove(q, i)[i] == q.cur[i]
    ensures AdvancedAbove(q, i - 1) ==
              if q.max[i] == q.cur[i] then AdvancedAbove(q, i)
              else AdvancedAbove(q, i)[i := Wrap(q.cur[i] + 1, q.len)]
  {
    var a, b := AdvancedAbove(q, i), AdvancedAbove(q, i - 1);
    if q.max[i] == q.cur[i] {
      assert forall s :: 0 <= s < Chips(q) ==> b[s] == a[s];
    } else {
      assert forall s :: 0 <= s < Chips(q) ==> b[s] == a[i := Wrap(q.cur[i] + 1, q.len)][s];
    }
  }

  /** One cycle removes the head of every non-empty queue and nothing else. */
  lemma AdvancePops(q: Queues, s: nat)
    requires Valid(q) && s < Chips(q)
    ensures Pending(Advance(q), s) == if Pending(q, s) == [] then [] else Pending(q, s)[1..]
  {
    var r := Advance(q);
    if q.max[s] != q.cur[s] {
      assert Count(r, s) == Count(q, s) - 1;
      forall k | 0 <= k < Count(r, s)
        ensures Pending(r, s)[k] == Pending(q, s)[k + 1]
      {
        assert Wrap(r.cur[s] + k, q.len) == Wrap(q.cur[s] + (k + 1), q.len);
      }
    }
  }

  /** The largest element of a sequence of counts (0 when empty). */
  function MaxOf(xs: seq<nat>): (m: nat)
    ensures forall k :: 0 <= k < |xs| ==> xs[k] <= m
    ensures xs != [] ==> exists k :: 0 <= k < |xs| && xs[k] == m
    ensures xs == [] ==> m == 0
  {
    if xs == [] then 0
    else
      var m := MaxOf(xs[1..]);
      if xs[0] >= m then xs[0] else m
  }

  /** Every count lowered by one, stopping at zero. */
  function Lowered(xs: seq<nat>): (r: seq<nat>)
    ensures |r| == |xs|
    ensures forall k :: 0 <= k < |xs| ==> r[k] == if xs[k] > 0 then xs[k] - 1 else 0
  {
    seq(|xs|, k requires 0 <= k < |xs| => if xs[k] > 0 then xs[k] - 1 else 0)
  }

  /** Lowering every count lowers the largest one by one. */
  lemma LoweredMax(xs: seq<nat>)
    ensures MaxOf(Lowered(xs)) == if MaxOf(xs) > 0 then MaxOf(xs) - 1 else 0
  {
    var m, l := MaxOf(xs), Lowered(xs);
    if xs != [] {
      var k :| 0 <= k < |xs| && xs[k] == m;
      assert l[k] == (if m > 0 then m - 1 else 0);
    }
  }

  /** The pending count of every chip. */
  function Counts(q: Queues): (r: seq<nat>)
    requires Valid(q)
    ensures |r| == Chips(q)
    ensures forall s :: 0 <= s < Chips(q) ==> r[s] == Count(q, s)
  {
    seq(Chips(q), s requires 0 <= s < Chips(q) => Count(q, s))
  }

  /** The deepest queue of the chain. */
  function MaxCount(q: Queues): nat
    requires Valid(q)
  {
    MaxOf(Counts(q))
  }

  lemma HasCommandsIffMaxCount(q: Queues)
    requires Valid(q)
    ensures HasCommands(q) <==> MaxCount(q) > 0
  {
    if HasCommands(q) {
      var s :| 0 <= s < Chips(q) && q.max[s] != q.cur[s];
      assert Counts(q)[s] > 0;
    }
  }

  /** A cycle shortens the deepest queue by exactly one. */
  lemma AdvanceLowersMax(q: Queues)
    requires Valid(q)
    ensures MaxCount(Advance(q)) == if MaxCount(q) > 0 then MaxCount(q) - 1 else 0
  {
    forall s | 0 <= s < Chips(q)
      ensures Count(Advance(q), s) == Lowered(Counts(q))[s]
    {
      AdvancePops(q, s);
    }
    assert Counts(Advance(q)) == Lowered(Counts(q));
    LoweredMax(Counts(q));
  }

  /** The frames of every cycle `display_execute_all` runs: cycles repeat
      while some chip has pending commands. */
  function Cycles(q: Queues): (r: seq<seq<Command>>)
    requires Valid(q)
    ensures forall k :: 0 <= k < |r| ==> |r[k]| == Chips(q)
    decreases MaxCount(q)
  {
    if !HasCommands(q) then []
    else
      HasCommandsIffMaxCount(q);
      AdvanceLowersMax(q);
      [CycleFrames(q)] + Cycles(Advance(q))
  }

  /** While some chip has pending commands, the run of cycles is this
      cycle followed by the cycles of the advanced queues. */
  lemma CyclesStep(q: Queues)
    requires Valid(q) && HasCommands(q)
    ensures Cycles(q) == [CycleFrames(q)] + Cycles(Advance(q))
    ensures TransferAll(Cycles(q)) == Transfer(CycleFrames(q)) + TransferAll(Cycles(Advance(q)))
    ensures |Cycles(Advance(q))| < |Cycles(q)|
  {
    assert ([CycleFrames(q)] + Cycles(Advance(q)))[1..] == Cycles(Advance(q));
  }

  /** The number of cycles is the deepest queue's pending count. */
  lemma {:induction false} CyclesCount(q: Queues)
    requires Valid(q)
    ensures |Cycles(q)| == MaxCount(q)
    decreases MaxCount(q)
  {
    HasCommandsIffMaxCount(q);
    if HasCommands(q) {
      AdvanceLowersMax(q);
      CyclesCount(Advance(q));
    }
  }

  /** Lock-step delivery: cycle k carries one frame per chip, last chip first;
      chip s receives its k-th pending command, or a NOOP frame once its queue
      has run dry. */
  lemma {:induction false} CyclesDeliver(q: Queues, k: nat, j: nat)
    requires Valid(q) && k < |Cycles(q)| && j < Chips(q)
    ensures |Cycles(q)[k]| == Chips(q)
    ensures Cycles(q)[k][j] ==
              var s := Chips(q) - 1 - j;
              if k < Count(q, s) then Pending(q, s)[k] else NoopFrame
    decreases k
  {
    var s := Chips(q) - 1 - j;
    assert HasCommands(q);
    if k == 0 {
      assert Cycles(q)[0] == CycleFrames(q);
      CycleFramesHeads(q, j);
    } else {
      assert Cycles(q)[k] == Cycles(Advance(q))[k - 1];
      CyclesDeliver(Advance(q), k - 1, j);
      AdvancePops(q, s);
    }
  }

  /** Delivery stated for a chip whose pending commands are known to be `cs`. */
  lemma CyclesDeliverKnown(q: Queues, k: nat, j: nat, cs: seq<Command>)
    requires Valid(q) && k < |Cycles(q)| && j < Chips(q)
    requires Pending(q, Chips(q) - 1 - j) == cs
    ensures Cycles(q)[k][j] == if k < |cs| then cs[k] else NoopFrame
  {
    CyclesDeliver(q, k, j);
  }

  /** The state `display_execute_all` leaves: every read index caught up with
      its write index. */
  function Flushed(q: Queues): (r: Queues)
    requires Valid(q)
    ensures Valid(r) && Chips(r) == Chips(q) && !HasCommands(r)
    ensures forall s :: 0 <= s < Chips(q) ==> Pending(r, s) == []
  {
    q.(cur := q.max)
  }

  /** Queues that differ from q only in their read indices and have nothing
      pending are q flushed. */
  lemma IdleIsFlushed(q: Queues, r: Queues)
    requires Valid(q) && Valid(r) && !HasCommands(r)
    requires r.slots == q.slots && r.max == q.max && r.len == q.len
    ensures r == Flushed(q)
  {
    assert r.cur == r.max;
  }

  /** Pushing a run of commands onto chip s, first to last. */
  function PushSeq(q: Queues, s: nat, cmds: seq<Command>): (r: Queues)
    requires Valid(q) && s < Chips(q)
    ensures Valid(r) && Chips(r) == Chips(q) && r.len == q.len && r.cur == q.cur
    decreases |cmds|
  {
    if cmds == [] then q
    else Push(PushSeq(q, s, cmds[..|cmds| - 1]), s, cmds[|cmds| - 1])
  }

  /** Below capacity, pushing a run onto chip s appends it to s's queue
      and leaves every other chip's queue alone. */
  lemma {:induction false} PushSeqPending(q: Queues, s: nat, cmds: seq<Command>)
    requires Valid(q) && s < Chips(q)
    requires Count(q, s) + |cmds| < q.len
    ensures Pending(PushSeq(q, s, cmds), s) == Pending(q, s) + cmds
    ensures forall t :: 0 <= t < Chips(q) && t != s ==> Pending(PushSeq(q, s, cmds), t) == Pending(q, t)
    decreases |cmds|
  {
    if cmds != [] {
      var init, last := cmds[..|cmds| - 1], cmds[|cmds| - 1];
      PushSeqPending(q, s, init);
      PushEnqueues(PushSeq(q, s, init), s, last);
      assert init + [last] == cmds;
    }
  }

  /** Pushing one command more of the run extends the pushed prefix by it. */
  lemma PushSeqStep(q: Queues, s: nat, cmds: seq<Command>, k: nat)
    requires Valid(q) && s < Chips(q) && k < |cmds|
    ensures PushSeq(q, s, cmds[..k + 1]) == Push(PushSeq(q, s, cmds[..k]), s, cmds[k])
  {
    assert cmds[..k + 1][..k] == cmds[..k];
  }

  /** A run of one command is a single push. */
  lemma PushSeqSingle(q: Queues, s: nat, c: Command)
    requires Valid(q) && s < Chips(q)
    ensures PushSeq(q, s, [c]) == Push(q, s, c)
  {
    assert [c][..0] == [];
  }

  /** Pushing a + b is pushing a, then b. */
  lemma {:induction false} PushSeqAppend(q: Queues, s: nat, a: seq<Command>, b: seq<Command>)
    requires Valid(q) && s < Chips(q)
    ensures PushSeq(q, s, a + b) == PushSeq(PushSeq(q, s, a), s, b)
    decreases |b|
  {
    if b == [] {
      assert a + b == a;
    } else {
      assert (a + b)[..|a + b| - 1] == a + b[..|b| - 1];
      PushSeqAppend(q, s, a, b[..|b| - 1]);
    }
  }

  /** The same run of commands pushed onto chips 0 .. n-1 in turn, as
      `display_init` and `display_set_brightness` do. */
  function Broadcast(q: Queues, cmds: seq<Command>, n: nat): (r: Queues)
    requires Valid(q) && n <= Chips(q)
    ensures Valid(r) && Chips(r) == Chips(q) && r.len == q.len && r.cur == q.cur
  {
    if n == 0 then q else PushSeq(Broadcast(q, cmds, n - 1), n - 1, cmds)
  }

  /** Broadcasting to one chip more pushes the run onto that chip. */
  lemma BroadcastStep(q: Queues, cmds: seq<Command>, n: nat)
    requires Valid(q) && n < Chips(q)
    ensures Broadcast(q, cmds, n + 1) == PushSeq(Broadcast(q, cmds, n), n, cmds)
  {
  }

  /** Below capacity, broadcasting to chips 0 .. n-1 appends the run to
      exactly those chips' queues. */
  lemma {:induction false} BroadcastPending(q: Queues, cmds: seq<Command>, n: nat)
    requires Valid(q) && n <= Chips(q)
    requires forall s :: 0 <= s < Chips(q) ==> Count(q, s) + |cmds| < q.len
    ensures forall s :: 0 <= s < Chips(q) ==>
              Pending(Broadcast(q, cmds, n), s) == Pending(q, s) + (if s < n then cmds else [])
  {
    if n > 0 {
      BroadcastPending(q, cmds, n - 1);
      var b := Broadcast(q, cmds, n - 1);
      assert Pending(b, n - 1) == Pending(q, n - 1);
      PushSeqPending(b, n - 1, cmds);
    }
  }

  /** Without pending commands every queue is empty. */
  lemma IdleIsEmpty(q: Queues)
    requires Valid(q) && !HasCommands(q)
    ensures forall s :: 0 <= s < Chips(q) ==> Pending(q, s) == []
  {
    forall s | 0 <= s < Chips(q) ensures Pending(q, s) == [] {
      assert q.max[s] == q.cur[s];
    }
  }

  /** When every chip holds n commands, the deepest queue holds n. */
  lemma UniformDepth(q: Queues, n: nat)
    requires Valid(q) && Chips(q) >= 1
    requires forall s :: 0 <= s < Chips(q) ==> |Pending(q, s)| == n
    ensures MaxCount(q) == n
  {
    var cs := Counts(q);
    forall s | 0 <= s < |cs| ensures cs[s] == n {
      assert |Pending(q, s)| == n;
    }
    assert cs[0] == n;
  }

  /** Broadcasting onto idle queues leaves every chip holding exactly cmds. */
  lemma BroadcastOntoIdle(q: Queues, cmds: seq<Command>)
    requires Valid(q) && Chips(q) >= 1 && !HasCommands(q)
    requires |cmds| < q.len
    ensures forall s :: 0 <= s < Chips(q) ==> Pending(Broadcast(q, cmds, Chips(q)), s) == cmds
  {
    var b := Broadcast(q, cmds, Chips(q));
    IdleIsEmpty(q);
    assert forall s :: 0 <= s < Chips(q) ==> Count(q, s) == 0;
    BroadcastPending(q, cmds, Chips(q));
    forall s | 0 <= s < Chips(q) ensures Pending(b, s) == cmds {
      assert Pending(b, s) == Pending(q, s) + cmds;
      assert Pending(q, s) == [];
    }
  }

  /** When every chip holds the same commands, cycle k hands cmds[k] to
      every chip. */
  lemma UniformCycles(b: Queues, cmds: seq<Command>)
    requires Valid(b) && Chips(b) >= 1
    requires forall s :: 0 <= s < Chips(b) ==> Pending(b, s) == cmds
    ensures |Cycles(b)| == |cmds|
    ensures forall k :: 0 <= k < |cmds| ==> Cycles(b)[k] == seq(Chips(b), _ => cmds[k])
  {
    UniformDepth(b, |cmds|);
    CyclesCount(b);
    forall k | 0 <= k < |cmds|
      ensures Cycles(b)[k] == seq(Chips(b), _ => cmds[k])
    {
      UniformFrame(b, cmds, k, 0);
      forall j | 0 <= j < Chips(b) ensures Cycles(b)[k][j] == cmds[k] {
        UniformFrame(b, cmds, k, j);
      }
    }
  }

  /** One frame of UniformCycles: chip j's frame in cycle k is cmds[k]. */
  lemma UniformFrame(b: Queues, cmds: seq<Command>, k: nat, j: nat)
    requires Valid(b) && |Cycles(b)| == |cmds|
    requires forall s :: 0 <= s < Chips(b) ==> Pending(b, s) == cmds
    requires k < |cmds| && j < Chips(b)
    ensures |Cycles(b)[k]| == Chips(b) && Cycles(b)[k][j] == cmds[k]
  {
    CyclesDeliver(b, k, j);
    assert Pending(b, Chips(b) - 1 - j) == cmds;
  }

  /** Broadcasting onto idle queues (capacity permitting) takes exactly
      |cmds| cycles, and in cycle k every chip receives cmds[k]. */
  lemma BroadcastLockStep(q: Queues, cmds: seq<Command>)
    requires Valid(q) && Chips(q) >= 1 && !HasCommands(q)
    requires |cmds| < q.len
    ensures |Cycles(Broadcast(q, cmds, Chips(q)))| == |cmds|
    ensures forall k :: 0 <= k < |cmds| ==>
              Cycles(Broadcast(q, cmds, Chips(q)))[k] == seq(Chips(q), _ => cmds[k])
  {
    BroadcastOntoIdle(q, cmds);
    UniformCycles(Broadcast(q, cmds, Chips(q)), cmds);
  }
}
