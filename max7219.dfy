/** The MAX7219 register map and the shape of the serial chain's traffic.
    The register numbers are those of the MAX7219 datasheet's register
    address map; `max7219.h`, which defines them for the firmware, is not
    part of this model. */
module Max7219 {

  const NOOP: bv8 := 0
  const DECODE: bv8 := 9
  const BRIGHTNESS: bv8 := 10
  const SCAN: bv8 := 11
  const SHUTDOWN: bv8 := 12
  const TEST: bv8 := 15

  /** One (register, data) frame for one chip (`DisplayCommand`). */
  datatype Command = Command(reg: bv8, data: bv8)

  /** The frame a chip without pending work receives. */
  const NoopFrame: Command := Command(NOOP, 0)

  /** What the bus transport observes: `max7219_start`, `max7219_send(b)`
      and `max7219_latch`. */
  datatype BusEvent = Start | Send(b: bv8) | Latch

  /** The bytes of a run of frames as sent: register, then data, frame by
      frame. */
  function Serialize(frames: seq<Command>): (r: seq<BusEvent>)
    ensures |r| == 2 * |frames|
  {
    if frames == [] then []
    else [Send(frames[0].reg), Send(frames[0].data)] + Serialize(frames[1..])
  }

  /** Frame k travels as bytes 2k (register) and 2k + 1 (data). */
  lemma {:induction false} SerializeBytes(frames: seq<Command>)
    ensures forall k :: 0 <= k < |frames| ==>
              Serialize(frames)[2 * k] == Send(frames[k].reg) &&
              Serialize(frames)[2 * k + 1] == Send(frames[k].data)
  {
    if frames != [] {
      SerializeBytes(frames[1..]);
      var r, t := Serialize(frames), Serialize(frames[1..]);
      forall k | 1 <= k < |frames|
        ensures r[2 * k] == Send(frames[k].reg) && r[2 * k + 1] == Send(frames[k].data)
      {
        assert r[2 * k] == t[2 * (k - 1)] && r[2 * k + 1] == t[2 * (k - 1) + 1];
      }
    }
  }

  /** The bytes of two runs of frames are the bytes of each, in turn. */
  lemma {:induction false} SerializeAppend(a: seq<Command>, b: seq<Command>)
    ensures Serialize(a + b) == Serialize(a) + Serialize(b)
  {
    if a == [] {
      assert a + b == b;
    } else {
      assert (a + b)[1..] == a[1..] + b;
      SerializeAppend(a[1..], b);
    }
  }

  /** Sending one frame more extends the bytes of the prefix sent so far. */
  lemma SerializeStep(frames: seq<Command>, m: nat)
    requires m < |frames|
    ensures Serialize(frames[..m + 1]) == Serialize(frames[..m]) + [Send(frames[m].reg), Send(frames[m].data)]
  {
    assert frames[..m + 1] == frames[..m] + [frames[m]];
    SerializeAppend(frames[..m], [frames[m]]);
  }

  /** One physical transfer cycle: start, every chip's frame, latch. */
  function Transfer(frames: seq<Command>): seq<BusEvent>
  {
    [Start] + Serialize(frames) + [Latch]
  }

  /** A transfer cycle is framed by start and latch and carries two bytes
      per chip in between, register first. */
  lemma TransferShape(frames: seq<Command>)
    ensures |Transfer(frames)| == 2 * |frames| + 2
    ensures Transfer(frames)[0] == Start && Transfer(frames)[2 * |frames| + 1] == Latch
    ensures forall k :: 0 <= k < |frames| ==>
              Transfer(frames)[2 * k + 1] == Send(frames[k].reg) &&
              Transfer(frames)[2 * k + 2] == Send(frames[k].data)
  {
    var r := Transfer(frames);
    var s := Serialize(frames);
    SerializeBytes(frames);
    forall k | 0 <= k < |frames|
      ensures r[2 * k + 1] == Send(frames[k].reg) && r[2 * k + 2] == Send(frames[k].data)
    {
      assert r[2 * k + 1] == s[2 * k] && r[2 * k + 2] == s[2 * k + 1];
    }
  }

  /** Start, the frames' bytes and latch appended to a trace one after the
      other make up one transfer cycle. */
  lemma TransferAppended(b: seq<BusEvent>, frames: seq<Command>)
    ensures ((b + [Start]) + Serialize(frames)) + [Latch] == b + Transfer(frames)
  {
  }

  /** Sequence concatenation regroups freely. */
  lemma AppendAssoc<T>(a: seq<T>, b: seq<T>, c: seq<T>)
    ensures (a + b) + c == a + (b + c)
  {
  }

  /** The bus traffic of a run of transfer cycles. */
  function TransferAll(cycles: seq<seq<Command>>): (r: seq<BusEvent>)
  {
    if cycles == [] then [] else Transfer(cycles[0]) + TransferAll(cycles[1..])
  }

  /** The traffic of two runs of cycles is the traffic of each, in turn. */
  lemma {:induction false} TransferAllAppend(a: seq<seq<Command>>, b: seq<seq<Command>>)
    ensures TransferAll(a + b) == TransferAll(a) + TransferAll(b)
  {
    if a == [] {
      assert a + b == b;
    } else {
      assert (a + b)[0] == a[0] && (a + b)[1..] == a[1..] + b;
      TransferAllAppend(a[1..], b);
    }
  }
}
