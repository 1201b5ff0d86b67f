/** display.c: the canvas, the shadow buffer and the per-chip command queues
    of a chain of MAX7219 LED-matrix drivers, and the operations that draw
    into the canvas and bring the chips up to date. The bus transport
    (`max7219_start`, `max7219_send`, `max7219_latch`) is recorded as a ghost
    trace of bus events. */
module Display {
  import opened Bytes
  import opened Max7219
  import CQ = CommandQueue
  import Sync
  import Raster

  /** The start-up commands `display_init` queues for every chip. */
  function InitSequence(): (r: seq<Command>)
    ensures |r| == 12
  {
    [Command(DECODE, 0), Command(SCAN, 7), Command(TEST, 0), Command(SHUTDOWN, 1),
     Command(1, 0), Command(2, 0), Command(3, 0), Command(4, 0),
     Command(5, 0), Command(6, 0), Command(7, 0), Command(8, 0)]
  }

  /** The sequence turns code-B decoding off, scans all eight digits, leaves
      test mode, leaves shutdown, and then blanks digit registers 1..8 in
      order. */
  lemma InitSequenceCommands()
    ensures InitSequence()[..4] == [Command(DECODE, 0), Command(SCAN, 7), Command(TEST, 0), Command(SHUTDOWN, 1)]
    ensures forall k :: 4 <= k < 12 ==> InitSequence()[k] == Command((k - 3) as bv8, 0)
  {
  }

  /** The configuration commands pushed one by one onto chip s. */
  function Configured(q: CQ.Queues, s: nat): (r: CQ.Queues)
    requires CQ.Valid(q) && s < CQ.Chips(q)
    ensures CQ.Valid(r) && CQ.Chips(r) == CQ.Chips(q) && r.len == q.len
  {
    CQ.Push(CQ.Push(CQ.Push(CQ.Push(q, s, Command(DECODE, 0)), s, Command(SCAN, 7)), s, Command(TEST, 0)), s, Command(SHUTDOWN, 1))
  }

  /** Those four pushes queue the first four commands of the start-up
      sequence. */
  lemma ConfiguredIsPrefix(q: CQ.Queues, s: nat)
    requires CQ.Valid(q) && s < CQ.Chips(q)
    ensures Configured(q, s) == CQ.PushSeq(q, s, InitSequence()[..4])
  {
    var cmds := InitSequence();
    InitSequenceCommands();
    assert cmds[..0] == [];
    CQ.PushSeqStep(q, s, cmds, 0);
    CQ.PushSeqStep(q, s, cmds, 1);
    CQ.PushSeqStep(q, s, cmds, 2);
    CQ.PushSeqStep(q, s, cmds, 3);
  }

  /** From idle queues with room for the whole sequence, `display_init`'s
      drain takes 12 transfer cycles and cycle k hands start-up command k to
      every chip. */
  lemma InitLockStep(q: CQ.Queues)
    requires CQ.Valid(q) && CQ.Chips(q) >= 1 && !CQ.HasCommands(q) && q.len > 12
    ensures |CQ.Cycles(CQ.Broadcast(q, InitSequence(), CQ.Chips(q)))| == 12
    ensures forall k :: 0 <= k < 12 ==>
              CQ.Cycles(CQ.Broadcast(q, InitSequence(), CQ.Chips(q)))[k] ==
              seq(CQ.Chips(q), _ => InitSequence()[k])
  {
    CQ.BroadcastLockStep(q, InitSequence());
  }

  /** `display_set_brightness(b)` on idle queues is one transfer cycle that
      hands every chip the brightness command. */
  lemma BrightnessLockStep(q: CQ.Queues, b: bv8)
    requires CQ.Valid(q) && CQ.Chips(q) >= 1 && !CQ.HasCommands(q) && q.len > 1
    ensures CQ.Cycles(CQ.Broadcast(q, [Command(BRIGHTNESS, b)], CQ.Chips(q))) ==
              [seq(CQ.Chips(q), _ => Command(BRIGHTNESS, b))]
  {
    CQ.BroadcastLockStep(q, [Command(BRIGHTNESS, b)]);
  }

  /** Copying column x of `cv` into a shadow that already matches it below x. */
  lemma SpliceStep(cv: seq<bv8>, buf: seq<bv8>, x: nat)
    requires |cv| == |buf| && x < |cv|
    ensures (cv[..x] + buf[x..])[x := cv[x]] == cv[..x + 1] + buf[x + 1..]
  {
    assert (cv[..x] + buf[x..])[x := cv[x]] == cv[..x + 1] + buf[x + 1..];
  }

  /** Once every column is copied the shadow is the canvas. */
  lemma SpliceDone(cv: seq<bv8>, buf: seq<bv8>)
    requires |cv| == |buf|
    ensures cv[..|cv|] + buf[|cv|..] == cv
  {
    assert cv[..|cv|] + buf[|cv|..] == cv;
  }

  /** Reducing the accumulator before or after an addition agrees. */
  lemma ModAdd(a: nat, b: nat)
    ensures (a % 0x1_0000 + b) % 0x1_0000 == (a + b) % 0x1_0000
  {
  }

  /** `display_measure_string`: reads only the font tables. `str` is the
      bytes before the string's terminating NUL. */
  method MeasureString(str: seq<uint8>, font: Raster.Font) returns (width: nat)
    requires forall k :: 0 <= k < |str| ==> str[k] != 0 && str[k] < |font.width|
    ensures width == Raster.Measured(font, str)
  {
    var acc := 0;
    var p := 0;
    while p < |str|
      invariant 0 <= p <= |str|
      invariant acc == Raster.TotalAdvance(font, str[..p]) % 0x1_0000
    {
      assert str[..p + 1][..p] == str[..p];
      ModAdd(Raster.TotalAdvance(font, str[..p]), font.width[str[p]] as int + 1);
      acc := (acc + font.width[str[p]] as int + 1) % 0x1_0000;
      p := p + 1;
    }
    assert str[..p] == str;
    width := if acc > 0 then acc - 1 else acc;
  }

  class Display {
    /** DISPLAY_SEGMENTS: the number of chips in the chain. */
    const segments: nat
    /** DISPLAY_QUEUE_LENGTH: the capacity of each chip's ring. */
    const queueLength: nat
    /** `display_canvas`: what the drawing operations produce. */
    const canvas: array<bv8>
    /** `display_buffer`: what the chips were last sent. */
    const buffer: array<bv8>
    /** `display_cmd_buffer`: one ring of commands per chip. */
    const cmdBuffer: array2<Command>
    /** `display_cmd_max`: write index of each ring. */
    const cmdMax: array<nat>
    /** `display_cmd_cur`: read index of each ring. */
    const cmdCur: array<nat>
    /** The command queues as a value: the rings, write and read indices. */
    ghost var queues: CQ.Queues
    /** Every event the bus transport has seen. */
    ghost var bus: seq<BusEvent>

    /** The 8-bit counters of display.c bound the configuration: the column
        scan of `display_update` needs 8 * segments <= 255, the ring indices
        need a capacity of at most 256. */
    ghost predicate Shaped()
    {
      1 <= segments <= 31 && 1 <= queueLength <= 256 &&
      canvas.Length == 8 * segments && buffer.Length == 8 * segments && canvas != buffer &&
      cmdBuffer.Length0 == segments && cmdBuffer.Length1 == queueLength &&
      cmdMax.Length == segments && cmdCur.Length == segments && cmdMax != cmdCur
    }

    /** `queues` is the arrays' contents. */
    ghost predicate Valid()
      reads this, cmdBuffer, cmdMax, cmdCur
      ensures Valid() ==> CQ.Valid(queues) && CQ.Chips(queues) == segments && queues.len == queueLength
    {
      Shaped() && CQ.Valid(queues) &&
      Holds(queues.slots) && queues.max == cmdMax[..] && queues.cur == cmdCur[..] && queues.len == queueLength
    }

    /** `slots` is the contents of `cmdBuffer`, ring by ring. */
    ghost predicate Holds(slots: seq<seq<Command>>)
      reads cmdBuffer
    {
      |slots| == cmdBuffer.Length0 &&
      (forall s :: 0 <= s < |slots| ==> |slots[s]| == cmdBuffer.Length1) &&
      forall s, p :: 0 <= s < cmdBuffer.Length0 && 0 <= p < cmdBuffer.Length1 ==> slots[s][p] == cmdBuffer[s, p]
    }

    ghost function Slots(): (r: seq<seq<Command>>)
      reads cmdBuffer
      ensures Holds(r)
    {
      seq(cmdBuffer.Length0, s requires 0 <= s < cmdBuffer.Length0 reads cmdBuffer =>
        seq(cmdBuffer.Length1, p requires 0 <= p < cmdBuffer.Length1 reads cmdBuffer => cmdBuffer[s, p]))
    }

    /** The zero-initialised module state of display.c. */
    constructor (segments: nat, queueLength: nat)
      requires 1 <= segments <= 31 && 1 <= queueLength <= 256
      ensures Valid() && this.segments == segments && this.queueLength == queueLength
      ensures fresh(canvas) && fresh(buffer) && fresh(cmdBuffer) && fresh(cmdMax) && fresh(cmdCur)
      ensures forall c :: 0 <= c < canvas.Length ==> canvas[c] == 0 && buffer[c] == 0
      ensures !CQ.HasCommands(queues) && bus == []
    {
      this.segments := segments;
      this.queueLength := queueLength;
      canvas := new bv8[8 * segments](_ => 0);
      buffer := new bv8[8 * segments](_ => 0);
      cmdBuffer := new Command[segments, queueLength]((_, _) => Command(0, 0));
      cmdMax := new nat[segments](_ => 0);
      cmdCur := new nat[segments](_ => 0);
      bus := [];
      new;
      queues := CQ.Queues(Slots(), cmdMax[..], cmdCur[..], queueLength);
    }

    /** `display_have_commands`. */
    method HasCommands() returns (r: bool)
      requires Valid()
      ensures r <==> exists s :: 0 <= s < segments && cmdMax[s] != cmdCur[s]
      ensures r == CQ.HasCommands(queues)
    {
      var i := 0;
      while i < segments
        invariant 0 <= i <= segments
        invariant forall s :: 0 <= s < i ==> cmdMax[s] == cmdCur[s]
      {
        if cmdMax[i] != cmdCur[i] {
          return true;
        }
        i := i + 1;
      }
      return false;
    }

    /** `display_push_cmd(segment, reg, data)`: no check for a full ring. */
    method Push(segment: nat, reg: bv8, data: bv8)
      requires Valid() && segment < segments
      modifies this, cmdBuffer, cmdMax
      ensures Valid() && bus == old(bus)
      ensures queues == CQ.Push(old(queues), segment, Command(reg, data))
    {
      ghost var q := queues;
      var pos := cmdMax[segment];
      cmdBuffer[segment, pos] := Command(reg, data);
      cmdMax[segment] := (pos + 1) % queueLength;
      CQ.WrapIsMod(pos + 1, queueLength);
      queues := CQ.Push(q, segment, Command(reg, data));
    }

    /** One chip's turn in `display_execute`: chip i sends the head of its
        ring and advances its read index, or sends a NOOP frame when its ring
        is empty. `q` is the queues as the cycle began; the chips above i
        have had their turn. */
    method SendFrame(i: nat, ghost q: CQ.Queues)
      requires Shaped() && CQ.Valid(q) && i < segments == CQ.Chips(q) && q.len == queueLength
      requires Holds(q.slots) && q.max == cmdMax[..]
      requires cmdCur[..] == CQ.AdvancedAbove(q, i)
      modifies this, cmdCur
      ensures Shaped() && queues == old(queues)
      ensures cmdCur[..] == CQ.AdvancedAbove(q, i - 1)
      ensures bus == old(bus) + [Send(CQ.CycleFrames(q)[segments - 1 - i].reg),
                                 Send(CQ.CycleFrames(q)[segments - 1 - i].data)]
    {
      CQ.CycleFrameAt(q, i);
      CQ.AdvancedAboveStep(q, i);
      var max := cmdMax[i];
      var pos := cmdCur[i];
      if pos == max {
        bus := bus + [Send(NOOP), Send(0)];
      } else {
        var reg := cmdBuffer[i, pos].reg;
        var data := cmdBuffer[i, pos].data;
        bus := bus + [Send(reg), Send(data)];
        cmdCur[i] := (pos + 1) % queueLength;
        CQ.WrapIsMod(pos + 1, queueLength);
      }
    }

    /** `display_execute`: one transfer cycle. Chips are visited from the
        last one down to chip 0. */
    method Execute()
      requires Valid()
      modifies this, cmdCur
      ensures Valid()
      ensures queues == CQ.Advance(old(queues))
      ensures bus == old(bus) + Transfer(CQ.CycleFrames(old(queues)))
    {
      ghost var q := queues;
      ghost var frames := CQ.CycleFrames(q);
      CQ.AdvancedAboveEnds(q);
      bus := bus + [Start];
      ghost var head := bus;
      var i: int := segments - 1;
      while i >= 0
        invariant -1 <= i < segments
        invariant Shaped() && queues == q
        invariant cmdCur[..] == CQ.AdvancedAbove(q, i)
        invariant bus == head + Serialize(frames[..segments - 1 - i])
      {
        SerializeStep(frames, segments - 1 - i);
        ghost var sent := Serialize(frames[..segments - 1 - i]);
        SendFrame(i, q);
        AppendAssoc(head, sent, [Send(frames[segments - 1 - i].reg), Send(frames[segments - 1 - i].data)]);
        i := i - 1;
      }
      assert frames[..segments - 1 - i] == frames;
      bus := bus + [Latch];
      TransferAppended(old(bus), frames);
      queues := CQ.Advance(q);
    }

    /** `display_execute_all`: transfer cycles until no chip has pending
        commands. `cycles` counts them. */
    method ExecuteAll() returns (ghost cycles: nat)
      requires Valid()
      modifies this, cmdCur
      ensures Valid()
      ensures queues == CQ.Flushed(old(queues))
      ensures bus == old(bus) + TransferAll(CQ.Cycles(old(queues)))
      ensures cycles == CQ.MaxCount(old(queues))
    {
      ghost var q0 := queues;
      CQ.CyclesCount(q0);
      cycles := 0;
      var more := HasCommands();
      while more
        invariant Valid()
        invariant queues.slots == q0.slots && queues.max == q0.max
        invariant more == CQ.HasCommands(queues)
        invariant old(bus) + TransferAll(CQ.Cycles(q0)) == bus + TransferAll(CQ.Cycles(queues))
        invariant cycles + |CQ.Cycles(queues)| == |CQ.Cycles(q0)|
        decreases |CQ.Cycles(queues)|
      {
        ghost var q, b := queues, bus;
        CQ.CyclesStep(q);
        Execute();
        AppendAssoc(b, Transfer(CQ.CycleFrames(q)), TransferAll(CQ.Cycles(CQ.Advance(q))));
        cycles := cycles + 1;
        more := HasCommands();
      }
      CQ.IdleIsFlushed(q0, queues);
    }

    /** The configuration part of `display_init`'s per-chip step: decoding
        off, all eight digits scanned, test mode off, shutdown off. */
    method QueueConfiguration(segment: nat)
      requires Valid() && segment < segments
      modifies this, cmdBuffer, cmdMax
      ensures Valid() && bus == old(bus)
      ensures queues == Configured(old(queues), segment)
    {
      Push(segment, DECODE, 0);
      Push(segment, SCAN, 7);
      Push(segment, TEST, 0);
      Push(segment, SHUTDOWN, 1);
    }

    /** The digit loop of `display_init`'s per-chip step: digit registers
        1..8 cleared, in order. */
    method QueueBlankDigits(segment: nat)
      requires Valid() && segment < segments
      modifies this, cmdBuffer, cmdMax
      ensures Valid() && bus == old(bus)
      ensures queues == CQ.PushSeq(old(queues), segment, InitSequence()[4..])
    {
      ghost var q, digits := queues, InitSequence()[4..];
      InitSequenceCommands();
      assert digits[..0] == [];
      var j := 1;
      while j <= 8
        invariant 1 <= j <= 9
        invariant Valid() && bus == old(bus)
        invariant queues == CQ.PushSeq(q, segment, digits[..j - 1])
      {
        assert digits[j - 1] == Command(j as bv8, 0);
        Push(segment, j as bv8, 0);
        CQ.PushSeqStep(q, segment, digits, j - 1);
        j := j + 1;
      }
      assert digits[..j - 1] == digits;
    }

    /** One pass of `display_init`'s chip loop: the whole start-up sequence
        queued for chip `segment`. */
    method QueueStartUp(segment: nat)
      requires Valid() && segment < segments
      modifies this, cmdBuffer, cmdMax
      ensures Valid() && bus == old(bus)
      ensures queues == CQ.PushSeq(old(queues), segment, InitSequence())
    {
      ghost var q, cmds := queues, InitSequence();
      QueueConfiguration(segment);
      ConfiguredIsPrefix(q, segment);
      QueueBlankDigits(segment);
      CQ.PushSeqAppend(q, segment, cmds[..4], cmds[4..]);
      assert cmds[..4] + cmds[4..] == cmds;
    }

    /** One pass of `display_init`'s chip loop, as a step of the broadcast. */
    method QueueNextChip(i: nat, ghost q0: CQ.Queues, ghost cmds: seq<Command>)
      requires Valid() && i < segments && CQ.Valid(q0) && CQ.Chips(q0) == segments
      requires cmds == InitSequence() && queues == CQ.Broadcast(q0, cmds, i)
      modifies this, cmdBuffer, cmdMax
      ensures Valid() && bus == old(bus)
      ensures queues == CQ.Broadcast(q0, cmds, i + 1)
    {
      QueueStartUp(i);
      CQ.BroadcastStep(q0, cmds, i);
    }

    /** The chip loop of `display_init`: the start-up sequence queued for
        chips 0 .. segments - 1 in turn. */
    method QueueInit()
      requires Valid()
      modifies this, cmdBuffer, cmdMax
      ensures Valid() && bus == old(bus)
      ensures queues == CQ.Broadcast(old(queues), InitSequence(), segments)
    {
      ghost var q0, b0, cmds := queues, bus, InitSequence();
      var i := 0;
      while i < segments
        invariant 0 <= i <= segments
        invariant Valid() && bus == b0
        invariant queues == CQ.Broadcast(q0, cmds, i)
      {
        QueueNextChip(i, q0, cmds);
        i := i + 1;
      }
    }

    /** `display_init`, without the JTAG and port-direction register writes:
        queue the start-up sequence for every chip, then drain. */
    method Init()
      requires Valid()
      modifies this, cmdBuffer, cmdMax, cmdCur
      ensures Valid()
      ensures queues == CQ.Flushed(CQ.Broadcast(old(queues), InitSequence(), segments))
      ensures bus == old(bus) + TransferAll(CQ.Cycles(CQ.Broadcast(old(queues), InitSequence(), segments)))
    {
      QueueInit();
      ghost var _ := ExecuteAll();
    }

    /** The chip loop of `display_set_brightness`: one brightness command
        queued for every chip. */
    method QueueBrightness(brightness: bv8)
      requires Valid()
      modifies this, cmdBuffer, cmdMax
      ensures Valid() && bus == old(bus)
      ensures queues == CQ.Broadcast(old(queues), [Command(BRIGHTNESS, brightness)], segments)
    {
      ghost var q0 := queues;
      ghost var cmds := [Command(BRIGHTNESS, brightness)];
      var i := 0;
      while i < segments
        invariant 0 <= i <= segments
        invariant Valid() && bus == old(bus)
        invariant queues == CQ.Broadcast(q0, cmds, i)
      {
        ghost var qi := queues;
        Push(i, BRIGHTNESS, brightness);
        CQ.PushSeqSingle(qi, i, Command(BRIGHTNESS, brightness));
        CQ.BroadcastStep(q0, cmds, i);
        i := i + 1;
      }
      assert i == segments;
    }

    /** `display_set_brightness(brightness)`: queue the brightness command
        for every chip, then drain. */
    method SetBrightness(brightness: bv8)
      requires Valid()
      modifies this, cmdBuffer, cmdMax, cmdCur
      ensures Valid()
      ensures queues == CQ.Flushed(CQ.Broadcast(old(queues), [Command(BRIGHTNESS, brightness)], segments))
      ensures bus == old(bus) + TransferAll(CQ.Cycles(CQ.Broadcast(old(queues), [Command(BRIGHTNESS, brightness)], segments)))
    {
      QueueBrightness(brightness);
      ghost var _ := ExecuteAll();
    }

    /** `display_clear_canvas`. */
    method ClearCanvas()
      requires Valid()
      modifies canvas
      ensures forall c :: 0 <= c < canvas.Length ==> canvas[c] == 0
    {
      for i := 0 to segments
        invariant forall c :: 0 <= c < 8 * i ==> canvas[c] == 0
      {
        for j := 0 to 8
          invariant forall c :: 0 <= c < 8 * i + j ==> canvas[c] == 0
        {
          canvas[i * 8 + j] := 0;
        }
      }
    }

    /** `display_set_column(col, data)`: no bounds check in the source. */
    method SetColumn(col: uint8, data: bv8)
      requires Valid() && col < canvas.Length
      modifies canvas
      ensures canvas[..] == old(canvas[..])[col := data]
    {
      canvas[col] := data;
    }

    /** `display_set_pixel(x, y)`. */
    method SetPixel(x: uint8, y: uint8)
      requires Valid() && x < canvas.Length && y < 16
      modifies canvas
      ensures canvas[..] == old(canvas[..])[x := SetBit(old(canvas[x]), y)]
    {
      canvas[x] := SetBit(canvas[x], y);
    }

    /** `display_clear_pixel(x, y)`. */
    method ClearPixel(x: uint8, y: uint8)
      requires Valid() && x < canvas.Length && y < 16
      modifies canvas
      ensures canvas[..] == old(canvas[..])[x := ClearBit(old(canvas[x]), y)]
    {
      canvas[x] := ClearBit(canvas[x], y);
    }

    /** `display_draw_sprite(x, y, w, h, data)`: columns 0..w-1 are written
        whatever x is, and h is not used. */
    method DrawSprite(x: int8, y: int8, w: uint8, h: uint8, data: seq<bv8>)
      requires Valid() && -8 <= y <= 8 && w <= |data| && w <= canvas.Length
      modifies canvas
      ensures canvas[..] == Raster.SpriteDrawn(old(canvas[..]), y, data[..w])
    {
      var mask := ColumnMask(y);
      var col := 0;
      while col < w
        invariant 0 <= col <= w
        invariant forall c :: 0 <= c < col ==> canvas[c] == WriteColumn(old(canvas[c]), data[c], y)
        invariant forall c :: col <= c < canvas.Length ==> canvas[c] == old(canvas[c])
      {
        var pixels := Shifted(data[col], y);
        canvas[col] := Overlay(canvas[col], mask, pixels);
        col := col + 1;
      }
      forall c | 0 <= c < canvas.Length
        ensures canvas[c] == Raster.SpriteDrawn(old(canvas[..]), y, data[..w])[c]
      {
        Raster.SpriteColumns(old(canvas[..]), y, data[..w], c);
      }
    }

    /** The column loop of `display_draw_char`: glyph columns
        bitmap[offset .. offset + width) written at columns x, x + 1, ...
        under `mask`, skipping columns off the canvas. */
    method BlitGlyph(x: int8, y: int, mask: bv8, bitmap: seq<bv8>, offset: nat, width: nat)
      requires -8 <= y <= 8 && mask == ColumnMask(y)
      requires offset + width <= |bitmap| && width < 128
      requires canvas.Length == 8 * segments
      modifies canvas
      ensures canvas[..] == Raster.Blit(old(canvas[..]), x, y, bitmap[offset .. offset + width], width)
    {
      ghost var glyph := bitmap[offset .. offset + width];
      var j: int8 := 0;
      while j < width as int
        invariant 0 <= j <= width
        invariant canvas[..] == Raster.Blit(old(canvas[..]), x, y, glyph, j)
      {
        ghost var prev := canvas[..];
        var col := Int8(x + j);
        if 0 <= col < 8 * segments {
          var pixels := Shifted(bitmap[offset + j], y);
          assert pixels == Shifted(glyph[j], y);
          canvas[col] := Overlay(canvas[col], mask, pixels);
          assert canvas[..] == prev[col := WriteColumn(prev[col], glyph[j], y)];
        }
        j := j + 1;
      }
    }

    /** `display_draw_char(x, y, ch)`: the character code as a byte. */
    method DrawChar(x: int8, y: int8, ch: uint8, font: Raster.Font) returns (width: uint8)
      requires Shaped() && Raster.ValidFont(font) && -8 <= y <= 8
      modifies canvas
      ensures width == Raster.CharWidth(font, ch)
      ensures canvas[..] == Raster.CharDrawn(old(canvas[..]), x, y, ch, font)
    {
      if ch > 127 {
        return 0;
      }
      var mask := ColumnMask(y);
      var charWidth := font.width[ch];
      if charWidth == 0 {
        return 0;
      }
      BlitGlyph(x, y, mask, font.bitmap, font.offset[ch], charWidth as int);
      return charWidth as int;
    }

    /** `display_draw_string(x, y, str)`: `str` is the bytes before the
        string's terminating NUL. */
    method DrawString(x: int8, y: int8, str: seq<uint8>, font: Raster.Font)
      requires Shaped() && Raster.ValidFont(font)
      requires forall k :: 0 <= k < |str| ==> str[k] != 0
      modifies canvas
      ensures canvas[..] == Raster.StringDrawn(old(canvas[..]), x, y, str, font)
    {
      if y < -8 || y > 8 {
        return;
      }
      var i: int8 := x;
      var p := 0;
      while p < |str| && i < 8 * segments
        invariant 0 <= p <= |str|
        invariant Raster.StringFrom(canvas[..], i, y, str[p..], font) ==
                  Raster.StringFrom(old(canvas[..]), x, y, str, font)
      {
        i := DrawNext(i, y, str, p, font);
        p := p + 1;
      }
    }

    /** One pass of `display_draw_string`'s loop: character p drawn at column
        i, and the column of the next character. */
    method DrawNext(i: int8, y: int8, str: seq<uint8>, p: nat, font: Raster.Font) returns (next: int8)
      requires Shaped() && Raster.ValidFont(font) && -8 <= y <= 8 && p < |str| && i < 8 * segments
      modifies canvas
      ensures Raster.StringFrom(canvas[..], next, y, str[p + 1..], font) ==
              Raster.StringFrom(old(canvas[..]), i, y, str[p..], font)
    {
      ghost var cv := canvas[..];
      var charWidth := DrawChar(i, y, str[p], font);
      next := i;
      if charWidth > 0 {
        next := Int8(i + charWidth + 1);
      }
      Raster.StringFromStep(cv, i, y, str, p, font, next);
    }

    /** One column of `display_update`'s scan: a column that differs from
        the shadow buffer is queued for its chip, as digit register
        x % 8 + 1, and copied into the shadow buffer. */
    method SyncColumn(x: nat)
      requires Valid() && x < canvas.Length
      modifies this, buffer, cmdBuffer, cmdMax
      ensures Valid() && bus == old(bus)
      ensures buffer[..] == old(buffer[..])[x := canvas[x]]
      ensures queues == if old(buffer[x]) != canvas[x]
                        then CQ.Push(old(queues), x / 8, Sync.ColumnCommand(x, canvas[x]))
                        else old(queues)
    {
      if canvas[x] != buffer[x] {
        var segment := x / 8;
        var column := x % 8 + 1;
        Push(segment, column as bv8, canvas[x]);
        buffer[x] := canvas[x];
      }
    }

    /** One pass of `display_update`'s scan, as a step of the column diff:
        column x joins the synchronised prefix. */
    method SyncNext(x: nat, ghost q0: CQ.Queues, ghost cv: seq<bv8>, ghost buf0: seq<bv8>)
      requires Valid() && x < canvas.Length && cv == canvas[..] && |buf0| == |cv|
      requires CQ.Valid(q0) && CQ.Chips(q0) == segments
      requires buffer[..] == cv[..x] + buf0[x..]
      requires queues == Sync.Scanned(q0, cv, buf0, x)
      modifies this, buffer, cmdBuffer, cmdMax
      ensures Valid() && bus == old(bus)
      ensures buffer[..] == cv[..x + 1] + buf0[x + 1..]
      ensures queues == Sync.Scanned(q0, cv, buf0, x + 1)
    {
      SyncColumn(x);
      SpliceStep(cv, buf0, x);
    }

    /** The scan of `display_update`: queue one command per column where
        canvas and shadow buffer differ and copy it into the shadow buffer. */
    method QueueChanges()
      requires Valid()
      modifies this, buffer, cmdBuffer, cmdMax
      ensures Valid() && bus == old(bus)
      ensures buffer[..] == canvas[..]
      ensures queues == Sync.Scanned(old(queues), canvas[..], old(buffer[..]), canvas.Length)
    {
      ghost var q0, cv, buf0 := queues, canvas[..], buffer[..];
      var x := 0;
      while x < 8 * segments
        invariant 0 <= x <= 8 * segments
        invariant Valid() && bus == old(bus)
        invariant buffer[..] == cv[..x] + buf0[x..]
        invariant queues == Sync.Scanned(q0, cv, buf0, x)
      {
        SyncNext(x, q0, cv, buf0);
        x := x + 1;
      }
      SpliceDone(cv, buf0);
    }

    /** `display_update`: queue the changed columns, then drain. */
    method Update()
      requires Valid()
      modifies this, buffer, cmdBuffer, cmdMax, cmdCur
      ensures Valid()
      ensures canvas[..] == old(canvas[..]) && buffer[..] == canvas[..]
      ensures queues ==
                CQ.Flushed(Sync.Scanned(old(queues), old(canvas[..]), old(buffer[..]), canvas.Length))
      ensures bus == old(bus) +
                TransferAll(CQ.Cycles(Sync.Scanned(old(queues), old(canvas[..]), old(buffer[..]), canvas.Length)))
    {
      QueueChanges();
      ghost var _ := ExecuteAll();
    }
  }
}
