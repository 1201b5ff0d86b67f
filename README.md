# MAX7219 matrix display driver (display.c) in Dafny

A model of `src/MatrixClock/lib/display.c`, the driver for the clock's chain
of MAX7219 LED-matrix chips. The driver keeps three pieces of module state:

- a drawing canvas of `DISPLAY_SEGMENTS * 8` column bytes and a shadow
  buffer holding what the chips were last sent;
- one ring of `(register, data)` commands per chip, with a write index
  (`display_cmd_max`) and a read index (`display_cmd_cur`);
- the serial chain itself, fed one transfer cycle at a time (start, one
  frame per chip from the last chip down to chip 0, latch).

The model has six modules:

- `Bytes`: the AVR's 8-bit arithmetic and the column write rule shared by
  the sprite and glyph drawers (shift, mask, OR; the `0xFF > y` mask that
  evaluates to 1 for negative `y`).
- `Max7219`: the register numbers, the `Command` frame and the bus events
  `Start`, `Send(b)` and `Latch`, with the byte layout of a transfer cycle.
- `CommandQueue`: the rings as a value (`Queues`), `display_push_cmd` as
  `Push`, one transfer cycle as `CycleFrames`/`Advance`, and the run of
  cycles `display_execute_all` performs as `Cycles`, together with its
  length and what each chip receives in each cycle.
- `Raster`: the font tables as an immutable `Font` value, and the canvas
  after drawing a sprite, a character or a string, or measuring a string.
- `Sync`: the column scan of `display_update`: which columns differ, and
  which commands each chip's queue receives for them.
- `Display`: the class `Display` with the canvas, the shadow buffer, the
  ring array and the index arrays as Dafny arrays, updated in place by
  methods that follow the C functions loop by loop. A ghost field `queues`
  mirrors the arrays as a `Queues` value. A ghost field `bus` records every
  bus event. Each method's contract ties the new arrays and the bus to the
  functions of the other modules.

`DISPLAY_SEGMENTS` and `DISPLAY_QUEUE_LENGTH` are constructor parameters.
The register numbers are those of the MAX7219 datasheet's register address
map.

## Model

| member | source | states |
|---|---|---|
| Bytes.Int8 | src/MatrixClock/lib/display.c:205 | conversion to `int8_t` keeps values in -128..127 and subtracts 256 from 128..383 |
| Bytes.Int8Congruent | src/MatrixClock/lib/display.c:257 | the `int8_t` conversion preserves the value modulo 256 |
| Bytes.ColumnMask | src/MatrixClock/lib/display.c:169 | computes `(y >= 0) ? (0xFF << y) : (0xFF > y)` as a byte; ColumnMaskRows states its rows |
| Bytes.ColumnMaskRows | src/MatrixClock/lib/display.c:169 | the mask has rows y..7 set for y >= 0 and only row 0 for y < 0 (the comparison `0xFF > y` is 1) |
| Bytes.Shifted | src/MatrixClock/lib/display.c:174 | computes `(y >= 0) ? (pixels << y) : (pixels >> (-y))` in a byte; ShiftedRows states its rows |
| Bytes.ShiftedRows | src/MatrixClock/lib/display.c:212 | row i of the shifted column is source row i - y when 0 <= i - y < 8, and unlit otherwise |
| Bytes.Overlay | src/MatrixClock/lib/display.c:176-177 | computes the old column AND NOT mask, OR the pixels; OverlayRows states its rows |
| Bytes.OverlayRows | src/MatrixClock/lib/display.c:215-216 | row i is lit iff it was lit and the mask leaves it, or the pixels light it |
| Bytes.OverlayBit | src/MatrixClock/lib/display.c:215-216 | helper: the bit-vector form of OverlayRows |
| Bytes.WriteColumn | src/MatrixClock/lib/display.c:169-177 | the column write of the sprite and glyph drawers; WriteColumnUp and WriteColumnDown state its rows |
| Bytes.SetBit | src/MatrixClock/lib/display.c:153 | computes the column OR `1 << y`, truncated to a byte; SetBitRows states its rows |
| Bytes.ClearBit | src/MatrixClock/lib/display.c:161 | computes `col & ~(1 << y)` truncated to a byte; ClearBitRows states its rows |
| Bytes.WriteColumnUp | src/MatrixClock/lib/display.c:212-216 | for y >= 0, rows below y keep the old column and row i >= y shows source row i - y |
| Bytes.WriteColumnDown | src/MatrixClock/lib/display.c:169-177 | for y < 0 the mask is 1: row 0 is cleared, then the source shifted down by -y is OR-ed over the old rows |
| Bytes.FullColumnShift | src/MatrixClock/lib/display.c:169-177 | 0xFF drawn over an empty column gives 0xFC at y = 2 and 0x3F at y = -2 |
| Bytes.SetBitRows | src/MatrixClock/lib/display.c:151-154 | after setting pixel y, row i is lit iff i == y or it was lit; y >= 8 changes nothing |
| Bytes.ClearBitRows | src/MatrixClock/lib/display.c:159-162 | after clearing pixel y, row i is lit iff i != y and it was lit; y >= 8 changes nothing |
| Bytes.SingleBit | src/MatrixClock/lib/display.c:153 | `1 << y` has row y and no other row lit |
| Max7219.Serialize | src/MatrixClock/lib/display.c:71-72 | a run of frames is two bytes per frame |
| Max7219.SerializeBytes | src/MatrixClock/lib/display.c:71-72 | frame k travels as byte 2k (register) and byte 2k + 1 (data) |
| Max7219.SerializeAppend | src/MatrixClock/lib/display.c:58-75 | the bytes of two runs are the bytes of each in turn |
| Max7219.SerializeStep | src/MatrixClock/lib/display.c:58-75 | sending one frame more extends the bytes sent so far by its register and data |
| Max7219.TransferShape | src/MatrixClock/lib/display.c:54-77 | a cycle has 2 * chips + 2 events: start, register and data of each frame in order, latch |
| Max7219.TransferAppended | src/MatrixClock/lib/display.c:56-76 | start, the frames' bytes and latch appended in turn form one transfer cycle |
| Max7219.Transfer | src/MatrixClock/lib/display.c:56-76 | one cycle's bus events; TransferShape states their layout |
| Max7219.TransferAll | src/MatrixClock/lib/display.c:84-87 | the bus events of a run of cycles, one Transfer after another; TransferAllAppend and CommandQueue.CyclesStep state it |
| Max7219.TransferAllAppend | src/MatrixClock/lib/display.c:84-87 | the traffic of two runs of cycles is the traffic of each, in turn |
| CommandQueue.Wrap | src/MatrixClock/lib/display.c:48 | the wrapped ring index lies below the capacity |
| CommandQueue.WrapIsMod | src/MatrixClock/lib/display.c:48 | the wrapped index equals `(i) % DISPLAY_QUEUE_LENGTH` |
| CommandQueue.ModBelowTwice | src/MatrixClock/lib/display.c:73 | helper: below 2n, `% n` subtracts n at most once |
| CommandQueue.Count | src/MatrixClock/lib/display.c:23-25 | a chip's unread count is below the capacity and is 0 iff max == cur |
| CommandQueue.CountIsMod | src/MatrixClock/lib/display.c:23-25 | the unread count is (max - cur) mod capacity |
| CommandQueue.Pending | src/MatrixClock/lib/display.c:23-25 | the pending list of a chip has exactly Count entries |
| CommandQueue.HasCommands | src/MatrixClock/lib/display.c:30-38 | some chip has max != cur; HasCommandsIffPending and HasCommandsIffMaxCount state its meaning, Display.Display.HasCommands is proved equal to it |
| CommandQueue.HasCommandsIffPending | src/MatrixClock/lib/display.c:30-38 | some chip has max != cur iff some chip's pending list is non-empty |
| CommandQueue.Push | src/MatrixClock/lib/display.c:43-49 | a push keeps the queues well formed, the chip count and the capacity |
| CommandQueue.PushFrame | src/MatrixClock/lib/display.c:43-49 | a push writes slot max[s], moves max[s] to (max[s] + 1) mod L, and changes no other slot, no other write index and no read index |
| CommandQueue.PushEnqueues | src/MatrixClock/lib/display.c:43-49 | below capacity a push appends the command to chip s's queue and leaves every other queue alone |
| CommandQueue.PushOther | src/MatrixClock/lib/display.c:43-49 | a push onto chip u leaves every other chip's queue alone, whatever u's fill level |
| CommandQueue.PushOverflow | src/MatrixClock/lib/display.c:43-49 | pushing onto a queue holding L - 1 entries makes it look empty |
| CommandQueue.Frame | src/MatrixClock/lib/display.c:60-72 | the frame chip s contributes to a cycle; FrameIsHead states it is the queue head or (NOOP, 0) |
| CommandQueue.FrameIsHead | src/MatrixClock/lib/display.c:60-74 | a chip's frame is the head of its queue, or (NOOP, 0) when the queue is empty |
| CommandQueue.CycleFrames | src/MatrixClock/lib/display.c:58-75 | a cycle carries exactly one frame per chip |
| CommandQueue.CycleFramesHeads | src/MatrixClock/lib/display.c:58-75 | position k of a cycle carries the head of chip chips - 1 - k's queue, or a NOOP frame |
| CommandQueue.CycleFrameAt | src/MatrixClock/lib/display.c:60-70 | chip s's frame read straight off its ring: the slot at cur[s], or NOOP when max == cur |
| CommandQueue.Advance | src/MatrixClock/lib/display.c:58-75 | a cycle changes no slot, no write index and no capacity |
| CommandQueue.AdvancedAbove | src/MatrixClock/lib/display.c:58-75 | part-way through a cycle every read index stays inside the ring |
| CommandQueue.AdvancedAboveEnds | src/MatrixClock/lib/display.c:58-75 | before the first chip nothing has advanced; after chip 0 every chip has |
| CommandQueue.AdvancedAboveStep | src/MatrixClock/lib/display.c:60-74 | visiting chip i advances its read index by one modulo L exactly when its queue is non-empty |
| CommandQueue.AdvancePops | src/MatrixClock/lib/display.c:58-75 | a cycle removes the head of every non-empty queue and nothing else |
| CommandQueue.MaxOf | src/MatrixClock/lib/display.c:82-88 | the largest of the counts: an upper bound attained by one of them, 0 for none |
| CommandQueue.Lowered | src/MatrixClock/lib/display.c:82-88 | every count lowered by one, stopping at zero |
| CommandQueue.LoweredMax | src/MatrixClock/lib/display.c:82-88 | lowering every count lowers the largest by one |
| CommandQueue.Counts | src/MatrixClock/lib/display.c:82-88 | the list of every chip's pending count |
| CommandQueue.MaxCount | src/MatrixClock/lib/display.c:82-88 | the deepest queue's pending count; CyclesCount states it is the number of drain cycles, AdvanceLowersMax that each cycle lowers it by one |
| CommandQueue.HasCommandsIffMaxCount | src/MatrixClock/lib/display.c:30-38 | some chip has commands iff the deepest queue is non-empty |
| CommandQueue.AdvanceLowersMax | src/MatrixClock/lib/display.c:82-88 | each cycle shortens the deepest queue by exactly one, which bounds the drain loop |
| CommandQueue.Cycles | src/MatrixClock/lib/display.c:82-88 | every cycle of the drain carries one frame per chip |
| CommandQueue.CyclesStep | src/MatrixClock/lib/display.c:82-88 | while a chip has commands, the drain is one cycle followed by the drain of the advanced queues, on the bus as well |
| CommandQueue.CyclesCount | src/MatrixClock/lib/display.c:82-88 | the drain runs exactly as many cycles as the deepest queue holds commands |
| CommandQueue.CyclesDeliver | src/MatrixClock/lib/display.c:54-88 | cycle k hands chip s its k-th pending command, or a NOOP frame once its queue has run dry |
| CommandQueue.CyclesDeliverKnown | src/MatrixClock/lib/display.c:54-88 | the same delivery, for a chip whose pending list is given |
| CommandQueue.Flushed | src/MatrixClock/lib/display.c:82-88 | after the drain no chip has a pending command |
| CommandQueue.IdleIsFlushed | src/MatrixClock/lib/display.c:82-88 | idle queues that differ from q only in read indices are q drained |
| CommandQueue.IdleIsEmpty | src/MatrixClock/lib/display.c:30-38 | with no pending commands every queue is empty |
| CommandQueue.PushSeq | src/MatrixClock/lib/display.c:102-111 | pushing a run keeps the queues well formed and moves no read index |
| CommandQueue.PushSeqPending | src/MatrixClock/lib/display.c:102-111 | below capacity a run pushed onto chip s is appended to its queue, and other queues are untouched |
| CommandQueue.PushSeqStep | src/MatrixClock/lib/display.c:107-110 | pushing one command more of the run extends the pushed prefix |
| CommandQueue.PushSeqSingle | src/MatrixClock/lib/display.c:122-123 | a run of one command is a single push |
| CommandQueue.PushSeqAppend | src/MatrixClock/lib/display.c:103-110 | pushing a + b is pushing a, then b |
| CommandQueue.Broadcast | src/MatrixClock/lib/display.c:102-111 | the same run pushed onto chips 0 .. n-1 keeps the queues well formed and moves no read index |
| CommandQueue.BroadcastStep | src/MatrixClock/lib/display.c:102-111 | broadcasting to one chip more pushes the run onto that chip |
| CommandQueue.BroadcastPending | src/MatrixClock/lib/display.c:102-111 | below capacity, broadcasting to chips 0 .. n-1 appends the run to exactly those chips' queues |
| CommandQueue.UniformDepth | src/MatrixClock/lib/display.c:82-88 | when every chip holds n commands the deepest queue holds n |
| CommandQueue.BroadcastOntoIdle | src/MatrixClock/lib/display.c:102-111 | a broadcast onto idle queues leaves every chip holding exactly the run |
| CommandQueue.UniformCycles | src/MatrixClock/lib/display.c:82-88 | when every chip holds the same run, the drain takes its length in cycles and cycle k gives every chip command k |
| CommandQueue.UniformFrame | src/MatrixClock/lib/display.c:82-88 | for a uniform run, chip j's frame in cycle k is command k |
| CommandQueue.BroadcastLockStep | src/MatrixClock/lib/display.c:102-113 | a broadcast onto idle queues drains in lock step: one cycle per command, every chip receiving the same command |
| Display.InitSequence | src/MatrixClock/lib/display.c:102-111 | the start-up sequence queued per chip has 12 commands |
| Display.InitSequenceCommands | src/MatrixClock/lib/display.c:103-110 | decoding off, scan limit 7, test off, shutdown off, then digit registers 1..8 cleared in order |
| Display.Configured | src/MatrixClock/lib/display.c:103-106 | the four configuration pushes keep the queues well formed |
| Display.ConfiguredIsPrefix | src/MatrixClock/lib/display.c:103-106 | the four configuration pushes queue the first four commands of the start-up sequence |
| Display.InitLockStep | src/MatrixClock/lib/display.c:102-113 | from idle queues the init drain takes 12 cycles and cycle k gives every chip start-up command k |
| Display.BrightnessLockStep | src/MatrixClock/lib/display.c:119-126 | from idle queues the brightness drain is a single cycle giving every chip (BRIGHTNESS, b) |
| Display.SpliceStep | src/MatrixClock/lib/display.c:272 | helper (sequence bookkeeping): copying column x into a shadow already synchronised below x synchronises it up to x |
| Display.SpliceDone | src/MatrixClock/lib/display.c:267-274 | helper (sequence bookkeeping): once every column is copied, the shadow is the canvas |
| Display.ModAdd | src/MatrixClock/lib/display.c:235 | helper (arithmetic): reducing the 16-bit accumulator before or after an addition gives the same result |
| Display.MeasureString | src/MatrixClock/lib/display.c:226-239 | the loop returns Measured: the 16-bit sum of width + 1 per character, minus one unless 0 |
| Display.Display.constructor | src/MatrixClock/lib/display.c:14-25 | zeroed canvas and shadow, idle queues, empty bus |
| Display.Display.HasCommands | src/MatrixClock/lib/display.c:30-38 | returns true iff some chip has max != cur, i.e. iff CommandQueue.HasCommands |
| Display.Display.Push | src/MatrixClock/lib/display.c:43-49 | the arrays become CommandQueue.Push of the old queues; the bus is untouched |
| Display.Display.SendFrame | src/MatrixClock/lib/display.c:60-74 | chip i sends its cycle frame (two bytes) and advances its read index iff it had a command |
| Display.Display.Execute | src/MatrixClock/lib/display.c:54-77 | the queues become Advance of the old ones and the bus gains Transfer of the cycle's frames |
| Display.Display.ExecuteAll | src/MatrixClock/lib/display.c:82-88 | the queues end drained, the bus gains every cycle of Cycles, and the loop runs MaxCount times |
| Display.Display.QueueConfiguration | src/MatrixClock/lib/display.c:103-106 | the arrays hold Configured of the old queues |
| Display.Display.QueueBlankDigits | src/MatrixClock/lib/display.c:107-110 | the digit loop pushes commands 5..12 of the start-up sequence |
| Display.Display.QueueStartUp | src/MatrixClock/lib/display.c:102-111 | one chip-loop pass pushes the whole start-up sequence onto that chip |
| Display.Display.QueueNextChip | src/MatrixClock/lib/display.c:102-111 | one chip-loop pass extends the broadcast by one chip |
| Display.Display.QueueInit | src/MatrixClock/lib/display.c:102-111 | the chip loop broadcasts the start-up sequence to every chip; the bus is untouched |
| Display.Display.Init | src/MatrixClock/lib/display.c:93-114 | the queues end drained and the bus carries the drain of the broadcast start-up sequence |
| Display.Display.QueueBrightness | src/MatrixClock/lib/display.c:121-123 | the loop broadcasts (BRIGHTNESS, b) to every chip |
| Display.Display.SetBrightness | src/MatrixClock/lib/display.c:119-126 | the queues end drained and the bus carries the drain of the brightness broadcast |
| Display.Display.ClearCanvas | src/MatrixClock/lib/display.c:131-138 | every canvas column is 0 |
| Display.Display.SetColumn | src/MatrixClock/lib/display.c:143-146 | column col becomes data and no other column changes |
| Display.Display.SetPixel | src/MatrixClock/lib/display.c:151-154 | only column x changes, to the old column with row y set |
| Display.Display.ClearPixel | src/MatrixClock/lib/display.c:159-162 | only column x changes, to the old column with row y cleared |
| Display.Display.DrawSprite | src/MatrixClock/lib/display.c:167-179 | the canvas becomes SpriteDrawn: columns 0..w-1 rewritten whatever x is, the rest untouched |
| Display.Display.BlitGlyph | src/MatrixClock/lib/display.c:203-218 | the column loop leaves the canvas equal to Blit of the glyph's columns |
| Display.Display.DrawChar | src/MatrixClock/lib/display.c:184-221 | returns CharWidth and leaves the canvas equal to CharDrawn |
| Display.Display.DrawString | src/MatrixClock/lib/display.c:244-260 | the canvas becomes StringDrawn of the old canvas |
| Display.Display.DrawNext | src/MatrixClock/lib/display.c:251-259 | one pass draws character p and moves the cursor so that the rest of the string yields the same final canvas |
| Display.Display.SyncColumn | src/MatrixClock/lib/display.c:268-273 | a differing column is pushed as (x / 8, x % 8 + 1, value) and copied to the shadow; an equal one changes nothing |
| Display.Display.SyncNext | src/MatrixClock/lib/display.c:267-274 | one scan pass extends the synchronised prefix of the shadow and the scan of the queues by column x |
| Display.Display.QueueChanges | src/MatrixClock/lib/display.c:267-274 | the shadow equals the canvas and the queues are Scanned of the old ones over every column |
| Display.Display.Update | src/MatrixClock/lib/display.c:265-277 | canvas untouched, shadow equals canvas, queues drained, bus carries the drain of the scanned queues |
| Raster.Glyph | src/MatrixClock/lib/display.c:195-200 | a character's glyph has exactly its table width in columns |
| Raster.CharWidth | src/MatrixClock/lib/display.c:187-197 | the returned width is 0 iff the code is above 127 or the glyph is empty, and otherwise the glyph's width |
| Raster.SignedGuardRejects | src/MatrixClock/lib/display.c:187 | the guard `ch > 127` evaluated on a signed `char`; SignedGuardAdmitsHighCodes states it never holds |
| Raster.SignedCharWidth | src/MatrixClock/lib/display.c:187-195 | the width lookup as written for a signed `char` and a 256-entry table; SignedGuardAdmitsHighCodes states it reads entry 200 where CharWidth returns 0 |
| Raster.SignedGuardAdmitsHighCodes | src/MatrixClock/lib/display.c:187-188 | with a signed `char` the guard `ch > 127` never fires for any byte; with a 256-entry width table code 200 reads as -56 and its width comes from the upper half, where CharWidth returns 0 |
| Raster.Blit | src/MatrixClock/lib/display.c:203-218 | drawing glyph columns keeps the canvas width |
| Raster.BlitColumns | src/MatrixClock/lib/display.c:203-218 | column c is rewritten iff x <= c < x + n and c <= 127 (the int8 column wraps past 127), and then takes the write rule with glyph column c - x; every other column keeps its value |
| Raster.CharDrawn | src/MatrixClock/lib/display.c:184-221 | drawing a character keeps the canvas width |
| Raster.CharDrawnColumns | src/MatrixClock/lib/display.c:184-221 | nothing changes for width 0; otherwise exactly the on-canvas columns x + j, j < width, take glyph column j |
| Raster.SpriteDrawn | src/MatrixClock/lib/display.c:167-179 | drawing a sprite keeps the canvas width |
| Raster.SpriteColumns | src/MatrixClock/lib/display.c:171-178 | sprite column c lands on canvas column c; later columns are untouched |
| Raster.StringFrom | src/MatrixClock/lib/display.c:249-259 | the cursor loop keeps the canvas width |
| Raster.StringFromStep | src/MatrixClock/lib/display.c:251-259 | drawing character p and advancing the cursor by width + 1 (only when width > 0) leaves the rest of the string to draw |
| Raster.StringDrawn | src/MatrixClock/lib/display.c:244-260 | y outside -8..8 leaves the canvas unchanged |
| Raster.SkippedCharacter | src/MatrixClock/lib/display.c:253-258 | a character of width 0 neither draws nor moves the cursor |
| Raster.StringKeepsHighColumns | src/MatrixClock/lib/display.c:249-259 | the int8 cursor never draws a column past 127, however wide the chain |
| Raster.TotalAdvance | src/MatrixClock/lib/display.c:230-236 | the unbounded sum of width + 1 over the characters; TotalAdvanceAppend and TotalAdvancePositive state it is additive and at least the length |
| Raster.TotalAdvanceAppend | src/MatrixClock/lib/display.c:230-236 | the advance of a concatenation is the sum of the advances |
| Raster.Measured | src/MatrixClock/lib/display.c:226-239 | the measured width fits 16 bits |
| Raster.MeasureShort | src/MatrixClock/lib/display.c:226-239 | the empty string measures 0 and one character measures its width |
| Raster.MeasureAppend | src/MatrixClock/lib/display.c:226-239 | below 16-bit overflow, measure(a + b) = measure(a) + 1 + measure(b), zero-width characters included |
| Raster.Below16 | src/MatrixClock/lib/display.c:228 | helper (arithmetic): values below 2^16 survive the 16-bit reduction |
| Raster.TotalAdvancePositive | src/MatrixClock/lib/display.c:235 | every character advances by at least one column |
| Sync.ColumnCommand | src/MatrixClock/lib/display.c:269-271 | a column's command addresses a digit register 1..8 and carries the column byte |
| Sync.ColumnAddress | src/MatrixClock/lib/display.c:269-270 | (chip, register) determines the column, and every column of an n-chip canvas reaches one of the n chips |
| Sync.DiffUpTo | src/MatrixClock/lib/display.c:267-268 | the listed columns lie on the canvas |
| Sync.Diff | src/MatrixClock/lib/display.c:267-268 | the differing columns lie on the canvas |
| Sync.DiffUpToExact | src/MatrixClock/lib/display.c:267-268 | DiffUpTo(n) lists, increasing, exactly the differing columns below n |
| Sync.DiffUpToEqual | src/MatrixClock/lib/display.c:267-268 | a canvas compared with itself has no differing column |
| Sync.DiffExact | src/MatrixClock/lib/display.c:267-274 | every differing column appears once, increasing, no equal column appears, and the list is empty iff canvas == shadow |
| Sync.ScanColumn | src/MatrixClock/lib/display.c:268-273 | one scan step keeps the queues well formed and moves no read index |
| Sync.Scanned | src/MatrixClock/lib/display.c:267-274 | the scan keeps the queues well formed and moves no read index |
| Sync.ScannedNext | src/MatrixClock/lib/display.c:267-274 | scanning column n - 1 extends the scan of the columns below it |
| Sync.ScannedEqual | src/MatrixClock/lib/display.c:267-274 | a scan over an unchanged canvas pushes nothing |
| Sync.ChipCommands | src/MatrixClock/lib/display.c:269-271 | a chip receives at most one command per listed column |
| Sync.ChipCommandsStep | src/MatrixClock/lib/display.c:268-271 | scanning column n - 1 adds its command to chip s's list iff it differs and belongs to s |
| Sync.ChipCommandsGrow | src/MatrixClock/lib/display.c:268-271 | a chip's list grows by at most one per column, and only at its own columns |
| Sync.ScannedPending | src/MatrixClock/lib/display.c:267-274 | without overflow the scan appends to chip s's queue exactly the commands of its differing columns, in column order |
| Sync.ScannedNone | src/MatrixClock/lib/display.c:267 | before any column nothing is appended |
| Sync.ScannedPendingStep | src/MatrixClock/lib/display.c:268-273 | the inductive step of ScannedPending over column n - 1 |
| Sync.ScanColumnPending | src/MatrixClock/lib/display.c:268-273 | column x appends its command to chip s's queue iff it differs and belongs to s, and leaves it alone otherwise |
| Sync.ColumnsBelowStep | src/MatrixClock/lib/display.c:269 | column n is one of chip s's columns iff n / 8 == s |
| Sync.DiffPerChip | src/MatrixClock/lib/display.c:267-271 | the scan below n addresses at most as many commands to chip s as s has columns below n |
| Sync.DiffAddressesChips | src/MatrixClock/lib/display.c:269 | every differing column of an n-chip canvas addresses one of the n chips |
| Sync.DiffPerChipAtMostEight | src/MatrixClock/lib/display.c:267-271 | the scan addresses at most eight commands to any chip |
| Sync.UpdateQueues | src/MatrixClock/lib/display.c:267-274 | from idle queues of capacity above 8, each chip ends holding exactly the commands of its differing columns |
| Sync.UpdateCycle | src/MatrixClock/lib/display.c:265-277 | in cycle k of the update's drain each chip receives the k-th command of its differing columns, or NOOP once it has none |
| Sync.SecondUpdateSilent | src/MatrixClock/lib/display.c:265-277 | a second update with no canvas change finds no difference and runs no transfer cycle |

## Left out

- The JTAG-disable and port-direction writes of `display_init` (`MCUCSR`,
  `DDRC`) are hardware register writes and are not modelled.
- `max7219_start`, `max7219_send` and `max7219_latch` are recorded as events
  on a ghost bus trace; the pin-level transport in max7219.c is not part of
  this model.
- `pgm_read_byte`/`pgm_read_word` and the tables of `charset_default.h` are
  replaced by a `Font` parameter; the actual font data is not part of this
  model.
- `display.h` and `max7219.h` are not part of this model: the chain length
  and the ring capacity are constructor parameters, and the register
  numbers come from the MAX7219 datasheet.
- `display_test_mode` is an empty function and has no model.
- `src/MatrixClock/clock/brightness.h` (the ADC brightness sampler) is
  hardware and interrupt driven and is not part of this model.
- Display.Display.constructor: chains of more than 31 chips are excluded,
  since the 8-bit column counter of `display_update` could never reach
  `8 * DISPLAY_SEGMENTS`; ring capacities above 256 are excluded since the
  indices are `uint8_t`.
- Display.Display.SetColumn, Display.Display.SetPixel,
  Display.Display.ClearPixel and Display.Display.DrawSprite: require
  on-canvas columns (and y < 16 for the pixel setters), because the C code
  writes out of bounds, or shifts a 16-bit `int` too far, otherwise; that
  undefined behaviour is not modelled.
- Display.Display.DrawChar: requires -8 <= y <= 8, the range
  `display_draw_string` admits; other rows would shift by 9 or more bits.
- Display.Display.DrawChar, Display.Display.DrawString: require fonts whose
  widths stay below 128, since the `int8_t` column counter of
  `display_draw_char` could not pass a wider glyph.
- Display.Display.DrawSprite: requires -8 <= y <= 8. For y in -15..-9 the
  C code is defined (the mask is 1 and the shifted pixels are 0, so row 0 of
  columns 0..w-1 is cleared), but that case is not modelled.
- Display.MeasureString: requires every character code to index the width
  table; the C code reads `charset_width` at any byte without a guard, and a
  read past the table is not modelled.
- Display.Display.DrawString and Display.MeasureString take the bytes of
  the string before its terminating NUL as a sequence without NUL bytes.
- The character code is modelled as the byte 0..255; `Display.DrawChar`
  applies the byte guard `code > 127` (see Findings) rather than the
  signed-char comparison.
- Loops of the C code that were split into a per-pass method
  (`QueueNextChip`, `DrawNext`, `SyncNext`, `SendFrame`) or a method per
  block (`QueueConfiguration`, `QueueBlankDigits`, `QueueStartUp`,
  `BlitGlyph`, `QueueChanges`) run the same statements in the same order.

## Findings

| source | as written | input that shows it | evidently intended | confidence | as-written member | corrected member |
|---|---|---|---|---|---|---|
| src/MatrixClock/lib/display.c:187-188 | `ch > 127` compares a plain `char`; under avr-gcc's default (signed `char`, no `-funsigned-char` build flag) the guard never fires | `display_draw_char(x, y, (char)200)`: 200 reads as -56 and passes the guard; with a 256-entry `charset_width` its width comes from the upper half of the table, with a 128-entry table the read goes past its end | characters above 127 are rejected with width 0, as the comment on line 186 says | not executed | Raster.SignedGuardAdmitsHighCodes, Raster.SignedCharWidth | Raster.CharWidth |
