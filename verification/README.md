# Drawing, animation and input drivers: a verified model

A Dafny model of the driver code for a small graphics and input system, with proofs about whole
runs of it.

- **Framebuffer** (`Layout.dfy`, `Framebuffer.dfy`). Video memory is one flat byte array. Each
  drawing routine is an in-place loop over it, with the 16- and 32-bit arithmetic of the program
  written out, and is proved to make one exact update of a grid of pixels, also when it stops
  early. The address map is proved to be a bijection, so the grid and the bytes determine each
  other.
- **Colours** (`Colour.dfy`). The direct and indexed colours of the test pattern, computed with
  `&`, `|` and shifts defined on integers in `Bits.dfy`.
- **Animation** (`Animation.dfy`, `MoveTest.dfy`). The tick prescaler, the two speed regimes, the
  trajectory in closed form, and the screen at every loop head of every run.
- **Mouse** (`Packets.dfy`, `Mouse.dfy`, `Gesture.dfy`, `MouseCommand.dfy`). The byte framer and
  packet codec, the driver loops, the gesture machine with its wrapping counters, and the
  retrying command protocol against a device that may answer anything.
- **Keyboard and timer** (`Scancodes.dfy`, `TimedScan.dfy`, `Timer8254.dfy`). The scancode
  assemblers, the keyboard loop with an idle timeout, and the programming of one timer of an
  i8254, modelled after the Control Word Format and Read-Back Command sections of the Intel 8254
  datasheet.

Loops are methods, globals are class fields, and each method is proved against a function or a
relation about which the lemmas below speak. A C result of 0 is `true` here. What the
surrounding system delivers (notifications, bytes read from ports, a loaded image, the mapped
memory) is an input: an arbitrary sequence of events, or an arbitrary device. As the event
sequence is arbitrary, a statement about the end of a run holds at every loop head of a longer
one. Mode fields are those of Function 01h in section 4.4 of the VBE Core Functions Standard 3.0,
and a scan line is `hRes * Bytes()` bytes.

The layout, the colours, the frame rate, the packets, the scancodes, the gesture and the port
protocol are each also stated in numbers or from the input alone (`RowMajor`, `IndexedTile`,
`InRealTime`, `PacketInNumbers`, `KeysRoundTrip`, `StatesFromPackets`, `CountOutcome`), so that
what the loops are proved against is itself tied to the program's constants.

Where the code does not do what its comments or headers say, the code is followed:

- `lab5/video.c:160-167` shifts each channel of the first colour down twice. `PatternColourCorrect`
  says exactly when that is harmless; `PatternLosesRed` is an input where it is not.
- `lab4/mouse.c:293` tests `!pp->delta_y & BIT(15)`, which is never true, so the second line
  accepts only packets that move down, whatever the tolerance (`DownwardMeans`), while its
  8-bit counters are still tested upward. Within a byte, `SecondLineExact` says which downward
  strokes are then taken as drawn and `SecondLineJudged` exactly when that is right; beyond,
  `StrokeOutcome` says what is taken. A flat stroke is taken (`FlatStrokeAccepted`), a steep one is
  not (`SteepStrokeRejected`), and for lengths above 126 no steep one within a byte ever is
  (`RightlyTakenUpTo`).
- The first line is measured in 8-bit counters too. That is exact while the sums stay in a byte
  (`FirstLineExact`). Beyond, `PassedFirstLine` says exactly when a stroke that passes is a real
  one and `RealFirstLine` exactly when a real one passes; `WrappedStroke` is taken wrongly and
  `MissedStroke` is missed. The gesture can be made at all only for lengths up to 253
  (`EndReachable`).
- In `lab3/lab3.c:153-157` a prefix byte leaves the loop body early, so the tick of its
  notification is not counted and the loop can give up late. `CounterExact` says exactly when the
  counter is right; with `NeverGivesUp` as the input it never moves.
- `lab2/timer.c:22-24` keeps the BCD bit but writes a binary divisor. `RunsAtFrequency` says
  exactly when the timer runs at the frequency asked for; at 60 Hz in BCD mode it does not
  (`WrongInDecimal`).
- `lab5/lab5.c:152-211` handles moves along one axis. `NeverLeavesBox` and `Arrives` say exactly
  which moves stay between their ends and which reach the target, `NeverFailsExactly` which never
  fail to draw. `lab5/lab5.c:173-174` skips the tick of a notification with a prefix byte;
  `SkippedTicks` says exactly when none is lost, and `PrefixLosesTick` is a run that loses one.

## Model

| member | source | states |
|---|---|---|
| Layout.LocateOffset | lab5/video.c:107-116 | the byte address of a pixel lane determines the pixel and the lane |
| Layout.OffsetLocate | lab5/video.c:49-51 | every byte of video memory is a lane of exactly one on-screen pixel |
| Layout.ValidMeans | lab5/video.c:48-51 | the modes covered: 1 to 32 bits and a picture of less than 2^32 bytes |
| Layout.BytesExact | lab5/video.c:49 | a pixel takes the fewest bytes that hold its bits |
| Layout.RowMajor | lab5/video.c:109 | memory starts with the top left pixel; one lane is one byte on, one column a pixel's bytes, one row hRes pixels |
| Layout.SizeExact | lab5/video.c:51 | the 32-bit size handed to the mapper is the true size of the picture |
| Layout.NoWrap | lab5/video.c:109 | no step of the 32-bit address computation wraps for an on-screen pixel |
| Layout.DecodeLanes | lab5/video.c:110-114 | decoding the bytes written for a colour gives its low 8 * n bits |
| Layout.Mask | lab5/graphics.c:127-134 | the optional depth mask keeps exactly the mode's colour bits, and storing loses no more |
| Layout.CutsAreRemainders | lab5/video.c:130-134 | the depth cut is the remainder modulo 2^bits, and what the bytes hold modulo 2^(8 * bytes) |
| Layout.ReadAfterWrite | lab5/video.c:107-116 | writing one pixel's bytes changes that pixel and no other |
| Framebuffer.WriteUpdatesCell | lab5/video.c:107-116 | a pixel write in bytes is one cell update of the grid |
| Framebuffer.LastWriteWins | lab5/video.c:107-116 | after any sequence of pixel calls, each plotted as DrawPixel ensures, a pixel shows the last colour drawn there |
| Framebuffer.GridDeterminesBytes | lab5/video.c:107-116 | two memories that show the same picture hold the same bytes |
| Framebuffer.Video.constructor | lab5/video.c:27-78 | memory of the requested size shows some picture of the mode's shape |
| Framebuffer.Video.StoreLanes | lab5/video.c:110-114 | the byte loop writes exactly the lanes of the colour at the given address |
| Framebuffer.Video.DrawPixel | lab5/video.c:107-116 | succeeds exactly on the screen, updates exactly that cell, and is one plot of such a sequence |
| Framebuffer.Video.DrawHLine | lab5/video.c:118-124 | succeeds exactly when the line fits; paints the part of it on the screen |
| Framebuffer.Video.DrawRectangle | lab5/video.c:126-141 | succeeds exactly when empty or fitting; otherwise has painted the clipped first row or the rows above the bottom |
| Framebuffer.Video.DrawImgRow | lab5/video.c:190-203 | one row of an image, read from the running sprite pointer |
| Framebuffer.Video.DrawImgRows | lab5/video.c:188-205 | the sprite pointer is at the row-major index of the pixel drawn and never runs past the image |
| Framebuffer.Video.DrawImg | lab5/video.c:182-206 | succeeds exactly when empty or fitting; pixel (x+c, y+r) shows sprite[r*width+c], everything else is unchanged |
| Framebuffer.Video.Clear | lab5/video.c:209-216 | cannot fail, terminates with 16-bit counters, and zeroes every byte of video memory |
| Framebuffer.BlackBytes | lab5/video.c:209-216 | a black picture is an all-zero memory |
| Framebuffer.FitsMeans | lab5/video.c:118-141 | success is all cells of the area being on the screen |
| Framebuffer.FilledMeans | lab5/video.c:118-141 | what has been painted: the area if it fits, its clipped first row if it is too wide, else its rows on the screen |
| Framebuffer.TexelOrder | lab5/video.c:188-205 | pixel p of the image is shown in column p % width of row p / width |
| Framebuffer.TileOf | lab5/video.c:146-175 | a coordinate in the tiled area lies in the tile it is sent to |
| Framebuffer.TileCells | lab5/video.c:152-177 | tiles are disjoint: a cell belongs to a tile exactly when it is sent to it |
| Framebuffer.TileInside | lab5/video.c:175 | every tile is on the screen, so no tile coordinate is cut to 16 bits |
| Framebuffer.Video.DrawTile | lab5/video.c:175 | the rectangle call whose result is ignored always succeeds and paints exactly its tile |
| Framebuffer.Video.DrawPattern | lab5/video.c:143-179 | each cell of the tiled area shows its own tile's colour, every other cell is unchanged |
| Framebuffer.PatternTile | lab5/video.c:143-179 | after the pattern, every cell of tile (row i, column j) has the colour of that tile |
| Framebuffer.PatternMargin | lab5/video.c:143-179 | the margin right of and below the tiles is as before |
| Framebuffer.IndexedTile | lab5/video.c:143-179 | in an indexed mode every cell of tile (i, j) shows (first + (i * n + j) * step) modulo 2^bits |
| Colour.UnpackPack | lab5/graphics.c:138-168 | for any disjoint channel layout, unpacking a packed colour gives back the components |
| Colour.ChannelExact | lab5/graphics.c:146-156 | a channel is `size` bits of the colour from bit `pos` on |
| Colour.PackIsSum | lab5/graphics.c:158-168 | a packed colour is the sum of its components in their places |
| Colour.AdvanceExact | lab5/graphics.c:146-156 | 32-bit wrap-around never shows in a channel |
| Colour.NeighbourTiles | lab5/graphics.c:138-156 | one column adds step to red and blue and keeps green; one row adds it to green and blue and keeps red |
| Colour.FirstTile | lab5/graphics.c:138-168 | the first tile is the first colour masked to the channels |
| Colour.IndexedRun | lab5/graphics.c:142-144 | palette indices go through the tiles row by row in steps, modulo the palette size, unaffected by wrap-around |
| Colour.PatternIndexed | lab5/video.c:155-156 | memory model 4: the tiles count up row by row, modulo 2^bits |
| Colour.PatternDirect | lab5/video.c:157-173 | memory model 6: each channel in numbers, the second shift included; red counts columns, green rows, blue both |
| Colour.PatternPlain | lab5/video.c:145-175 | any other memory model: the first colour throughout |
| Colour.ShiftedChannel | lab5/video.c:160-167 | a channel is right after the second shift exactly when it starts at bit 0 or is zero |
| Colour.PatternColourCorrect | lab5/video.c:157-173 | the pattern's direct colours are the documented ones exactly when all three channels are right |
| Colour.PatternLosesRed | lab5/video.c:157-173 | a pure red first colour gives a wrong colour in every tile of an 8:8:8 mode |
| Animation.Prescaler | lab5/lab5.c:155-182 | after T handled ticks T / period frames have elapsed and the counter holds the rest |
| Animation.SkippedTicks | lab5/lab5.c:169-176 | the loop handles at most the ticks that arrive, and all of them exactly when none comes with an ESC or prefix byte |
| Animation.PrefixLosesTick | lab5/lab5.c:169-176 | a notification with a prefix byte and a tick: one tick arrives and none is handled |
| Animation.EndsAtEscape | lab5/lab5.c:159-174 | the run has ended exactly when some event has read 0x81 |
| Animation.LastRead | lab5/lab5.c:159-174 | the loop head sees the last byte read |
| Animation.TicksCounted | lab5/lab5.c:159-182 | the ticks handled are the events with a timer interrupt, before the end and without a 0x81 or 0xE0 byte |
| Animation.PeriodExact | lab5/lab5.c:155 | a frame is 60 / frameRate ticks rounded down, and one tick above 60 |
| Animation.Trajectory | lab5/lab5.c:184-211 | closed form of position, waiting frames and arrival after k frames, in both speed regimes |
| Animation.WholeRun | lab5/lab5.c:149-219 | position and arrival after any run as a function of the handled ticks |
| Animation.InRealTime | lab5/lab5.c:149-219 | the position and arrival after any run, from the arguments and the number of ticks handled alone |
| Animation.FastOffAxis | lab5/lab5.c:184-195 | a fast move off the axes goes vertically only, and jumps to its end's height when it should go up and right |
| Animation.Arrives | lab5/lab5.c:184-211 | a move arrives exactly when it follows one axis and moves at all or starts at its end |
| Animation.NeverLeavesBox | lab5/lab5.c:184-211 | a move stays between its ends exactly when it is fast, or follows one axis to another point, or its range is the whole axis |
| Animation.SlowWalk | lab5/lab5.c:196-205 | a slow move without a reachable target wraps along its axis |
| Animation.SlowWalkExact | lab5/lab5.c:196-205 | such a walk in numbers: m steps modulo 65536 after m * |speed| frames |
| Animation.StillArrives | lab5/lab5.c:196-211 | a slow move that starts at its end arrives exactly from frame 65536 * |speed| on |
| MoveTest.AlwaysFits | lab5/lab5.c:159-219 | a sprite that fits at both ends of a move that stays between them fits all the way, in every run |
| MoveTest.NeverFailsExactly | lab5/lab5.c:159-219 | a move whose sprite fits at both ends fails in no run exactly when it is fast, or follows one axis to another point, or its sprite is empty |
| MoveTest.OnlySpriteInNumbers | lab5/lab5.c:208-210 | the picture shown is pixel p of the image at (x + p % width, y + p / width), and black around it |
| MoveTest.NextPosition | lab5/lab5.c:184-206 | the branches of the position update are one frame of the motion |
| MoveTest.Redraw | lab5/lab5.c:208-210 | clear and draw leave exactly the sprite on black |
| MoveTest.OnTick | lab5/lab5.c:176-212 | one handled tick, including when it moves, redraws and fails |
| MoveTest.VideoTestMove | lab5/lab5.c:128-219 | fails exactly when the sprite does not fit at a position reached; otherwise the screen is the sprite at its position on black |
| Packets.UniqueFraming | lab4/mouse.c:96-109 | a byte stream has exactly one framing, the one of the recursive reference |
| Packets.FeedIsSplit | lab4/mouse.c:96-109 | framing byte by byte computes the reference framing |
| Packets.Conservation | lab4/lab4.c:66-74 | bytes in = 3 * packets + dropped + pending, with at most two pending |
| Packets.DisplacementSplits | lab4/mouse.c:80-90 | sign bit and low byte decode to a nine-bit number that gives both back |
| Packets.PacketInNumbers | lab4/mouse.c:71-94 | buttons, nine-bit displacements and overflow flags of any three bytes, in numbers |
| Packets.OnePacket | lab4/mouse.c:96-109 | in step, a byte with bit 3 clear is dropped and one with bit 3 set starts a packet of three |
| Packets.DecodeEncode | lab4/mouse.c:71-94 | decoding an encoded report gives the report back |
| Packets.EncodeDecode | lab4/mouse.c:71-94 | encoding a decoded packet gives its three bytes back |
| Packets.RoundTrip | lab4/lab4.c:66-74 | a list of reports survives encoding, framing and decoding, with foreign bytes in between |
| Packets.Resynchronises | lab4/mouse.c:96-109 | after any bytes at all, two that cannot start a packet put the framer back in step, and every report sent from there on arrives |
| Packets.OneByteIsNotEnough | lab4/mouse.c:96-109 | after a lone first byte and one such byte, the next report's first byte is taken for a third |
| Mouse.Driver.Sync | lab4/mouse.c:96-109 | stores the byte received or drops it while out of step |
| Mouse.Driver.Parse | lab4/mouse.c:71-94 | the field-by-field parser computes the decoded report |
| Mouse.Driver.OnMouse | lab4/lab4.c:66-75 | one interrupt, stale byte included, advances the framing by one byte |
| Mouse.SeenBytes | lab4/lab4.c:66-67 | every mouse interrupt hands the framer the byte read or, if none was, the one before |
| Mouse.Driver.TestPacket | lab4/lab4.c:45-86 | prints exactly the packets of the unique framing and stops at the event that completes the last one |
| Mouse.Driver.TestAsync | lab4/lab4.c:88-141 | ends at the first loop head where 60 * idle ticks have passed without a packet |
| Mouse.IdleMeaning | lab4/lab4.c:100-135 | the counter is the number of timer interrupts since the last event that completed a packet, its own included |
| IdleCounter.IdleTicksMeaning | lab3/lab3.c:138-181 | a counter reset by some events is the number of ticks since the last of them |
| IdleCounter.MissedTicks | lab3/lab3.c:149-174 | a counter that misses ticks is never ahead, and right exactly when each missed tick is followed by a reset |
| Gesture.Recognised | lab4/mouse.c:222-327 | the end state is reached exactly in runs with an initial part that is a drawing of two lines, begun where the packets before allow it |
| Gesture.StatesFromPackets | lab4/mouse.c:222-327 | before the end, the state after any packets is told by the packets alone: lost, fresh, at the vertex, in or after a stroke |
| Gesture.SpoiltNeedsRelease | lab4/mouse.c:239-321 | after a wrong move or button nothing counts until all buttons are up |
| Gesture.PartsInNumbers | lab4/mouse.c:239-311 | moves, rest and the test for a drawn line in numbers |
| Gesture.ButtonsInNumbers | lab4/mouse.c:71-78 | the buttons that matter are the low three bits of a packet's first byte |
| Gesture.DrawnAfterRest | lab4/mouse.c:222-327 | after any packets at all, one packet at rest and two lines with rest between them end the gesture |
| Gesture.StartNeedsRelease | lab4/mouse.c:225-236 | nothing starts before a packet with all buttons up |
| Gesture.SentDrawingRecognised | lab4/lab4.c:153-182 | of the reports a mouse sends over the wire, exactly the drawings end the gesture |
| Gesture.EndNeedsDrawing | lab4/mouse.c:222-327 | the packets up to the first arrival at the end decompose into press, stroke, hold, release, rest, press, stroke, hold, release |
| Gesture.DrawingEnds | lab4/mouse.c:222-327 | every such drawing ends the gesture at its last packet |
| Gesture.EndAbsorbs | lab4/mouse.c:323-325 | the end state is never left |
| Gesture.EndReachable | lab4/mouse.c:222-327 | some packets end the gesture exactly when the length asked for is at most 253 |
| Gesture.StrokeHistory | lab4/mouse.c:238-302 | in a line state the counters are the sums since it was entered, modulo 256 |
| Gesture.StrokeOutcome | lab4/mouse.c:238-302 | a line is finished at the first packet where the wrapped sums pass |
| Gesture.FirstLineExact | lab4/mouse.c:239-249 | within a byte, the first line is recognised exactly when it was really drawn |
| Gesture.PassedFirstLine | lab4/mouse.c:239-249 | beyond a byte, a stroke that passes was really drawn exactly when neither sum wrapped below zero and the vertical one wrapped at least as often |
| Gesture.RealFirstLine | lab4/mouse.c:239-249 | beyond a byte, a stroke that was really drawn passes exactly when its remaining width is long enough and it wrapped equally often both ways or its remainders are steep enough |
| Gesture.WrappedStroke | lab4/mouse.c:239-249 | a stroke that goes down and is recognised as the first line |
| Gesture.MissedStroke | lab4/mouse.c:239-249 | a stroke that is long and steep and is not recognised as the first line |
| Gesture.DownwardMeans | lab4/mouse.c:293 | the second line's vertical test accepts exactly negative displacements |
| Gesture.SecondLineExact | lab4/mouse.c:291-302 | within a byte, a downward stroke finishes the second line exactly when it is long enough and its width and depth add up to less than 255 |
| Gesture.SecondLineJudged | lab4/mouse.c:291-302 | exactly which of these strokes are judged as a steep downward line should be |
| Gesture.RightlyTakenUpTo | lab4/mouse.c:291-302 | some steep downward stroke within a byte finishes the second line exactly when the length asked for is at most 126 |
| Gesture.FlatStrokeAccepted | lab4/mouse.c:291-302 | a flat stroke, 10 across and 1 down, finishes the second line |
| Gesture.SteepStrokeRejected | lab4/mouse.c:291-302 | a steep stroke, 10 across and 250 down, does not |
| Gesture.SecondLineGoesDown | lab4/mouse.c:291-302 | the second line of every recognised gesture went down, and within a byte its width and depth add up to less than 255 |
| Gesture.Recogniser.ProcessPacket | lab4/mouse.c:222-327 | the per-packet procedure is one step of the machine |
| Gesture.Recogniser.TestGesture | lab4/lab4.c:143-186 | the loop ends at the first loop head where the packets received contain a drawing |
| MouseCommand.PollMeans | lab4/mouse.c:111-140 | a wait stops at the first clear status, or after exactly ten reads without one |
| MouseCommand.ClearInNumbers | lab4/mouse.c:111-140 | a clear status is an answer of port 0x64 with bits 7, 6 and 1 zero |
| MouseCommand.Controller.IbfEmpty | lab4/mouse.c:111-140 | the waiting loop is such a wait |
| MouseCommand.Controller.SendAttempts | lab4/mouse.c:173-220 | succeeds at the first acknowledged attempt and gives up only after ten |
| MouseCommand.ProtocolObeyed | lab4/mouse.c:173-220 | every write is guarded, every command prefixed, the cost bounded, success acknowledged |
| MouseCommand.ProtocolInNumbers | lab4/mouse.c:173-220 | prefix and acknowledgement in numbers: 0xD4 to port 0x64, and 0xFA from port 0x60 right after the command |
| MouseCommand.CountOutcome | lab4/mouse.c:173-220 | counted over the trace alone, a failed command has given up ten attempts and a successful one fewer |
| MouseCommand.Controller.Send | lab4/mouse.c:173-220 | the same of the program's port operations against any device: at most 20 writes and 210 reads, and failure only after ten attempts given up in the trace |
| Scancodes.AssembleKeepsBytes | lab3/lab3.c:72-84 | the codes spell the stream with runs of the prefix byte collapsed |
| Scancodes.CodesWellFormed | lab3/lab3.c:72-84 | a code is one byte or a prefix and a byte, and make or break by its top bit |
| Scancodes.KeysRoundTrip | lab3/lab3.c:72-84 | whatever keys are sent, with any number of prefixes each, exactly their codes are printed |
| Scancodes.EveryStreamIsKeys | lab3/lab3.c:72-84 | every byte stream is sent by some keys, so the round trip covers all of them |
| Scancodes.TestScan | lab3/lab3.c:56-94 | the interrupt-driven loop stops at the first 0x81 and prints the codes of the bytes up to it |
| Scancodes.TestPoll | lab3/lab3.c:103-118 | the polling loop prints the same codes |
| TimedScan.AssembleAppend | lab3/lab3.c:150-165 | one more byte completes a code or is remembered as a prefix |
| TimedScan.SeenBytes | lab3/lab3.c:149-165 | every keyboard interrupt hands the assembler the byte read or, if none was, the one before |
| TimedScan.IdleMeaning | lab3/lab3.c:149-174 | the counter is the number of ticks without a 0xE0 byte since the last complete scancode |
| TimedScan.CounterExact | lab3/lab3.c:138-181 | the timeout counter never exceeds the real ticks since the last scancode, and equals them exactly when each prefix byte that came with a tick was completed |
| TimedScan.NeverGivesUp | lab3/lab3.c:149-174 | with a prefix byte and a tick in every notification the counter stays at zero for ever |
| TimedScan.TestTimedScan | lab3/lab3.c:124-189 | ends at the first loop head where ESC was released or 60 * idle ticks were counted; the count is at most the real idle ticks, and equal under the condition above |
| Timer8254.GuardIsLeast | lab2/timer.c:14 | the frequency guard is the weakest one for which the divisor is nonzero and fits in 16 bits |
| Timer8254.ReadBack | lab2/timer.c:94 | the read-back command for each timer |
| Timer8254.ControlWord | lab2/timer.c:23-39 | the control word keeps the low four status bits and selects the timer and both bytes |
| Timer8254.AfterBothBytes | lab2/utils.c:5-17 | the two bytes written recombine to the value |
| Timer8254.RunsAtFrequency | lab2/timer.c:22-54 | the divisor the chip uses is the one intended exactly when the timer counts in binary or the divisor is one digit |
| Timer8254.WrongInDecimal | lab2/timer.c:22-54 | a timer in BCD mode asked for 60 Hz uses another divisor |
| Timer8254.TimerGetConf | lab2/timer.c:88-106 | reads that timer's status and changes nothing |
| Timer8254.TimerSetFrequency | lab2/timer.c:12-57 | refuses exactly what does not fit; otherwise the register of that timer holds 1193182 / freq, its mode is kept, nothing else changes, and the chip divides by that value exactly as said above |

## Left out

- Foreign calls (`sys_int86`, `sys_privctl`, `vm_map_phys`, `sys_irqsetpolicy`, `driver_receive`, `xpm_load`): only their results are modelled, as inputs; failures before a loop starts and during clean-up are not.
- `mouse_ih` and `kbc_ih`: their status checks are not modelled; an event says what was read, if anything, and a failed read leaves the old byte, as in the program.
- Modes with more than 32 bits per pixel, or whose picture does not fit in 32-bit sizes: excluded by `Mode.Valid`, since the address arithmetic of the program does not cover them.
- Shifts by 32 places or more in the pattern colours, and signed overflow in `lab5/graphics.c:143`: undefined in C; the model shifts mathematically and wraps modulo 2^32.
- Overflow of the `int` tick counters after 2^31 ticks.
- A frame rate of 0 and 0 rectangles, where the program divides by zero.
- Timer8254.TimerSetFrequency: port operations succeed; a failing port, and latching or reading a count, are not modelled.
- Gesture.SecondLineJudged: whether an accepted second line is steep is judged only while its sums stay in a byte.
- `kbc_polling`: its error paths retry without using up a try, so it has no bound.
- `lab5/graphics.c` drawing routines: duplicates of `lab5/video.c` with a looser bounds check.
- `timer_display_conf`, `lab7/uart.c`, copied timers and utilities: only easy properties.
- `proj/`: the game built on these drivers.
- Text output, delays and mode switching.
