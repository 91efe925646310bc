# MAX6921 / IV-18 VFD driver — Dafny model

This project models the core of the ESPHome `max6921iv18` component. The
component drives a nine-digit IV-18 vacuum-fluorescent tube through a MAX6921
shift register on an SPI bus. The model covers:

- **Font encoder** (`font.dfy`, module `Font`):
  - `TubeDigit` maps a byte to the tube's 7-segment-plus-dot pattern.
  - Letters and digits go through its three lookup tables.
  - Seven punctuation characters have fixed glyphs; every other byte is drawn blank.
- **Frame packing** (`frame.dfy`, module `Frames`):
  - `set_digit` stores a 24-bit frame: the glyph plus the added segment, shifted to start at bit 16, and the digit-select bit masked to bits 8..15.
  - `Cell` abstracts what a digit record holds: the zero payload from setup, or a character with its added segment. `Payload` turns a cell into its frame.
- **String layout** (`layout.dfy`, module `Layout`):
  - A pure description of where `print(start, str)` puts each character of a NUL-terminated string.
  - A `.` following a character becomes that character's dot instead of taking a position.
  - Writing stops at the NUL or once position 0 is written, so position 8 is never written.
- **Refresh scheduling** (`refresh.dfy`, module `Refresh`):
  - The SPI device queue, seen as a list of transfers; each transfer points at one digit record `digits[bank][slot]`.
  - The kick-off sweep of `display()`.
  - The re-queue that the completion callback performs.
  - The invariant that refresh keeps: exactly one queued transfer per position, so nine transfers, within the queue depth of 12.
- **The component** (`component.dfy`, module `Max6921Iv18`):
  - Class `Component`, with the 2×9 array of digit records, the `digits_active` bank selector, the `active` refresh flag, the intensity, the device queue and the trace of latch levels.
  - Methods for the setup loop, `set_digit`, `display`, the completion callback, `print`, `printf` and `set_intensity`.
  - A queued descriptor is resolved when the bus sends it (`Complete`), not when it is queued. After a bank swap, an old transfer therefore sends what the record holds at that moment.

Behaviour of the code worth noting:

- `printf` never reports truncation. It prints the first nine characters and returns 0.
- The dot is added to the glyph, not OR'd into it, so for 'q', 'Q' and '!' (whose glyphs already have the dot bit) it carries into bit 24.
- The `print` loop starts at position 7 - start and stops after position 0, so it never writes position 8.
- Position 8's select bit falls outside the masked field, so its frame selects no digit.

## Model

| member | source | states |
|---|---|---|
| Font.TubeDigit | esphome/components/max6921iv18/max6921iv18.cpp:380-413 | A byte is drawn blank exactly when it is not a letter, a digit or one of the seven punctuation characters; the dot bit is set in the glyph of exactly 'q', 'Q' and '!'. |
| Font.TablesHaveNoBlank | esphome/components/max6921iv18/max6921iv18.cpp:305-378 | No entry of the three lookup tables is blank. |
| Font.TablesDotFree | esphome/components/max6921iv18/max6921iv18.cpp:305-378 | Only entry 16 ('q'/'Q') of the letter tables has the dot bit; no digit glyph has it. |
| Font.Glyphs | esphome/components/max6921iv18/max6921iv18.cpp:380-413 | Pinned glyphs: '0' is 0x3F, '8' is 0x7F, 'B' = '8', 'O' = '0', 'V' = 'U' = 0x3E, the seven punctuation patterns, and blank for '.', ' ' and NUL. |
| Frames.Frame | esphome/components/max6921iv18/max6921iv18.cpp:138-139 | The select field of the frame is exactly bit `idx` for positions 0..7 and zero for position 8; bits 0..7 are clear; bits 16 and up hold the glyph plus `seg` as an untruncated sum. |
| Frames.DotFrame | esphome/components/max6921iv18/max6921iv18.cpp:138-139 | Adding the dot gives glyph-with-dot for every byte except 'q', 'Q' and '!'. For those three the sum carries into bit 24 and clears the dot bit. |
| Layout.Walk | esphome/components/max6921iv18/max6921iv18.cpp:148-158 | The loop from counter `d` writes at most 8 - d digits. |
| Layout.WalkPrintable | esphome/components/max6921iv18/max6921iv18.cpp:148-158 | The k-th placement goes to position 7 - d - k. No placed character is NUL, and the added segment is 0 or the dot. |
| Layout.WalkConsumesPrefix | esphome/components/max6921iv18/max6921iv18.cpp:148-158 | The characters placed, with their dots put back as '.', are a prefix of the string. |
| Layout.WalkStopsAtNul | esphome/components/max6921iv18/max6921iv18.cpp:148 | If the loop stops before position 0, it stopped at the string's NUL right after what it consumed. |
| Layout.WalkUnparse | esphome/components/max6921iv18/max6921iv18.cpp:148-158 | Re-printing the text that any printable placements spell out reproduces those placements (the layout is invertible). |
| Layout.PaintStep | esphome/components/max6921iv18/max6921iv18.cpp:150-157 | One loop pass, storing a character and its dot at position 7 - d, advances the remaining layout by one placement without changing the final bank. |
| Layout.WalkDone | esphome/components/max6921iv18/max6921iv18.cpp:148 | When the loop condition fails, nothing remains to place. |
| Layout.PaintDescending | esphome/components/max6921iv18/max6921iv18.cpp:157 | Storing placements at positions counting down from `top` sets each position it reaches and leaves every other position unchanged. |
| Layout.PrintedBank | esphome/components/max6921iv18/max6921iv18.cpp:144-161 | After `print(start, s)` the bank holds the k-th placement at 7 - start - k. Every other position, including 8, is unchanged; a start past 7 changes nothing. |
| Layout.PaintCountdown | esphome/components/max6921iv18/max6921iv18.cpp:148-158 | The same for any placements at positions 7 - d, 6 - d, and so on. |
| Layout.PrintExample | esphome/components/max6921iv18/max6921iv18.cpp:144-161 | "12.3" from position 0 puts '1' at 7, '2' with the dot at 6 and '3' at 5. |
| Refresh.Sweep | esphome/components/max6921iv18/max6921iv18.cpp:121-130 | The kick-off loop over n positions queues exactly Transfer(b, 0), ..., Transfer(b, n - 1), in that order. |
| Refresh.SweepCounts | esphome/components/max6921iv18/max6921iv18.cpp:121-130 | The kick-off sweep over n positions queues each position below n exactly once. |
| Refresh.KickOffOnePerPosition | esphome/components/max6921iv18/max6921iv18.cpp:113-132 | After the first `display()`, the queue holds positions 0..8 of the new active bank in order: one per position, none stale. |
| Refresh.Requeue | esphome/components/max6921iv18/max6921iv18.cpp:26-37 | A completion removes entry i, keeps the other transfers in order, and appends one transfer, for the completed position, from bank b. |
| Refresh.RequeuePreserves | esphome/components/max6921iv18/max6921iv18.cpp:19-39 | A completion keeps exactly one queued transfer per position. The completed position had no other transfer queued. |
| Refresh.RequeueRetiresStale | esphome/components/max6921iv18/max6921iv18.cpp:26-37 | Completing a transfer of the inactive bank leaves one fewer transfer not reading the active bank; completing one of the active bank changes nothing. |
| Refresh.QueueSize | esphome/components/max6921iv18/max6921iv18.cpp:72 | One transfer per position means exactly nine queued transfers, within the queue depth of 12. |
| Refresh.RotateShape | esphome/components/max6921iv18/max6921iv18.cpp:19-39 | After n completions at the head of the queue, those n transfers are at the back, re-targeted at the active bank. |
| Refresh.FullPass | esphome/components/max6921iv18/max6921iv18.cpp:19-39 | After a bank swap, one full pass of completions leaves every position queued once, in the same order, and all reading the new active bank. |
| Max6921Iv18.Component.constructor | esphome/components/max6921iv18/max6921iv18.h:104-112 | Two banks of nine records, refresh off, nothing queued, bank 0 selected, intensity 15. |
| Max6921Iv18.Component.Setup | esphome/components/max6921iv18/max6921iv18.cpp:87-100 | Every record `digits[g][d]` gets index d, length 24 and a zero payload; bank 0 becomes active; nothing else changes. |
| Max6921Iv18.Component.SetDigit | esphome/components/max6921iv18/max6921iv18.cpp:134-142 | Only `digits[!digits_active][idx]` changes, and it gets the frame of `val` plus `seg`. |
| Max6921Iv18.Component.Display | esphome/components/max6921iv18/max6921iv18.cpp:113-132 | Toggles the selector, which stays 0 or 1. Only the first call starts refresh and queues positions 0..8 of the new active bank; later calls queue nothing. |
| Max6921Iv18.Component.Complete | esphome/components/max6921iv18/max6921iv18.cpp:19-39 | Sends the frame the record holds now. The latch trace gains a high level followed by a low level. The position recorded in the completed record is re-queued from the bank active now. The one-per-position invariant holds. |
| Max6921Iv18.Component.PlaceChar | esphome/components/max6921iv18/max6921iv18.cpp:150-157 | One loop pass: stores the character, with the dot when a '.' follows, at position 7 - d, and skips that '.'. |
| Max6921Iv18.Component.PlaceText | esphome/components/max6921iv18/max6921iv18.cpp:148-158 | The pending bank ends up as the layout of the string painted over it; the active bank is untouched. |
| Max6921Iv18.Component.PrintAt | esphome/components/max6921iv18/max6921iv18.cpp:144-161 | The laid-out text becomes the active bank, the old active bank becomes pending, refresh runs, and the result is 0. |
| Max6921Iv18.Component.Print | esphome/components/max6921iv18/max6921iv18.cpp:162-166 | Exactly `print(0, s)`: prints at position 0, as the header documents. |
| Max6921Iv18.Component.Printf | esphome/components/max6921iv18/max6921iv18.cpp:172-185 | A positive result prints the first nine formatted characters at position 0 (as the header documents) and returns 0. Otherwise nothing changes and the result is returned as an unsigned byte. |
| Max6921Iv18.Component.PrintfAt | esphome/components/max6921iv18/max6921iv18.cpp:167-171 | The positional overload prints nothing and returns 0. |
| Max6921Iv18.Component.SetIntensity | esphome/components/max6921iv18/max6921iv18.cpp:192-196 | Stores the level and changes nothing else. |
| Max6921Iv18.Truncated | esphome/components/max6921iv18/max6921iv18.cpp:179-180 | The ten-byte buffer keeps the whole text when it fits, and exactly its first nine characters otherwise. |
| Max6921Iv18.FlipSelector | esphome/components/max6921iv18/max6921iv18.cpp:116 | Toggling bit 0 of a selector that is 0 or 1 keeps it in {0, 1} and swaps the banks. |

## Left out

- GPIO: the enable, output-enable and latch pin setup in `setup` is not modelled. The latch writes of the callback are kept only as a trace of levels.
- SPI: bus and device initialisation, DMA, the clock rate and the error checks are not modelled. `spi_device_queue_trans` is modelled as an append to the queue that always succeeds, so queue errors are not modelled.
- Wire format: the byte order in which the 32-bit `tx_buffer` value goes out on the bus depends on the ESP-IDF structure layout. The frame is kept as an integer.
- Concurrency: the completion callback runs in interrupt context, unsynchronised with producers. Here each callback and each producer call is one whole, sequential method call.
- Formatting: `vsnprintf` formatting is not modelled. `Printf` takes the formatted text and the `vsnprintf` result as parameters.
- `strftime`: both overloads (compiled only with `USE_TIME`) are left out. They format through the time library's `strftime`.
- Host hooks: `update`, `set_writer` and the writer callback are opaque user code. `dump_config`, `get_setup_priority`, logging and `display.py` (code generation) are not modelled either.
- Header `set_digit`: the header declares a two-argument `set_digit`, but the source file defines three arguments; the model follows the definition.
- Max6921Iv18.Component.constructor: it assumes the zero-initialised component the code generator creates, so `active` and `digits_active` start at 0.
- The record's back-reference to its component is not modelled, since there is only one component. The descriptor's `user` pointer, which the callback follows to find its record, is stood in for by the (bank, slot) pair of a `Transfer`. The `SPI_TRANS_USE_TXDATA` flag, which makes the bus send the payload held in the descriptor itself, is implicit: a record's frame is what `Complete` sends.
- Max6921Iv18.Component.Complete: the latch levels and the queue are separate state, so the contract does not state that the re-queue happens between the high and the low level.
- `active` is a `bool`, not a `uint8_t`; the code only ever tests it and sets it to 1.
- Max6921Iv18.Component.SetDigit: the digit records hold the frames themselves. The contracts also describe each record through a ghost `Cell` (the character and its added segment), and `Valid` ties each record to `Payload` of its cell.
- Max6921Iv18.Component.PlaceText: it models the loop of `print(start, str)`, and `PrintAt` adds the `display()` call. `PlaceChar` is one pass of that loop.
