# stint, modelled in Dafny

stint is a small X11 colour picker. `main` opens the display and creates a crosshair
cursor. It then grabs the pointer (button presses, button-1 motion, button releases) and
waits for button 1 to go down. While the button is held, it prints the colour under the
pointer at every motion event and once more at the release of button 1. Finally it ungrabs
the pointer, frees the cursor and closes the display. `print_pixel` takes a 1x1 snapshot
of the root window and prints the pixel as `#rrggbb`.

The model has four modules:

- `HexColor` (hex_color.dfy): the line `print_pixel` writes, `printf("#%02x%02x%02x\n", ...)`.
  Each channel is a C `int`, reinterpreted as unsigned by `%x`, then written with at least
  two lower-case digits. A parser for those lines is the partner of the formatter.
- `PointerEvents` (pointer_events.dfy): the press/drag/release protocol as a pure function
  `Capture` of the event stream, stepped one event at a time. `Reference` is a second,
  index-based definition (first button-1 press, first button-1 release after it, the events
  sampled between them). The lemmas prove the two agree and derive the protocol's
  properties.
- `Stint` (stint.dfy): `main` in imperative form. `WaitForButton1` and `SampleUntilRelease`
  are the two loops over an event array, with the `done` flag and the switch fall-through.
  `TrackPointer` runs them in sequence. `Run` is `main` itself: the `goto out_free` becomes
  a `break` out of a labelled block, and every resource acquisition and release goes into a
  trace. `Session` specifies that trace. `Held` replays a trace under a stack discipline,
  and this is used to prove that everything acquired is released in reverse order.
- `Wrappers` (wrappers.dfy): `Option`.

The X11 and Imlib2 calls are replaced by inputs:

- whether `XOpenDisplay` succeeds;
- whether `XGrabPointer` succeeds;
- an array of scripted events in place of `XNextEvent`;
- a function from root-window points to colours in place of `imlib_image_query_pixel`.

`XNextEvent` blocks when no event comes. Running out of scripted events models that:
`Capture` then gives an `Exhausted` outcome and `Run` gives the status `Blocked`, with the
resources still held and the lines printed so far.

The model follows `stint.c` as written:

- A press of a button other than 1 does not end the program. It is discarded while
  waiting (lines 52-54) and ignored while dragging.
- The only output format is `#rrggbb`, and the coordinates always come from the events.
- Channels are printed as Imlib2 returns them, with no scaling.
- The only exit codes are 0 and 1.

## Model

| member | source | states |
|---|---|---|
| HexColor.DigitChar | stint.c:19 | the digit written for a value below 16 is a lower-case hex digit that reads back as that value |
| HexColor.Hex | stint.c:19 | `%x` output is non-empty and all lower-case hex digits, with no leading zero except for the value 0; it is one digit exactly below 16, and at most two exactly below 256 |
| HexColor.Hex02 | stint.c:19 | `%02x` output has at least two lower-case hex digits, and exactly two iff the value is below 256 |
| HexColor.Unsigned32 | stint.c:19 | a C `int` passed to `%x` is read as the unsigned 32-bit value congruent to it mod 2^32; non-negative values are unchanged |
| HexColor.HexRoundTrip | stint.c:19 | parsing the digits `%x` writes as base 16 gives back the value |
| HexColor.Hex02RoundTrip | stint.c:19 | parsing the digits `%02x` writes as base 16 gives back the value; the '0' padding does not change it |
| HexColor.PixelLineFormat | stint.c:19 | for channels in 0..255 the line is '#', six lower-case hex digits, then a newline; the digit pairs read back as red, green and blue, in that order |
| HexColor.PixelLine | stint.c:19 | the printed line is at least eight characters, starts with '#' and ends with a newline; it is exactly eight characters iff every channel is in 0..255 |
| HexColor.PixelLineRoundTrip | stint.c:19 | every character of the line between '#' and the newline is a lower-case hex digit, and the line parses back to the colour iff every channel is in 0..255 |
| Stint.PrintPixel | stint.c:7-20 | the line printed for (x, y) starts with '#', has only lower-case hex digits up to the final newline, and parses back to the pixel's colour iff its channels are in 0..255 |
| Stint.Render | stint.c:67-68 | one printed line per sample |
| Stint.RenderAt | stint.c:67-68 | the k-th printed line is print_pixel's line for the k-th sample, so lines follow the samples in order |
| PointerEvents.Track | stint.c:50-71 | the loop run event by event takes at most one sample per event, and when it finishes it has consumed at least one event and no more than the stream |
| PointerEvents.TrackEndsAtFinish | stint.c:57-71 | a run of the loop that finishes, from either phase, has just consumed a button-1 release: the one that set `done` |
| PointerEvents.Capture | stint.c:50-71 | the loop entered in the waiting phase equals, on every stream, the index-based `Reference`: stop at the first button-1 release after the first button-1 press, sampling the motion events between them and the release |
| PointerEvents.FirstArmFrom | stint.c:52-54 | the position where waiting from i stops: the first button-1 press at or after i, or the end of the stream |
| PointerEvents.FirstFinishFrom | stint.c:57-71 | the position where dragging from i stops: the first button-1 release at or after i, or the end of the stream |
| PointerEvents.Sampled | stint.c:61-69 | the events sampled once dragging: at most one point per event |
| PointerEvents.SampledAppend | stint.c:57-71 | samples follow event order with no coalescing: the samples of a + b are those of a followed by those of b |
| PointerEvents.SampledWithoutFinish | stint.c:61-69 | with no button-1 release in a stretch of events, the number of samples equals the number of motion events |
| PointerEvents.TrackAppend | stint.c:50-71 | running the loop over a + b equals running it over a, then over b from the phase a ended in, unless it already finished inside a |
| PointerEvents.WaitingByPosition | stint.c:50-54 | from position i, waiting discards everything up to and including the first button-1 press, then drags from the next event |
| PointerEvents.DraggingByPosition | stint.c:56-71 | from position i, dragging ends at the first button-1 release; the samples are those of the events up to and including it, and exactly those events are consumed |
| PointerEvents.DiscardedWhileWaiting | stint.c:51-54 | a stretch of events with no button-1 press leaves the loop waiting, with no sample |
| PointerEvents.NoSampleBeforeArm | stint.c:51-54 | events in front of the first button-1 press (motion, releases, other presses) are consumed and do not change the samples |
| PointerEvents.NeverArmed | stint.c:51-54 | a stream with no button-1 press yields no sample and is consumed to its end |
| PointerEvents.SampleCount | stint.c:57-71 | a finished loop consumes the events through the first button-1 release after the first button-1 press; there is one sample per motion event between them, plus one |
| PointerEvents.LastSampleAtRelease | stint.c:62-68 | a finished loop's last consumed event is a button-1 release, and the last sample is at its coordinates (the fall-through) |
| PointerEvents.IgnoredWhileDragging | stint.c:61-64 | while dragging, a press of any button or a release of a button other than 1 neither samples nor ends the loop |
| PointerEvents.StopsAtFinish | stint.c:57-71 | no event after the terminating release is read: replacing everything after it leaves the outcome unchanged |
| Stint.WaitForButton1 | stint.c:50-54 | the do-while stops just after the first button-1 press (its index is `FirstArmFrom` of the script, plus one), with the protocol from there on being dragging; or the script holds no button-1 press, every event is consumed and nothing is sampled |
| Stint.SampleUntilRelease | stint.c:56-71 | the `done`-flag loop with the switch fall-through yields the dragging protocol's outcome from its start index, with one printed line per sample |
| Stint.TrackPointer | stint.c:50-71 | the two loops together yield exactly `Capture` of the whole event array, and the printed lines are the lines of its samples, in order |
| Stint.Session | stint.c:25-80 | exit 0 iff display and grab succeed and the release arrives; exit 1 iff display or grab fails; blocked iff the events run out after the grab; output only after a successful grab. `SessionReleasesInReverse` and `SessionPaths` prove its teardown |
| Stint.AcquiredTraces | stint.c:28-79 | the acquisitions up to the grab on each path, and their releases in reverse, written out |
| Stint.ReverseReleaseFreesAll | stint.c:74-79 | acquiring distinct resources and releasing them in reverse order keeps the stack discipline and leaves nothing held |
| Stint.Run | stint.c:25-80 | main's status, resource trace and output are those of `Session`: release everything acquired, in reverse order; exit 0 after the grab, 1 otherwise; block with everything held if the release never comes |
| Stint.SessionReleasesInReverse | stint.c:28-80 | every returning run leaves nothing held, and each release undoes the latest acquisition still held; a blocked run holds display, cursor and grab |
| Stint.SessionPaths | stint.c:25-80 | no display: exit 1, no action. No grab: exit 1, cursor freed then display closed, no ungrab. Success: ungrab, cursor free, display close, exit 0. Out of events: blocked holding all three |

## Left out

- The X11 and Imlib2 calls are not modelled. `XOpenDisplay`, `XGrabPointer`, `XNextEvent` and the snapshot with `imlib_create_image_from_drawable` and `imlib_image_query_pixel` are replaced by the inputs listed above. `XCreateFontCursor` is taken to succeed and appears only as an acquisition in the trace. `XUngrabPointer`, `XFreeCursor` and `XCloseDisplay` appear only as releases in the trace. `DefaultRootWindow` and the `imlib_context_*` setup calls have no counterpart.
- The screen is one fixed function from points to colours for the whole run. The source makes a fresh snapshot for every sample, and the screen may change between samples.
- `print_pixel` never frees the image that `imlib_create_image_from_drawable` returns. Memory is not modelled, so the trace does not show this leak.
- The two messages written to stderr ("could not open display", "could not grab pointer") are not modelled. Only the exit code marks these paths.
- stdout buffering, flushing and a closed pipe are I/O concerns and are not modelled. A line counts as printed once `printf` is called.
- Event types other than ButtonPress, ButtonRelease and MotionNotify are not modelled. The grab's event mask selects only these three; the switch would ignore any other type.
- The `button` field of a MotionNotify event is not modelled. In Xlib's event union it overlays the motion event's `is_hint` field, and the source never reads it for motion events.
- Coordinates are unbounded integers. The root coordinates Xlib reports are C `int`s, and no arithmetic is done on them.
- The alpha channel of the returned colour is not modelled. It is never printed.
