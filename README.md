# Helios + Triton overlay with PTP-scheduled capture, modelled in Dafny

`HLTRGB_PTP.cpp` drives two Lucid cameras:
- a Helios2 time-of-flight camera, which becomes the PTP master;
- a Triton RGB camera, which becomes the PTP slave.

It fires a scheduled action command so that both cameras expose at the same instant. It then colours every 3D point of the Helios image with the Triton pixel onto which the point projects. This project models the deterministic logic of that program and proves what it computes.

| file | module | what it models |
|---|---|---|
| `types.dfy` | `Types` | fixed-width integer ranges, `uint8`/`uint16`, `Option`, `Result` |
| `grid.dfy` | `Grid` | row-major cell offsets of a `height x width` `cv::Mat`, and its reshape into `width * height` points |
| `scheduled_action.dfy` | `ScheduledAction` | the execute time computed in `FireScheduledActionCommand` |
| `depth_decode.dfy` | `DepthDecode` | decoding of the Coord3D_ABCY16 depth buffer into `imageMatrixXYZ` |
| `colour_overlay.dfy` | `ColourOverlay` | sampling the RGB image into the BGR colour buffer `pColorData` |
| `device_selection.dfy` | `DeviceSelection` | `isApplicableDeviceHelios2`, `isApplicableDeviceTriton` and the device-search loops of `main` |
| `action_target.dfy` | `ActionTarget` | `g_ActionCommandTargetIp` and its dotted-quad display |

How each part of the source takes its form in the model:
- The loops that change state in place are methods over arrays, proved against specification functions:
  - the nested depth-decoding loop;
  - the colour loop that writes into `pColorData`.
- `FireScheduledActionCommand` updates one local variable step by step, and is a method too.
- The device-search loops are methods. They are proved equal to a reference outcome defined by counting applicable devices.
- The single-expression predicates and the octet display are functions.

C++ semantics that are written out explicitly:
- `int64_t` division truncates toward zero (`SecondsTowardZero`).
- `int g_ActionCommandTargetIp = 0xFFFFFFFF` wraps to -1 (`ToInt32`).
- `>>` on a negative `int` is an arithmetic shift.
- `& 0xFF` keeps the low byte of the two's complement representation.

The colour buffer `pColorData` is allocated without being initialised (`HLTRGB_PTP.cpp:317`), and the bytes of a point that projects outside the colour image are never written (`HLTRGB_PTP.cpp:324-328`). The model therefore takes the buffer's prior contents as arbitrary and proves that those bytes are left in place.

## Model

| member | source | states |
|---|---|---|
| ScheduledAction.SecondsTowardZero | HLTRGB_PTP.cpp:186 | `curr_ptp /= 1000000000` truncates toward zero: for a non-negative timestamp the whole seconds are bracketed from below, and for a negative one from above |
| ScheduledAction.NextWholeSecondAfter | HLTRGB_PTP.cpp:185-188 | the reference "next whole second strictly after x" is a multiple of 10^9 in `(x, x + 10^9]` |
| ScheduledAction.NextWholeSecondIsLeast | HLTRGB_PTP.cpp:185-188 | no multiple of 10^9 lies strictly after x and before the reference next whole second |
| ScheduledAction.NextWholeSecondIsUnique | HLTRGB_PTP.cpp:185-188 | any multiple of 10^9 in `(x, x + 10^9]` is the next whole second after x |
| ScheduledAction.RoundUpBranch | HLTRGB_PTP.cpp:186-188 | the rounding branch yields a multiple of 10^9; for `ptp >= 0` it lies in `(ptp + d*10^9, ptp + (d+1)*10^9]`, for `ptp < 0` in `[ptp + (d+1)*10^9, ptp + (d+2)*10^9)` |
| ScheduledAction.ScheduleActionTime | HLTRGB_PTP.cpp:184-191 | without rounding the time is exactly `curr_ptp + delta*10^9`; with rounding it is a whole second, bounded as above, and for a non-negative timestamp it is the first whole second after `curr_ptp + delta*10^9`; for non-negative inputs below the stated bound the result fits `int64_t` |
| ScheduledAction.ShippedScheduleIsNextSecondAfterDelta | HLTRGB_PTP.cpp:49-50 | with the shipped settings (delta one second, rounding on) a non-negative timestamp is scheduled at the first whole second after `ptp + 10^9` |
| DepthDecode.DecodeSample | HLTRGB_PTP.cpp:264-272 | a pixel with 0xFFFF in any of X, Y, Z is the origin; otherwise every axis is `raw * scale + offset` with its own offset |
| DepthDecode.DecodeSampleRecoversRaw | HLTRGB_PTP.cpp:269-271 | for a non-zero scale, the raw word of each axis of a valid pixel is recovered from its point and the calibration |
| DepthDecode.DecodeWords | HLTRGB_PTP.cpp:255-276 | decoding `n` pixels gives `n` points, and point k is decoded from words `4k`, `4k+1` and `4k+2` |
| DepthDecode.DecodeIgnoresFourthWord | HLTRGB_PTP.cpp:258-261 | buffers that agree on the X, Y and Z words of every pixel decode identically: word `4k+3` is never read |
| DepthDecode.CellReadsItsWords | HLTRGB_PTP.cpp:256-271 | cell `(ir, ic)` is element `ir*width+ic` of the grid, inside the `width*height` cells, and is decoded from that pixel's three words |
| DepthDecode.DecodeRow | HLTRGB_PTP.cpp:257-275 | one row of the inner loop advances the word pointer by `4*width`, decodes the row's cells, keeps the decoded rows before it and changes no later cell |
| DepthDecode.DecodeDepth | HLTRGB_PTP.cpp:252-276 | the nested loop fills a newly allocated matrix of exactly `width*height` cells, equal in row-major order to the decoded pixels of the buffer |
| Grid.RowMajorInRange | HLTRGB_PTP.cpp:254-257 | every cell `(row, col)` of a `height x width` matrix lies inside its flat storage |
| Grid.RowMajorBijection | HLTRGB_PTP.cpp:298-299 | reshaping into `rows*cols` points is a bijection: each flat index is the row-major offset of exactly one cell |
| ColourOverlay.UnsignedBoundAgrees | HLTRGB_PTP.cpp:320-327 | for coordinates in `[-(2^32-n), 2^32)`, the `unsigned` test `v < n` after the cast is the same as `0 <= v < n` |
| ColourOverlay.ColourImage.Channel | HLTRGB_PTP.cpp:331-333 | `imageMatrixRGB.at<cv::Vec3b>(row, col)[c]`: byte `c` of pixel `row*cols+col` of the row-major RGB8 buffer, always inside the buffer (its index is checked against `Grid.RowMajorInRange`) |
| ColourOverlay.InFrame | HLTRGB_PTP.cpp:324-327 | the bounds test: a point in frame passes the source's test on the coordinates cast to `unsigned int`, and for coordinates in `[-(2^32-n), 2^32)` the two tests agree both ways |
| ColourOverlay.ExpectedByte | HLTRGB_PTP.cpp:331-342 | byte `3i+c` holds channel `2-c` of the sampled pixel for a handled in-frame point `i`, and its prior contents otherwise; an out-of-frame point's bytes always keep their prior contents |
| ColourOverlay.Overlay | HLTRGB_PTP.cpp:319-343 | the buffer after the first n points, byte by byte as `ExpectedByte`: same length as before, and the bytes of every point not yet handled hold their prior contents |
| ColourOverlay.ColourStep | HLTRGB_PTP.cpp:324-342 | one iteration writes no byte outside `3i..3i+2`, and an out-of-frame point writes nothing |
| ColourOverlay.OverlayOfNone | HLTRGB_PTP.cpp:317 | before any point is handled, the per-byte overlay is exactly the buffer as allocated |
| ColourOverlay.OverlayStep | HLTRGB_PTP.cpp:319-343 | one loop iteration, for point n, takes the overlay after n points to the overlay after n+1 points, in which byte `3i+c` of an in-frame point `i` holds channel `2-c` and every other byte holds its prior contents |
| ColourOverlay.PointByte | HLTRGB_PTP.cpp:324-342 | after the loop, byte `3i+c` holds channel `2-c` of the sampled pixel if point i is in frame, and its prior contents otherwise |
| ColourOverlay.OutOfFrameUntouched | HLTRGB_PTP.cpp:319-328 | a point whose row or column is outside the colour image leaves its three bytes as they were |
| ColourOverlay.InFrameReversed | HLTRGB_PTP.cpp:331-342 | an in-frame point receives B, G, R: `buf[3i]` = channel 2, `buf[3i+1]` = channel 1, `buf[3i+2]` = channel 0 |
| ColourOverlay.SampleColours | HLTRGB_PTP.cpp:317-343 | the in-place loop over all points leaves the colour buffer equal to the per-byte overlay of its prior contents |
| ColourOverlay.OverlayColourOnto3D | HLTRGB_PTP.cpp:252-343 | the decoded cloud is newly allocated, and cloud, projections and colour buffer are index-aligned: point i, projection i and bytes `3i..3i+2` belong to the same depth pixel |
| DeviceSelection.Find | HLTRGB_PTP.cpp:385 | `gcstring::find` returns the first position where the substring occurs, and `npos` exactly when it occurs nowhere |
| DeviceSelection.IsHelios2 | HLTRGB_PTP.cpp:383-386 | a name is applicable as Helios2 exactly when `find("HLT")` or `find("HTP")` is not `npos`, i.e. exactly when "HLT" or "HTP" occurs somewhere in it |
| DeviceSelection.IsTriton | HLTRGB_PTP.cpp:379-381 | a name is applicable as Triton only when it is exactly `TRI032S-C`, a nine-character name without an 'H' |
| DeviceSelection.RolesDisjoint | HLTRGB_PTP.cpp:379-386 | a `TRI032S-C` is never taken for a Helios2 |
| DeviceSelection.First | HLTRGB_PTP.cpp:426-428 | the chosen index is applicable, no earlier device is, and there is none exactly when no device is applicable |
| DeviceSelection.CountZeroIff | HLTRGB_PTP.cpp:470-474 | no device is counted for a role exactly when no device fits it |
| DeviceSelection.SearchRole | HLTRGB_PTP.cpp:426-468 | a search loop stops with "too many" exactly when more than one device fits, and otherwise finds the first fitting device |
| DeviceSelection.SelectDevices | HLTRGB_PTP.cpp:407-474 | the search in `main` gives the counting-based outcome: no camera; too many Helios2; too many Triton; no Triton; no Helios2; in that order |
| DeviceSelection.SelectionPicksFirstAndOnly | HLTRGB_PTP.cpp:426-468 | on success the chosen Helios and Triton fit their roles and no other detected device fits either |
| DeviceSelection.SecondHeliosFails | HLTRGB_PTP.cpp:443-445 | two Helios-like names anywhere give "too many Helios2 devices" |
| DeviceSelection.SecondTritonFails | HLTRGB_PTP.cpp:465-467 | two Triton names give "too many Triton devices" once the Helios search has passed |
| DeviceSelection.MissingTritonReportedFirst | HLTRGB_PTP.cpp:470-474 | with devices present but neither camera among them, the missing Triton is reported, not the missing Helios |
| DeviceSelection.SelectionSucceedsIff | HLTRGB_PTP.cpp:426-474 | selection succeeds exactly when one Helios2 and one Triton are detected |
| ActionTarget.ToInt32 | HLTRGB_PTP.cpp:57 | the conversion to a 32-bit `int` stays in range and is congruent to its argument modulo 2^32 |
| ActionTarget.DisplayOctets | HLTRGB_PTP.cpp:486 | `(ip>>24)&0xFF … ip&0xFF` on a signed 32-bit `ip`, with arithmetic shift and the two's-complement low byte; each of the four values is a byte |
| ActionTarget.DisplayOctetsReassemble | HLTRGB_PTP.cpp:486 | the four displayed octets are bytes and, most significant first, they spell the low 32 bits of the address |
| ActionTarget.DisplayOctetsOfAssembled | HLTRGB_PTP.cpp:486 | any four bytes stored as a 32-bit `int` are displayed as those same four bytes |
| ActionTarget.BroadcastDisplayed | HLTRGB_PTP.cpp:57 | the shipped target holds -1 and is displayed as 255.255.255.255 |

## Left out

- Camera SDK calls are external hardware calls and are not modelled:
  - node reads and writes, `ExecuteNode`, `CreateDevice`;
  - `StartStream`, `GetImage`, `RequeueBuffer`.
  - The timestamp, the image buffers, the image sizes and the calibration values become parameters.
- PTP master/slave negotiation and the `sleep(1)` polling loops are left out; they are firmware behaviour, timing and I/O.
- The mutex-guarded acquisition loop is left out; it is concurrency around external calls. So is the `GetImage` timeout arithmetic.
- `cv::projectPoints` is float numerics in a library. It is the `project` parameter of `OverlayColourOnto3D`, and the colour loop takes the already rounded integer coordinates as input.
- The `float` to `unsigned int` conversion of those coordinates is not modelled; it is undefined in C++ for values that do not fit.
- ColourOverlay.SampleColours: tests bounds with explicit `0 <= v < n`. The source relies on the unsigned wrap-around. `UnsignedBoundAgrees` shows the two tests agree for every coordinate in `(-(2^32 - n), 2^32)`, not beyond that range.
- DepthDecode.DecodeSample: computes over exact reals. The source's `double` arithmetic, and its rounding to `float`, is not modelled.
- ScheduledAction.ScheduleActionTime: does not model `int64_t` overflow, which is undefined behaviour. Its contract gives one sufficient condition for the result to fit, for non-negative timestamps only.
- The later memory accesses are not modelled:
  - reading `X`, `Y`, `Z` at lines 335-337, whose values are never used;
  - `memcpy` of the Triton buffer into `imageMatrixRGB`, which is modelled only as the image's byte sequence.
- Heap management of `pColorData` is not modelled. The buffer is a caller-supplied array with arbitrary contents. The leak caused by nulling the pointer before `delete` is not modelled.
- File I/O is not modelled:
  - the existence check of the calibration file and its `cv::FileStorage` loading;
  - `cv::imwrite` and the PLY writer `Save::ImageWriter`.
- Console output is not modelled.
- `GenICam/library/CPP/include/xsde/c/regexp/chvalid.h` is not part of this model. It holds only type declarations and prototypes, and no behaviour.
