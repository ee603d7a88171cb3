# piet-tools core, modelled in Dafny

This project models the two core parts of the Rust Piet interpreter
`piet-tools`:

- **The block segmenter** (`src/blocks.rs`). It samples the image every
  `codel_size` pixels, column by column. Each sample is classified by its
  exact RGB value into a colour (six hues, three lightness levels), black or
  white. It then joins the first existing block of the same type that holds
  a pixel one step away on one axis; if there is none, it starts a new
  block. A lookup records which block each sampled coordinate belongs to.
- **The execution engine** (`src/cpu.rs`). It has a direction pointer (DP),
  a codel chooser (CC), a program counter (a coordinate), an integer stack,
  an error slot, an output slot and the last command run. `step` leaves the
  current block through the edge codel that the DP and CC select and
  enters the codel one codel-size further. `execute_blk` decodes the
  colour change into one of 18 commands and `execute` runs it. `try_step`
  makes up to eight attempts, switching the CC after each failure and
  turning the DP clockwise after every second one.

The modules:

- `Wrappers`: `Option` and `Result`.
- `RustInt`: Rust's truncating `/` and `%`.
- `PietBlocks`: colours, blocks and the lookup.
- `Segmentation`: the sampling loop.
- `Directions`: `rotate_direction`, `switch_codel` and the retry schedule.
- `Opcodes`: `typeof_exec`.
- `Semantics`: `execute` as a function on a `Machine` value.
- `StackLaws`: the effect of each command on the stack.
- `Stepping`: `get_edges`, `choose_coord`, `step`, `execute_blk` and
  `try_step` as functions.
- `Engine`: the `CPU` object as a class, with imperative methods.

Each method of `Engine.Cpu` is proved to produce exactly the state that the
matching function of `Semantics` or `Stepping` computes. The properties are
proved about those functions.

The panics listed below are explicit outcomes (`Outcome.Panicked`,
`Result.Err`), not preconditions:

- the panicking arm of `rotate_direction`;
- ROLL with depth 0;
- INPC when `read_line` reads no bytes (end of input; a line that was read keeps its newline, so it is never empty);
- leaving a black block into a colour;
- a pixel outside the palette.

The i32 overflow panics (for example `i32::MIN / -1`) are not modelled;
see "Left out".

Standard input is a parameter, `InputLine`. It records whether the line
parses as a number, its first byte, or that the read failed.

### Where the code differs from Piet's definition of blocks

- Piet defines a block as a maximal 4-connected region of one colour. The
  segmenter does not compute that. It adds a sample to the *first* adjacent
  block of its type and never merges blocks. One connected region can
  therefore end up split over several blocks. `Segmentation.SplitRegionExample`
  exhibits this on a 2 by 3 image. Each block is still connected, though not
  maximal (`Segmentation.SegmentationProperties`).
- Adjacency is tested one *pixel* away, not one codel away. With a codel
  size above 1 no sample is ever adjacent to another, so every block is a
  single codel (`Segmentation.WideCodelsGiveSingletons`).
- The model follows the code in both points.

### Notes on the command code

- ROLL with a negative roll count, or with a depth larger than the rest of
  the stack, consumes both arguments and records no error. The model does
  the same.
- ROLL with a negative depth also takes the early return. The cast `n as
  usize` makes the length test true.
- INPC indexes byte 0 of the line it read. When the read returned no
  bytes (end of input) that index panics.
- `find_block_from_index` is modelled in the `Option`-returning form that
  `cpu.rs` calls (`.unwrap()` at line 147, `match` at line 156). The
  `blocks.rs` version indexes the map and panics on a missing key instead.

## Model

| member | source | states |
|---|---|---|
| PietBlocks.ClassifiesExactlyPalette | src/blocks.rs:26-51 | the classifier accepts a colour exactly when it is the palette colour of the type it returns (hue picks the channels that are on, lightness their levels) |
| PietBlocks.ToBlockType | src/blocks.rs:26-51 | the classifier itself; its contract is stated by `ClassifiesExactlyPalette` and `PaletteInjective` |
| PietBlocks.PaletteInjective | src/blocks.rs:26-51 | the 20 accepted triples are pairwise distinct |
| PietBlocks.IsNextToIffUnitDistance | src/blocks.rs:60-69 | `is_next_to` holds exactly when some pixel of the block is at distance 1 |
| PietBlocks.Block.IsNextTo | src/blocks.rs:60-69 | the adjacency test; its contract is stated by `IsNextToIffUnitDistance` |
| PietBlocks.Blocks.Len | src/blocks.rs:78-80 | the block count; `ValidIsPartition` states that it counts the distinct block indices of a valid collection |
| PietBlocks.ConnectedExtend | src/blocks.rs:102-103 | adding a codel one pixel away from a connected set keeps it connected |
| PietBlocks.SingletonConnected | src/blocks.rs:110-113 | a new single-codel block is connected |
| PietBlocks.Blocks.FindBlockFromIndex | src/blocks.rs:122-124 | on a valid collection the result is present exactly for looked-up coordinates, and is the block that contains the coordinate |
| PietBlocks.ValidIsPartition | src/blocks.rs:78-80 | in a valid collection the blocks are pairwise disjoint and cover the lookup's keys, and `len` counts the distinct block indices |
| Segmentation.FirstMatch | src/blocks.rs:101-108 | the inner loop's stopping index: the first block of the same type adjacent to the sample, and none before it |
| Segmentation.PlaceSample | src/blocks.rs:100-115 | the inner loop adds the sample to the first matching block or appends a new block, as `Place` says |
| Segmentation.SampleColumn | src/blocks.rs:96-116 | the row loop computes `Segment` over one column's samples, stopping at the first pixel outside the palette |
| Segmentation.FromImage | src/blocks.rs:95-119 | the column loop computes `Segmentation` for the whole image |
| Segmentation.Place | src/blocks.rs:100-115 | one sample's placement; stated by `PlaceJoinsLowest` and `PlaceKeepsConsistent` |
| Segmentation.Segment | src/blocks.rs:95-119 | the sampling loop over a list of samples; stated by `SegmentKeepsConsistent`, `SegmentErrors`, `SegmentGrows` and `SegmentAppend` |
| Segmentation.Segmentation | src/blocks.rs:82-120 | `from_image` as a function; stated by `SegmentationProperties` and `SamplesAreGrid` |
| Segmentation.SamplesAreGrid | src/blocks.rs:95-96 | the visited coordinates are exactly the codel grid inside the image, each visited once |
| Segmentation.SegmentAppend | src/blocks.rs:95-117 | running the loop over two runs of samples in sequence is running it over their concatenation |
| Segmentation.PlaceKeepsConsistent | src/blocks.rs:100-115 | placing a fresh sample keeps blocks and lookup in agreement and adds exactly that sample to the lookup |
| Segmentation.JoinKeepsConsistent | src/blocks.rs:102-107 | the same, when the sample joins an existing block |
| Segmentation.AppendKeepsConsistent | src/blocks.rs:110-115 | the same, when the sample starts a new block |
| Segmentation.SegmentKeepsConsistent | src/blocks.rs:95-119 | over distinct fresh samples the loop keeps the lookup consistent, every codel typed by its pixel, and places every sample |
| Segmentation.SegmentErrors | src/blocks.rs:49 | the loop fails exactly when some sample is outside the palette, and reports such a sample and its colour |
| Segmentation.SegmentationProperties | src/blocks.rs:82-120 | on success the blocks partition exactly the codel grid, each of one type and each connected at one-pixel distance; on failure the error names a grid pixel outside the palette, and one exists |
| Segmentation.PlaceJoinsLowest | src/blocks.rs:101-115 | a sample joins the lowest-indexed adjacent block of its type, or becomes a new last block; the other blocks are unchanged |
| Segmentation.PlaceKeepsConnected | src/blocks.rs:100-115 | placing a sample keeps every block connected: it joins only a block one pixel away, or starts a single-codel block |
| Segmentation.SegmentKeepsConnected | src/blocks.rs:95-117 | the loop keeps every block connected |
| Segmentation.SegmentGrows | src/blocks.rs:95-117 | blocks are never removed, merged or retyped; they only gain codels |
| Segmentation.WideCodelsGiveSingletons | src/blocks.rs:60-69 | with a codel size above 1 every block holds a single codel |
| Segmentation.SplitRegionExample | src/blocks.rs:101-115 | a connected red region of a 2 by 3 image is split over two blocks |
| Directions.RotateDirection | src/cpu.rs:17-25 | the result exists exactly when the truncated remainder of `d + times` by 4 is not negative, and is then the direction with that index |
| Directions.RotateNonNegative | src/cpu.rs:17-25 | a rotation by a non-negative amount never panics |
| Directions.RotateNegativePanics | src/cpu.rs:17-25 | a negative sum panics unless it is a multiple of 4, and then gives `Right` |
| Directions.RotateCompose | src/cpu.rs:17-25 | two non-negative rotations compose into one |
| Directions.FourQuarterTurns | src/cpu.rs:136 | four clockwise quarter turns are the identity |
| Directions.SwitchCodel | src/cpu.rs:27-38 | the chooser stays when `times` is even; when it is odd it changes and becomes `Left` or `Right` |
| Directions.SwitchTwice | src/cpu.rs:27-38 | two single switches of a `Left`/`Right` chooser cancel |
| Directions.SwitchCompose | src/cpu.rs:27-38 | switching by `a` then `b` is switching by `a + b` |
| Directions.DpAt | src/cpu.rs:135-137 | the DP at attempt `i` of `try_step` is `i / 2` clockwise turns from the start |
| Directions.CcAt | src/cpu.rs:134 | the CC at attempt `i` is the start value for even `i` and the other side for odd `i` |
| Directions.ScheduleStep | src/cpu.rs:134-137 | one failed attempt advances the schedule exactly as the loop body does |
| Directions.ScheduleCoversAll | src/cpu.rs:128-142 | the eight attempts try every DP/CC pair |
| Directions.ScheduleRestores | src/cpu.rs:128-142 | after eight failures both pointers are back at their start values |
| Opcodes.LightDelta | src/cpu.rs:78 | the lightness delta is below 3 and steps `l0` to `l1` cyclically |
| Opcodes.HueDelta | src/cpu.rs:79 | the hue delta is below 6 and steps `h0` to `h1` cyclically |
| Opcodes.TypeOfExec | src/cpu.rs:72-82 | the table cell of the decoded command is (hue delta, lightness delta) |
| Opcodes.TablePosition | src/cpu.rs:63-70 | every command has a table cell |
| Opcodes.TableCellsDistinct | src/cpu.rs:63-70 | no command appears in two cells |
| Opcodes.DecodeNextColor | src/cpu.rs:72-82 | painting the colour chosen for a command decodes to that command |
| Opcodes.NextColorOfDecode | src/cpu.rs:72-82 | conversely, every next colour is the one chosen for the command it decodes to; from a fixed colour the decode is a bijection onto the 18 commands |
| Opcodes.SameColorIsNop | src/cpu.rs:72-82 | a move between blocks of one colour decodes to NOP |
| Opcodes.DarkerIsPush | src/cpu.rs:72-82 | one step darker in the same hue decodes to PUSH |
| RustInt.Quot | src/cpu.rs:242 | Rust `/`: the magnitude is the quotient of the magnitudes; the result is non-negative when the signs agree and non-positive when they differ |
| RustInt.Rem | src/cpu.rs:256 | Rust `%`: the dividend minus the divisor times `Quot`; smaller than the divisor in magnitude, with the dividend's sign |
| RustInt.TruncatedRemainder | src/cpu.rs:242-256 | the dividend minus the divisor times the truncating quotient is the magnitude remainder carrying the dividend's sign |
| RustInt.DivisionIdentity | src/cpu.rs:235-262 | quotient and remainder recompose the dividend |
| Semantics.RotateRight | src/cpu.rs:316-325 | `rotate_right` keeps the length and the multiset of values |
| Semantics.Rolled | src/cpu.rs:315-325 | the drain, rotate and append of ROLL keep the stack length |
| Semantics.LowByte | src/cpu.rs:363 | `as u8` keeps values in 0..255 and otherwise agrees modulo 256 |
| Semantics.Execute | src/cpu.rs:197-368 | a command never moves the pointer, records itself as the last command, and changes the DP only for PTR and the CC only for SWTCH |
| Semantics.Unary | src/cpu.rs:263-303 | the one-value commands keep the pointer, and only PTR and SWTCH change the DP or CC |
| Semantics.Dyadic | src/cpu.rs:211-326 | the two-value commands keep the pointer, DP and CC |
| StackLaws.Underflow | src/cpu.rs:205-208 | with too few values a command records the underflow and changes nothing else |
| StackLaws.ArithmeticEffect | src/cpu.rs:211-234 | ADD, SUB, MUL and GT replace the two top values by the result; the values below are unchanged |
| StackLaws.DivisionEffect | src/cpu.rs:235-248 | DIV by zero restores both values and records the error; otherwise the quotient is truncating; only the stack, the error and the last command change |
| StackLaws.ModuloEffect | src/cpu.rs:249-262 | MOD by zero restores both values and records the error; otherwise the remainder has the dividend's sign and is congruent to it; only the stack, the error and the last command change |
| StackLaws.DupEffect | src/cpu.rs:295-303 | DUP pushes a copy of the top; only the stack and the last command change |
| StackLaws.PopEffect | src/cpu.rs:349-364 | POP, OUTN and OUTC drop the top; the outputs publish it as a number or its low byte; only the stack, the output and the last command change |
| StackLaws.PointerEffect | src/cpu.rs:279-286 | PTR panics exactly for a negative sum that is not a multiple of 4, and otherwise turns the DP by the popped value; only the stack, the DP and the last command change |
| StackLaws.SwitchEffect | src/cpu.rs:287-294 | SWTCH flips the CC exactly when the popped value is odd; only the stack, the CC and the last command change |
| StackLaws.PushEffect | src/cpu.rs:327-348 | the whole new state of PUSH, INPN and INPC: they push the block size or what they read, or record a failed read or parse; INPC panics when nothing was read |
| StackLaws.NotEffect | src/cpu.rs:263-270 | NOT replaces the top by 1 exactly when it was 0 and by 0 otherwise; nothing else but the last command changes |
| StackLaws.NopEffect | src/cpu.rs:197-199 | NOP changes nothing but the last command, whatever the stack |
| StackLaws.PanicsExactly | src/cpu.rs:197-368 | a command panics exactly in PTR out of range, ROLL with depth 0 and INPC when nothing was read (the i32 overflow panics are left out) |
| StackLaws.ChooserStaysSide | src/cpu.rs:287-294 | the CC stays `Left` or `Right` whatever command runs |
| StackLaws.RotateRightAt | src/cpu.rs:321 | after `rotate_right(k)` the value from position `i` sits at `(i + k) mod n` |
| StackLaws.RotateRightInverse | src/cpu.rs:316-325 | rotating right by `k` and then by `n - k` restores the sequence |
| StackLaws.RollStack | src/cpu.rs:304-326 | with valid arguments ROLL pops them and rolls the `n` values below by `rolls mod n` |
| StackLaws.RotateRightByRolls | src/cpu.rs:315-321 | rotating by `rolls mod n` moves position `j` to `(j + rolls) mod n` |
| StackLaws.RolledSplit | src/cpu.rs:316-325 | a roll keeps the values under the top `n` and rotates the top `n` |
| StackLaws.RolledKeeps | src/cpu.rs:304-326 | a roll keeps the length and the lower values, and permutes the top `n` |
| StackLaws.RolledMoves | src/cpu.rs:304-326 | a roll moves each of the top `n` values `rolls` places up, cyclically |
| StackLaws.RolledInverse | src/cpu.rs:304-326 | rolling back by `n - rolls mod n` undoes a roll |
| StackLaws.RollRejected | src/cpu.rs:309-312 | a negative count, a negative depth or too few values consumes the two arguments and records no error |
| StackLaws.RollOnceDepthThree | src/cpu.rs:304-326 | ROLL with depth 3 and one roll turns `[..., a, b, c]` into `[..., c, a, b]` |
| Stepping.HasMax | src/cpu.rs:374 | a non-empty finite set of codels has one with the largest key |
| Stepping.Furthest | src/cpu.rs:374 | the largest coordinate along the DP is reached by a codel and bounds all of them |
| Stepping.GetEdges | src/cpu.rs:370-429 | the edge is non-empty and holds exactly the block's codels that lie furthest along the DP |
| Stepping.ChooseCoord | src/cpu.rs:431-453 | the chosen codel is on the edge, at the end that the DP and CC select |
| Stepping.Advance | src/cpu.rs:150-155 | the new coordinate is one codel size further along the DP and at the same place across it |
| Stepping.Target | src/cpu.rs:147-155 | the coordinate `step` moves to; stated by `ExitCodelIsExtreme`, `Advance` and `TargetLeavesBlock` |
| Stepping.ExitCodelIsExtreme | src/cpu.rs:147-149 | the exit codel is furthest along the DP and, among those, at the CC's end |
| Stepping.TargetLeavesBlock | src/cpu.rs:146-159 | with a positive codel size the target lies outside the current block |
| Stepping.ExecuteBlk | src/cpu.rs:178-195 | the transition succeeds exactly when the next block is not black; it panics exactly for a black current block or a panicking command; between two colours it reaches the state `Semantics.Execute` computes for the decoded command; without two colours no command runs |
| Stepping.Step | src/cpu.rs:146-172 | the pointer stays in the lookup, and a failed step keeps it |
| Stepping.Enter | src/cpu.rs:161-171 | a failed transition keeps the pointer; a successful one moves it to the target |
| Stepping.StepFails | src/cpu.rs:146-181 | a step fails exactly when the target is off the program or black; a target off the program changes nothing, a black one resets only the error, the output and the last command |
| Stepping.StepMoves | src/cpu.rs:146-172 | a step that is not blocked moves the pointer to the target or panics; to or from white it runs no command; between two colours the new state is the decoded command's `Semantics.Execute` result, from cleared `error` and `output`, moved to the target |
| Stepping.PushFromLightRed | src/cpu.rs:178-195 | leaving a light red block of 4 codels into normal red runs PUSH and pushes 4 |
| Stepping.AfterFailure | src/cpu.rs:134-137 | the turn after a failed attempt keeps the stack and pointer |
| Stepping.TryFrom | src/cpu.rs:128-144 | the pointer stays in the lookup |
| Stepping.TryFromIsRetry | src/cpu.rs:128-144 | the loop equals the same loop with the step taken as a parameter |
| Stepping.RetryFails | src/cpu.rs:128-144 | with a step that fails exactly when blocked and then keeps the state, the loop gives up exactly when every remaining attempt is blocked, restoring the DP, CC, stack and pointer |
| Stepping.StepOnConforms | src/cpu.rs:128-144 | the concrete step behaves as `RetryFails` needs at every attempt of the schedule |
| Stepping.AllBlockedIff | src/cpu.rs:128-144 | the recursive "all remaining attempts blocked" agrees with its quantified form |
| Stepping.ScheduleBlocksAll | src/cpu.rs:128-142 | if the eight attempts are all blocked, every DP/CC pair is blocked |
| Stepping.AllBlockSchedule | src/cpu.rs:128-142 | if every DP/CC pair is blocked, each of the eight attempts is |
| Stepping.ScheduleBlockedIff | src/cpu.rs:128-142 | all eight attempts are blocked exactly when every DP/CC pair is blocked |
| Stepping.RetryStepOn | src/cpu.rs:128-144 | the loop with the concrete step gives up exactly when every DP/CC pair is blocked |
| Stepping.TryStep | src/cpu.rs:128-144 | `try_step` as a function; stated by `TryStepFails` and `TryFromMovesOn` |
| Stepping.TryStepFails | src/cpu.rs:128-144 | `try_step` returns false exactly when all eight DP/CC pairs are blocked, and then the DP, CC, stack and pointer are as before |
| Stepping.TryFromMovesOn | src/cpu.rs:128-144 | a successful `try_step` leaves the pointer in a different block |
| Engine.Cpu.constructor | src/cpu.rs:99-115 | the initial state: empty stack, DP `Right`, CC `Left`, pointer (0, 0), no error, output or last command |
| Engine.Cpu.Execute | src/cpu.rs:197-368 | the method reaches the state `Semantics.Execute` computes, or returns its panic |
| Engine.Cpu.ExecuteNullary | src/cpu.rs:200-203 | NOP, PUSH, INPN and INPC as `Semantics.Execute` says |
| Engine.Cpu.ExecuteUnary | src/cpu.rs:263-270 | POP, NOT and DUP as `Semantics.Execute` says |
| Engine.Cpu.ExecuteOutput | src/cpu.rs:349-364 | OUTN and OUTC as `Semantics.Execute` says |
| Engine.Cpu.ExecutePointer | src/cpu.rs:279-286 | PTR as `Semantics.Execute` says, including its panic |
| Engine.Cpu.ExecuteSwitch | src/cpu.rs:287-294 | SWTCH as `Semantics.Execute` says; the CC stays `Left` or `Right` |
| Engine.Cpu.ExecuteBinary | src/cpu.rs:211-234 | ADD, SUB, MUL and GT as `Semantics.Execute` says |
| Engine.Cpu.ExecuteDiv | src/cpu.rs:235-248 | DIV as `Semantics.Execute` says, including the zero divisor |
| Engine.Cpu.ExecuteMod | src/cpu.rs:249-262 | MOD as `Semantics.Execute` says, including the zero divisor |
| Engine.Cpu.ExecuteRoll | src/cpu.rs:304-326 | ROLL as `Semantics.Execute` says, including the early return and the depth-0 panic |
| Engine.Cpu.RollTop | src/cpu.rs:315-325 | the drain, rotate and append leave `Rolled` of the old stack |
| Engine.Cpu.ExecuteBlk | src/cpu.rs:178-195 | the method reaches the state and result `Stepping.ExecuteBlk` computes, or its panic |
| Engine.Cpu.Step | src/cpu.rs:146-159 | the method reaches the state and result `Stepping.Step` computes, or its panic |
| Engine.Cpu.Enter | src/cpu.rs:161-171 | the end of `step` as `Stepping.Enter` says |
| Engine.Cpu.TryStep | src/cpu.rs:128-144 | the loop reaches the state and result `Stepping.TryStep` computes, or its panic |
| Engine.Cpu.Attempt | src/cpu.rs:129-142 | one pass of the loop body advances `Stepping.TryFrom` by one attempt, or finishes with its result |
| Engine.Cpu.Turn | src/cpu.rs:134-137 | the turn after a failure is `Stepping.AfterFailure` |

## Left out

- Image decoding (`Reader::open(...).decode()`) and the non-RGB8 image panic are not modelled. The segmenter takes the width, the height and a pixel function. The I/O error of `from_file` and the `panic!(e)` in `from_config` are left out with it.
- The command line, `main.rs`, `cmdconfig.rs` and the run loop in `interpreter.rs` are not part of this model.
- Reading standard input is replaced by the `InputLine` parameter. Trimming and integer parsing are abstracted into its `number` field.
- `get_info`, `count_codels` and the text of the error and output messages are not modelled. Errors are tags. Outputs are a number or a byte.
- Engine.Cpu.ExecuteBinary: does not model i32 overflow of `v1 + v2`, `v2 - v1` and `v1 * v2`, because stack values are unbounded integers. The same holds for `Semantics.Execute` and `Engine.Cpu.ExecuteNullary` (the PUSH cast of the block size).
- Directions.SwitchCodel: does not model the overflow of `-times` at `i32::MIN`. Directions.RotateDirection: does not model the overflow of `d + times`.
- Engine.Cpu.constructor: requires that (0, 0) is a sampled codel, which excludes an empty image. The `unwrap` on the current block in `step` is then never reached, because the pointer always stays in the lookup (`Engine.Cpu.Valid`, `Stepping.TryFrom`).
- Engine.Cpu.Step: requires a positive codel size. The source's `usize` codel size cannot be negative, and a zero size makes `step_by` panic.
- Segmentation.FromImage: requires a positive codel size, like `Segmentation.Segmentation`; `step_by(0)` at `src/blocks.rs:95` panics, and that panic is not modelled.
- StackLaws.PanicsExactly: does not list the i32 overflow panics. In Rust `i32::MIN / -1` (DIV) and `i32::MIN % -1` (MOD) panic; the model's stack values are unbounded, so StackLaws.DivisionEffect and StackLaws.ModuloEffect give the mathematical results there instead.
- ROLL's `rotate_left(-num_rolls)` arm is modelled as a rotation by 0. The roll count is never negative by then, so that arm only runs with 0.
- Blocks are sets of coordinates. Hash iteration order does not matter, because the edge choice is unique (`Stepping.ChooseCoord`).
