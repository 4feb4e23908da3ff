# reduce_challenge in Dafny

A model of `reduce_challenge`, the Powers-of-Tau tool that shrinks a
BLS12-381 challenge file from the power it was produced at (detected from the
file size) to a smaller target power.

A challenge file is a 64-byte hash followed by an accumulator of five point
sections:

- `tau_powers_g1`: `2·2^p − 1` G1 points;
- `tau_powers_g2`: `2^p` G2 points;
- `alpha_tau_powers_g1`: `2^p` G1 points;
- `beta_tau_powers_g1`: `2^p` G1 points;
- `beta_g2`: one G2 point.

The tool does three things:

1. It checks the target power against the ceiling 27.
2. It detects the current power by scanning the powers 10..=27 for an exact size match, then checks the target against the current power.
3. It streams the hash and the leading target-power points of each section into a new file, skipping the rest. Then it reads that file back and checks that every point decodes and is not the point at infinity.

Modules, one file each:

- `wrappers.dfy` (`Wrappers`): the `Option`, `Result` and `Outcome` types.
- `arithmetic.dfy` (`Arithmetic`): facts about products of naturals.
- `layout.dfy` (`Layout`): the layout formulas as functions of the power, with their monotonicity, injectivity and tiling.
- `power_detector.dfy` (`PowerDetector`): `detect_power_from_size`. The method is its loop; `DetectFrom` is the reference definition.
- `streams.dfy` (`Streams`): the input file as an immutable byte sequence with a read cursor (class `InputStream`). The output file as a growing byte sequence (class `OutputStream`). `stream_copy_points` and `skip_points` as loops over one reused point-sized buffer.
- `validator.dfy` (`Validator`): `verify_g1_points` / `verify_g2_points` as one method `VerifyPoints` over a point kind, and `verify_reduced_challenge`. Both are proved equal to the reference scans `CheckPoints` and `CheckChallenge`. The curve library is a `Codec` parameter: one decoder per point kind.
- `reducer.dfy` (`Reducer`): the checks of `main`, the header copy and the five copy-then-skip blocks, and the whole run with re-validation.
  - `ReducedImage` defines the expected output: the header, then the retained prefix of each section.

## Model

| member | source | states |
|---|---|---|
| Layout.TauG1Length | src/bin/reduce_challenge.rs:35-36 | `(tau << 1) - 1` lies between `tau` and `2·tau`. |
| Layout.Pow2Grows | src/bin/reduce_challenge.rs:143 | `1 << q` is at least twice `1 << p` for every `p < q`. |
| Layout.LayoutSizeClosedForm | src/bin/reduce_challenge.rs:146-150 | The predicted size plus one G1 width equals `tau·(4·W1 + W2) + W2`, for any widths. |
| Layout.LayoutSizeStrictlyIncreasing | src/bin/reduce_challenge.rs:146-150 | For any positive widths, the predicted accumulator size strictly increases with the power. |
| Layout.ExpectedSizeStrictlyIncreasing | src/bin/reduce_challenge.rs:146-150 | With the BLS12-381 widths, a larger power predicts a strictly larger accumulator. |
| Layout.ExpectedSizeInjective | src/bin/reduce_challenge.rs:146-152 | Two powers that predict the same size are equal, so a size match is unambiguous. |
| Layout.ExpectedSizeFitsWord | src/bin/reduce_challenge.rs:143-150 | For every power up to 27, `tau_g1` and the predicted size stay below 2^64, so no `usize` arithmetic wraps. |
| Layout.SectionsTileExpectedSize | src/bin/reduce_challenge.rs:88-129 | The five sections, laid end to end, cover exactly the predicted accumulator size. |
| Layout.SectionLengthMonotone | src/bin/reduce_challenge.rs:93-113 | Section counts and byte sizes do not decrease with the power, so every skip count is a natural number. |
| Layout.SectionInBounds | src/bin/reduce_challenge.rs:88-129 | Every section lies inside the accumulator of its power. |
| Layout.FileOffsetNext | src/bin/reduce_challenge.rs:88-129 | Section s ends exactly where section s + 1 begins: its count times its point width past its start. |
| PowerDetector.DetectFrom | src/bin/reduce_challenge.rs:142-157 | The scan from power p returns the first power in p..=27 whose predicted size matches. It returns None exactly when none matches. |
| PowerDetector.DetectExpectedSize | src/bin/reduce_challenge.rs:140-158 | Round trip: the accumulator size of any power in 10..=27 is detected as exactly that power. |
| PowerDetector.DetectPowerFromSize | src/bin/reduce_challenge.rs:140-158 | The loop returns the reference scan's result. That is a power in 10..=27 whose size matches, or None (the panic) exactly when no power matches. |
| Streams.InputStream.ReadExact | src/bin/reduce_challenge.rs:169 | Succeeds exactly when the buffer's length in bytes remains. It then fills the buffer with the next bytes and advances the cursor past them. On a short read it consumes the rest. |
| Streams.OutputStream.WriteAll | src/bin/reduce_challenge.rs:170 | Appends the whole buffer to what has been written. |
| Streams.StreamCopyPoints | src/bin/reduce_challenge.rs:160-174 | Succeeds exactly when `count·point_size` bytes remain. It then consumes exactly those bytes and appends them, unchanged and in order. On failure it has appended every whole point that was available. |
| Streams.SkipPoints | src/bin/reduce_challenge.rs:176-184 | Succeeds exactly when `count·point_size` bytes remain, and then advances the cursor by exactly that much. The output is not in its frame, so it is untouched. |
| Validator.CheckPointsPass | src/bin/reduce_challenge.rs:229-250 | The scan of a run passes exactly when each of the `count` fixed-width chunks is present, decodes, and is not the identity. |
| Validator.CheckPointsFirstFailure | src/bin/reduce_challenge.rs:233-246 | A reported error names the smallest failing index: every earlier point is accepted. The kind of error matches what the decoder said about that point. A truncation means the run ran out of bytes before a point ended. |
| Validator.CheckPointsWindow | src/bin/reduce_challenge.rs:233-235 | The scan depends only on the bytes of its own run. |
| Validator.VerifyPoints | src/bin/reduce_challenge.rs:229-273 | Both verify loops return the reference scan's result. After a failing point the reader stops just past it. On success it has consumed exactly `count` points. |
| Validator.CheckSectionsPass | src/bin/reduce_challenge.rs:205-219 | Sections s..4 pass exactly when each of them is valid. |
| Validator.CheckChallengePass | src/bin/reduce_challenge.rs:186-227 | The verification pass succeeds exactly on files that hold a header and five valid sections of the target power. |
| Validator.CheckChallengeFirstFailure | src/bin/reduce_challenge.rs:205-219 | A failing pass reports the error of one section, and every earlier section is valid: the scan is fail-fast across sections. |
| Validator.ChallengeValidSize | src/bin/reduce_challenge.rs:186-227 | A file that passes holds at least the header and the whole target-power accumulator. |
| Validator.CheckChallengeIgnoresTrailing | src/bin/reduce_challenge.rs:205-219 | Bytes after the target-power accumulator are never inspected. |
| Validator.CheckChallengeIgnoresHeader | src/bin/reduce_challenge.rs:197-199 | The contents of the 64-byte hash are read but never inspected. |
| Validator.VerifySection | src/bin/reduce_challenge.rs:206-219 | Starting at section s, checking it gives that section's reference result. On success the reader sits at the start of section s + 1. |
| Validator.VerifyReducedChallenge | src/bin/reduce_challenge.rs:186-227 | Reading the hash and then the five sections returns the reference result on the file's contents. |
| Reducer.PlanReduction | src/bin/reduce_challenge.rs:24-59 | The checks before any file is created, in main's order. TargetAboveMaximum exactly when the target exceeds 27. ShorterThanHeader exactly when the file is shorter than the hash. UnsupportedSize exactly when no power in 10..=27 predicts the file's size. On success, the current power is in range, matches the size, and is at least the target. |
| Reducer.PlanReductionAccepts | src/bin/reduce_challenge.rs:39-59 | Planning succeeds exactly when the file has the size of some power in 10..=27 that is not below the target. |
| Reducer.PlanReductionTargetAboveCurrent | src/bin/reduce_challenge.rs:56-59 | TargetAboveCurrent is reported exactly when the target is at most 27 and the file has the size of a smaller supported power. |
| Reducer.WrappedSizeUndetected | src/bin/reduce_challenge.rs:45-46 | Where `input_file_size - 64` wraps, a file shorter than 64 bytes gives a size that no power predicts, so it is rejected either way. |
| Reducer.CheckArguments | src/bin/reduce_challenge.rs:24-59 | The checks of main, run as statements with the detector's loop, agree with the plan. |
| Reducer.WrittenLength | src/bin/reduce_challenge.rs:83-129 | After the header and s section blocks, the output is as long as the offset of section s in a target-power file. |
| Reducer.ReducedImage | src/bin/reduce_challenge.rs:83-129 | Size law: the reduced file is exactly `64 + expected_size(target)` bytes long. |
| Reducer.ReducedImageHeader | src/bin/reduce_challenge.rs:83-86 | The reduced file starts with the input's 64-byte hash, unchanged. |
| Reducer.ReducedImageSection | src/bin/reduce_challenge.rs:88-129 | Prefix preservation: section s of the output equals the first target-power points of section s of the input, byte for byte. |
| Reducer.ReducedImageByte | src/bin/reduce_challenge.rs:88-129 | Each retained byte of each section is at its target-layout offset in the output, with the value it had at its current-layout offset in the input. |
| Reducer.ReducedImagePoint | src/bin/reduce_challenge.rs:88-129 | Each retained point j of each section is the same encoding in the output as in the input. |
| Reducer.ReducedImageIdentity | src/bin/reduce_challenge.rs:83-129 | Reducing to the current power reproduces the input byte for byte. |
| Reducer.ReducedChallengeValid | src/bin/reduce_challenge.rs:83-135 | Reducing a valid challenge gives a challenge that is valid at the target power. |
| Reducer.CopySection | src/bin/reduce_challenge.rs:88-96 | One copy-then-skip block succeeds exactly when the whole current-power section remains. The cursor then moves past it, and the output gains exactly its retained prefix. |
| Reducer.CopyNextSection | src/bin/reduce_challenge.rs:90-125 | Started at section s of the current-power layout, one block leaves the cursor at the start of section s + 1 and extends the output by one section. |
| Reducer.CopyChallenge | src/bin/reduce_challenge.rs:83-129 | For a file of the detected size, the hash copy and the five blocks all succeed, and the output is the reduced image. |
| Reducer.Reduce | src/bin/reduce_challenge.rs:24-131 | The outcome is the plan's. On every rejection no file is written. On success the file written is the reduced image. |
| Reducer.ReduceAndVerify | src/bin/reduce_challenge.rs:83-135 | The whole run. Rejections happen before any writing. After writing, the run passes exactly when the written file is a valid target-power challenge, and it reports the verifier's first error otherwise. A valid input always passes. |

## Left out

- Argument parsing, usage text, `println!`/`eprintln!` and exit codes (lines 13-30, 50-65, 133, 221-224): the target power is a parameter and every rejection is an error value.
- Opening files, `std::fs::metadata`, `BufReader`/`BufWriter` and `flush` (lines 39-41, 67-81, 131, 190-195): a file is its contents. The file size is the length of that sequence. The output file is the byte sequence `Reduce` returns, and `None` means no file was created.
- The failure of `create_new` when the output path already exists (lines 75-79) is not modelled, because the model has no file system. Likewise for any failure of `write_all` on the output: writing to the in-memory output always succeeds.
- Curve decoding (`into_affine`, `is_zero`) comes from the pairing library, whose code is not part of this model. It is the `Codec` parameter, and nothing is assumed about it. The point widths 96 and 192 are that library's constants.
- `read_exact` on a short read: the model says it consumes the rest of the input and stores it at the front of the buffer. The standard library leaves the buffer contents unspecified; no property here depends on them.
- Integer width: counts and sizes are unbounded naturals. `Layout.ExpectedSizeFitsWord` shows that for powers up to 27 nothing computed by the detector or the section sequence reaches 2^64.
- `input_file_size - 64` with a file shorter than 64 bytes is an arithmetic panic in a debug build. The model reports it as `ShorterThanHeader`. `Reducer.WrappedSizeUndetected` covers the wrapped value of a release build.
- Reducer.Reduce: the `TruncatedInput` result of a failing `?` on a read during the copy is unreachable. The size check before the copy guarantees every read succeeds, and `CopyChallenge` proves it.
- Error values carry the point kind (G1 or G2) and the zero-based index within the section, as the code's messages do, but not the section's name, which the code does not report either. `Validator.CheckChallengeFirstFailure` identifies the section in the proof.
