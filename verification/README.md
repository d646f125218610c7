# Tiny Tapeout side-channel toolkit: a verified model of its pure core

This project is a Dafny model of the pure logic in the side-channel analysis
toolkit for three chi designs on a Tiny Tapeout board. It covers:

- the dataset pipeline of the analysis library:
  - `load_traces` is a chunked ingester. It skips malformed trace batches by
    their 19-character key, buffers the accepted batches and flushes
    contiguous slices of the store.
  - `load_inputs` reloads the metadata batches, dropping the skipped keys.
  - `load_data_traces` is the older paired loader.
  - The row transforms: `clean_traces`, `traces_from_zero_to_not_zero`,
    `traces_from_not_zero_to_zero` and `deriv`.
  - The partition statistics: `DoM` and `definition_h0_h1`.
  - The bit utilities: `HW` and `HD`.
- the input encoder of the acquisition script: `bitfield` and `arrange_input`.
- the byte frames of the serial driver: the bytes `set_project` and
  `set_input` write, and the decoding in `read_output`.

Files are abstracted away. A listing is a sequence of records already in
`sorted()` order: `TraceFile(name, block)` and `DataFile(name, block)`. For
the paired loader it is a `Capture`. A trace is a `Row` (`seq<real>`), and a
metadata record is `Meta(input, output)`. The zarr store is a sequence of
`num_traces` rows, initially zero (zarr's fill value), and writes are applied
to it as slice assignments.

Modules, in dependency order:

- `Wrappers`: `Option` and `Result`.
- `PyText`: Python semantics the code relies on:
  - negative-start slicing `s[len(s)-19:]`;
  - `bin(n)[2:]`, including the stray `'b'` it leaves for negative n;
  - `str`;
  - `rjust`.
- `Rows`: shared sequence vocabulary: concatenation, picking positions, and
  the ordered positions a selection keeps.
- `TraceStore`: `load_traces` as a fold (`Walk`) producing a `Plan`, which is
  the in-loop flushes, the final flush and the skip list. The plan is then
  applied to the store.
- `InputLoader`: `load_inputs`, and the row alignment between both loaders.
- `PairedLoader`: `load_data_traces`.
- `Preprocess`: `clean_traces` (a method with a loop), the two transition
  filters, and `deriv`.
- `Leakage`: `DoM` and `definition_h0_h1`.
- `Hamming`: `HW` and `HD`.
- `Acquisition`: `bitfield` and `arrange_input`.
- `Serial`: the `set_project`, `set_input` and `read_output` frames.

What the ingester does, as the code is written:

- The flush threshold is `traces_per_file*25`, which is also the zarr chunk
  height.
- An in-loop flush writes the whole buffer, so for any threshold a write
  holds at least the threshold's worth of rows and can hold more; writes do
  not follow chunk boundaries. `TraceStore.FlushScenario` shows this on
  batches of 10, 0, 20 and 5 rows: one write of 30 rows, then 5.
- The skip list is a list in listing order, not a set: a repeated key is
  recorded once per rejected file.
- Rows past the last write keep the store's fill value (zero).
- `load_inputs` drops a metadata file whenever its key is on the skip list.
  When a rejected trace file and an accepted one share a key, the accepted
  file's metadata is dropped too, and the two datasets no longer line up
  (`InputLoader.SharedKeyDropsAcceptedFile`). The alignment result
  `InputLoader.InputsAlignWithTraces` therefore assumes that no key repeats.
- A write reaching past `num_traces` is an error (`SliceOutOfBounds`). It is
  not a precondition, because zarr rejects such an assignment.

## Model

| member | source | states |
|---|---|---|
| TraceStore.Key | TT02_functions_for_analysis_library.py:126 | The key is always a suffix of the name, and for a name of at least 19 characters it is the last 19. |
| TraceStore.ShortKey | TT02_functions_for_analysis_library.py:126 | A name shorter than 19 characters follows Python's negative slicing: from 10 to 18 characters the key is the last 19 − len characters, and below 10 it is the whole name. |
| TraceStore.PlanIngest | TT02_functions_for_analysis_library.py:107-142 | The skip list is the keys of the rejected files in listing order. Every in-loop flush holds at least `traces_per_file*25` rows, and never zero rows. A final write exists exactly when the flushes stop short of the accepted row total, and it then holds between 1 and threshold−1 rows. The writes are contiguous from row 0. Their rows concatenate to the accepted batches in order, and they end at the accepted row total. |
| TraceStore.WalkKeepsInv | TT02_functions_for_analysis_library.py:121-138 | The loop invariant holds after every file. Flushed rows followed by buffered rows are the accepted batches so far. `start` is where the flushes end, `current_count` is the buffer's size and stays below the threshold, and the skip list is the keys rejected so far. |
| TraceStore.ApplyContiguous | TT02_functions_for_analysis_library.py:133-142 | Applying contiguous writes to a store succeeds exactly when they end within it. The store then keeps its length, its prefix holds the written rows, and the rows after the writes are untouched. |
| TraceStore.LoadTraces | TT02_functions_for_analysis_library.py:107-144 | `load_traces` fails exactly when the accepted batches hold more rows than `num_traces`. Otherwise the store has `num_traces` rows, starts with the accepted batches concatenated in order, and is zero past them, and the returned skip list is the keys of the rejected files. |
| TraceStore.FlushScenario | TT02_functions_for_analysis_library.py:125-142 | Batches of 10, 0, 20 and 5 rows at threshold 25 give one flush of 30 rows at row 0 and a final write of 5 rows at row 30. The empty batch's key is skipped. |
| InputLoader.RemainingIsFilter | TT02_functions_for_analysis_library.py:152-158 | The files `load_inputs` keeps are exactly those whose key is not on the skip list. They are taken at increasing positions, in listing order, and none is missed. |
| InputLoader.RemainingEmpty | TT02_functions_for_analysis_library.py:152-158 | No data file remains exactly when every data file's key is on the skip list. |
| InputLoader.LoadInputs | TT02_functions_for_analysis_library.py:147-159 | `load_inputs` fails (empty concatenation) exactly when every key is skipped. Otherwise it returns the blocks of the non-skipped files concatenated in listing order. |
| InputLoader.RejectedKeysMembers | TT02_functions_for_analysis_library.py:125-127 | A key is on the skip list exactly when some rejected trace file carries it. |
| InputLoader.InputsAlignWithTraces | TT02_functions_for_analysis_library.py:125-158 | Suppose the data listing carries the trace listing's keys position by position, with no key repeated. Then the metadata blocks `load_inputs` keeps are exactly those paired with the accepted trace batches, in the same order. |
| InputLoader.AlignBlocks | TT02_functions_for_analysis_library.py:125-158 | Suppose a metadata file is kept exactly when the trace file at its position is accepted. Then the kept blocks are exactly the blocks paired with accepted trace files, in order. |
| InputLoader.SharedKeyDropsAcceptedFile | TT02_functions_for_analysis_library.py:125-154 | Suppose a rejected trace file shares its key with the metadata file paired with an accepted one. Then `load_inputs` drops that metadata file, even though its trace batch was stored. |
| InputLoader.InputRowsMatchStoredRows | TT02_functions_for_analysis_library.py:130-159 | Suppose also that each data block has as many rows as its trace batch. Then `load_inputs` fails exactly when no trace row was accepted, and otherwise returns as many metadata rows as `load_traces` stored. |
| PairedLoader.Kept | TT02_functions_for_analysis_library.py:94-102 | Every kept capture comes from the listing, has a non-empty trace batch, and has the given width. |
| PairedLoader.KeptIsFilter | TT02_functions_for_analysis_library.py:94-102 | The kept captures are exactly those with a non-empty trace batch of the given width. They are taken at increasing positions, in listing order, and none is missed. |
| PairedLoader.Gather | TT02_functions_for_analysis_library.py:87-102 | The loop fails exactly when some metadata file has no matching trace file, and only with that error. Once started, it stays started. |
| PairedLoader.LoadDataTraces | TT02_functions_for_analysis_library.py:84-104 | A missing trace file is reported exactly when some capture lacks one. Nothing loads exactly when every batch is empty. Otherwise the traces and metadata are those of the captures whose batch is non-empty and as wide as the first non-empty batch, concatenated in listing order. |
| PairedLoader.GatherFromSome | TT02_functions_for_analysis_library.py:99-102 | After the first batch is taken, the loop appends exactly the kept captures' traces and metadata. |
| PairedLoader.LoadDataTracesAligned | TT02_functions_for_analysis_library.py:96-102 | When every capture's metadata has as many rows as its traces, the loaded traces and metadata have equal lengths. |
| Preprocess.KeptIdx | TT02_functions_for_analysis_library.py:163-168 | The kept positions start at 0, increase, and stay in range. Position i+1 is kept exactly when trace i+1 differs from trace i. |
| Preprocess.CleanTraces | TT02_functions_for_analysis_library.py:162-169 | `clean_traces` fails exactly when the traces are empty or some kept position has no metadata record, and it reports which of the two happened. Otherwise it returns the traces and the metadata at the same kept positions, which pairs them in order. Row 0 is kept, and no two adjacent output traces are equal. |
| Preprocess.KeptHasNoAdjacentRepeats | TT02_functions_for_analysis_library.py:165-168 | No two consecutive traces kept by `clean_traces` are equal. |
| Preprocess.FromZeroToNotZero | TT02_functions_for_analysis_library.py:175-182 | Keeps, in order and paired, exactly the rows whose input sums above zero. Every kept metadata record has a positive input sum. |
| Preprocess.FromNotZeroToZero | TT02_functions_for_analysis_library.py:188-195 | Keeps, in order and paired, exactly the rows whose input sums to zero. Every kept metadata record has a zero input sum. |
| Preprocess.TransitionFiltersPartition | TT02_functions_for_analysis_library.py:175-195 | For non-negative inputs every row goes to exactly one of the two filters, and their output sizes add up to the input size. |
| Preprocess.Deriv | TT02_functions_for_analysis_library.py:198-203 | `deriv` on N rows returns max(N−1, 0) rows. Row i is `traces[i+1] − traces[i]` elementwise and keeps the width. The metadata is `data[1:]`. |
| Preprocess.DerivInverse | TT02_functions_for_analysis_library.py:198-201 | Summing the differences back from the first trace rebuilds the traces: the derivative loses nothing but the first row. |
| Preprocess.DerivKeepsPairs | TT02_functions_for_analysis_library.py:198-203 | With as many metadata records as traces, `deriv` returns as many records as differences. |
| Leakage.SplitBy | TT02_functions_for_analysis_library.py:209-213 | The selected traces go to set 1 and the others to set 0, each in order. |
| Leakage.DoM | TT02_functions_for_analysis_library.py:206-215 | The two sets are the traces whose input is, or is not, selected, in order. They are non-empty, cover the records between them, and keep the trace width. `diff[j]` is the column-j mean of set 1 minus that of set 0. |
| Leakage.DefinitionH0H1 | TT02_functions_for_analysis_library.py:230-238 | `h1` is the selected traces and `h0` the others, both in order, and together they hold every trace. |
| Leakage.DoMAndH0H1Agree | TT02_functions_for_analysis_library.py:230-238 | With as many records as traces, `DoM` and `definition_h0_h1` form the same two groups. |
| Leakage.DoMOfIdenticalTracesIsZero | TT02_functions_for_analysis_library.py:214 | When all traces are equal, the difference of means is zero in every column, whatever the selection. |
| Leakage.DoMOfTwoLevels | TT02_functions_for_analysis_library.py:206-215 | When selected traces all equal c1 and the others all equal c0, `diff` is exactly c1 − c0. |
| Leakage.DoMScenario | TT02_functions_for_analysis_library.py:206-215 | Two [1,1] captures with the first bit clear and two [5,5] captures with it set give a difference of means of [4,4]. |
| Hamming.HW | TT02_functions_for_analysis_library.py:245-249 | `HW` errors exactly when some element exceeds 1. On a bit string it returns the number of ones, which lies between 0 and the length. |
| Hamming.HD | TT02_functions_for_analysis_library.py:252-260 | `HD` reports a length mismatch exactly when the lengths differ. Otherwise it reports a non-bit input exactly when some element exceeds 1. On two equal-length bit strings it counts the positions where they differ. |
| Hamming.ParitiesOfBitsCountMismatches | TT02_functions_for_analysis_library.py:257-260 | For bit strings, the sum of `(a[i]+b[i])%2` is the number of differing positions. |
| Hamming.HDSymmetric | TT02_functions_for_analysis_library.py:252-260 | `HD(a, b) == HD(b, a)` for all inputs, errors included. |
| Hamming.HDSelfIsZero | TT02_functions_for_analysis_library.py:252-260 | The distance from a string with no element above 1 to itself is 0. |
| Hamming.HDToZerosIsHW | TT02_functions_for_analysis_library.py:245-260 | The distance from a bit string to all zeros is its Hamming weight. |
| Hamming.NegativeElementsPassTheGuard | TT02_functions_for_analysis_library.py:245-256 | The guard tests only `> 1`, so a negative element is not rejected: `HW([-1])` is −1 and `HD([-1],[0])` is 1. |
| PyText.BinBody | TT02_traces_acquisition.py:28 | `bin(n)[2:]` is the binary digits of n for n ≥ 0. For negative n it is `'b'` followed by the digits of −n. |
| Acquisition.Bitfield | TT02_traces_acquisition.py:27-28 | Only 0/1 values. `bitfield(0)` is `[0]`, and for n > 0 the first bit is 1. |
| Acquisition.BitfieldRoundTrip | TT02_traces_acquisition.py:27-28 | Reading `bitfield(n)` most significant bit first gives back n. |
| Acquisition.BitfieldLength | TT02_traces_acquisition.py:28 | `bitfield(n)` has `n.bit_length()` entries for n > 0, and one entry for 0. |
| Acquisition.BitfieldFits | TT02_traces_acquisition.py:28 | `bitfield(n)` has at most k ≥ 1 entries exactly when n < 2^k. |
| Acquisition.BitfieldOfNegative | TT02_traces_acquisition.py:28 | For n < 0 the stray `'b'` becomes a leading 0: `bitfield(n) == [0] + bitfield(-n)`. |
| Acquisition.ArrangeInput | TT02_traces_acquisition.py:38-47 | No vector exactly when p is outside 0..2. Otherwise: the project's zero prefix (1, 4 or no zeros), then the bits of i least significant first, then zeros. The length is max(8, prefix + bits), so nothing is truncated. |
| Acquisition.ArrangeInputRoundTrip | TT02_traces_acquisition.py:38-47 | For a valid project, reading the vector after the prefix least significant bit first gives back i. |
| Acquisition.ArrangeInputIsEightWide | TT02_traces_acquisition.py:46 | When i fits in the 8 − prefix places left after the prefix, the vector has exactly 8 entries. |
| Acquisition.ScriptRangesAreEightWide | TT02_traces_acquisition.py:129-150 | For the input ranges the acquisition script uses (i < 128, 16 and 256 for projects 0, 1 and 2), the vector has exactly 8 entries. |
| Acquisition.ZeroInputIsAllZeros | TT02_traces_acquisition.py:146-147 | `arrange_input(0, p)` is eight zeros for every valid project. |
| PyText.Rjust | TTSerial.py:20 | `rjust` never truncates: the result is as long as the longer of the string and the width, ends with the string, and is padded in front with the fill character. |
| Serial.ProjectFrame | TTSerial.py:18-20 | Byte 0x01, then at least nine payload bytes. For a non-negative id every payload byte is ASCII '0' or '1'. |
| Serial.ProjectFrameRoundTrip | TTSerial.py:18-20 | Reading the `set_project` payload as binary gives back the project id. |
| Serial.ProjectFrameLength | TTSerial.py:20 | The payload has max(9, `bit_length(id)`) digits. The frame is exactly ten bytes when the id is below 512, and only then. |
| Serial.JoinDigits | TTSerial.py:24 | For elements 0..9, `"".join(str(n) ...)` has one character per element, with code 48 + the element. |
| Serial.InputFrame | TTSerial.py:22-24 | Byte 0x02, then, for elements 0..9, one byte per element equal to 48 + the element. |
| Serial.ReadOutput | TTSerial.py:26-32 | The request is the single command byte 0x03. At most 8 values come back: one per received byte, each the byte minus 48. |
| Serial.FramesAreTaggedByCommand | TTSerial.py:18-27 | The three frames start with three different command bytes, so the board can tell them apart. The `read_output` request is that byte alone, while a `set_project` frame always carries a payload. |
| Serial.InputFrameRoundTrip | TTSerial.py:24-32 | Decoding a `set_input` payload of up to eight digits with the `read_output` rule gives back the input list. |

## Left out

- File system access: `glob`, `sorted`, `np.load`, `np.save` and `join`. The model receives listings already in sorted order, with their contents.
- The zarr store's chunk shape and dtype metadata, and the `float32` cast on writes. Samples are mathematical reals.
- `tvla_1_Order`: its `sqrt`, its division and its NaN/inf results are floating-point numerics.
- Plotting (`show_many_figs`) and the bokeh imports.
- Progress printing in `load_data_traces` and `load_traces`, and the status line `load_traces` prints.
- The acquisition script's oscilloscope session, `capture_trace`, `acqTrace` and the main loop. They are instrument I/O, timing, timestamps and randomness.
- The serial port object, the `time.sleep` calls, the echo `print` in `read_output`, and `do_test`.
- Serial.ReadOutput: the port is opened without a timeout, so `ser.read(8)` blocks until eight bytes arrive and the source never returns a shorter list. An `incoming` shorter than eight bytes stands for a port opened with a timeout.
- TraceStore.LoadTraces: as in the source, only the first row of a batch is checked against `trace_len`. Batches are taken to be rectangular, as `np.load` returns them; a ragged batch, which zarr would refuse to write, is not modelled.
- Leakage.DoM: an empty group, which numpy turns into a NaN mean, is excluded by a precondition. So are more records than traces (an `IndexError` in the source) and traces of unequal width.
- Leakage.DefinitionH0H1: more traces than records raises `IndexError` in the source and is excluded by a precondition.
- Preprocess.CleanTraces: numpy compares rows of unequal width by broadcasting (`[5.0]` against `[5.0, 5.0]` counts as equal). A precondition that all traces have the same width excludes that case. The empty input and a kept position with no metadata record, both `IndexError` in the source, are modelled as errors.
- Preprocess.FromZeroToNotZero: more traces than records is excluded by a precondition, where the source raises `IndexError`.
- Preprocess.FromNotZeroToZero: more traces than records is excluded by a precondition, where the source raises `IndexError`.
- Preprocess.Deriv: rows of unequal width are excluded by a precondition. numpy broadcasts a width-1 row against a wider one (`[5.0] - [1.0, 2.0]` is `[4.0, 3.0]`) and raises for other unequal widths; the rows of a 2-D trace array never differ in width.
- Hamming.HW: the source prints an error and returns `None`; the model returns a `Failure` value instead.
- Hamming.HD: as for Hamming.HW, a printed error returning `None` becomes a `Failure` value.
- Acquisition.ArrangeInput: the source prints "no correct project" and returns `None`; the model returns `None` without the message.
- PairedLoader.LoadDataTraces: `file_traces[0]` on an empty match and an unbound `traces` are modelled as the errors `MissingTraceFile` and `NothingLoaded`. `np.array(traces)` is the identity on the modelled rows.
