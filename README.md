# Frame-address structures and bitstream readers

A model of the core of PythonBitstreamManipulation, a set of tools that read
the configuration data of Xilinx FPGAs (series 5, 6, 7 and UltraScale,
called series 8 here) and compare it frame by frame.

- `FradStructure` holds the configuration frames of one device. It is a
  five-level list: types hold top/bottom halves, halves hold rows, rows hold
  columns, and columns hold minors. Each minor is a frame, a list of 32-bit
  words. The structure is built from a file of frame addresses (`load_frads`).
  A cursor (type, half, row, column, minor) moves through it in step order.
  The cursor is composed into a frame address (a "frad") and decoded from one
  with the masks and shifts of the series.
- `BinParser` and `BitParser` fill a structure from binary files (`.bit`,
  `.bin`, `.msk`, `.rbb`, `.data`). Each searches for the sync word
  `0xAA995566` and a Type-2 packet header. Each then reads frames of
  `wordsPerFrame` words from address 0. Some formats drop a pad frame and
  two dummy frames at every change of type, half or row.
- `AsciiParser` and `EssentialBitParser` do the same for the text formats
  (`.rbt`, `.rba`, `.rbd`, `.msd`, `.ebd`), where each line holds one word
  written as 32 '0'/'1' characters.
- `FrameOperations` walks two structures in step together and reports every
  differing bit as an upset (frame address, word, bit). It can drop upsets
  under a mask structure or keep only those on an essential bit.

The model is in Dafny. Addresses and words are unbounded naturals, and the
bitwise operators of the source are written out on them (`Bits`, `Packing`).
A file is a sequence of bytes or of lines. Where the source raises
(`IndexError`, `ValueError`, `NameError`, `ord` of an empty read), the model
returns `None` or `false`, and whatever the source had already stored by then
is modelled as staying stored. A few raises are instead excluded by a
precondition; "## Left out" lists them. The classes `FradStructure` and `FrameOperations`
are Dafny classes whose methods update their fields. Each method is proved
against pure functions (the cursor's `Next`/`Prev`, `LoadLines`, `Written`,
`Extracted`, `LineFrames`, `EbdRun`, `UpsetsOf`), and the properties are
proved about those functions.

Modules, in dependency order:
- `Wrappers` and `Bits`: `Option`, and bitwise operations on naturals.
- `Packing`: bit fields.
- `Series`: the per-series configuration.
- `Layouts` and `Codec`: address decoding and composing.
- `Cursor`: step order.
- `Nested`: the five-level store.
- `Loading`: `load_frads` as a fold.
- `LoadedShape`: the structure `load_frads` builds from an address file in order.
- `Rows`: row moves.
- `Filling`: `append_word` and `step_forward` on values.
- `Frads`: the `FradStructure` class.
- `Streams` and `Extraction`: the binary formats on values.
- `BinParsing` and `BitParsing`: the binary readers.
- `Ascii`, `AsciiRuns` and `AsciiParsing`: the text readers.
- `Upsets`: the comparisons on values.
- `Operations`: the `FrameOperations` class.
- `EssentialBitParsing`: the `.ebd` reader.

## Model

| member | source | states |
|---|---|---|
| Series.WordsPerFrame | FradStructure.py:88-97 | every series 5 to 9 has a positive frame size (41, 81, 101, 123, 93) |
| Series.Config | FradStructure.py:52-97 | the configuration belongs to its series, has that series' frame size, and has a top/bottom field exactly when the series is not 8 |
| Series.MasksMatchSource | FradStructure.py:24-41 | the field of every series, read back as a mask and a shift, is the source's hexadecimal constant (0xE00000 >> 21 … 0x7F >> 0, no top/bottom mask for series 8) |
| Packing.Extract | FradStructure.py:127-130 | `(x & mask) >> shift` is the field's value, below 2^width |
| Packing.MaskedField | FradStructure.py:127-130 | ANDing with a field's mask and shifting down gives the quotient-and-remainder value of the field |
| Packing.OrAllStacked | FradStructure.py:237-244 | ORing values placed in non-overlapping fields is adding them |
| Codec.FieldsStacked | FradStructure.py:24-41 | for every series the five fields lie from the type down to the minor without overlapping |
| Codec.MasksDisjoint | FradStructure.py:24-41 | the five masks of every series are pairwise disjoint |
| Codec.UnionOfMasks | FradStructure.py:315-323 | the union of the five masks is 2^24 − 1 for series 5/6 and 2^26 − 1 for series 7/8 |
| Codec.ExtraneousBitsIff | FradStructure.py:321-323 | the extraneous-bits test `frad & ~(all masks)` holds exactly when the address is at least 2^24 (series 5/6) or 2^26 (series 7/8) |
| Codec.ColumnTwiceIsOnce | FradStructure.py:237-244 | ORing the column term in a second time, as `get_current_frad` does, changes nothing |
| Codec.ComposeIsSum | FradStructure.py:237-244 | with every index inside its field, the composed address is the sum of the placed indices |
| Codec.DecodeCompose | FradStructure.py:237-244 | decoding a composed address gives back every index that fits its field (round trip from indices) |
| Codec.ComposeDecode | FradStructure.py:315-329 | an address without extraneous bits decodes to indices that fit, and composing them gives back the address (round trip from addresses) |
| Codec.DecodeSum56 | FradStructure.py:127-130 | the series 5/6 layout decodes a sum of placed indices to those indices |
| Codec.DecodeSum7 | FradStructure.py:127-130 | the same for series 7 |
| Codec.DecodeSum8 | FradStructure.py:127-130 | the same for series 8, whose top/bottom is always 0 |
| Codec.DecodeZero | FradStructure.py:315-329 | address 0 has no extraneous bits and decodes to the origin |
| Layouts.Join56 | FradStructure.py:24-41 | every address below 2^24 is the sum of its series 5/6 fields |
| Layouts.Join7 | FradStructure.py:24-41 | every address below 2^26 is the sum of its series 7 fields |
| Layouts.Join8 | FradStructure.py:24-41 | every address below 2^26 is the sum of its series 8 fields |
| Cursor.Prev | FradStructure.py:504-558 | `step_backward` keeps the path to a column existing, and it leads to a valid cursor from a valid one |
| Cursor.Last | FradStructure.py:504-558 | the last frame of a well-formed structure is a valid cursor |
| Cursor.RankBound | FradStructure.py:277-292 | every cursor that `check_location` accepts has a step-order rank below the number of frames |
| Cursor.RankInjective | FradStructure.py:277-292 | two valid cursors with the same rank are equal |
| Cursor.OriginValid | FradStructure.py:315-329 | the origin is valid in every well-formed structure and has rank 0 |
| Cursor.NextValid | FradStructure.py:452-502 | `step_forward` from any cursor whose path exists leads to a valid cursor |
| Cursor.RankNext | FradStructure.py:452-502 | `step_forward` moves a valid cursor one rank on, and from the last frame it wraps to the origin |
| Cursor.RankPrev | FradStructure.py:504-558 | `step_backward` moves a valid cursor one rank back, and from the origin it wraps to the last frame |
| Cursor.PrevNext | FradStructure.py:452-558 | `step_backward` undoes `step_forward` |
| Cursor.NextPrev | FradStructure.py:452-558 | `step_forward` undoes `step_backward` |
| Cursor.Wraparound | FradStructure.py:452-558 | stepping from the last frame gives the origin, and stepping back from the origin gives the last frame |
| Cursor.RankNextN | FradStructure.py:452-502 | forward steps that do not reach the end advance the rank one per step |
| Cursor.NextNAdd | FradStructure.py:452-502 | a + b forward steps are a steps then b steps |
| Cursor.StepsReturn | FradStructure.py:452-502 | after as many forward steps as there are frames, the cursor is back where it started |
| Nested.ShapeLengths | FradStructure.py:277-292 | the shape of the store holds the lengths of its lists at every level |
| Nested.ValidInStore | FradStructure.py:277-292 | a valid cursor indexes existing lists in the store |
| Nested.SetFrame | FradStructure.py:162-168 | replacing the frame at a cursor keeps the shape of the store and changes that frame only |
| Nested.AddFrameFrames | FradStructure.py:150-160 | appending an empty frame adds one frame, to its own type; the other `Add*Frames` lemmas show that opening a list adds none |
| Loading.Slice | FradStructure.py:116-117 | `line[4:12]` with Python's clamping of bounds to the length |
| Loading.HexValue | FradStructure.py:117 | the digits of `int(s, 16)`: a value exactly for a non-empty string of hexadecimal digits, below 16^n for n digits |
| Loading.ParseHex | FradStructure.py:117 | whatever `int(s, 16)` reads from n characters lies strictly between −16^n and 16^n |
| Loading.ParseWritten | FradStructure.py:117 | a written address in every form `int(s, 16)` accepts is read back as its number: hexadecimal digits with whitespace around them, an optional sign followed by optional whitespace, and an optional `0x`/`0X` before the digits; a '-' negates |
| Loading.ParseDigits | FradStructure.py:117 | the same for any hexadecimal digits in either case: the form is accepted and read as the digits' value, negated after a '-' |
| Loading.ParseAccepted | FradStructure.py:117 | conversely, every string `int(s, 16)` accepts has that form (`WrittenAs`), and its value is its digits' value with the sign; with `ParseDigits` this gives exactly the accepted strings |
| Loading.ParseFormat | FradStructure.py:116-117 | an address written as eight hexadecimal digits is read back as itself |
| Loading.AddressBits | FradStructure.py:126-130 | the bits `&` sees in a parsed address: the address itself when it is not negative, otherwise its 32-bit two's-complement pattern, which is all the masks can see |
| Loading.LoadLinesStep | FradStructure.py:112-160 | the fold of `load_frads` over one more line is one more `LoadLine` |
| Loading.LoadStops | FradStructure.py:112-160 | once a line has raised, the later lines change nothing |
| Loading.InsertCounted | FradStructure.py:132-160 | filing a non-dummy address keeps `numFrads` and the per-type counters equal to the frames of the store, and leaves the address list alone |
| Loading.LoadLineCounted | FradStructure.py:112-160 | after each line the counters still count the frames of the store; a line that raises leaves them as they were |
| Loading.LoadLinesCounted | FradStructure.py:99-160 | after the whole load, `numFrads` and the per-type counters count the frames of the store |
| Loading.LoadRecordsAddresses | FradStructure.py:112-125 | a load that raises nowhere records the address of every non-empty line in order, the dummy address included, and every non-empty line held a hexadecimal address |
| LoadedShape.InsertFollows | FradStructure.py:132-149 | filing the address that follows the last one filed (next minor, or minor 0 of the next column, row, half or type) raises nowhere, keeps the store well formed with the new address as its last frame, and keeps every earlier valid cursor valid |
| LoadedShape.LoadBuilds | FradStructure.py:112-149 | over a file whose addresses follow one another that way from the origin, every line goes through and every address filed so far is valid |
| LoadedShape.LoadSortedWellFormed | FradStructure.py:99-149 | `load_frads` on a file whose addresses come in order with the indices at each level counting from 0 without gaps raises nowhere, builds a well-formed structure, records every address, and every recorded address but the dummy one decodes to a cursor that `check_location` accepts |
| Loading.ShapeCounted | FradStructure.py:150-160 | the counters depend on the shape only, so filling frames with words keeps them right |
| Rows.RowMoveStays | FradStructure.py:333-397 | a row move changes only the half and the row, and lands on an existing row |
| Rows.RowDownUndoesUp | FradStructure.py:333-397 | `move_row_down` undoes `move_row_up` |
| Rows.RowUpUndoesDown | FradStructure.py:333-397 | `move_row_up` undoes `move_row_down` when the half it moves to exists |
| Rows.RowUpAsWrittenNeverMoves | FradStructure.py:333-364 | as written, every call of `move_row_up` raises `NameError`, although the intended move exists |
| Rows.RowDownAsWrittenDiffers | FradStructure.py:366-397 | as written, `move_row_down` agrees with the intended move where it does not raise, and raises from the bottom half of series 6 and 7 where the intended move exists |
| Filling.PutFrame | FradStructure.py:162-168 | `append_word` puts the word at the end of the current frame and changes nothing else |
| Filling.PutAllFrame | FradStructure.py:162-168 | several `append_word` calls put their words, in order, at the end of the current frame only |
| Filling.WrittenPut | FradStructure.py:162-168 | one more word extends the unfinished frame |
| Filling.WrittenStep | FradStructure.py:452-502 | a step closes the unfinished frame |
| Filling.WriteFramesSteps | FradStructure.py:452-502 | each frame written is one step of the cursor |
| Filling.WriteFramesPlaced | FradStructure.py:162-168 | frames written from address 0 land in step order: frame k goes to the frame of rank k, and no frame of the store gets two |
| Frads.FradStructure.constructor | FradStructure.py:9-97 | a new structure is empty, its counters are 0, its cursor is at the origin, and its configuration is that of the series |
| Frads.FradStructure.LoadFrads | FradStructure.py:99-160 | the store, address list and counters become those of the `LoadLines` fold, and `ok` is false exactly when a line raised |
| Frads.FradStructure.LoadLine | FradStructure.py:112-160 | one pass of the loop is one `LoadLine` of the fold |
| Frads.FradStructure.Insert | FradStructure.py:132-149 | filing an address opens the lists the fold opens and appends one empty frame |
| Frads.FradStructure.CountFrame | FradStructure.py:150-160 | `numFrads` and the counter of the frame's type go up by one |
| Frads.FradStructure.AppendWord | FradStructure.py:162-168 | the word goes at the end of the current frame; no other frame and no length changes |
| Frads.FradStructure.GetWordFromCurrentFrad | FradStructure.py:170-180 | `None` for a word index past the frame size; otherwise the word at that index of the current frame, or a raise (`ok` false) exactly when the cursor is outside the structure or the frame holds fewer words |
| Frads.FradStructure.CheckLocation | FradStructure.py:277-292 | 0 exactly when every index is below the length of its list, otherwise -1 |
| Frads.FradStructure.GetWordFromFrad | FradStructure.py:182-202 | -1 for an address outside the structure, -2 for a word index past the frame size, otherwise the word, or a raise (`ok` false) exactly when the frame holds fewer words; the cursor does not move |
| Frads.FradStructure.GetFrameData | FradStructure.py:204-220 | the frame at an address, or `None` (the source's -1, `FRAD_OUT_OF_BOUNDS`, after a printed message) for an address outside the structure |
| Frads.FradStructure.GetCurrentFrameData | FradStructure.py:222-227 | the frame at the cursor |
| Frads.FradStructure.GetNumFrads | FradStructure.py:229-234 | the number of frames in the store |
| Frads.FradStructure.GetCurrentFrad | FradStructure.py:237-244 | the composed address of the cursor, which decodes back to the cursor |
| Frads.FradStructure.SetCurrentLocation | FradStructure.py:294-313 | the cursor moves to the target (0) exactly when the target is valid, and stays put otherwise (-1) |
| Frads.FradStructure.SetCurrentFrad | FradStructure.py:315-329 | an address with extraneous bits or outside the structure is refused (-1); otherwise it becomes the cursor (0), and `get_current_frad` then gives it back |
| Frads.FradStructure.MoveRowUp | FradStructure.py:333-364 | the cursor moves to `Rows.RowUp`, or stays with -1 at the top edge; after a move the column and minor are looked up on the new row, which raises (`ok` false, the new row kept) exactly when that row lacks the column |
| Frads.FradStructure.MoveRowDown | FradStructure.py:366-397 | the cursor moves to `Rows.RowDown`, or stays with -1 at the bottom edge; after a move the lookup raises (`ok` false, the new row kept) exactly when the new row, or the new half, lacks the column |
| Frads.FradStructure.LookUpColumn | FradStructure.py:362-363 | `go_to_column(self.column)` then `go_to_minor(self.minor)` leave the cursor where it is, and raise exactly when its column has no path in the store |
| Frads.FradStructure.GoToRow | FradStructure.py:399-411 | -1 for a row past the current half; otherwise only the row changes, and the lookup raises (`ok` false) exactly when the new row lacks the column; a missing half raises with the cursor unchanged |
| Frads.FradStructure.MoveColumnLeft | FradStructure.py:415-425 | one column left, or -1 at column 0; the minor is kept, and the cursor stays valid exactly when the new column has that minor |
| Frads.FradStructure.MoveColumnRight | FradStructure.py:427-437 | one column right, or -1 at the last column of the row; the minor is kept, and the cursor stays valid exactly when the new column has that minor |
| Frads.FradStructure.GoToColumn | FradStructure.py:439-450 | only the column changes, and only to an existing column, otherwise -1; the minor is kept, and the cursor stays valid exactly when the new column has that minor |
| Frads.FradStructure.GoToMinor | FradStructure.py:560-571 | only the minor changes, and only to an existing minor; otherwise -1 |
| Frads.FradStructure.StepForward | FradStructure.py:452-502 | the cursor becomes `Cursor.Next` of the old cursor, and the composed new address is returned |
| Frads.FradStructure.StepBackward | FradStructure.py:504-558 | the cursor becomes `Cursor.Prev` of the old cursor, and the composed new address is returned |
| Streams.JoinIsSum | BinParser.py:156-158 | the shift-and-OR of four bytes is their weighted sum, below 2^32 |
| Streams.JoinSplit | BinParser.py:156 | splitting a 32-bit word into bytes and joining them gives the word back |
| Streams.SplitJoin | BinParser.py:156 | joining four bytes and splitting the word gives the bytes back |
| Streams.WordAt | BinParser.py:154-158 | a word can be read exactly when four bytes are left |
| Streams.WordAtValue | BinParser.py:154-158 | the word read is the source's shift-and-OR in file order, or with the bytes reversed for `swapEndian` |
| Streams.FindSync | BinParser.py:103-114 | the sync state machine stops just after the position `SyncFrom` gives |
| Streams.SyncFound | BinParser.py:103-114 | where the machine stops, the last four bytes read are `AA 99 55 66` |
| Streams.SyncAfterHeader | BinParser.py:103-114 | a sync word with no `0xAA` byte before it is found, and the search ends right after it |
| Streams.SyncMissedAfterAA | BinParser.py:103-114 | the byte that breaks a match is not tested again, so `AA AA 99 55 66` is not recognised |
| Streams.FindType2 | BinParser.py:117-121 | the Type-2 search returns `Type2From` |
| Streams.Type2First | BinParser.py:117-121 | the search consumes the first whole word whose bits include the mask, and every word it passes over fails the test |
| Streams.Type2None | BinParser.py:117-121 | when the search finds nothing, no whole word left matches |
| Streams.MatchesBits | BinParser.py:120 | `(w & mask) == mask` holds exactly when every bit of the mask is set in `w` |
| Streams.MaskBits | BinParser.py:19-20 | the write test is bits 30 and 28, the read test bits 30 and 27 |
| Extraction.ReadWords | BinParser.py:152-160 | a frame read gives `n` words exactly when `4n` bytes are left, and fewer otherwise |
| Extraction.ReadWordsAt | BinParser.py:152-160 | word m of a whole frame is the m-th word from its start |
| Extraction.Skip | BinParser.py:132-134 | dropped reads never pass the end of the data |
| Extraction.FramesLayout | BinParser.py:137-162 | frame i of the loop is the `wpf` words at `Start(i)`; the loop runs to its end exactly when the data holds every frame and dummy run; otherwise it stops at the first frame that does not fit, with fewer than `wpf` of its words |
| Extraction.StartWithoutDummies | BinParser.py:143-162 | without dummy frames, frame i starts `4·wpf·i` bytes after the first |
| Extraction.ExtractPlaced | BinParser.py:137-162 | after a complete extraction, the frame of rank k in step order has received the `wpf` words at `Start(k)` when k is below the count, and nothing otherwise |
| Extraction.LogicFramesWithin | BinParser.py:140 | the logic frames are among all the frames |
| BinParsing.SkipWords | BinParser.py:132-134 | the pad-frame reads end where `Skip` says |
| BinParsing.ReadFrame | BinParser.py:152-160 | the words read are `ReadWords` and are appended to the current frame; `full` exactly when all `wpf` were read |
| BinParsing.FrameTurn | BinParser.py:143-162 | one turn of the frame loop: the dummy skip at a boundary change, the frame's words appended, and a step when the frame is whole |
| BinParsing.FrameLoop | BinParser.py:143-162 | the loop stores the whole frames of the run, each followed by a step, and then the words of the short frame |
| BinParsing.ExtractFrameData | BinParser.py:125-163 | the structure receives `Extracted` from address 0, and nothing but frame words and the cursor changes |
| BinParsing.ParseDataFile | BinParser.py:22-24 | `.data`: frames from byte 0, with dummy frames and swapped bytes, logic frames only |
| BinParsing.ConfigStart | BinParser.py:103-121 | the frames start after the sync word and after the first word from there that matches the mask; every word passed over fails it |
| BinParsing.ConfigMissing | BinParser.py:117-121 | when no start is found after a sync word, no whole word after it matches |
| BinParsing.FindConfig | BinParser.py:103-121 | the two searches give `ConfigStart` |
| BinParsing.ParseRbbFile | BinParser.py:26-62 | `.rbb`: after a Type-2 read header, a pad frame, then dummy frames without BRAM; with no header the structure is unchanged and the result is false |
| BinParsing.ParseBitFile | BinParser.py:82-123 | `.bit`: after a Type-2 write header, the frames with dummy frames, BRAM included; with no header the structure is unchanged and the result is false |
| BinParsing.ParseBinFile | BinParser.py:64-71 | `.bin` is read as `.bit` |
| BinParsing.ParseMskFile | BinParser.py:73-80 | `.msk` is read as `.bit` |
| BitParsing.BitWordsPerFrame | BitParser.py:20-29 | a frame size is set exactly for series 5 to 9, and it is that of the series (41, 81, 101, 123, 93) |
| BitParsing.ParseFile | BitParser.py:31-84 | after the sync word and a Type-2 write header, `get_num_frads()` frames of the parser's size, back to back from address 0, each followed by a step; with no header, false and nothing changes; for a series without a frame size, it succeeds only on an empty structure |
| BitParsing.BitLayout | BitParser.py:72-84 | the loop reaches its end exactly when the data holds every frame, and frame i is the `wpf` words from word `wpf·i` |
| BitParsing.BitWord | BitParser.py:76-84 | word m of frame k of a complete run is the word at byte `pos + 4(wpf·k + m)` |
| Ascii.AsciiToInt | AsciiParser.py:224-235 | the loop returns `AsciiValue`, or `None` for a line shorter than 32 characters |
| Ascii.WeightIsBit | AsciiParser.py:233 | `0x080000000 >> i` is bit 31 − i |
| Ascii.AsciiIsBinary | AsciiParser.py:224-235 | `ascii_to_int` reads the line as a 32-digit binary numeral, so its value is below 2^32 |
| Ascii.AsciiBit | AsciiParser.py:224-235 | bit j of a line's word is set exactly when character 31 − j is '1' |
| Ascii.WordRoundTrip | AsciiParser.py:224-235 | every 32-bit word written out as '0'/'1' is read back as itself |
| Ascii.LineRoundTrip | AsciiParser.py:224-235 | a line of 32 '0'/'1' characters is the text of the word read from it |
| AsciiRuns.SyncLine | AsciiParser.py:188-195 | the sync search stops at the first word line whose value is `0xAA995566` |
| AsciiRuns.HeaderLine | AsciiParser.py:196-200 | the Type-2 search stops at the first non-empty line whose value has every bit of the mask |
| AsciiRuns.EbdLayout | AsciiParser.py:210-222 | `parse_ebd_file` cuts the words of the word lines into frames of `wpf` words in order; it reads to the end exactly when every word line is long enough |
| AsciiRuns.EbdWord | AsciiParser.py:210-222 | word m of frame k stored from an `.ebd` file is accepted word `wpf·k + m` |
| AsciiParsing.FindSyncLine | AsciiParser.py:188-195 | the sync phase returns `SyncLine` |
| AsciiParsing.FindHeaderLine | AsciiParser.py:196-200 | the Type-2 phase returns `HeaderLine` |
| AsciiParsing.SkipLines | AsciiParser.py:67-72 | the pad phase drops the lines `Drop` counts |
| AsciiParsing.StoreLines | AsciiParser.py:42-66 | the storage phase stores exactly `LineFrames`: frames of `wpf` converted words in step order, 202 dummy lines dropped after each change of type, half or row, and a stop after `numFrads` frames |
| AsciiParsing.LineTurn | AsciiParser.py:43-66 | one line of the storage loop keeps the storage invariant or ends the loop with the run's result |
| AsciiParsing.DummyTurn | AsciiParser.py:45-54 | one dummy line dropped; after the 202nd the trackers take the cursor's type, half and row |
| AsciiParsing.StoreWord | AsciiParser.py:55-66 | one word appended; a completed frame is counted and, unless it is the last, followed by a step and the dummy flag at a boundary change |
| AsciiParsing.ParseRbtFile | AsciiParser.py:146-200 | `.rbt`: stores `RbtRun` from address 0 and reports whether the loop ran without raising |
| AsciiParsing.ParseRbaFile | AsciiParser.py:73-134 | `.rba`: stores `RbaRun` from address 0 |
| AsciiParsing.ParseRbdFile | AsciiParser.py:23-72 | `.rbd`: stores `RbdRun` from address 0 |
| AsciiParsing.ParseMsdFile | AsciiParser.py:136-144 | `.msd` is read as `.rbd` |
| AsciiParsing.ParseEbdFile | AsciiParser.py:202-222 | `.ebd`: stores `EbdRun` from address 0 |
| EssentialBitParsing.ParseFile | EssentialBitParser.py:16-39 | the `.ebd` reader of `EssentialBitParser` stores what `parse_ebd_file` stores |
| EssentialBitParsing.AcceptedLines | EssentialBitParser.py:24-35 | each accepted word is read from the word line of the same rank, which has the 32 characters read |
| EssentialBitParsing.EssentialBit | EssentialBitParser.py:24-35 | bit j of word m of frame k is set exactly when character 31 − j of word line `wpf·k + m` is '1' |
| Upsets.MaskedBit | FrameOperations.py:75 | `x & (1 << j)` is non-zero exactly when bit j of x is set |
| Upsets.MaskedBits | FrameOperations.py:133-134 | two words agree under `1 << j` exactly when their bits j agree |
| Upsets.WordDiffsIff | FrameOperations.py:132-135 | the pairs of one word are exactly its bits below 32 where the two words differ |
| Upsets.FrameDiffsIff | FrameOperations.py:127-137 | a pair is in the differences of the first n words exactly when its bit differs between the frames |
| Upsets.ComparedIff | FrameOperations.py:119-137 | `compare_frame` raises exactly when the second frame is shorter, and otherwise lists every differing (word, bit) pair and nothing else |
| Upsets.ComparedOrdered | FrameOperations.py:119-137 | the pairs come in order, by word and then by bit, so none appears twice |
| Upsets.CompareSelf | FrameOperations.py:119-137 | a frame compared with itself has no differences |
| Upsets.WordDiffsCount | FrameOperations.py:132-135 | a word contributes as many pairs as its XOR with the other word has bits set |
| Upsets.SelectedDefined | FrameOperations.py:74-76 | the filter raises exactly when a pair's word is past the end of the third frame |
| Upsets.SelectedIff | FrameOperations.py:74-76 | an upset is reported exactly when its pair is a difference and the filter keeps it |
| Upsets.SelectedSplit | FrameOperations.py:74-76 | the unmasked upsets and the masked ones together are all the differences |
| Upsets.FrameUpsetsIgnores | FrameOperations.py:42-43 | a plain diff does not look at a third frame |
| Upsets.UpsetsRaised | FrameOperations.py:67-84 | once a turn raises, the loop reports nothing |
| Upsets.UpsetsSame | FrameOperations.py:34-50 | turns whose two frames are equal report nothing, whatever the filter |
| Upsets.StoresSame | FrameOperations.py:23-52 | a structure compared with an equal one reports no upsets |
| Upsets.UpsetsSplit | FrameOperations.py:54-116 | with the same structure as mask and essential-bit map, `diff_ignore_masked` and `find_essential_upsets` together report what `diff` reports |
| Operations.FrameOperations.constructor | FrameOperations.py:9-11 | the object holds the two given structures |
| Operations.FrameOperations.SetFradStructures | FrameOperations.py:13-21 | the object now holds the two given structures |
| Operations.FrameOperations.CompareFrame | FrameOperations.py:119-137 | the loop returns `Compared` |
| Operations.FrameOperations.Select | FrameOperations.py:74-76 | the `for pair in diffList` loop returns `Selected` |
| Operations.FrameOperations.Diff | FrameOperations.py:23-52 | the upsets of the first `numFrads` or `numLogicFrames` frames, in step order, with both cursors `limit` steps on; the stores do not change |
| Operations.FrameOperations.DiffWalk | FrameOperations.py:34-50 | the frame loop of `diff` collects `UpsetsOf` the visits |
| Operations.FrameOperations.Walk | FrameOperations.py:67-84 | the three-structure loop collects `UpsetsOf` the visits under the filter, and all three cursors are `limit` steps on |
| Operations.FrameOperations.WalkLook | FrameOperations.py:68-76 | one turn's upsets extend those of the turns before |
| Operations.FrameOperations.DiffIgnoreMasked | FrameOperations.py:54-86 | the upsets of `diff` whose bit is clear in the mask structure's frame at the same step |
| Operations.FrameOperations.FindEssentialUpsets | FrameOperations.py:88-116 | the upsets among the logic frames whose bit is set in the essential-bit structure's frame at the same step |

## Left out

- File I/O: each reader takes the contents of its file, as bytes or as lines split at `'\n'`, instead of a path. `open` and `close` are not modelled.
- `print_current_frame` (FradStructure.py:573-584), the `print` calls in `diff` (FrameOperations.py:45-47) and the `__main__` blocks are output only and are not modelled.
- The getters `get_type`, `get_top_bottom`, `get_row`, `get_column`, `get_minor` (FradStructure.py:247-275) are read as the cursor's fields.
- Exceptions are modelled as `None` or `false`, except the raises excluded by the preconditions listed below. The partial state the source leaves behind when it raises is kept, and the exception type is not.
- Most navigation and reading operations require a `WellFormed` store, meaning no empty list at any level and one or two halves per type. `LoadedShape.LoadSortedWellFormed` proves that `load_frads` builds one from an address file in order with contiguous indices; a file out of order or with gaps is not covered. On a store with empty lists, `step_forward` and `step_backward` read lengths only along the cursor's path, and they do not always raise. `step_backward` can set the minor or the column to `len([]) - 1 = -1` and return without raising (for example, shape `[[[[0]]]]` at the origin, FradStructure.py:518-557). `step_forward` can step onto an empty column at minor 0. Either method raises `IndexError` when a list on the path it reads is missing. None of this is modelled, because both members require a store and cursor that exclude it.
- Frads.FradStructure.AppendWord, GetCurrentFrameData, StepForward and StepBackward require the cursor's path to exist: the first two need a `Valid` cursor, and the last two need `PathExists`. The source raises `IndexError` on a cursor whose path is missing (FradStructure.py:168, 227, 458-497, 518-557). That raise is not modelled. The model itself can reach such a cursor. After `GoToRow`, `MoveRowUp` or `MoveRowDown` return `ok` false, the new row is kept and its column may be missing. After a column or row move that returns 0, the minor may be past the end of the new column.
- Frads.FradStructure.GoToColumn, GoToMinor, MoveColumnLeft and MoveColumnRight require the cursor's row (and, for the last three, its column) to exist; the `IndexError` the source raises otherwise is not modelled.
- Frads.FradStructure.MoveRowDown: on series 5, moving from the top half into a type without a bottom half, or with an empty one, records row 0 where the source computes `len([]) - 1 = -1`; the raise that follows is modelled, the -1 is not.
- Frads.FradStructure.GoToColumn: the docstring of `go_to_column` (FradStructure.py:441) promises that the minor is moved when it does not exist on the new column. The code (FradStructure.py:445-447) only calls `go_to_minor(self.minor)`, which keeps the old minor and returns -1, and that -1 is ignored. The model follows the code: `GoToColumn`, `MoveColumnLeft` and `MoveColumnRight` return 0 with the old minor, and their contracts state that the cursor is then valid exactly when the new column has that minor. No column or row move clamps the minor.
- Frads.FradStructure.GoToRow: the docstring of `go_to_row` (FradStructure.py:401) promises that the column and minor are moved when they do not exist on the new row; the code only looks them up again and raises when the column is missing, and the model follows the code.
- Loading.ParseHex: reads ASCII only, with the six C-locale whitespace characters; Unicode digits and the other whitespace `int` accepts on a `unicode` string do not arise from a byte string read in Python 2 and are not modelled.
- Word and address arguments are naturals: a negative `wordNum` or frame address, which Python would index from the end, is not modelled.
- Series 9 has a frame size (FradStructure.py:96-97, BitParser.py:28-29) but no masks, so a structure of series 9 cannot decode an address. `FradStructure` is modelled for series 5 to 8 only. `BitParsing.BitWordsPerFrame` covers series 5 to 9.
- `FrameOperations` is modelled with distinct structures (`fradStructure1 != fradStructure2`, and the mask or essential-bit structure distinct from both). If the same object were passed twice, the source would step its cursor two or three times per turn. That aliasing is not modelled.
- `EssentialBitParsing.ParseFile`: the loop that `EssentialBitParser.py:31-35` writes out adds the same weights as `ascii_to_int`, so the model reads each line with `Ascii.AsciiToInt`.
- `Frads.FradStructure.StepBackward`: the provisional assignment to `topBottom` before a change of type (FradStructure.py:540-541) is overwritten by that change, so it is not repeated.
- Integer widths: Python integers are unbounded, and so are the model's. No wrap-around is modelled because the source has none; the one place where width shows, `&` on a negative address, is written out in `Loading.AddressBits`.

## Findings

| source | as written | input that shows it | evidently intended | confidence | as-written member | corrected member |
|---|---|---|---|---|---|---|
| FradStructure.py:339 | `move_row_up` tests `len(fradStructure[...])`, a name not defined in the method | any call, e.g. series 7 from row 0 of a type with two rows | `len(self.fradStructure[...])`, moving one row up | not executed | Rows.RowUpAsWrittenNeverMoves | Frads.FradStructure.MoveRowUp |
| FradStructure.py:376-385 | `move_row_down` reads the undefined `fradStructure` on the branch that moves down the bottom half (series 6 and 7) and on the branch that moves from the top half to the bottom half (series 5) | series 6 or 7, cursor on row 0 of the bottom half, whose list holds two rows | `self.fradStructure`, moving one row down | not executed | Rows.RowDownAsWrittenDiffers | Frads.FradStructure.MoveRowDown |
