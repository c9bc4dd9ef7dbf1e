# pythonRec carvers in Dafny

pythonRec recovers files from a raw device by signature carving. It reads the device in
512-byte blocks. It looks in each block for a format's magic header with `bytes.find`. From
a header it copies bytes into a new file until an end condition holds. This project models
two parts of it:

- **The consolidated engine of `selectRec.py`.**
  - `get_file_signatures` is the signature table: PNG, JPEG, MP4 and MKV.
  - `recover_files` is one pass over the device for one signature.
  - `main` runs one pass per chosen signature. It threads the list cells `current_group`,
    `files_in_group` and `file_counter` from pass to pass, and sums `total_recovered`.
  - A footer format (PNG, JPEG) ends a file `footer_length` bytes into the first footer
    match of a later block.
  - A footer-less format (MP4, MKV) ends a file just before the next header, then rewinds
    the device so the outer scan reads that header again.
  - Every four files open a new group directory.
- **The four single-format scripts `pngRec.py`, `jpegRec.py`, `mp4Rec.py` and `webmRec.py`.**
  - They share one outer scan.
  - `rcvd` counts every block that holds the header, and a kept file is named after it.
  - A run-wide creation-date test and, for PNG, an IHDR width test above 300 decide
    whether a file is written.
  - Every 30 files open a new `rec{n}` directory.
  - PNG ends a file four bytes into the first `IEND` of a later block. JPEG, MP4 and WebM end
    it with the first later block that *starts with* a terminator, and keep that block whole.

Each part is modelled twice: as functions of the device contents, and as imperative code
proved to produce exactly what those functions describe.

- **Device** (`BlockDevice`). The device is an immutable `seq<byte>` held by the class `Disk`.
  Its position is mutable, with `Read`, `Seek` and `Tell`.
- **Engine specification** (`CarvingSpec`).
  - `Extract` describes the inner loop and `ScanStep` one outer iteration.
  - `Pass` describes a whole `recover_files`.
  - Lemmas state where each file starts, where it ends and what it keeps.
- **Engine code** (`CarvingEngine`). The class `Carver` holds `main`'s counter cells and
  the records written so far. Its methods follow the source's nested loops:
  - `RecoverFiles` is proved to write `Label(Pass(...))`;
  - `RunRecovery` is proved to write `Recovery(...)`, the passes one after another.
- **Script specification** (`ScriptSpec`).
  - A `Script` value holds what differs between the four scripts.
  - `StepAt` describes one outer iteration and `ScriptRunOn` a whole run.
  - `ScriptRunShape` collects what a run guarantees.
- **Script code** (`ScriptScanner`). `RunScript` holds the scripts' loops, with the counters
  `rcvd`, directory and `files_in_current_rec` as local variables. It is proved to write
  `Saved(ScriptRunOn(...).files)`.
- **Per-script modules** (`PngRec`, `JpegRec`, `Mp4Rec`, `WebmRec`). Each holds its
  constants, a `Run` method and lemmas particular to its format. Lemmas over small concrete
  devices pin down the edge cases.

Three things stand in for what the code cannot show here:

- A new group directory is identified by the number of groups opened before it, where the
  code uses a random UUID.
- The scripts' date test is a boolean parameter `dateOk`. The test reads the drive's ctime,
  which is the same for every header of a run.
- Directory `k` of a script run is named `rec` for 0 and `rec{k}` otherwise. This assumes no
  such directory existed before the run.

The scripts' inner loops have no exit at the end of the device. An empty read never starts
with a terminator and never holds `IEND`, so a script that runs out of device inside a file
spins forever, writing empty blocks. The model does not loop: it stops and reports `hangs`.
That last file then holds every byte to the end of the device, as the spinning script's
file does.

The consolidated engine's rewind is a parameter `Rewind`. `AsWritten` is the source's
`seek(tell() - (BLOCK_SIZE - next_header_pos))`. `Intended` lands on the next header; see
Findings. All engine code takes the policy as a parameter, and the source corresponds to
`AsWritten`.

## Model

| member | source | states |
|---|---|---|
| `Bytes.FindFrom` | selectRec.py:120 | a search from index i returns -1 or an index at or after i where the whole pattern occurs |
| `Bytes.FindFromIsLeast` | selectRec.py:120 | the search skips no match: -1 means no match from i on, and an index means no match between i and it |
| `Bytes.Find` | selectRec.py:120 | `find` returns -1 or an index where the whole pattern occurs |
| `Bytes.FindSpec` | selectRec.py:120 | `find` returns -1 exactly when the pattern does not occur, and otherwise its first occurrence |
| `Bytes.StartsWithAny` | mp4Rec.py:58 | `startswith` over several patterns holds iff one of them is a prefix |
| `Bytes.Slice` | pngRec.py:41-42 | slicing clamps at the end of the sequence: `s[i:j]` has max(0, min(j, len(s)) - i) bytes, those of `s` from i on |
| `Bytes.BigEndian` | pngRec.py:42 | `int.from_bytes(..., 'big')` is 0 exactly when every byte is 0 |
| `Bytes.BigEndianBound` | pngRec.py:42 | a big-endian value of k bytes is below 256^k |
| `Bytes.BigEndianFour` | pngRec.py:42 | four bytes decode as the unsigned 32-bit big-endian value |
| `BlockDevice.ReadAt` | selectRec.py:115 | `read(512)` returns the next min(512, remaining) bytes of the device, and nothing past its end |
| `BlockDevice.ShortReadEndsDevice` | selectRec.py:138-140 | a short read reaches the end of the device |
| `BlockDevice.MatchInBlock` | selectRec.py:120 | a pattern occurs in a block exactly when it occurs in the device within that block's span |
| `BlockDevice.Disk.constructor` | selectRec.py:192 | opening the device starts at position 0 |
| `BlockDevice.Disk.Read` | selectRec.py:138 | reading returns `ReadAt` at the position, and advances it by the length read |
| `BlockDevice.Disk.Seek` | selectRec.py:155 | seeking sets the position |
| `BlockDevice.Disk.Tell` | selectRec.py:155 | telling returns the position |
| `Naming.DecimalString` | selectRec.py:131 | `str` of a counter is a non-empty string of decimal digits |
| `Naming.FileName` | selectRec.py:131 | the name `{counter}.{extension}` ends with a '.' followed by the extension |
| `Naming.DecimalRoundTrip` | selectRec.py:131 | the decimal form of a counter parses back to the counter |
| `Naming.FileNameParts` | selectRec.py:131 | the name `{counter}.{extension}` splits back into its counter and extension |
| `Naming.CounterOfFileName` | selectRec.py:131 | the counter read back from a file name is the counter it was made from |
| `Naming.FileNameInjective` | selectRec.py:131 | distinct counters or extensions give distinct names |
| `Signatures.SignaturesFor` | selectRec.py:76-110 | 1 gives PNG, 2 JPEG, 3 MP4 then MKV, anything else all four in table order; every header is non-empty, every footer length covers its footer, and extensions are distinct |
| `Signatures.AllIsEveryCategory` | selectRec.py:103-110 | "all types" is the three categories in menu order |
| `CarvingSpec.ExtractFooter` | selectRec.py:137-148 | the footer loop keeps bytes within the device, ends unclosed only at the end of the device, and closes only on a block it read |
| `CarvingSpec.ExtractHeuristic` | selectRec.py:149-157 | the footer-less loop keeps bytes within the device, ends unclosed only at the end of the device, and when closed rewinds to less than a block before where it started |
| `CarvingSpec.ExtractFooterSlice` | selectRec.py:137-148 | what a footer file gathers after its header block is the run of device bytes that follows |
| `CarvingSpec.ExtractHeuristicSlice` | selectRec.py:149-157 | the same for a footer-less file |
| `CarvingSpec.ExtractFooterRunsOut` | selectRec.py:138-140 | a footer file that meets no footer keeps every byte to the end of the device, and no block it read held the footer |
| `CarvingSpec.ExtractFooterTail` | selectRec.py:137-148 | a closed footer file ends as the inner loop started at its closing block would |
| `CarvingSpec.ExtractFooterAligned` | selectRec.py:138 | the closing block lies a whole number of blocks after the header's block |
| `CarvingSpec.ExtractFooterClosesAtOnce` | selectRec.py:143-146 | a file closed by the first block read ends at that block's first footer match |
| `CarvingSpec.ExtractFooterSkipsFooterFree` | selectRec.py:143-148 | every block read before the closing one lacks the footer |
| `CarvingSpec.ExtractFooterKeeps` | selectRec.py:145 | a closed footer file keeps `footer_length` bytes past the match, cut at the end of the block |
| `CarvingSpec.ExtractFooterCloses` | selectRec.py:142-146 | a footer file stops at the first footer match of the first later block holding one, keeps `footer_length` bytes from it, and drops the rest of that block |
| `CarvingSpec.ExtractHeuristicRunsOut` | selectRec.py:138-140 | a footer-less file that meets no other header keeps every byte to the end of the device |
| `CarvingSpec.ExtractHeuristicTail` | selectRec.py:149-157 | a closed footer-less file ends as the inner loop started at its closing block would |
| `CarvingSpec.ExtractHeuristicAligned` | selectRec.py:138 | the closing block lies a whole number of blocks after the header's block |
| `CarvingSpec.ExtractHeuristicClosesAtOnce` | selectRec.py:151-155 | a file closed by the first block read stops at that block's first header; the rewind lands where the policy says |
| `CarvingSpec.ExtractHeuristicStops` | selectRec.py:138-157 | a closed footer-less file stops at the first header of a block a whole number of blocks on, every block read before it lacks the header, and it keeps every byte up to that header |
| `CarvingSpec.StopsAtFirstMatch` | selectRec.py:150-152 | the first header match of a block reached past header-free blocks is where the inner loop stops |
| `CarvingSpec.ExtractHeuristicCloses` | selectRec.py:151-155 | a footer-less file stops before the first header of the first later block holding one; as written the rewind lands 512 - L bytes before that header for a final block of length L, and as intended on it |
| `CarvingSpec.RewindOnFullBlockFindsHeaderAtZero` | selectRec.py:155 | after a full 512-byte block the rewind lands on the next header, and the next outer read finds it at index 0 |
| `CarvingSpec.Extract` | selectRec.py:137-157 | the inner loop keeps bytes within the device, and resumes at the end of the device when it runs out |
| `CarvingSpec.ScanStep` | selectRec.py:119-164 | an outer iteration moves strictly forward, so every pass ends; its file starts in the block read and resumes the scan where the inner loop left the device |
| `CarvingSpec.StepSlice` | selectRec.py:134-157 | a carved file is the run of device bytes starting at its header |
| `CarvingSpec.ScanStepFirstHeader` | selectRec.py:119-121 | a block without the header is skipped whole; otherwise the file starts at the block's first match, and only that one |
| `CarvingSpec.ScanStepParts` | selectRec.py:134-157 | a carved file is the block's tail from the header followed by what the inner loop gathered |
| `CarvingSpec.FooterFileClosed` | selectRec.py:134-146 | a closed footer file ends `footer_length` past the first footer match of a later block, and the scan resumes after that block |
| `CarvingSpec.FooterFileRunsOut` | selectRec.py:138-140 | a footer file that meets no footer holds everything to the end of the device, and is still recovered |
| `CarvingSpec.HeuristicFileClosed` | selectRec.py:149-155 | a closed footer-less file ends before the next header, and the scan resumes where the policy rewinds to |
| `CarvingSpec.HeuristicFileRunsOut` | selectRec.py:138-140 | a footer-less file that meets no header holds everything to the end of the device |
| `CarvingSpec.Pass` | selectRec.py:112-165 | every file of a pass over the device lies within the device |
| `CarvingSpec.PassFrom` | selectRec.py:119-165 | every file of a pass starts at or after the pass's start and lies within the device |
| `CarvingSpec.PassFromResumes` | selectRec.py:164 | every later file starts at or after the point where the scan resumed after an earlier one |
| `CarvingSpec.StepResumesPastHeader` | selectRec.py:155 | for a footer format, or under the intended rewind, the scan resumes after the file's header |
| `CarvingSpec.PassFromResumesPastHeaders` | selectRec.py:155 | the same for every file of a pass |
| `CarvingSpec.PassOffsetsIncrease` | selectRec.py:155 | for a footer format, or under the intended rewind, files start at strictly increasing offsets, so no header is carved twice |
| `CarvingSpec.PassFromEmptyIffNoHeader` | selectRec.py:119-164 | a pass carves nothing iff none of the blocks it reads holds the header |
| `CarvingSpec.NoHeaderNoFiles` | selectRec.py:119-122 | a device without the header yields no file |
| `CarvingSpec.NoHeaderBlocks` | selectRec.py:120 | no block of such a device holds the header |
| `CarvingExamples.JpegDemoCarvesOneFile` | selectRec.py:134-146 | 2048 bytes with `FF D8 FF` at 100 and `FF D9` at 1600 give one file of 1502 bytes |
| `CarvingExamples.MkvDemoAsWrittenRepeatsHeader` | selectRec.py:155 | as written, a 516-byte device with headers at 500 and 512 yields the header at 500 twice and never the one at 512 |
| `CarvingExamples.MkvDemoIntendedCarvesEachHeader` | selectRec.py:155 | with the intended rewind the same device yields one file per header |
| `CarvingEngine.Record` | selectRec.py:125-131 | the file written after k others goes to the group g with 4g <= k < 4(g+1), under counter k+1, with its extension and bytes |
| `CarvingEngine.Recovery` | selectRec.py:181-197 | what `main` writes: each chosen signature's pass in order, numbered on from the files before it; its count and numbering are the contracts of `RecoveryCountsPasses` and `RecoveryWellNumbered` |
| `CarvingEngine.AppendWellNumbered` | selectRec.py:125-161 | appending the file numbered after the count keeps file k in group k/4 with counter k+1 |
| `CarvingEngine.Label` | selectRec.py:131-161 | the records a pass writes, one per file and in order; how they are numbered is the contract of `LabelWellNumbered` |
| `CarvingEngine.LabelSnoc` | selectRec.py:160-161 | one more file adds one record numbered after those before |
| `CarvingEngine.LabelWellNumbered` | selectRec.py:182-183 | numbering carries over from one pass to the next |
| `CarvingEngine.RecoveryCountsPasses` | selectRec.py:193-196 | `total_recovered` is the sum of the passes' counts, and equals the number of files written |
| `CarvingEngine.RecoveryWellNumbered` | selectRec.py:125-161 | across all passes file k lies in group k/4 and is named after counter k+1 |
| `CarvingEngine.RecoveryNamesDistinct` | selectRec.py:131 | no two files share a name, and no group receives more than four files |
| `CarvingEngine.RecoveryWithoutHeaders` | selectRec.py:193-196 | a device without any chosen header yields no file, so the total is 0 |
| `CarvingEngine.StepWithoutHeader` | selectRec.py:120-122 | a block without the header adds no file and the scan reads the next block |
| `CarvingEngine.StepWithHeader` | selectRec.py:122-164 | a block with the header adds one file: its tail from the match and what the inner loop gathers |
| `CarvingEngine.PassStep` | selectRec.py:119-165 | one outer iteration extends the files carved and the records written in step |
| `CarvingEngine.PassEnd` | selectRec.py:119 | at the end of the device the pass is complete |
| `CarvingEngine.FooterRoundContinues` | selectRec.py:147-148 | a block without the footer is appended whole and the loop goes on |
| `CarvingEngine.FooterRoundStops` | selectRec.py:143-146 | a block with the footer ends the file with `footer_length` bytes past the match |
| `CarvingEngine.HeaderRoundContinues` | selectRec.py:156-157 | a block without another header is appended whole |
| `CarvingEngine.HeaderRoundStops` | selectRec.py:151-155 | a block with another header ends the file before it and sets the rewind |
| `CarvingEngine.Carver.constructor` | selectRec.py:181-183 | the counters start at no group, 0 files and counter 1 |
| `CarvingEngine.Carver.Write` | selectRec.py:125-161 | writing a file opens a group when the count is a multiple of four, names the file after the counter, and advances both counters |
| `CarvingEngine.Carver.CarveFile` | selectRec.py:122-162 | the file written for a header block is the one `ScanStep` describes, and the device is left where it resumes |
| `CarvingEngine.Carver.ScanBlock` | selectRec.py:119-164 | one outer iteration writes what `ScanStep` describes and positions the device for the next read |
| `CarvingEngine.Carver.RecoverFiles` | selectRec.py:112-167 | a pass writes exactly `Pass`'s files, numbered after those already written, and returns their number |
| `CarvingEngine.CopyUntilEnd` | selectRec.py:137-157 | the inner loop gathers what `Extract` describes and leaves the device where the scan resumes |
| `CarvingEngine.CopyUntilFooter` | selectRec.py:137-148 | the footer loop gathers `ExtractFooter`'s content |
| `CarvingEngine.FooterRound` | selectRec.py:138-148 | one round of the footer loop |
| `CarvingEngine.RewindTo` | selectRec.py:155 | the rewind lands `BLOCK_SIZE - next_header_pos` before the current position as written |
| `CarvingEngine.CopyUntilHeader` | selectRec.py:149-157 | the footer-less loop gathers `ExtractHeuristic`'s content and rewinds as it says |
| `CarvingEngine.HeaderRound` | selectRec.py:138-157 | one round of the footer-less loop |
| `CarvingEngine.RunRecovery` | selectRec.py:181-197 | `main` writes exactly `Recovery` for the chosen signatures, and its total is the number of files written |
| `ScriptSpec.Width` | pngRec.py:41-42 | the IHDR width read from at most four bytes is below 2^32, an unsigned 32-bit value |
| `ScriptSpec.Accepts` | pngRec.py:45-49 | a header is kept when its width exceeds the script's minimum (300, PNG only) and the date test passes; `StepFilters` proves a file is written exactly then |
| `ScriptSpec.Rotate` | pngRec.py:50-55 | before each kept file the count stays within 1..30 and the directory advances by at most one, keeping `rcvd` |
| `ScriptSpec.DirectoryName` | pngRec.py:14-21 | every directory name starts with `rec` |
| `ScriptSpec.DirectoryNameInjective` | pngRec.py:14-21 | distinct directory numbers give distinct `rec{n}` names |
| `ScriptSpec.Saved` | pngRec.py:56-58 | a run saves one file per file written |
| `ScriptSpec.SavedAppend` | pngRec.py:56-58 | the files saved by two parts of a run are those of each part, in order |
| `ScriptSpec.ExtractStart` | jpegRec.py:56-63 | the start-of-block loop keeps bytes within the device, and only stops unclosed at the end of the device |
| `ScriptSpec.ScriptExtract` | pngRec.py:59-67 | a script's inner loop keeps bytes within the device |
| `ScriptSpec.KeptAt` | pngRec.py:56-67 | a kept file starts at the header and begins with the block's tail from it; the scan resumes where the inner loop left the device; the step spins exactly when the file ran out |
| `ScriptSpec.ScriptFrom` | pngRec.py:33-69 | the outer loop from a block on: each block's step, then the rest of the run unless the step spins; its files are described by `ScriptFromFits`, `ScriptFromOrder` and `ScriptFromDirectories` |
| `ScriptSpec.ScriptRunOn` | pngRec.py:27-70 | a whole run from the start of the device with the counters at zero; `ScriptRunShape` states what it guarantees |
| `ScriptSpec.StepAt` | pngRec.py:33-69 | an outer iteration that does not spin moves strictly forward |
| `ScriptSpec.ExtractFooterWithin` | pngRec.py:59-67 | the footer loop never keeps bytes past the point where the scan resumes |
| `ScriptSpec.ExtractStartWithin` | jpegRec.py:56-63 | the start-of-block loop never keeps bytes past the point where the scan resumes |
| `ScriptSpec.ScriptExtractWithin` | pngRec.py:59-67 | the same for either rule |
| `ScriptSpec.ExtractStartSlice` | jpegRec.py:56-63 | what a file gathers after its header block is the run of device bytes that follows |
| `ScriptSpec.ExtractStartRunsOut` | jpegRec.py:56-63 | a file that meets no terminating block holds everything to the end of the device, where the script spins |
| `ScriptSpec.ExtractStartTail` | jpegRec.py:58-61 | a closed file ends with a block starting with a terminator, kept whole, and the scan resumes after it |
| `ScriptSpec.ExtractStartAligned` | jpegRec.py:57 | the closing block lies a whole number of blocks after the header's block |
| `ScriptSpec.ExtractStartSkips` | jpegRec.py:58-63 | no earlier block started with a terminator; a terminator elsewhere in a block does not end the file |
| `ScriptSpec.ExtractStartCloses` | jpegRec.py:56-63 | a closed file runs to the end of the first later block that starts with a terminator |
| `ScriptSpec.FooterInCloses` | pngRec.py:59-65 | a closed PNG loop ended at the first `IEND` of the first later block holding one: that block lies a whole number of blocks on and no block before it holds `IEND` |
| `ScriptSpec.FirstMatchCloses` | pngRec.py:60-65 | the first `IEND` match of the closing block closes the file by the `IEND` rule, keeping four bytes from it cut at the end of the block |
| `ScriptSpec.FooterInEnds` | pngRec.py:59-67 | the PNG inner loop in terms of the device: a run of device bytes that closes at `IEND` or reaches the end of the device |
| `ScriptSpec.BlockStartEnds` | jpegRec.py:56-63 | the same for the start-of-block loop |
| `ScriptSpec.ScriptExtractEnds` | pngRec.py:59-67 | the same for either rule |
| `ScriptSpec.ClosedByFooter` | pngRec.py:59-65 | a fitting file closed by its `IEND` rule runs from its header to `keep` bytes past the first `IEND` of the first later block holding one, cut at that block's end |
| `ScriptSpec.ClosedByBlockStart` | jpegRec.py:56-61 | a fitting file closed by its start-of-block rule runs from its header to the end of the first later block starting with a terminator |
| `ScriptSpec.AssembledFileFits` | pngRec.py:58-67 | a block's tail from a header plus what the inner loop gathered is a file that fits the device |
| `ScriptSpec.StepFileFits` | pngRec.py:34-67 | the file of an outer iteration starts at the first header of its block and ends at the first closing block after it, as its rule says, or at the end of the device; the step spins exactly when it ran out |
| `ScriptSpec.StepCounts` | pngRec.py:34-58 | a written file starts in the block read, is named after the incremented `rcvd` and placed by the rotation, and the scan resumes after it |
| `ScriptSpec.StepFilters` | pngRec.py:34-69 | `rcvd` counts every header block whether or not its file is kept; a file is written iff the width and date tests pass; otherwise the next block is read |
| `ScriptSpec.RunFitsCons` | pngRec.py:33-69 | a fitting step followed by a fitting run is a fitting run |
| `ScriptSpec.FilesFitAt` | pngRec.py:33-69 | every file of a fitting list fits the device, and every one but the last was closed |
| `ScriptSpec.ScriptFromFits` | pngRec.py:33-69 | every file of a run fits the device; all but the last were closed; the run spins iff the last ran out |
| `ScriptSpec.RunOrderedCons` | pngRec.py:33-69 | an ordered step followed by an ordered run is an ordered run |
| `ScriptSpec.ScriptFromOrder` | pngRec.py:33-69 | files come in device order without overlap and carry increasing `rcvd` numbers |
| `ScriptSpec.RotatePlaced` | pngRec.py:50-55 | after n files the next goes to directory n/30 |
| `ScriptSpec.RunPlacedCons` | pngRec.py:50-55 | a placed step followed by a placed run is a placed run |
| `ScriptSpec.ScriptFromDirectories` | pngRec.py:50-55 | the k-th file of a run goes to directory k/30 |
| `ScriptSpec.ScriptFromWithoutDate` | pngRec.py:34-49 | when the date test fails nothing is written, and `rcvd` still counts every header block |
| `ScriptSpec.ScriptRunShape` | pngRec.py:27-70 | files fit, each ending at the first closing block after its header; they are disjoint and in order, have distinct names; file k goes to directory k/30, so no directory gets more than 30; the current count stays in 1..30 |
| `ScriptScanner.RunScript` | pngRec.py:27-70 | the scan writes exactly `Saved(ScriptRunOn(...).files)` and reports the spin iff the run spins |
| `ScriptScanner.RunStep` | pngRec.py:33-69 | one outer iteration's files join those written, and the run goes on or spins |
| `ScriptScanner.ScanBlock` | pngRec.py:34-69 | one outer iteration writes what `StepAt` describes and updates `rcvd`, the directory and its count as it says |
| `ScriptScanner.StepWithFile` | pngRec.py:50-67 | a kept header writes its block's tail and what the inner loop gathers, in the rotated directory |
| `ScriptScanner.CopyUntilEnd` | pngRec.py:59-67 | the inner loop gathers what `ScriptExtract` describes |
| `ScriptScanner.CopyUntilFooterIn` | pngRec.py:59-67 | the `IEND` loop gathers `ExtractFooter`'s content with 4 bytes kept |
| `ScriptScanner.FooterInRound` | pngRec.py:60-67 | one round of the `IEND` loop; at an empty read the file is reported unclosed |
| `ScriptScanner.CopyUntilBlockStart` | jpegRec.py:56-63 | the start-of-block loop gathers `ExtractStart`'s content |
| `ScriptScanner.BlockStartRound` | jpegRec.py:57-63 | one round of the start-of-block loop |
| `ScriptScanner.BlockStartRoundContinues` | jpegRec.py:62-63 | a block not starting with a terminator is appended whole |
| `ScriptScanner.BlockStartRoundStops` | jpegRec.py:58-61 | a block starting with a terminator is appended whole and ends the file |
| `PngRec.Run` | pngRec.py:27-70 | the PNG script writes exactly its run's files, for `PngScript`: header `89 50 4E 47 0D 0A 1A 0A`, end four bytes into `IEND`, width above 300, extension `png` |
| `PngRec.WidthOfWholeField` | pngRec.py:41-42 | the width is the big-endian value of bytes 16 to 19 after the signature |
| `PngRec.WidthOfCutField` | pngRec.py:41-45 | a field cut by the end of the block decodes fewer bytes, and with none present the file is never kept |
| `PngRec.PngFilesEndWithIend` | pngRec.py:58-65 | a closed PNG runs from its signature to the end of the first `IEND` chunk type in the first later block holding one, without its CRC |
| `PngRec.ClosedAtIend` | pngRec.py:60-63 | a file closed at its first `IEND` block ends with the four bytes `IEND` |
| `PngRec.PngDemoSkipsNarrowNumber` | pngRec.py:34-65 | a narrow PNG is counted but not kept, so the next wide one is written as `2.png` |
| `JpegRec.Run` | jpegRec.py:27-66 | the JPEG script writes exactly its run's files, for `JpegScript`: header `FF D8 FF`, end at a block starting with `FF D9`, no width test, extension `jpg` |
| `JpegRec.JpegFilesEndWithEoiBlock` | jpegRec.py:56-61 | a closed JPEG ends with the whole first later block that starts with `FF D9` |
| `JpegRec.ClosedAtEoiBlock` | jpegRec.py:58-59 | a file closed at its first block starting with `FF D9` has those two bytes at that block's start |
| `JpegRec.JpegDemoIgnoresMidBlockEoi` | jpegRec.py:58-63 | an `FF D9` inside a block does not end the file, and the terminating block is kept whole |
| `JpegRec.UnendedJpegSpins` | jpegRec.py:56-63 | without a terminating block the file holds the rest of the device and the script spins |
| `Mp4Rec.Run` | mp4Rec.py:27-68 | the MP4 script writes exactly its run's files, for `Mp4Script`: header the `ftyp` box of size 0x18, end at a block starting with the box of size 0x18 or 0x1C, extension `mp4` |
| `Mp4Rec.Mp4FilesEndWithFtypBlock` | mp4Rec.py:56-63 | a closed MP4 ends with the whole first later block starting with either `ftyp` box |
| `Mp4Rec.ClosedAtFtypBlock` | mp4Rec.py:58-61 | a file closed at its first block starting with an `ftyp` box has one of the two boxes at that block's start |
| `Mp4Rec.Mp4DemoSwallowsNextVideo` | mp4Rec.py:58-67 | the MP4 whose header begins the terminating block is written into the previous file and never recovered on its own |
| `WebmRec.Run` | webmRec.py:27-66 | the WebM script writes exactly its run's files, for `WebmScript`: header `1A 45 DF A3`, end at a block starting with it, extension `webm` |
| `WebmRec.WebmFilesEndWithNextHeader` | webmRec.py:56-61 | a closed WebM ends with the whole first later block that starts with an EBML header |
| `WebmRec.ClosedAtNextHeader` | webmRec.py:58-59 | a file closed at its first block starting with an EBML header has that header at the block's start |
| `WebmRec.WebmDemoSwallowsNextVideo` | webmRec.py:58-65 | the next WebM's header block is swallowed into the current file and skipped by the outer scan |

## Left out

- Drive enumeration, the interactive menus and the Windows raw-path rewriting of `main`
  (selectRec.py:11-70, 188-190) are operating-system plumbing. selectRec.py:189 holds the
  unterminated raw string `r'\\.\'`, so the file does not parse as written; the model takes
  the device contents and the recovery type as parameters.
- Directory creation and `get_next_rec_directory` are file-system I/O. A new group is the
  next number, and a new script directory is the next `rec{n}`, assuming none existed.
- `uuid.uuid4()` group names are random. Groups are numbered in opening order instead.
- Printed diagnostics, and the `offset`/`offs` counters used only to print locations, are
  not modelled.
- The ctime date test is the boolean `dateOk`. Exceptions and `KeyboardInterrupt` handling
  (selectRec.py:199-210) are not modelled, and neither is the unused `height` decode
  (pngRec.py:43).
- Writes go to records in the model's state, not to files. What a file holds is modelled;
  how it is flushed is not.
- `ScriptScanner.RunScript`: where a script spins forever at the end of the device, the
  method returns with `hangs` set instead of looping.
- `CarvingEngine.CopyUntilEnd`: the source tests `signature['footer']` in every round of the
  inner loop. The test never changes within a pass, so the model makes it once and runs one
  of two loops.

## Findings

| source | as written | input that shows it | evidently intended | confidence | as-written member | corrected member |
|---|---|---|---|---|---|---|
| selectRec.py:155 | after a footer-less file, `disk.seek(disk.tell() - (BLOCK_SIZE - next_header_pos))` assumes the block just read was 512 bytes long | a 516-byte device with EBML headers `1A 45 DF A3` at 500 and 512, read in MKV mode: the final block is 4 bytes, the rewind lands at 4 instead of 512, and the header at 500 is carved twice while the one at 512 is never carved | rewind to the start of the next header, `block_start + next_header_pos`, so that each header starts exactly one file | not executed | `CarvingExamples.MkvDemoAsWrittenRepeatsHeader` | `CarvingSpec.PassOffsetsIncrease` |

The corrected rewind is the policy `Intended`. `CarvingSpec.PassOffsetsIncrease` proves
that under it the files of every pass start at strictly increasing offsets.
`CarvingExamples.MkvDemoIntendedCarvesEachHeader` shows it carving each header of the same
device once. Every engine method takes the policy as a parameter.
