# YandexGoTest external integer sort — a Dafny model

YandexGoTest is an iOS app that generates a large file of random 64-bit
integers, one per line, and sorts it. It has three sequential pieces of
logic, and this project models each:

- **The record writer** (`FileWriteService.writeToFile`). Each `Int` becomes
  its decimal text plus `"\n"`. The UTF-8 bytes go into a buffer, which is
  written to the file handle whenever it holds at least 4 KiB, and once more
  at the end. `generateFile` writes the same way and reports
  `i * 100 / numbersCount` to its completion whenever that value rises.
- **The first phase of the sort** (`FileSortService.sortFile`). A file of at
  least twice the memory budget `ram` is split into sorted runs `file0.txt`,
  `file1.txt`, … of `ram / 20` numbers each. Lines are read with
  `Int(line) ?? 0`. A smaller file is read whole, sorted and written to
  `fileSorted.txt`. The numbers after the last full run are written, to the
  next run file, only when reading the input throws. When the input ends
  normally they are written nowhere; `Runs.SplitCoverage` states both cases.
- **`URL.addingSuffix(suffix:)`**, which names a file next to a given one
  with a suffix before the extension.

Modules:

- `Codec` covers the record text and bytes and Swift's `Int(_:)`.
- `Sorting` gives a reference definition of ascending sort.
- `WriteService` covers the file handle as a class, and the writer and
  generator loops as methods.
- `Runs` specifies the split: chunks, the run files and the loop state.
- `FileSortService` covers the strategy, the split loop and `sortFile`.
- `UrlExtension` covers the path suffixing.
- `Arith`, `Seqs` and `Wrappers` are small helpers.

The file system is abstracted:

- A file that is read is the sequence of its lines, plus a flag saying that
  reading threw after them.
- A file that is written is the log of writes issued on its handle
  (`WriteService.FileHandle`).
- A run file is the array handed to `writeToFile`, keyed by its index `k` in
  the name `file<k>.txt`.

## Model

| member | source | states |
|---|---|---|
| Codec.Show | YandexGoTest/YandexGoTest/WriteService.swift:52 | `"\(n)"` is non-empty, starts with `-` exactly when `n` is negative, and is otherwise all decimal digits, with no leading zero |
| Codec.Line | YandexGoTest/YandexGoTest/WriteService.swift:52 | a record's text `"\(n)\n"` holds exactly one newline, at its end |
| Codec.RecordBytes | YandexGoTest/YandexGoTest/WriteService.swift:52-53 | a record is 2 to 21 bytes long |
| Codec.RecordBytesEncodeLine | YandexGoTest/YandexGoTest/WriteService.swift:52-53 | the bytes appended for `n` are the UTF-8 encoding of `"\(n)\n"` |
| Codec.RecordEndsLine | YandexGoTest/YandexGoTest/WriteService.swift:52-53 | a record's bytes hold exactly one line feed, the last byte |
| Codec.Serialize | YandexGoTest/YandexGoTest/WriteService.swift:51-53 | the bytes of an array of `n` numbers are between `2 * n` and `21 * n` long |
| Codec.SerializeSnoc | YandexGoTest/YandexGoTest/WriteService.swift:51-53 | serialising one more number appends exactly its record |
| Codec.SerializeAppend | YandexGoTest/YandexGoTest/WriteService.swift:51-53 | serialising two arrays one after the other gives the concatenation of their bytes |
| Codec.SerializeLineCount | YandexGoTest/YandexGoTest/WriteService.swift:51-53 | a serialised array holds exactly one line feed per number |
| Codec.SerializeEndsWithLF | YandexGoTest/YandexGoTest/WriteService.swift:51-53 | a non-empty serialised array ends with a line feed |
| Codec.RecordLength | YandexGoTest/YandexGoTest/WriteService.swift:52 | no 64-bit record is longer than 21 bytes |
| Codec.ExtremeRecordLengths | YandexGoTest/YandexGoTest/FileSortService.swift:60 | `"\(Int.max)\n".count` is 20 and `"\(Int.min)\n".count` is 21 |
| Codec.ParseInt | YandexGoTest/YandexGoTest/FileSortService.swift:71 | `Int(line)` succeeds exactly when the line is an optional sign followed by at least one digit and its value lies in `Int.min ... Int.max`, and then gives that value |
| Codec.ParseOrZero | YandexGoTest/YandexGoTest/FileSortService.swift:71 | `Int(line) ?? 0` is the line's value when it parses, and 0 when the line is malformed or out of range |
| Codec.ParseShow | YandexGoTest/YandexGoTest/FileSortService.swift:71 | `Int("\(n)")` is `n`, so `Int(line) ?? 0` reads a written record back unchanged |
| Codec.ParseOrZeroMalformed | YandexGoTest/YandexGoTest/FileSortService.swift:71 | a line that is not an optional sign followed by at least one digit (the empty line, `" 12"`, `"x5"`, a lone `-`) fails to parse and reads as 0 |
| Codec.ParseOutOfRange | YandexGoTest/YandexGoTest/FileSortService.swift:71 | digits above `Int.max`, or a `-` and digits below `Int.min`, fail to parse and read as 0 |
| Codec.ParseOutOfRangeExamples | YandexGoTest/YandexGoTest/FileSortService.swift:71 | the texts of `Int.max + 1` and `Int.min - 1` read as 0 |
| Codec.DigitsInjective | YandexGoTest/YandexGoTest/FileSortService.swift:64 | different non-negative numbers have different decimal texts |
| Sorting.Sort | YandexGoTest/YandexGoTest/FileSortService.swift:73 | the result is in ascending order and is a permutation of the input |
| Sorting.SortedPermutationUnique | YandexGoTest/YandexGoTest/FileSortService.swift:73 | two sorted permutations of each other are equal, so the sorted array is determined by its numbers |
| Sorting.SortIdempotent | YandexGoTest/YandexGoTest/FileSortService.swift:114 | sorting a sorted array changes nothing, and sorting twice is sorting once |
| WriteService.FileHandle.constructor | YandexGoTest/YandexGoTest/WriteService.swift:41-42 | a freshly created file, opened for writing, with nothing written |
| WriteService.FileHandle.Write | YandexGoTest/YandexGoTest/WriteService.swift:55 | one more write is logged and the file's contents grow by exactly its bytes |
| WriteService.FileHandle.Close | YandexGoTest/YandexGoTest/WriteService.swift:43-45 | closing the handle changes no write |
| WriteService.AppendRecord | YandexGoTest/YandexGoTest/WriteService.swift:52-57 | the record joins the buffer, which is written and emptied exactly when it reaches 4096 bytes; the buffer invariant is kept |
| WriteService.BufferedKeep | YandexGoTest/YandexGoTest/WriteService.swift:53-54 | a buffer still under 4096 bytes after appending holds the records since the last write |
| WriteService.BufferedFlush | YandexGoTest/YandexGoTest/WriteService.swift:54-56 | a flushed buffer writes exactly the pending records, leaves the buffer empty and keeps every write on a line boundary |
| WriteService.FlushPending | YandexGoTest/YandexGoTest/WriteService.swift:54-56 | writing the buffer with the record that filled it leaves every number so far written and nothing pending |
| WriteService.FlushedFullWrite | YandexGoTest/YandexGoTest/WriteService.swift:53-55 | a write issued when the buffer first reaches 4096 bytes ends on a line, holds fewer than 4096 + 21 bytes, and has every earlier line feed before byte 4096 |
| WriteService.FullWritesSnoc | YandexGoTest/YandexGoTest/WriteService.swift:54-55 | every write inside the loop holds at least 4096 and fewer than 4096 + 21 bytes, ends on a line and is issued on time |
| WriteService.FinalWrite | YandexGoTest/YandexGoTest/WriteService.swift:59 | the final write completes the bytes of every record in order, and every write ends on a line |
| WriteService.ChunkedUnique | YandexGoTest/YandexGoTest/WriteService.swift:51-59 | two chunked splits of the same bytes are the same writes, so the bytes of the file decide every flush point |
| WriteService.FirstWriteUnique | YandexGoTest/YandexGoTest/WriteService.swift:54-55 | two writes issued on time that both start the same bytes are equal |
| WriteService.ChunkedEmpty | YandexGoTest/YandexGoTest/WriteService.swift:59 | an empty array still gets its one final write, which is empty, so the file is empty |
| WriteService.Finish | YandexGoTest/YandexGoTest/WriteService.swift:59 | the last write adds what the buffer holds, even nothing; the file then holds every record and its writes are chunked |
| WriteService.WriteToFile | YandexGoTest/YandexGoTest/WriteService.swift:39-62 | the file holds exactly the records of the array in order, the writes are chunked (each flushed at the first line boundary at or after 4096 bytes, so `ChunkedUnique` pins them), and the handle is closed |
| WriteService.PercentRoundsDown | YandexGoTest/YandexGoTest/WriteService.swift:105 | `i * 100 / numbersCount` is `i` out of `numbersCount` scaled to 100 and rounded down |
| WriteService.PercentMonotone | YandexGoTest/YandexGoTest/WriteService.swift:105 | `i * 100 / numbersCount` does not decrease as `i` grows |
| WriteService.PercentAtMost100 | YandexGoTest/YandexGoTest/WriteService.swift:105 | `i * 100 / numbersCount` is at most 100 for `i <= numbersCount` |
| WriteService.ReportsTrackPercent | YandexGoTest/YandexGoTest/WriteService.swift:105-115 | after each iteration, `progress` (the last value reported) is the current percentage |
| WriteService.ReportsIncrease | YandexGoTest/YandexGoTest/WriteService.swift:106-114 | reported values strictly increase, and none exceeds the last |
| WriteService.ReportsAreThePercentages | YandexGoTest/YandexGoTest/WriteService.swift:105-114 | the values reported are exactly the positive percentages reached |
| WriteService.GeneratorProgress | YandexGoTest/YandexGoTest/WriteService.swift:96-115 | over the whole loop the reports strictly increase, lie in 1 to 100, and the last is 100 |
| WriteService.Tick | YandexGoTest/YandexGoTest/WriteService.swift:105-115 | one iteration's progress step extends the reports as the ticker says, and `progress` stays the last value reported |
| WriteService.GenerateStep | YandexGoTest/YandexGoTest/WriteService.swift:97-115 | one iteration writes its number through the buffer and takes the progress step, keeping both loop invariants |
| WriteService.GenerateLoop | YandexGoTest/YandexGoTest/WriteService.swift:96-116 | after the loop every number has gone through the buffer and the reports are those of all `numbersCount + 1` iterations |
| WriteService.GenerateFile | YandexGoTest/YandexGoTest/WriteService.swift:83-117 | `numbersCount + 1` numbers are written in order, in writes chunked as `writeToFile` chunks them, and the completion sees exactly the ticker's reports |
| Runs.Chunks | YandexGoTest/YandexGoTest/FileSortService.swift:70-79 | every full run holds `numbersInFile` numbers |
| Runs.Rest | YandexGoTest/YandexGoTest/FileSortService.swift:82-83 | fewer than `numbersInFile` numbers remain after the last full run |
| Runs.ChunksRest | YandexGoTest/YandexGoTest/FileSortService.swift:70-85 | the full runs followed by the rest are the input, in order |
| Runs.ChunksRestMultiset | YandexGoTest/YandexGoTest/FileSortService.swift:70-85 | the full runs and the rest hold the input's numbers, counted with repetition |
| Runs.ChunksCount | YandexGoTest/YandexGoTest/FileSortService.swift:72 | there are `count / numbersInFile` full runs and `count % numbersInFile` numbers left over |
| Runs.ChunksAt | YandexGoTest/YandexGoTest/FileSortService.swift:69-81 | run `k` holds the parsed lines `k * numbersInFile ..< (k + 1) * numbersInFile` |
| Runs.ChunksAppend | YandexGoTest/YandexGoTest/FileSortService.swift:72-79 | after whole runs, splitting more numbers continues with their own runs |
| Runs.Planned | YandexGoTest/YandexGoTest/FileSortService.swift:70-85 | the runs written are the full runs, plus one for the rest only after a read error |
| Runs.FlushTest | YandexGoTest/YandexGoTest/FileSortService.swift:72 | `i % numbersInFile == 0` holds exactly when the numbers gathered fill a run |
| Runs.FlushedChunk | YandexGoTest/YandexGoTest/FileSortService.swift:72-76 | a full batch after whole runs is exactly one more run |
| Runs.PartialChunk | YandexGoTest/YandexGoTest/FileSortService.swift:82-83 | a partial batch after whole runs is exactly the rest |
| Runs.WrittenRun | YandexGoTest/YandexGoTest/FileSortService.swift:73-78 | writing the sorted batch to `file<file>.txt` adds exactly that run file, and the index then rises by one |
| Runs.SplitStart | YandexGoTest/YandexGoTest/FileSortService.swift:62-69 | before the loop, no number is gathered and `file0.txt` exists, empty |
| Runs.SplitLoopRunSize | YandexGoTest/YandexGoTest/FileSortService.swift:72 | once a line is read, `numbersInFile` is positive, so the `%` is defined |
| Runs.SplitLoopCounts | YandexGoTest/YandexGoTest/FileSortService.swift:69-80 | before line `i`, `(i - 1) / numbersInFile` runs are written and `(i - 1) % numbersInFile` numbers are gathered |
| Runs.SplitFlush | YandexGoTest/YandexGoTest/FileSortService.swift:71-79 | a line that completes a run sorts and writes it, empties `numbers` and moves to the next file |
| Runs.SplitKeep | YandexGoTest/YandexGoTest/FileSortService.swift:71-72 | any other line only joins `numbers` |
| Runs.SplitEnd | YandexGoTest/YandexGoTest/FileSortService.swift:82-85 | at the end the gathered numbers are the rest; the `catch` branch writes them sorted to the current file, and a normal end writes them nowhere |
| Runs.RunsCover | YandexGoTest/YandexGoTest/FileSortService.swift:73-74 | runs holding permutations of the chunks hold the chunks' numbers |
| Runs.SplitRunsSorted | YandexGoTest/YandexGoTest/FileSortService.swift:73 | every run file is sorted, and every full run holds `numbersInFile` numbers |
| Runs.SplitRunCount | YandexGoTest/YandexGoTest/FileSortService.swift:70-85 | `count / numbersInFile` runs are written, plus, after a read error, one of `count % numbersInFile` numbers |
| Runs.SplitCoverage | YandexGoTest/YandexGoTest/FileSortService.swift:70-85 | after a read error the runs hold every input number; otherwise they hold all but the rest |
| FileSortService.SwiftDiv | YandexGoTest/YandexGoTest/FileSortService.swift:56 | Swift's truncating `/`: Dafny's quotient for a positive divisor, never positive for a negative one |
| FileSortService.ChooseStrategy | YandexGoTest/YandexGoTest/FileSortService.swift:56-59 | the file is split exactly when `ram > 0` and its size is at least `2 * ram` |
| FileSortService.SplitThreshold | YandexGoTest/YandexGoTest/FileSortService.swift:56-59 | Swift's `fileSize / ram > 1` holds exactly when `ram > 0` and `fileSize >= 2 * ram` |
| FileSortService.RecordsPerRun | YandexGoTest/YandexGoTest/FileSortService.swift:60 | a run holds `ram / 20` numbers, the most records of `Int.max` that fit in `ram` bytes |
| FileSortService.ParseAll | YandexGoTest/YandexGoTest/FileSortService.swift:71 | one number per line, each `Int(line) ?? 0` |
| FileSortService.ReadBack | YandexGoTest/YandexGoTest/FileSortService.swift:71 | reading back the lines of a written array gives the array |
| FileSortService.RunName | YandexGoTest/YandexGoTest/FileSortService.swift:63-65 | a run name is `file`, the decimal digits of its index with no leading zero, and `.txt` |
| FileSortService.RunNamesDistinct | YandexGoTest/YandexGoTest/FileSortService.swift:64 | runs with different indices have different names, and none is `fileSorted.txt` |
| FileSortService.RunNameExamples | YandexGoTest/YandexGoTest/FileSortService.swift:63-65 | the run names are `file0.txt`, …, `file12.txt`, … |
| FileSortService.ReadLine | YandexGoTest/YandexGoTest/FileSortService.swift:70-80 | one line is parsed and appended; every `numbersInFile`-th line writes the sorted run and moves to the next file; the loop state is kept |
| FileSortService.SplitIntoRuns | YandexGoTest/YandexGoTest/FileSortService.swift:62-85 | the run files are exactly the sorted full runs, plus the sorted rest after a read error |
| FileSortService.SortFile | YandexGoTest/YandexGoTest/FileSortService.swift:52-123 | returns `false` exactly when the size is unreadable; splits into runs of `ram / 20`, or writes `fileSorted.txt` with the sorted numbers unless reading fails |
| UrlExtension.LastDot | YandexGoTest/YandexGoTest/URLExtension.swift:13-14 | the position found holds a dot with no dot after it; no position means no dot |
| UrlExtension.Ext | YandexGoTest/YandexGoTest/URLExtension.swift:14 | the extension holds no dot, and is non-empty exactly when the name has one |
| UrlExtension.HasExtIff | YandexGoTest/YandexGoTest/URLExtension.swift:14 | a name has an extension exactly when its last dot is neither its first nor its last character |
| UrlExtension.Stem | YandexGoTest/YandexGoTest/URLExtension.swift:13 | the stem, a dot and the extension make the name back; a name without an extension is its own stem |
| UrlExtension.AppendingPathExtension | YandexGoTest/YandexGoTest/URLExtension.swift:14 | an empty extension adds nothing; a non-empty dot-free one after a non-empty name becomes the extension, with the name as stem |
| UrlExtension.AddingSuffix | YandexGoTest/YandexGoTest/URLExtension.swift:11 | the result is in the same directory |
| UrlExtension.SplitsAtExtension | YandexGoTest/YandexGoTest/URLExtension.swift:13-14 | `base.ext` has stem `base` and extension `ext` |
| UrlExtension.NoExtensionAfterSuffix | YandexGoTest/YandexGoTest/URLExtension.swift:13 | a dot-free suffix after a name with no inner dot creates no extension |
| UrlExtension.AddingSuffixParts | YandexGoTest/YandexGoTest/URLExtension.swift:10-15 | same directory, same extension, and the stem is the old stem followed by the suffix, for any suffix when the name has an extension |
| UrlExtension.AddingSuffixExample | YandexGoTest/YandexGoTest/URLExtension.swift:10-15 | `dir/file.txt` with suffix `Sorted` is `dir/fileSorted.txt` |
| UrlExtension.AddingEmptySuffix | YandexGoTest/YandexGoTest/URLExtension.swift:10-15 | an empty suffix leaves the URL unchanged |
| UrlExtension.AddingSuffixCompose | YandexGoTest/YandexGoTest/URLExtension.swift:10-15 | adding `s1` and then `s2` is adding `s1 + s2` |
| UrlExtension.TrailingDotExample | YandexGoTest/YandexGoTest/URLExtension.swift:10-15 | for a name ending in a dot, the suffix becomes the extension and composition fails |

## Left out

- Concurrency is not modelled: `Task`, `Task.detached`, `MainActor.run` and
  `async`/`await`. The single-pass sort runs in a task that `sortFile` does
  not wait for; here it is sequential, and its result is what that task
  writes.
- `generateFile`'s task and completion handshake is not modelled: cancel and
  replace, and the early return when `completion` has been cleared.
  `generateFiles` is not modelled either. Both are concurrency only.
- Floating point is not modelled: `pow(2, 30) * size` and the final size
  check `size * 1_000_000_000 < actualSize`. `GenerateFile` takes the size in
  bytes as an integer and ends after the last write.
- Randomness is replaced by an input: `Int.random(in: 1 ... Int.max)` becomes
  the sequence `random`.
- The file system is abstracted. `FileManager`, `FileHandle` and
  `url.lines` become a line sequence in and a write log out.
- Failed writes are not modelled. Those at WriteService.swift:55, :59 and
  :102 are swallowed by `try?`. A failure of the last write of
  `generateFile` (:117, a plain `try`) ends it with an error. The model
  assumes no write fails, and a run file's contents are the array handed
  to `writeToFile`.
- When a handle cannot be opened, `writeToFile` writes nothing, and
  `generateFile` (WriteService.swift:87) writes nothing and ends with
  `FileError.unexpected` (:134). The model covers neither case:
  `WriteService.GenerateFile` always writes.
- The single-pass branch's failure to open the input, and a read error
  there, are both the `readFailed` flag.
- Splitting a file's bytes into `url.lines` (line endings, UTF-8 decoding)
  is not modelled. The input `lines` is what `url.lines` yields, which may
  leave out blank lines; the empty line of `Codec.ParseOrZeroMalformed` is
  then what `Int(_:)` does with one, not what the sort does with a blank
  input line. `FileSortService.ReadBack` relates the written numbers to
  their lines as text.
- Swift's sort algorithm is not modelled. `Sorting.Sort` is a reference
  definition, and any sorting algorithm gives the same result
  (`Sorting.SortedPermutationUnique`).
- Foundation's path rules beyond the dot rule are not modelled: percent
  encoding, `/` inside a component and directory hints.
- `sortPart` and the commented-out loop after the `catch` are not modelled.
  They are dead code.
- The unused `before` timestamp is not modelled.
- A `ram` of 0 traps on the division in `sortFile`. `FileSortService.SortFile`
  requires a non-zero `ram` when the size is readable.
- A `ram` between 1 and 19 gives a run size of 0, which traps on `i % 0` once
  a line is read. `FileSortService.SortFile` requires `ram >= 20` when the
  file is split and has a line.
- A size under 20 bytes makes `numbersCount` 0, and the percentage then
  divides by zero. `WriteService.GenerateFile` requires at least 20 bytes.
- Swift's `i * 100` traps once it exceeds `Int.max`, which the last
  iterations reach when `numbersCount * 100` does. `WriteService.GenerateFile`
  requires `numbersCount * 100 <= Int.max`, so no iteration traps.
  `WriteService.Percent` and `WriteService.Reports` compute with unbounded
  integers.
- WriteService.GenerateFile: the random values are not required to lie in
  `1 ... Int.max`. Any 64-bit values are written the same way.
- UrlExtension.AddingSuffixParts: for a name without an extension, stated
  only when the suffix holds no dot and the name no dot after its first
  character. Otherwise the suffix can become the extension
  (`UrlExtension.TrailingDotExample`). A name with an extension needs no
  condition.
- UrlExtension.AddingSuffixCompose: stated under the same conditions on the
  first suffix. `UrlExtension.TrailingDotExample` shows that it fails
  without them.
