/** `FileSortService.sortFile(url:size:)`: the first phase of an external sort.
    A file whose size is at least twice the memory budget is split into
    sorted runs `file0.txt`, `file1.txt`, ... of `ram / 20` numbers each;
    a smaller file is read whole, sorted and written to `fileSorted.txt`.

    The file system is abstracted: the input file is the sequence of its
    lines, a read error is a flag saying that reading stopped with an error
    after those lines, and a written file is the array handed to
    `writeToFile`, whose bytes `WriteService.WriteToFile` describes. */
module FileSortService {
  import opened Wrappers
  import opened Codec
  import opened Arith
  import opened Sorting
  import opened Runs

  // ---------------------------------------------------------------------------
  // Strategy

  datatype Strategy = SinglePass | Split

  /** Swift's `a / b` on `Int` for a non-negative `a`: the quotient
      truncated toward zero, which for a negative `b` is the negated quotient
      by `-b` (Dafny's `/` would round it down instead). */
  function SwiftDiv(a: nat, b: int): (q: int)
    requires b != 0
    ensures b > 0 ==> q == a / b
    ensures b < 0 ==> q <= 0
  {
    if b > 0 then a / b
    else
      DivNonneg(a, -b);
      -(a / -b)
  }

  /** `actualFileSize / ram > 1`: split into runs, or sort in one pass. The
      file is split exactly when it holds at least two budgets' worth of
      bytes; a negative budget always means a single pass. */
  function ChooseStrategy(fileSize: nat, ram: int): (s: Strategy)
    requires ram != 0
    ensures s == Split <==> ram > 0 && fileSize >= 2 * ram
  {
    SplitThreshold(fileSize, ram);
    if SwiftDiv(fileSize, ram) > 1 then Split else SinglePass
  }

  /** The quotient exceeds 1 exactly when the divisor is positive and goes
      at least twice into the dividend. */
  lemma SplitThreshold(fileSize: nat, ram: int)
    requires ram != 0
    ensures SwiftDiv(fileSize, ram) > 1 <==> ram > 0 && fileSize >= 2 * ram
  {
    if ram > 0 {
      if fileSize >= 2 * ram {
        DivModUnique(2 * ram, ram, 2, 0);
        DivMonotone(2 * ram, fileSize, ram);
      } else {
        DivBelow(fileSize, ram, 2);
      }
    }
  }

  /** `ram / "\(Int.max)\n".count`: how many records of the widest positive
      number a run of `ram` bytes holds. */
  function RecordsPerRun(ram: int): (perRun: nat)
    requires ram > 0
    ensures perRun == ram / 20
    ensures perRun * |Line(Int64Max)| <= ram < (perRun + 1) * |Line(Int64Max)|
  {
    ExtremeRecordLengths();
    ram / |Line(Int64Max)|
  }

  /** `Int(line) ?? 0` for every line, in order. */
  function ParseAll(lines: seq<string>): (values: seq<Int64>)
    ensures |values| == |lines|
    ensures forall i :: 0 <= i < |lines| ==> values[i] == ParseOrZero(lines[i])
  {
    if lines == [] then [] else ParseAll(lines[..|lines| - 1]) + [ParseOrZero(lines[|lines| - 1])]
  }

  /** The lines of a file that `writeToFile(array: xs)` wrote, without
      their newlines: `"\(x)"` for each number in order. */
  function RecordLines(xs: seq<Int64>): (lines: seq<string>)
    ensures |lines| == |xs|
    ensures forall i :: 0 <= i < |xs| ==> lines[i] == Show(xs[i])
    decreases |xs|
  {
    if xs == [] then [] else RecordLines(xs[..|xs| - 1]) + [Show(xs[|xs| - 1])]
  }

  /** Reading a written file back with `Int(line) ?? 0` gives its numbers. */
  lemma ReadBack(xs: seq<Int64>)
    ensures ParseAll(RecordLines(xs)) == xs
  {
    forall i | 0 <= i < |xs|
      ensures ParseOrZero(Show(xs[i])) == xs[i]
    {
      ParseShow(xs[i]);
    }
  }

  // ---------------------------------------------------------------------------
  // Run names

  /** `"file\(k).txt"`: between the prefix `file` and the suffix `.txt`
      stand the decimal digits of `k`, with no leading zero. */
  function RunName(k: nat): (name: string)
    ensures |name| > 8 && name[..4] == "file" && name[|name| - 4..] == ".txt"
    ensures AllDigits(name[4..|name| - 4]) && Magnitude(name[4..|name| - 4]) == k
    ensures name[4] == '0' ==> k == 0 && name == "file0.txt"
  {
    MagnitudeOfDigits(k);
    var name := "file" + Show(k) + ".txt";
    assert name[4..|name| - 4] == Digits(k);
    name
  }

  const SortedName: string := "fileSorted.txt"

  /** Distinct runs go to distinct files, and no run overwrites the output
      of a single pass. */
  lemma RunNamesDistinct(j: nat, k: nat)
    ensures RunName(j) == RunName(k) <==> j == k
    ensures RunName(k) != SortedName
  {
    var a, b := RunName(j), RunName(k);
    if a == b {
      assert Show(j) == a[4..|a| - 4];
      assert Show(k) == b[4..|b| - 4];
      DigitsInjective(j, k);
    }
    assert RunName(k)[4] == Show(k)[0];
    assert SortedName[4] == 'S';
  }

  lemma RunNameExamples()
    ensures RunName(0) == "file0.txt"
    ensures RunName(12) == "file12.txt"
  {
    assert Digits(12) == Digits(1) + [DigitChar(2)];
  }

  // ---------------------------------------------------------------------------
  // The split into runs

  /** One iteration of the split loop: the number on line `i` joins the
      numbers gathered since the last run; on every `numbersInFile`-th line
      they are sorted, written as run `file`, and the next run begins. */
  method ReadLine(line: string, numbersInFile: nat, i: nat, numbers: seq<Int64>, runs: map<nat, seq<Int64>>, file: nat,
                  ghost values: seq<Int64>, ghost done: seq<Int64>, ghost chunks: seq<seq<Int64>>)
    returns (numbers': seq<Int64>, runs': map<nat, seq<Int64>>, file': nat,
             ghost done': seq<Int64>, ghost chunks': seq<seq<Int64>>)
    requires SplitLoop(values, numbersInFile, i, done, numbers, chunks, runs, file)
    requires i <= |values| && values[i - 1] == ParseOrZero(line)
    ensures numbersInFile > 0
    ensures i % numbersInFile == 0 ==>
              numbers' == [] && runs' == runs[file := Sort(numbers + [values[i - 1]])] && file' == file + 1
    ensures i % numbersInFile != 0 ==> numbers' == numbers + [values[i - 1]] && runs' == runs && file' == file
    ensures SplitLoop(values, numbersInFile, i + 1, done', numbers', chunks', runs', file')
  {
    var n := ParseOrZero(line);
    SplitLoopRunSize(values, numbersInFile, i, done, numbers, chunks, runs, file);
    numbers' := numbers + [n];
    if i % numbersInFile == 0 {
      SplitFlush(values, numbersInFile, i, done, numbers, chunks, runs, file, n);
      chunks' := chunks + [numbers'];
      done' := done + numbers';
      numbers' := Sort(numbers');
      runs' := runs[file := numbers'];
      numbers' := [];
      file' := file + 1;
    } else {
      SplitKeep(values, numbersInFile, i, done, numbers, chunks, runs, file, n);
      runs', file', done', chunks' := runs, file, done, chunks;
    }
  }

  /** The split loop (lines read one at a time, a run written every
      `numbersInFile` numbers) and its `catch` branch, which writes the
      numbers gathered since the last run to the current run file. */
  method SplitIntoRuns(lines: seq<string>, numbersInFile: nat, readFailed: bool) returns (runs: map<nat, seq<Int64>>)
    requires numbersInFile > 0 || lines == []
    ensures IsSplit(runs, ParseAll(lines), numbersInFile, readFailed)
  {
    ghost var values := ParseAll(lines);
    ghost var done: seq<Int64> := [];
    ghost var chunks: seq<seq<Int64>> := [];
    var numbers: seq<Int64> := [];
    var file: nat := 0;
    runs := map[0 := []];
    var i := 1;
    SplitStart(values, numbersInFile);
    while i <= |lines|
      invariant SplitLoop(values, numbersInFile, i, done, numbers, chunks, runs, file)
    {
      numbers, runs, file, done, chunks :=
        ReadLine(lines[i - 1], numbersInFile, i, numbers, runs, file, values, done, chunks);
      i := i + 1;
    }
    SplitEnd(values, numbersInFile, i, done, numbers, chunks, runs, file, readFailed);
    if readFailed {
      runs := runs[file := Sort(numbers)];
      numbers := [];
    }
  }

  // ---------------------------------------------------------------------------
  // sortFile

  /** `sortFile(url:size:)`: `fileSize` is the size attribute of the file,
      `None` when it cannot be read; `lines` are the lines read from it, and
      `readFailed` says that reading (or, in a single pass, opening the file)
      failed after them. The result is `false` only when the size cannot be
      read. `runs` are the run files by index, `sortedFile` the contents of
      `fileSorted.txt` if it is written. */
  method SortFile(fileSize: Option<nat>, ram: Int64, lines: seq<string>, readFailed: bool)
    returns (ok: bool, runs: map<nat, seq<Int64>>, sortedFile: Option<seq<Int64>>)
    requires fileSize.Some? ==> ram != 0
    requires fileSize.Some? && ChooseStrategy(fileSize.value, ram) == Split ==> ram >= 20 || lines == []
    ensures ok <==> fileSize.Some?
    ensures fileSize.None? ==> runs == map[] && sortedFile == None
    ensures fileSize.Some? && ChooseStrategy(fileSize.value, ram) == Split ==>
              IsSplit(runs, ParseAll(lines), ram / 20, readFailed) && sortedFile == None
    ensures fileSize.Some? && ChooseStrategy(fileSize.value, ram) == SinglePass ==>
              runs == map[] && sortedFile == (if readFailed then None else Some(Sort(ParseAll(lines))))
  {
    runs, sortedFile := map[], None;
    if fileSize.None? {
      return false, runs, sortedFile;
    }
    var filesCount := SwiftDiv(fileSize.value, ram);
    if filesCount > 1 {
      var numbersInFile := RecordsPerRun(ram);
      runs := SplitIntoRuns(lines, numbersInFile, readFailed);
    } else if !readFailed {
      var numbers := ParseAll(lines);
      numbers := Sort(numbers);
      sortedFile := Some(numbers);
    }
    return true, runs, sortedFile;
  }
}
