/** The split phase of the external sort as a specification: how a
    sequence of numbers falls into runs of a fixed size, which run files the
    split leaves, and the state of the split loop between two lines. */
module Runs {
  import opened Codec
  import opened Arith
  import opened Sorting
  import opened Seqs

  /** The full runs of `perRun` numbers that `values` fills, in order. */
  function Chunks(values: seq<Int64>, perRun: nat): (chunks: seq<seq<Int64>>)
    ensures forall k :: 0 <= k < |chunks| ==> |chunks[k]| == perRun
    decreases |values|
  {
    if perRun == 0 || |values| < perRun then []
    else [values[..perRun]] + Chunks(values[perRun..], perRun)
  }

  /** The numbers after the last full run (all of them for runs of no
      numbers, which the split never uses). */
  function Rest(values: seq<Int64>, perRun: nat): (rest: seq<Int64>)
    ensures perRun > 0 ==> |rest| < perRun
    decreases |values|
  {
    if perRun == 0 || |values| < perRun then values
    else Rest(values[perRun..], perRun)
  }

  /** The full runs followed by the rest are the numbers themselves. */
  lemma {:induction false} ChunksRest(values: seq<Int64>, perRun: nat)
    ensures values == Flatten(Chunks(values, perRun)) + Rest(values, perRun)
    decreases |values|
  {
    if perRun > 0 && |values| >= perRun {
      var c, t := values[..perRun], values[perRun..];
      ChunksRest(t, perRun);
      FlattenCons(c, Chunks(t, perRun));
      assert values == c + t;
    }
  }

  lemma ChunksRestMultiset(values: seq<Int64>, perRun: nat)
    ensures multiset(values) == multiset(Flatten(Chunks(values, perRun))) + multiset(Rest(values, perRun))
  {
    ChunksRest(values, perRun);
  }

  /** There are `|values| / perRun` full runs and `|values| % perRun`
      numbers after them, as the loop's test `i % numbersInFile == 0`
      counts them. */
  lemma {:induction false} ChunksCount(values: seq<Int64>, perRun: nat)
    requires perRun > 0
    ensures |Chunks(values, perRun)| == |values| / perRun
    ensures |Rest(values, perRun)| == |values| % perRun
    decreases |values|
  {
    if |values| < perRun {
      DivModUnique(|values|, perRun, 0, |values|);
    } else {
      var t := values[perRun..];
      ChunksCount(t, perRun);
      var q, r := |t| / perRun, |t| % perRun;
      MulSucc(q, perRun);
      DivModUnique(|values|, perRun, q + 1, r);
    }
  }

  /** Run `k` holds the numbers `k * perRun ..< (k + 1) * perRun`. */
  lemma {:induction false} ChunksAt(values: seq<Int64>, perRun: nat, k: nat)
    requires k < |Chunks(values, perRun)|
    ensures (k + 1) * perRun <= |values|
    ensures Chunks(values, perRun)[k] == values[k * perRun..(k + 1) * perRun]
    decreases |values|
  {
    var t := values[perRun..];
    assert Chunks(values, perRun) == [values[..perRun]] + Chunks(t, perRun);
    if k > 0 {
      ChunksAt(t, perRun, k - 1);
      var lo, hi := (k - 1) * perRun, k * perRun;
      MulSucc(k - 1, perRun);
      MulSucc(k, perRun);
      assert t[lo..hi] == values[lo + perRun..hi + perRun];
    }
  }

  /** Full runs of `a` and then the runs of `b`: splitting stays aligned
      when `a` fills its runs exactly. */
  lemma {:induction false} ChunksAppend(a: seq<Int64>, b: seq<Int64>, perRun: nat)
    requires perRun > 0 && Rest(a, perRun) == []
    ensures Chunks(a + b, perRun) == Chunks(a, perRun) + Chunks(b, perRun)
    ensures Rest(a + b, perRun) == Rest(b, perRun)
    decreases |a|
  {
    if a == [] {
      assert a + b == b;
    } else {
      var t := a[perRun..];
      assert (a + b)[..perRun] == a[..perRun];
      assert (a + b)[perRun..] == t + b;
      ChunksAppend(t, b, perRun);
    }
  }

  /** The runs the split writes, in order: the full runs, and after a read
      error the rest, which the `catch` branch writes to the next run file. */
  function Planned(values: seq<Int64>, perRun: nat, readFailed: bool): (planned: seq<seq<Int64>>)
    ensures |planned| == |Chunks(values, perRun)| + (if readFailed then 1 else 0)
  {
    Chunks(values, perRun) + (if readFailed then [Rest(values, perRun)] else [])
  }

  /** What the split leaves in the run files, by index: run `k` holds the
      `k`-th planned run sorted, and `file0.txt`, created before the loop,
      exists and is empty when no run is written. Without a read error the
      numbers after the last full run are written nowhere. */
  ghost predicate IsSplit(runs: map<nat, seq<Int64>>, values: seq<Int64>, perRun: nat, readFailed: bool) {
    var planned := Planned(values, perRun, readFailed);
    Written(runs, planned, |planned|)
  }

  /** The divisibility test of the split loop: after the `i`-th number has
      joined a run that already held `i - 1 - file * perRun`, `i % perRun`
      is zero exactly when the run is full. */
  lemma FlushTest(i: nat, perRun: nat, file: nat, held: nat)
    requires perRun > 0 && 1 <= held <= perRun && i == file * perRun + held
    ensures i % perRun == 0 <==> held == perRun
  {
    if held < perRun {
      DivModUnique(i, perRun, file, held);
    } else {
      MulSucc(file, perRun);
      DivModUnique(i, perRun, file + 1, 0);
    }
  }

  /** A full run after whole runs is one more chunk. */
  lemma FlushedChunk(done: seq<Int64>, numbers: seq<Int64>, perRun: nat)
    requires perRun > 0 && Rest(done, perRun) == [] && |numbers| == perRun
    ensures Chunks(done + numbers, perRun) == Chunks(done, perRun) + [numbers]
    ensures Rest(done + numbers, perRun) == []
  {
    assert numbers[..perRun] == numbers && numbers[perRun..] == [];
    assert Chunks(numbers, perRun) == [numbers];
    ChunksAppend(done, numbers, perRun);
  }

  /** Fewer numbers than a run after whole runs are the rest. */
  lemma PartialChunk(done: seq<Int64>, numbers: seq<Int64>, perRun: nat)
    requires perRun > 0 && Rest(done, perRun) == [] && |numbers| < perRun
    ensures Chunks(done + numbers, perRun) == Chunks(done, perRun)
    ensures Rest(done + numbers, perRun) == numbers
  {
    ChunksAppend(done, numbers, perRun);
    assert Chunks(done, perRun) + [] == Chunks(done, perRun);
  }

  /** The run files once `file` runs are written: runs `0 ..< file` hold
      the chunks sorted, and `file0.txt`, created before the loop, is empty
      until the first run is written. */
  ghost predicate Written(runs: map<nat, seq<Int64>>, chunks: seq<seq<Int64>>, file: nat) {
    && |chunks| == file
    && (forall k: nat :: k in runs <==> k < file || k == 0)
    && (forall k :: 0 <= k < file ==> runs[k] == Sort(chunks[k]))
    && (file == 0 ==> runs[0] == [])
  }

  lemma WrittenRun(runs: map<nat, seq<Int64>>, chunks: seq<seq<Int64>>, file: nat, numbers: seq<Int64>)
    requires Written(runs, chunks, file)
    ensures Written(runs[file := Sort(numbers)], chunks + [numbers], file + 1)
  {
    var runs', chunks' := runs[file := Sort(numbers)], chunks + [numbers];
    assert forall k :: 0 <= k < file ==> chunks'[k] == chunks[k];
  }

  /** The state of the split loop before it reads line `i` (counting from
      one): the numbers read so far are those of the runs written (`done`,
      whole runs `chunks`) followed by those gathered for the next run
      (`numbers`, fewer than a run). */
  ghost predicate SplitLoop(values: seq<Int64>, perRun: nat, i: nat, done: seq<Int64>, numbers: seq<Int64>,
                            chunks: seq<seq<Int64>>, runs: map<nat, seq<Int64>>, file: nat) {
    Gathered(values, perRun, i, done, numbers, file) && Aligned(done, chunks, perRun) && Written(runs, chunks, file)
  }

  /** The first `i - 1` numbers are those of `file` whole runs and then
      fewer than a run. */
  ghost predicate Gathered(values: seq<Int64>, perRun: nat, i: nat, done: seq<Int64>, numbers: seq<Int64>, file: nat) {
    && 1 <= i <= |values| + 1
    && (values == [] ==> numbers == [] && done == [])
    && (values != [] ==> perRun > 0 && |numbers| < perRun && |done| == file * perRun)
    && done + numbers == values[..i - 1]
  }

  /** `done` splits into the runs `chunks` with nothing left over. */
  ghost predicate Aligned(done: seq<Int64>, chunks: seq<seq<Int64>>, perRun: nat) {
    chunks == Chunks(done, perRun) && Rest(done, perRun) == []
  }

  /** Before the first line: no numbers, and run 0 exists and is empty. */
  lemma SplitStart(values: seq<Int64>, perRun: nat)
    requires perRun > 0 || values == []
    ensures SplitLoop(values, perRun, 1, [], [], [], map[0 := []], 0)
  {
  }

  /** A line read by the split loop means runs of at least one number. */
  lemma SplitLoopRunSize(values: seq<Int64>, perRun: nat, i: nat, done: seq<Int64>, numbers: seq<Int64>,
                         chunks: seq<seq<Int64>>, runs: map<nat, seq<Int64>>, file: nat)
    requires SplitLoop(values, perRun, i, done, numbers, chunks, runs, file) && i <= |values|
    ensures perRun > 0
  {
  }

  /** Before line `i` the loop has written `(i - 1) / perRun` runs and
      holds the `(i - 1) % perRun` numbers read since the last one. */
  lemma SplitLoopCounts(values: seq<Int64>, perRun: nat, i: nat, done: seq<Int64>, numbers: seq<Int64>,
                        chunks: seq<seq<Int64>>, runs: map<nat, seq<Int64>>, file: nat)
    requires SplitLoop(values, perRun, i, done, numbers, chunks, runs, file) && perRun > 0
    ensures file == (i - 1) / perRun
    ensures |numbers| == (i - 1) % perRun
  {
    assert |done + numbers| == i - 1;
    DivModUnique(i - 1, perRun, file, |numbers|);
  }

  /** An iteration of the split loop that completes a run: the number `n`
      of line `i` joins the gathered numbers, which are sorted and written
      as run `file`, and the next run begins. */
  lemma SplitFlush(values: seq<Int64>, perRun: nat, i: nat, done: seq<Int64>, numbers: seq<Int64>,
                   chunks: seq<seq<Int64>>, runs: map<nat, seq<Int64>>, file: nat, n: Int64)
    requires SplitLoop(values, perRun, i, done, numbers, chunks, runs, file) && i <= |values| && n == values[i - 1]
    requires perRun > 0 && i % perRun == 0
    ensures SplitLoop(values, perRun, i + 1, done + (numbers + [n]), [], chunks + [numbers + [n]],
                      runs[file := Sort(numbers + [n])], file + 1)
  {
    var numbers' := numbers + [n];
    assert values[..i] == done + numbers';
    FlushTest(i, perRun, file, |numbers'|);
    FlushedChunk(done, numbers', perRun);
    WrittenRun(runs, chunks, file, numbers');
    MulSucc(file, perRun);
  }

  /** An iteration of the split loop that does not complete a run: the
      number `n` of line `i` joins the gathered numbers. */
  lemma SplitKeep(values: seq<Int64>, perRun: nat, i: nat, done: seq<Int64>, numbers: seq<Int64>,
                  chunks: seq<seq<Int64>>, runs: map<nat, seq<Int64>>, file: nat, n: Int64)
    requires SplitLoop(values, perRun, i, done, numbers, chunks, runs, file) && i <= |values| && n == values[i - 1]
    requires perRun > 0 && i % perRun != 0
    ensures SplitLoop(values, perRun, i + 1, done, numbers + [n], chunks, runs, file)
  {
    var numbers' := numbers + [n];
    assert values[..i] == done + numbers';
    FlushTest(i, perRun, file, |numbers'|);
  }

  /** Once the input is used up, the gathered numbers are the rest, and the
      run files are as `IsSplit` says, whether or not the `catch` branch
      writes the leftover run. */
  lemma SplitEnd(values: seq<Int64>, perRun: nat, i: nat, done: seq<Int64>, numbers: seq<Int64>,
                 chunks: seq<seq<Int64>>, runs: map<nat, seq<Int64>>, file: nat, readFailed: bool)
    requires SplitLoop(values, perRun, i, done, numbers, chunks, runs, file) && i > |values|
    ensures IsSplit(if readFailed then runs[file := Sort(numbers)] else runs, values, perRun, readFailed)
  {
    assert values[..|values|] == values;
    if values != [] {
      PartialChunk(done, numbers, perRun);
    }
    assert Planned(values, perRun, readFailed) == chunks + (if readFailed then [numbers] else []);
    if readFailed {
      WrittenRun(runs, chunks, file, numbers);
    } else {
      assert chunks + [] == chunks;
    }
  }

  /** The numbers the runs `0 ..< n` hold, counted with repetition (a run
      that does not exist holds none). */
  function RunsMultiset(runs: map<nat, seq<Int64>>, n: nat): multiset<Int64> {
    if n == 0 then multiset{}
    else RunsMultiset(runs, n - 1) + (if n - 1 in runs then multiset(runs[n - 1]) else multiset{})
  }

  lemma RunsMultisetNext(runs: map<nat, seq<Int64>>, n: nat)
    requires n in runs
    ensures RunsMultiset(runs, n + 1) == RunsMultiset(runs, n) + multiset(runs[n])
  {
  }

  /** Runs that hold the numbers of the first `k` chunks, in any order, hold
      the numbers of those chunks. */
  lemma {:induction false} RunsCover(runs: map<nat, seq<Int64>>, chunks: seq<seq<Int64>>, k: nat)
    requires k <= |chunks|
    requires forall j :: 0 <= j < k ==> j in runs && multiset(runs[j]) == multiset(chunks[j])
    ensures RunsMultiset(runs, k) == multiset(Flatten(chunks[..k]))
  {
    if k > 0 {
      RunsCover(runs, chunks, k - 1);
      assert chunks[..k] == chunks[..k - 1] + [chunks[k - 1]];
      FlattenSnoc(chunks[..k - 1], chunks[k - 1]);
    }
  }

  /** Every run is sorted, and every full run holds `perRun` numbers. */
  lemma SplitRunsSorted(runs: map<nat, seq<Int64>>, values: seq<Int64>, perRun: nat, readFailed: bool)
    requires IsSplit(runs, values, perRun, readFailed)
    ensures forall k :: k in runs ==> Sorted(runs[k])
    ensures forall k :: 0 <= k < |Chunks(values, perRun)| ==> |runs[k]| == perRun
  {
    forall k | k in runs
      ensures Sorted(runs[k])
    {
      if k >= |Chunks(values, perRun)| && !readFailed {
        assert k == 0 && runs[0] == [];
      }
    }
  }

  /** The split writes `|values| / perRun` full runs and, after a read
      error, one more run of the `|values| % perRun` numbers left over. */
  lemma SplitRunCount(runs: map<nat, seq<Int64>>, values: seq<Int64>, perRun: nat, readFailed: bool)
    requires IsSplit(runs, values, perRun, readFailed) && perRun > 0
    ensures |Planned(values, perRun, readFailed)| == |values| / perRun + (if readFailed then 1 else 0)
    ensures readFailed ==> |values| / perRun in runs && |runs[|values| / perRun]| == |values| % perRun
  {
    ChunksCount(values, perRun);
    if readFailed {
      var full := |Chunks(values, perRun)|;
      assert Planned(values, perRun, readFailed)[full] == Rest(values, perRun);
    }
  }

  /** After a read error the runs hold every number of the input; otherwise
      they hold all but the rest after the last full run, which is lost. */
  lemma SplitCoverage(runs: map<nat, seq<Int64>>, values: seq<Int64>, perRun: nat, readFailed: bool)
    requires IsSplit(runs, values, perRun, readFailed)
    ensures readFailed ==>
              RunsMultiset(runs, |Planned(values, perRun, readFailed)|) == multiset(values)
    ensures !readFailed ==>
              RunsMultiset(runs, |Planned(values, perRun, readFailed)|) + multiset(Rest(values, perRun))
                == multiset(values)
  {
    var chunks := Chunks(values, perRun);
    var full := |chunks|;
    var rest := Rest(values, perRun);
    var planned := Planned(values, perRun, readFailed);
    ChunksRestMultiset(values, perRun);
    assert chunks[..full] == chunks;
    assert forall j :: 0 <= j < full ==> planned[j] == chunks[j];
    assert forall j :: 0 <= j < full ==> multiset(runs[j]) == multiset(chunks[j]);
    RunsCover(runs, chunks, full);
    if readFailed {
      assert multiset(runs[full]) == multiset(rest);
      RunsMultisetNext(runs, full);
    }
  }

}
