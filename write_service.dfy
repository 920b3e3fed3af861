/** `FileWriteService` (WriteService.swift): the buffered line writer
    `writeToFile`, and the write and progress loop of `generateFile` with the
    random numbers supplied as an oracle. */
module WriteService {
  import opened Codec
  import opened Arith
  import opened Seqs

  /** `let bufferSize = 4 * 1024` */
  const BufferSize: nat := 4 * 1024

  /** A write that stops on a line boundary. */
  predicate EndsOnLine(w: seq<byte>) {
    w == [] || w[|w| - 1] == LF
  }

  /** A `FileHandle` opened for writing on a freshly created, empty file: the
      log of every `write(contentsOf:)` issued on it, and whether it is still
      open. */
  class FileHandle {
    var writes: seq<seq<byte>>
    var isOpen: bool

    constructor ()
      ensures writes == [] && isOpen
    {
      writes := [];
      isOpen := true;
    }

    /** The bytes of the file. */
    function Contents(): seq<byte>
      reads this
    {
      Flatten(writes)
    }

    /** `handle.write(contentsOf: data)` */
    method Write(data: seq<byte>)
      requires isOpen
      modifies this
      ensures isOpen && writes == old(writes) + [data]
      ensures Contents() == old(Contents()) + data
    {
      writes := writes + [data];
      assert writes[..|writes| - 1] == old(writes);
    }

    /** `handle.close()` */
    method Close()
      modifies this
      ensures !isOpen && writes == old(writes)
    {
      isOpen := false;
    }
  }

  /** The state of a writer loop once the numbers `xs[..i]` have gone through
      the buffer: the writes issued so far hold exactly the lines of
      `xs[..from]`, each is a `FullWrite`, and the buffer holds the lines of
      the rest, fewer than `BufferSize` bytes. */
  ghost predicate Buffered(writes: seq<seq<byte>>, buffer: seq<byte>, xs: seq<Int64>, from: nat, i: nat) {
    Pending(writes, buffer, xs, from, i) && FullWrites(writes)
  }

  ghost predicate Pending(writes: seq<seq<byte>>, buffer: seq<byte>, xs: seq<Int64>, from: nat, i: nat) {
    && from <= i <= |xs|
    && Flatten(writes) == Serialize(xs[..from])
    && buffer == Serialize(xs[from..i])
    && |buffer| < BufferSize
  }

  /** Every line of `w` but its last ends within the first `BufferSize`
      bytes: the buffer was written as soon as it first reached `BufferSize`
      bytes, and not a line later. */
  predicate OnTime(w: seq<byte>) {
    forall k :: 0 <= k < |w| - 1 && w[k] == LF ==> k + 1 < BufferSize
  }

  /** A write issued inside the loop: it ends on a line, holds at least
      `BufferSize` bytes but fewer than one longest record beyond that, and
      was issued on time. */
  predicate FullWrite(w: seq<byte>) {
    EndsOnLine(w) && BufferSize <= |w| < BufferSize + MaxRecordBytes && OnTime(w)
  }

  predicate FullWrites(writes: seq<seq<byte>>) {
    forall j :: 0 <= j < |writes| ==> FullWrite(writes[j])
  }

  /** One iteration of the writer loops: append `"\(n)\n".utf8` to the buffer,
      then, if the buffer holds at least `BufferSize` bytes, write all of it and
      empty it. For the numbers `xs`, of which `n` is number `i`, the
      iteration keeps `Buffered`; after a write, everything up to `i + 1`
      is written. */
  method AppendRecord(handle: FileHandle, buffer: seq<byte>, n: Int64, ghost xs: seq<Int64>, ghost from: nat, ghost i: nat)
    returns (buffer': seq<byte>, ghost from': nat)
    requires handle.isOpen
    requires Buffered(handle.writes, buffer, xs, from, i) && i < |xs| && xs[i] == n
    modifies handle
    ensures handle.isOpen
    ensures |buffer + RecordBytes(n)| >= BufferSize ==>
              handle.writes == old(handle.writes) + [buffer + RecordBytes(n)] && buffer' == [] && from' == i + 1
    ensures |buffer + RecordBytes(n)| < BufferSize ==>
              handle.writes == old(handle.writes) && buffer' == buffer + RecordBytes(n) && from' == from
    ensures Buffered(handle.writes, buffer', xs, from', i + 1)
  {
    buffer' := buffer + RecordBytes(n);
    if |buffer'| >= BufferSize {
      BufferedFlush(handle.writes, buffer, xs, from, i);
      handle.Write(buffer');
      buffer' := [];
      from' := i + 1;
    } else {
      BufferedKeep(handle.writes, buffer, xs, from, i);
      from' := from;
    }
  }

  /** `Buffered` is kept when a record joins the buffer without filling it. */
  lemma BufferedKeep(writes: seq<seq<byte>>, buffer: seq<byte>, xs: seq<Int64>, from: nat, i: nat)
    requires Buffered(writes, buffer, xs, from, i) && i < |xs|
    requires |buffer + RecordBytes(xs[i])| < BufferSize
    ensures Buffered(writes, buffer + RecordBytes(xs[i]), xs, from, i + 1)
  {
    assert xs[from..i + 1] == xs[from..i] + [xs[i]];
    SerializeSnoc(xs[from..i], xs[i]);
  }

  /** `Buffered` is kept when a record fills the buffer and the whole buffer,
      which then ends on record `i`, is written. */
  lemma BufferedFlush(writes: seq<seq<byte>>, buffer: seq<byte>, xs: seq<Int64>, from: nat, i: nat)
    requires Buffered(writes, buffer, xs, from, i) && i < |xs|
    requires |buffer + RecordBytes(xs[i])| >= BufferSize
    ensures Buffered(writes + [buffer + RecordBytes(xs[i])], [], xs, i + 1, i + 1)
  {
    FlushPending(writes, buffer, xs, from, i);
    FlushedFullWrite(buffer, xs[i]);
    FullWritesSnoc(writes, buffer + RecordBytes(xs[i]));
  }

  /** A buffer that was below `BufferSize` before its last record joined
      it and reaches `BufferSize` with it is a `FullWrite`: in particular it
      is written on time, as only the record's own final newline lies at or
      beyond `BufferSize`. */
  lemma FlushedFullWrite(buffer: seq<byte>, n: Int64)
    requires |buffer| < BufferSize <= |buffer + RecordBytes(n)|
    ensures FullWrite(buffer + RecordBytes(n))
  {
    var r := RecordBytes(n);
    var w := buffer + r;
    RecordEndsLine(n);
    forall k | 0 <= k < |w| - 1 && w[k] == LF
      ensures k + 1 < BufferSize
    {
      if k >= |buffer| {
        assert false;
      }
    }
  }

  /** Writing the buffer together with record `i` leaves the first `i + 1`
      numbers written and nothing pending. */
  lemma FlushPending(writes: seq<seq<byte>>, buffer: seq<byte>, xs: seq<Int64>, from: nat, i: nat)
    requires Pending(writes, buffer, xs, from, i) && i < |xs|
    ensures Pending(writes + [buffer + RecordBytes(xs[i])], [], xs, i + 1, i + 1)
  {
    var w := buffer + RecordBytes(xs[i]);
    assert w == Serialize(xs[from..i + 1]) by {
      assert xs[from..i + 1] == xs[from..i] + [xs[i]];
      SerializeSnoc(xs[from..i], xs[i]);
    }
    FlattenSnoc(writes, w);
    FlushedPrefix(xs, from, i + 1);
    assert xs[i + 1..i + 1] == [];
  }

  lemma FullWritesSnoc(writes: seq<seq<byte>>, w: seq<byte>)
    requires FullWrites(writes)
    requires FullWrite(w)
    ensures FullWrites(writes + [w])
  {
    var writes' := writes + [w];
    assert forall j :: 0 <= j < |writes| ==> writes'[j] == writes[j];
  }

  /** What has been written up to `from`, followed by the numbers
      `from ..< to`, is the serialisation of the first `to` numbers. */
  lemma FlushedPrefix(xs: seq<Int64>, from: nat, to: nat)
    requires from <= to <= |xs|
    ensures Serialize(xs[..from]) + Serialize(xs[from..to]) == Serialize(xs[..to])
  {
    assert xs[..to] == xs[..from] + xs[from..to];
    SerializeAppend(xs[..from], xs[from..to]);
  }

  /** How the writer splits a file into writes: there is at least one write,
      every write but the last is a `FullWrite`, and the last ends on a line
      and holds fewer than `BufferSize` bytes. `ChunkedUnique` shows that the
      bytes of the file then decide the writes. */
  predicate Chunked(writes: seq<seq<byte>>) {
    && |writes| >= 1
    && FullWrites(writes[..|writes| - 1])
    && EndsOnLine(writes[|writes| - 1])
    && |writes[|writes| - 1]| < BufferSize
  }

  /** The last write empties the buffer: all numbers are then written, and
      the writes are chunked as `Chunked` says. */
  lemma FinalWrite(writes: seq<seq<byte>>, buffer: seq<byte>, xs: seq<Int64>, from: nat)
    requires Buffered(writes, buffer, xs, from, |xs|)
    ensures Flatten(writes + [buffer]) == Serialize(xs)
    ensures Chunked(writes + [buffer])
  {
    var writes' := writes + [buffer];
    assert writes'[..|writes|] == writes;
    FlushedPrefix(xs, from, |xs|);
    assert xs[..|xs|] == xs;
    if from < |xs| {
      SerializeEndsWithLF(xs[from..]);
    }
  }

  /** Dropping the first write of chunked writes leaves chunked writes. */
  lemma ChunkedTail(writes: seq<seq<byte>>)
    requires Chunked(writes) && |writes| >= 2
    ensures FullWrite(writes[0]) && Chunked(writes[1..])
  {
    var tail := writes[1..];
    assert tail[..|tail| - 1] == writes[..|writes| - 1][1..];
    assert writes[0] == writes[..|writes| - 1][0];
  }

  /** Two chunked splits of the same bytes are the same writes: the first
      write of each ends at the first line boundary at or after `BufferSize`
      bytes, so `Chunked` pins every flush point. */
  lemma {:induction false} ChunkedUnique(a: seq<seq<byte>>, b: seq<seq<byte>>)
    requires Chunked(a) && Chunked(b) && Flatten(a) == Flatten(b)
    ensures a == b
    decreases |a|
  {
    FlattenCons(a[0], a[1..]);
    FlattenCons(b[0], b[1..]);
    assert a == [a[0]] + a[1..] && b == [b[0]] + b[1..];
    if |a| == 1 && |b| == 1 {
      assert a == [a[0]] && b == [b[0]];
      assert Flatten(a[1..]) == [];
      assert Flatten(a) == a[0] && Flatten(b) == b[0];
    } else if |a| == 1 {
      ChunkedTail(b);
      assert false;
    } else if |b| == 1 {
      ChunkedTail(a);
      assert false;
    } else {
      ChunkedTail(a);
      ChunkedTail(b);
      var f := Flatten(a);
      assert a[0] == f[..|a[0]|] && b[0] == f[..|b[0]|];
      FirstWriteUnique(a[0], b[0], f);
      assert Flatten(a[1..]) == Flatten(b[1..]) by {
        assert f[|a[0]|..] == Flatten(a[1..]) && f[|b[0]|..] == Flatten(b[1..]);
      }
      ChunkedUnique(a[1..], b[1..]);
    }
  }

  /** Two full writes that both start the same bytes are equal. */
  lemma FirstWriteUnique(u: seq<byte>, v: seq<byte>, f: seq<byte>)
    requires FullWrite(u) && FullWrite(v)
    requires |u| <= |f| && |v| <= |f| && u == f[..|u|] && v == f[..|v|]
    ensures u == v
  {
    if |u| < |v| {
      assert false;
    } else if |v| < |u| {
      assert false;
    }
  }

  /** An empty file is made by a single empty write. */
  lemma {:induction false} FlattenEmpty(writes: seq<seq<byte>>)
    requires Flatten(writes) == []
    ensures forall j :: 0 <= j < |writes| ==> writes[j] == []
    decreases |writes|
  {
    if writes != [] {
      FlattenEmpty(writes[..|writes| - 1]);
      assert forall j :: 0 <= j < |writes| - 1 ==> writes[j] == writes[..|writes| - 1][j];
    }
  }

  /** Chunked writes that put nothing into the file are one empty write: the
      writer with no numbers still issues its final, empty write. */
  lemma ChunkedEmpty(writes: seq<seq<byte>>)
    requires Chunked(writes) && Flatten(writes) == []
    ensures writes == [[]]
  {
    FlattenEmpty(writes);
    if |writes| > 1 {
      assert false;
    }
  }

  /** The end of both writers: the last write empties the buffer, even when
      it holds nothing, and the handle is closed. */
  method Finish(handle: FileHandle, buffer: seq<byte>, ghost xs: seq<Int64>, ghost from: nat)
    requires handle.isOpen && Buffered(handle.writes, buffer, xs, from, |xs|)
    modifies handle
    ensures !handle.isOpen && handle.writes == old(handle.writes) + [buffer]
    ensures handle.Contents() == Serialize(xs)
    ensures Chunked(handle.writes)
  {
    FinalWrite(handle.writes, buffer, xs, from);
    handle.Write(buffer);
    handle.Close();
  }

  /** `writeToFile(url:array:)`: creates the file, writes every number as a
      line through a 4 KiB buffer, always issues a last write for what is
      left (even nothing), and closes the handle. As every write ends on a
      line, no record is split between two writes. */
  method WriteToFile(numbers: seq<Int64>) returns (handle: FileHandle)
    ensures fresh(handle) && !handle.isOpen
    ensures handle.Contents() == Serialize(numbers)
    ensures Chunked(handle.writes)
  {
    handle := new FileHandle();
    var buffer: seq<byte> := [];
    ghost var from: nat := 0;
    var i := 0;
    while i < |numbers|
      invariant i <= |numbers|
      invariant handle.isOpen
      invariant Buffered(handle.writes, buffer, numbers, from, i)
    {
      buffer, from := AppendRecord(handle, buffer, numbers[i], numbers, from, i);
      i := i + 1;
    }
    Finish(handle, buffer, numbers, from);
  }

  // ---------------------------------------------------------------------------
  // The progress ticker of `generateFile`

  /** `i * 100 / numbersCount`: the percentage reached at iteration `i`. */
  function Percent(i: nat, n: nat): nat
    requires n > 0
  {
    i * 100 / n
  }

  /** The percentage is `i` out of `n` scaled to 100 and rounded down. */
  lemma PercentRoundsDown(i: nat, n: nat)
    requires n > 0
    ensures Percent(i, n) * n <= i * 100 < (Percent(i, n) + 1) * n
  {
    MulSucc(Percent(i, n), n);
  }

  function LastOrZero(s: seq<nat>): nat {
    if s == [] then 0 else s[|s| - 1]
  }

  /** The values `generateFile` passes to its completion during iterations
      `0 ..< i` of its loop: a value is reported when it exceeds the
      last one reported (initially 0). */
  function Reports(n: nat, i: nat): seq<nat>
    requires n > 0
    decreases i
  {
    if i == 0 then []
    else
      var earlier := Reports(n, i - 1);
      var p := Percent(i - 1, n);
      if LastOrZero(earlier) < p then earlier + [p] else earlier
  }

  lemma PercentMonotone(i: nat, j: nat, n: nat)
    requires n > 0 && i <= j
    ensures Percent(i, n) <= Percent(j, n)
  {
    DivMonotone(i * 100, j * 100, n);
  }

  lemma PercentAtMost100(i: nat, n: nat)
    requires n > 0 && i <= n
    ensures Percent(i, n) <= 100
  {
    PercentMonotone(i, n, n);
  }

  /** The last value reported is always the current percentage. */
  lemma {:induction false} ReportsTrackPercent(n: nat, i: nat)
    requires n > 0 && i >= 1
    ensures LastOrZero(Reports(n, i)) == Percent(i - 1, n)
    decreases i
  {
    if i > 1 {
      ReportsTrackPercent(n, i - 1);
      PercentMonotone(i - 2, i - 1, n);
    }
  }

  /** Reported values strictly increase. */
  lemma {:induction false} ReportsIncrease(n: nat, i: nat)
    requires n > 0
    ensures forall a, b :: 0 <= a < b < |Reports(n, i)| ==> Reports(n, i)[a] < Reports(n, i)[b]
    ensures forall a :: 0 <= a < |Reports(n, i)| ==> Reports(n, i)[a] <= LastOrZero(Reports(n, i))
    decreases i
  {
    if i > 0 {
      ReportsIncrease(n, i - 1);
    }
  }

  /** A value is reported exactly when it is positive and is the percentage of
      some iteration so far. */
  lemma {:induction false} ReportsAreThePercentages(n: nat, i: nat)
    requires n > 0
    ensures forall v :: v in Reports(n, i) <==> v > 0 && exists j :: 0 <= j < i && Percent(j, n) == v
    decreases i
  {
    if i > 0 {
      ReportsAreThePercentages(n, i - 1);
      var earlier := Reports(n, i - 1);
      var p := Percent(i - 1, n);
      if i > 1 {
        ReportsTrackPercent(n, i - 1);
        ReportsIncrease(n, i - 1);
        PercentMonotone(i - 2, i - 1, n);
      }
      forall v | v in Reports(n, i)
        ensures v > 0 && exists j :: 0 <= j < i && Percent(j, n) == v
      {
        if v !in earlier {
          assert v == p;
        }
      }
      forall v | v > 0 && (exists j :: 0 <= j < i && Percent(j, n) == v)
        ensures v in Reports(n, i)
      {
        var j :| 0 <= j < i && Percent(j, n) == v;
        if j == i - 1 && v !in earlier {
          assert i > 1 ==> LastOrZero(earlier) == Percent(i - 2, n) < p;
        }
      }
    }
  }

  /** Over the whole loop (`for i in 0 ... numbersCount`) the reports strictly
      increase, lie in 1 ... 100, and the last is 100. */
  lemma GeneratorProgress(n: nat)
    requires n > 0
    ensures var r := Reports(n, n + 1);
      && r != [] && r[|r| - 1] == 100
      && (forall a, b :: 0 <= a < b < |r| ==> r[a] < r[b])
      && (forall a :: 0 <= a < |r| ==> 1 <= r[a] <= 100)
  {
    var r := Reports(n, n + 1);
    ReportsTrackPercent(n, n + 1);
    DivModUnique(n * 100, n, 100, 0);
    ReportsIncrease(n, n + 1);
    ReportsAreThePercentages(n, n + 1);
    forall a | 0 <= a < |r|
      ensures 1 <= r[a] <= 100
    {
      assert r[a] in r;
      var j :| 0 <= j < n + 1 && Percent(j, n) == r[a];
      PercentAtMost100(j, n);
    }
  }

  /** The progress step of iteration `i` of the generator loop: the
      percentage `i * 100 / numbersCount` is reported, and becomes
      `progress`, when it exceeds `progress`. */
  method Tick(n: nat, i: nat, progress: nat, reports: seq<nat>) returns (progress': nat, reports': seq<nat>)
    requires n > 0 && reports == Reports(n, i) && progress == LastOrZero(reports)
    ensures reports' == Reports(n, i + 1)
    ensures progress' == LastOrZero(reports')
  {
    progress', reports' := progress, reports;
    var newProgress := Percent(i, n);
    if progress < newProgress {
      reports' := reports + [newProgress];
      progress' := newProgress;
    }
  }

  /** One iteration `i` of the generator loop: write number `i` through the
      buffer, then report the percentage if it grew. */
  method GenerateStep(handle: FileHandle, buffer: seq<byte>, random: seq<Int64>, ghost from: nat, n: nat, i: nat, progress: nat, reports: seq<nat>)
    returns (buffer': seq<byte>, ghost from': nat, progress': nat, reports': seq<nat>)
    requires handle.isOpen && Buffered(handle.writes, buffer, random, from, i) && i < |random|
    requires n > 0 && reports == Reports(n, i) && progress == LastOrZero(reports)
    modifies handle
    ensures handle.isOpen && Buffered(handle.writes, buffer', random, from', i + 1)
    ensures reports' == Reports(n, i + 1) && progress' == LastOrZero(reports')
  {
    buffer', from' := AppendRecord(handle, buffer, random[i], random, from, i);
    progress', reports' := Tick(n, i, progress, reports);
  }

  /** `generateFile(size:completion:)` from the size in bytes on: the number
      count is the size divided by the length of the longest positive record
      (`"\(Int.max)\n".count`, 20), and the loop `for i in 0 ... numbersCount`
      writes one line per iteration through the same 4 KiB buffer as
      `writeToFile`, then reports `i * 100 / numbersCount` to the completion
      whenever it exceeds the last value reported. `Int.random(in: 1 ... Int.max)`
      is replaced by the values `random`. A size under 20 bytes makes the
      count 0 and the percentage a division by zero, and a count whose
      `numbersCount * 100` exceeds `Int.max` makes Swift's checked
      multiplication trap on the last iterations, so both are excluded. */
  method GenerateFile(fileSizeInBytes: nat, random: seq<Int64>) returns (handle: FileHandle, reports: seq<nat>)
    requires fileSizeInBytes >= 20
    requires fileSizeInBytes / 20 * 100 <= Int64Max
    requires |random| == fileSizeInBytes / 20 + 1
    ensures fresh(handle) && !handle.isOpen
    ensures handle.Contents() == Serialize(random)
    ensures Chunked(handle.writes)
    ensures reports == Reports(fileSizeInBytes / 20, fileSizeInBytes / 20 + 1)
  {
    ExtremeRecordLengths();
    var numbersCount := fileSizeInBytes / |Line(Int64Max)|;
    assert numbersCount == fileSizeInBytes / 20;
    handle := new FileHandle();
    var buffer: seq<byte>;
    ghost var from: nat;
    buffer, from, reports := GenerateLoop(handle, random, numbersCount);
    Finish(handle, buffer, random, from);
  }

  /** The loop `for i in 0 ... numbersCount` of `generateFile`, on a handle
      that has written nothing yet: every number goes through the buffer,
      and the reports are those of all `numbersCount + 1` iterations. */
  method GenerateLoop(handle: FileHandle, random: seq<Int64>, numbersCount: nat)
    returns (buffer: seq<byte>, ghost from: nat, reports: seq<nat>)
    requires handle.isOpen && handle.writes == []
    requires numbersCount > 0 && |random| == numbersCount + 1
    modifies handle
    ensures handle.isOpen && Buffered(handle.writes, buffer, random, from, |random|)
    ensures reports == Reports(numbersCount, numbersCount + 1)
  {
    buffer := [];
    from := 0;
    var progress: nat := 0;
    reports := [];
    var i := 0;
    while i <= numbersCount
      invariant i <= numbersCount + 1
      invariant handle.isOpen
      invariant Buffered(handle.writes, buffer, random, from, i)
      invariant reports == Reports(numbersCount, i)
      invariant progress == LastOrZero(reports)
    {
      buffer, from, progress, reports := GenerateStep(handle, buffer, random, from, numbersCount, i, progress, reports);
      i := i + 1;
    }
  }
}
