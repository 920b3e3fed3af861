/** Sequences of sequences laid end to end: the bytes a log of writes puts
    into a file, and the numbers a list of runs holds. */
module Seqs {

  /** The parts one after the other: everything a sequence of writes puts
      into a file, in order. */
  function Flatten<T>(parts: seq<seq<T>>): seq<T>
    decreases |parts|
  {
    if parts == [] then [] else Flatten(parts[..|parts| - 1]) + parts[|parts| - 1]
  }

  /** One more part at the end. */
  lemma FlattenSnoc<T>(parts: seq<seq<T>>, p: seq<T>)
    ensures Flatten(parts + [p]) == Flatten(parts) + p
  {
    assert (parts + [p])[..|parts|] == parts;
  }

  /** One more part at the front. */
  lemma {:induction false} FlattenCons<T>(p: seq<T>, parts: seq<seq<T>>)
    ensures Flatten([p] + parts) == p + Flatten(parts)
    decreases |parts|
  {
    if parts != [] {
      var init, last := parts[..|parts| - 1], parts[|parts| - 1];
      assert [p] + parts == ([p] + init) + [last];
      assert parts == init + [last];
      FlattenSnoc([p] + init, last);
      FlattenSnoc(init, last);
      FlattenCons(p, init);
    } else {
      assert [p] + parts == [] + [p];
      FlattenSnoc([], p);
    }
  }
}
