/** `URL.addingSuffix(suffix:)`: the path of a file next to the given one
    whose base name carries a suffix before the extension, as
    `dir/file.txt` with suffix `Sorted` becomes `dir/fileSorted.txt`.

    A file URL is its directory (the path components before the last one)
    and its last component, the name. Foundation's extension rule is
    modelled as: the extension is the text after the last dot of the name,
    provided that dot is neither its first nor its last character; the stem
    is the name without that dot and extension. */
module UrlExtension {
  import opened Wrappers

  datatype Url = Url(directory: seq<string>, name: string)

  /** The position of the last dot of `name`, if it has one. */
  function LastDot(name: string): (d: Option<nat>)
    ensures d.Some? ==> d.value < |name| && name[d.value] == '.'
    ensures d.Some? ==> forall j :: d.value < j < |name| ==> name[j] != '.'
    ensures d.None? ==> forall j :: 0 <= j < |name| ==> name[j] != '.'
    decreases |name|
  {
    if name == [] then None
    else if name[|name| - 1] == '.' then Some(|name| - 1)
    else LastDot(name[..|name| - 1])
  }

  /** A dot with no dot after it is the last dot. */
  lemma LastDotIs(name: string, d: nat)
    requires d < |name| && name[d] == '.' && '.' !in name[d + 1..]
    ensures LastDot(name) == Some(d)
  {
    forall j | d < j < |name|
      ensures name[j] != '.'
    {
      assert name[j] == name[d + 1..][j - d - 1];
    }
  }

  /** Whether `name` has an extension: a last dot that is neither its first
      nor its last character. */
  predicate HasExt(name: string) {
    var d := LastDot(name);
    d.Some? && 0 < d.value < |name| - 1
  }

  /** `HasExt` in terms of the name alone: some dot that is neither its
      first nor its last character has no dot after it. */
  lemma HasExtIff(name: string)
    ensures HasExt(name) <==>
      exists d :: 0 < d < |name| - 1 && name[d] == '.' && forall j :: d < j < |name| ==> name[j] != '.'
  {
    var d := LastDot(name);
    if HasExt(name) {
      assert name[d.value] == '.';
    } else {
      forall e | 0 < e < |name| - 1 && name[e] == '.'
        ensures exists j :: e < j < |name| && name[j] == '.'
      {
        assert d.Some?;
        if d.value <= e {
          assert false;
        }
        assert e < d.value && name[d.value] == '.';
      }
    }
  }

  /** `pathExtension`. */
  function Ext(name: string): (ext: string)
    ensures HasExt(name) <==> ext != ""
    ensures '.' !in ext
  {
    if HasExt(name) then
      var d := LastDot(name).value;
      var ext := name[d + 1..];
      assert forall k :: 0 <= k < |ext| ==> ext[k] == name[d + 1 + k];
      ext
    else ""
  }

  /** `deletingPathExtension().lastPathComponent`. */
  function Stem(name: string): (stem: string)
    ensures HasExt(name) ==> stem != [] && name == stem + "." + Ext(name)
    ensures !HasExt(name) ==> stem == name
  {
    if HasExt(name) then
      var d := LastDot(name).value;
      assert name == name[..d] + "." + name[d + 1..];
      name[..d]
    else name
  }

  /** `appendingPathExtension(ext)` on a name: an empty extension adds
      nothing, and a non-empty one without a dot after a non-empty name
      becomes the extension of the result, with the name as its stem. */
  function AppendingPathExtension(name: string, ext: string): (r: string)
    ensures ext == "" ==> r == name
    ensures ext != "" && name != [] && '.' !in ext ==> Stem(r) == name && Ext(r) == ext
  {
    if ext == "" then name
    else
      if name != [] && '.' !in ext then SplitsAtExtension(name, ext); name + "." + ext
      else name + "." + ext
  }

  /** `addingSuffix(suffix:)`. */
  function AddingSuffix(u: Url, suffix: string): (r: Url)
    ensures r.directory == u.directory
  {
    Url(u.directory, AppendingPathExtension(Stem(u.name) + suffix, Ext(u.name)))
  }

  /** No dot other than possibly a leading one, the dot of a hidden file. */
  predicate NoInnerDot(name: string) {
    forall i :: 0 < i < |name| ==> name[i] != '.'
  }

  /** A stem, suffix and extension joined by a dot split back into the
      stem followed by the suffix, and the extension. */
  lemma SplitsAtExtension(base: string, ext: string)
    requires base != [] && ext != [] && '.' !in ext
    ensures Stem(base + "." + ext) == base && Ext(base + "." + ext) == ext
  {
    var r := base + "." + ext;
    assert r[|base| + 1..] == ext;
    LastDotIs(r, |base|);
    assert r[..|base|] == base;
  }

  /** A suffix without a dot after a name without an inner dot adds no
      extension. */
  lemma NoExtensionAfterSuffix(name: string, suffix: string)
    requires '.' !in suffix && NoInnerDot(name)
    ensures !HasExt(name + suffix)
  {
    var r := name + suffix;
    forall i | 0 < i < |r|
      ensures r[i] != '.'
    {
      if i < |name| {
        assert r[i] == name[i];
      } else {
        assert r[i] == suffix[i - |name|];
      }
    }
    if r != [] && r[0] == '.' {
      assert '.' !in r[1..] by {
        forall i | 0 <= i < |r[1..]|
          ensures r[1..][i] != '.'
        {
          assert r[1..][i] == r[i + 1];
        }
      }
      LastDotIs(r, 0);
    }
  }

  /** The result lies in the same directory, keeps the extension, and its
      stem is the old stem followed by the suffix. A name with an extension
      needs nothing more; for a name without one, the suffix must hold no dot
      and the name no dot after its first character (otherwise the suffix
      could itself become an extension). */
  lemma AddingSuffixParts(u: Url, suffix: string)
    requires HasExt(u.name) || ('.' !in suffix && NoInnerDot(u.name))
    ensures AddingSuffix(u, suffix).directory == u.directory
    ensures Ext(AddingSuffix(u, suffix).name) == Ext(u.name)
    ensures Stem(AddingSuffix(u, suffix).name) == Stem(u.name) + suffix
  {
    if HasExt(u.name) {
      SplitsAtExtension(Stem(u.name) + suffix, Ext(u.name));
    } else {
      NoExtensionAfterSuffix(u.name, suffix);
    }
  }

  /** `dir/file.txt` with suffix `Sorted` is `dir/fileSorted.txt`. */
  lemma AddingSuffixExample()
    ensures AddingSuffix(Url(["dir"], "file.txt"), "Sorted") == Url(["dir"], "fileSorted.txt")
  {
    SplitsAtExtension("file", "txt");
    assert "file" + "." + "txt" == "file.txt";
    assert "file" + "Sorted" + "." + "txt" == "fileSorted.txt";
  }

  /** An empty suffix leaves the URL unchanged. */
  lemma AddingEmptySuffix(u: Url)
    ensures AddingSuffix(u, "") == u
  {
    assert Stem(u.name) + "" == Stem(u.name);
  }

  /** Adding `s1` and then `s2` is adding `s1 + s2`, under the conditions
      of `AddingSuffixParts` for the first suffix. */
  lemma AddingSuffixCompose(u: Url, s1: string, s2: string)
    requires HasExt(u.name) || ('.' !in s1 && NoInnerDot(u.name))
    ensures AddingSuffix(AddingSuffix(u, s1), s2) == AddingSuffix(u, s1 + s2)
  {
    AddingSuffixParts(u, s1);
    assert Stem(u.name) + s1 + s2 == Stem(u.name) + (s1 + s2);
  }

  /** Why the conditions are needed: a name ending in a dot has no
      extension, but a suffix after that dot becomes one, and adding a
      second suffix then lands before it. */
  lemma TrailingDotExample()
    ensures AddingSuffix(Url([], "file."), "A").name == "file.A"
    ensures Ext("file.A") == "A"
    ensures AddingSuffix(AddingSuffix(Url([], "file."), "A"), "B") != AddingSuffix(Url([], "file."), "AB")
  {
    var n0, n1 := "file.", "file.A";
    assert n0[5..] == [];
    LastDotIs(n0, 4);
    assert !HasExt(n0);
    assert n1[5..] == "A";
    LastDotIs(n1, 4);
    assert Stem(n1) == "file" && Ext(n1) == "A";
    var n2 := "file.AB";
    assert n2[5..] == "AB";
    LastDotIs(n2, 4);
    assert AddingSuffix(Url([], n0), "AB").name == n2;
    assert AddingSuffix(Url([], n1), "B").name == "fileB.A";
    assert n2[4] != "fileB.A"[4];
  }
}
