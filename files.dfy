// The file system as the reconstruction sees it: a map from paths to byte
// contents, the `cat` primitive (append secondaries to the first file, then
// delete them) and the final rename.

module Files {

  newtype byte = x: int | 0 <= x < 256

  type Path = string

  type FileMap = map<Path, seq<byte>>

  /** The result of an operation on the file system: the new state, or the
      path whose absence made the operation fail. */
  datatype Outcome = Ok(fs: FileMap) | Err(path: Path)

  /** A real file system never holds a file at the empty path. */
  predicate NoEmptyPath(fs: FileMap)
  {
    "" !in fs
  }

  /** No path occurs twice in `s`. */
  predicate Distinct(s: seq<Path>)
  {
    forall i, j :: 0 <= i < j < |s| ==> s[i] != s[j]
  }

  /** `s` without its empty placeholders. */
  function NonBlank(s: seq<Path>): (r: seq<Path>)
    ensures forall i :: 0 <= i < |r| ==> r[i] != ""
  {
    if s == [] then []
    else (if s[0] == "" then [] else [s[0]]) + NonBlank(s[1..])
  }

  /** Every real entry of `s`, and nothing else, is in its non-blank part. */
  lemma {:induction false} NonBlankMembers(s: seq<Path>, x: Path)
    ensures x in NonBlank(s) <==> x != "" && x in s
  {
    if s != [] {
      NonBlankMembers(s[1..], x);
      assert s == [s[0]] + s[1..];
    }
  }

  lemma {:induction false} NonBlankAppend(a: seq<Path>, b: seq<Path>)
    ensures NonBlank(a + b) == NonBlank(a) + NonBlank(b)
  {
    if a != [] {
      assert (a + b)[1..] == a[1..] + b;
      NonBlankAppend(a[1..], b);
    } else {
      assert a + b == b;
    }
  }

  /** A list without placeholders is its own non-blank part. */
  lemma {:induction false} NonBlankClean(s: seq<Path>)
    requires forall i :: 0 <= i < |s| ==> s[i] != ""
    ensures NonBlank(s) == s
  {
    if s != [] {
      NonBlankClean(s[1..]);
    }
  }

  /** The bytes of every non-empty, existing path of `paths`, in list order. */
  function Gather(fs: FileMap, paths: seq<Path>): seq<byte>
  {
    if paths == [] then []
    else (if paths[0] != "" && paths[0] in fs then fs[paths[0]] else []) + Gather(fs, paths[1..])
  }

  /** One turn of the loop of `cat`: a placeholder or a missing file is
      skipped; otherwise its bytes go to the end of the leader and it is
      removed. Once the leader path itself has been removed, appends reach a
      file nobody can name any more and are lost. */
  function CatStep(fs: FileMap, leader: Path, f: Path): FileMap
  {
    if f == "" || f !in fs then fs
    else (if leader in fs then fs[leader := fs[leader] + fs[f]] else fs) - {f}
  }

  /** The loop of `cat` over the secondary entries, in list order. */
  function CatLoop(fs: FileMap, leader: Path, rest: seq<Path>): FileMap
  {
    if rest == [] then fs else CatLoop(CatStep(fs, leader, rest[0]), leader, rest[1..])
  }

  /** `cat(files)`: nothing to do for at most one entry or an empty first
      entry; an error, with nothing changed, when the first file cannot be
      opened for appending; otherwise the loop over the other entries. */
  function CatSpec(fs: FileMap, files: seq<Path>): Outcome
  {
    if |files| <= 1 || files[0] == "" then Ok(fs)
    else if files[0] !in fs then Err(files[0])
    else Ok(CatLoop(fs, files[0], files[1..]))
  }

  /** `rename(from, to)`: fails when the source does not exist or the target
      is the empty path; otherwise the bytes move to `to`, replacing any file
      there. Renaming a file to itself changes nothing. */
  function RenameSpec(fs: FileMap, from: Path, to: Path): Outcome
  {
    if from !in fs || to == "" then Err(if from !in fs then from else to)
    else Ok((fs - {from})[to := fs[from]])
  }

  // ---------------------------------------------------------------------
  // The file system object

  class FileSystem {
    var contents: FileMap

    constructor (initial: FileMap)
      ensures contents == initial
    {
      contents := initial;
    }

    /** Appends every later entry of `files` to `files[0]` and deletes it. */
    method Cat(files: seq<Path>) returns (ok: bool)
      modifies this
      ensures ok == CatSpec(old(contents), files).Ok?
      ensures ok ==> contents == CatSpec(old(contents), files).fs
      ensures !ok ==> contents == old(contents)
      ensures (|files| <= 1 || files[0] == "") ==> ok && contents == old(contents)
    {
      if |files| <= 1 {
        return true;
      }
      if files[0] == "" {
        return true;
      }
      if files[0] !in contents {
        return false;
      }
      var leader := files[0];
      for i := 1 to |files|
        invariant CatLoop(contents, leader, files[i..]) == CatLoop(old(contents), leader, files[1..])
      {
        var f := files[i];
        assert files[i..] == [f] + files[i + 1..];
        if f != "" && f in contents {
          var data := contents[f];
          if leader in contents {
            contents := contents[leader := contents[leader] + data];
          }
          contents := contents - {f};
        }
      }
      ok := true;
    }

    /** Moves the file at `from` to `to`. */
    method Rename(from: Path, to: Path) returns (ok: bool)
      modifies this
      ensures ok == RenameSpec(old(contents), from, to).Ok?
      ensures ok ==> contents == RenameSpec(old(contents), from, to).fs
      ensures !ok ==> contents == old(contents)
    {
      if from !in contents || to == "" {
        return false;
      }
      var data := contents[from];
      contents := (contents - {from})[to := data];
      ok := true;
    }
  }

  // ---------------------------------------------------------------------
  // Properties of cat

  lemma {:induction false} GatherAppend(fs: FileMap, a: seq<Path>, b: seq<Path>)
    ensures Gather(fs, a + b) == Gather(fs, a) + Gather(fs, b)
  {
    if a != [] {
      assert (a + b)[1..] == a[1..] + b;
      GatherAppend(fs, a[1..], b);
    } else {
      assert a + b == b;
    }
  }

  /** Gather reads only the paths it is given. */
  lemma {:induction false} GatherAgree(fs1: FileMap, fs2: FileMap, paths: seq<Path>)
    requires forall p :: p in paths && p != "" ==> (p in fs1 <==> p in fs2)
    requires forall p :: p in paths && p != "" && p in fs1 ==> fs1[p] == fs2[p]
    ensures Gather(fs1, paths) == Gather(fs2, paths)
  {
    if paths != [] {
      GatherAgree(fs1, fs2, paths[1..]);
    }
  }

  lemma {:induction false} CatLoopAppend(fs: FileMap, leader: Path, a: seq<Path>, b: seq<Path>)
    ensures CatLoop(fs, leader, a + b) == CatLoop(CatLoop(fs, leader, a), leader, b)
  {
    if a != [] {
      assert (a + b)[1..] == a[1..] + b;
      CatLoopAppend(CatStep(fs, leader, a[0]), leader, a[1..], b);
    } else {
      assert a + b == b;
    }
  }

  /** Placeholders in the list change nothing. */
  lemma {:induction false} CatLoopSkipsBlanks(fs: FileMap, leader: Path, rest: seq<Path>)
    ensures CatLoop(fs, leader, rest) == CatLoop(fs, leader, NonBlank(rest))
  {
    if rest != [] {
      CatLoopSkipsBlanks(CatStep(fs, leader, rest[0]), leader, rest[1..]);
      if rest[0] != "" {
        assert NonBlank(rest) == [rest[0]] + NonBlank(rest[1..]);
      } else {
        assert NonBlank(rest) == NonBlank(rest[1..]);
      }
    }
  }

  /** Whatever the list, cat removes exactly the listed secondary paths and
      touches no path other than those and the leader. */
  lemma {:induction false} CatLoopFrame(fs: FileMap, leader: Path, rest: seq<Path>)
    requires NoEmptyPath(fs)
    ensures NoEmptyPath(CatLoop(fs, leader, rest))
    ensures CatLoop(fs, leader, rest).Keys == fs.Keys - set p | p in rest
    ensures forall p :: p in fs && p !in rest && p != leader ==> CatLoop(fs, leader, rest)[p] == fs[p]
  {
    if rest != [] {
      var fs1 := CatStep(fs, leader, rest[0]);
      CatLoopFrame(fs1, leader, rest[1..]);
      assert (set p | p in rest) == {rest[0]} + set p | p in rest[1..];
    }
  }

  /** The closed form of the loop of cat when the leader exists, is not among
      the secondaries and no secondary is listed twice: the leader ends with
      its old bytes followed by the bytes of every existing secondary, and
      every listed secondary is gone. */
  lemma {:induction false} CatLoopClosedForm(fs: FileMap, leader: Path, rest: seq<Path>)
    requires NoEmptyPath(fs) && leader in fs && leader !in rest && Distinct(NonBlank(rest))
    ensures CatLoop(fs, leader, rest) == (fs - set p | p in rest)[leader := fs[leader] + Gather(fs, rest)]
  {
    if rest != [] {
      var r := rest[0];
      var fs1 := CatStep(fs, leader, r);
      DistinctNonBlankTail(rest);
      CatLoopClosedForm(fs1, leader, rest[1..]);
      GatherAgree(fs1, fs, rest[1..]);
      var later := set p | p in rest[1..];
      assert (set p | p in rest) == {r} + later;
      if r == "" || r !in fs {
        assert fs1 == fs;
        assert Gather(fs, rest) == Gather(fs, rest[1..]);
        assert fs - ({r} + later) == fs - later;
      } else {
        AbsorbOne(fs, leader, r, later, Gather(fs, rest[1..]));
      }
    } else {
      assert (set p | p in rest) == {};
      assert Gather(fs, rest) == [];
      assert fs[leader] + Gather(fs, rest) == fs[leader];
      assert fs[leader := fs[leader]] == fs;
    }
  }

  lemma DistinctNonBlankTail(rest: seq<Path>)
    requires rest != [] && Distinct(NonBlank(rest))
    ensures Distinct(NonBlank(rest[1..]))
    ensures rest[0] != "" ==> rest[0] !in rest[1..]
  {
    if rest[0] != "" {
      DistinctNonBlankDrop(rest);
      LeaderNotLater(rest);
    } else {
      assert NonBlank(rest) == NonBlank(rest[1..]);
    }
  }

  lemma DistinctNonBlankDrop(rest: seq<Path>)
    requires rest != [] && rest[0] != "" && Distinct(NonBlank(rest))
    ensures Distinct(NonBlank(rest[1..]))
  {
    var nb := NonBlank(rest);
    assert nb == [rest[0]] + NonBlank(rest[1..]);
    assert nb[1..] == NonBlank(rest[1..]);
    DistinctDrop(nb);
  }

  lemma DistinctDrop(s: seq<Path>)
    requires s != [] && Distinct(s)
    ensures Distinct(s[1..])
  {
    forall i, j | 0 <= i < j < |s| - 1
      ensures s[1..][i] != s[1..][j]
    {
      assert s[1..][i] == s[i + 1] && s[1..][j] == s[j + 1];
    }
  }

  lemma LeaderNotLater(rest: seq<Path>)
    requires rest != [] && rest[0] != "" && Distinct(NonBlank(rest))
    ensures rest[0] !in rest[1..]
  {
    var nb, tail := NonBlank(rest), NonBlank(rest[1..]);
    assert nb == [rest[0]] + tail;
    assert nb[0] == rest[0];
    forall j | 0 <= j < |tail|
      ensures tail[j] != rest[0]
    {
      assert tail[j] == nb[j + 1];
    }
    NonBlankMembers(rest[1..], rest[0]);
  }

  /** One existing secondary absorbed by the leader, seen from the end state. */
  lemma AbsorbOne(fs: FileMap, leader: Path, r: Path, later: set<Path>, tail: seq<byte>)
    requires leader in fs && r in fs && r != leader && leader !in later
    ensures ((fs[leader := fs[leader] + fs[r]] - {r}) - later)[leader := fs[leader] + fs[r] + tail]
         == (fs - ({r} + later))[leader := fs[leader] + (fs[r] + tail)]
  {
    var lhs := ((fs[leader := fs[leader] + fs[r]] - {r}) - later)[leader := fs[leader] + fs[r] + tail];
    var rhs := (fs - ({r} + later))[leader := fs[leader] + (fs[r] + tail)];
    assert lhs.Keys == rhs.Keys;
    assert fs[leader] + fs[r] + tail == fs[leader] + (fs[r] + tail);
    forall p | p in lhs
      ensures lhs[p] == rhs[p]
    {
    }
  }

  /** Everything the source promises about one call of cat. */
  lemma CatContract(fs: FileMap, files: seq<Path>)
    requires NoEmptyPath(fs)
    ensures |files| <= 1 || files[0] == "" ==> CatSpec(fs, files) == Ok(fs)
    ensures |files| > 1 && files[0] != "" && files[0] !in fs ==> CatSpec(fs, files) == Err(files[0])
    ensures |files| > 1 && files[0] != "" && files[0] in fs ==>
      CatSpec(fs, files).Ok? &&
      CatSpec(fs, files).fs.Keys == fs.Keys - (set p | p in files[1..]) &&
      (forall p :: p in fs && p !in files ==> CatSpec(fs, files).fs[p] == fs[p])
    ensures (|files| > 1 && files[0] != "" && files[0] in fs &&
             files[0] !in files[1..] && Distinct(NonBlank(files[1..]))) ==>
      CatSpec(fs, files) == Ok((fs - set p | p in files[1..])[files[0] := fs[files[0]] + Gather(fs, files[1..])])
  {
    if |files| > 1 && files[0] != "" && files[0] in fs {
      CatLoopFrame(fs, files[0], files[1..]);
      if files[0] !in files[1..] && Distinct(NonBlank(files[1..])) {
        CatLoopClosedForm(fs, files[0], files[1..]);
      }
    }
  }

  /** The rename moves the bytes and frees the source path. */
  lemma RenameContract(fs: FileMap, from: Path, to: Path)
    ensures from in fs && to != "" ==>
      RenameSpec(fs, from, to).Ok? &&
      RenameSpec(fs, from, to).fs.Keys == fs.Keys - {from} + {to} &&
      RenameSpec(fs, from, to).fs[to] == fs[from] &&
      (forall p :: p in fs && p != from && p != to ==> RenameSpec(fs, from, to).fs[p] == fs[p])
    ensures from !in fs || to == "" ==> RenameSpec(fs, from, to).Err?
    ensures from in fs && from != "" ==> RenameSpec(fs, from, from) == Ok(fs)
  {
    if from in fs {
      assert (fs - {from})[from := fs[from]] == fs;
    }
  }
}
