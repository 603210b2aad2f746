// Running the merge tree of one logical file and renaming the result.
// The tasks of the tree run as threads in the program; here they run one
// after the other, each task after all of its children (post-order), which
// is one order the joins allow.

module Reconstruction {
  import opened Files
  import opened MergeTree

  // ---------------------------------------------------------------------
  // Running a tree

  /** Runs the children of `t` in order, then the `cat` of `t`. An `Err`
      is a `cat` that can never succeed: the program retries it every few
      seconds for ever. */
  function RunTree(fs: FileMap, t: Task): Outcome
    decreases t
  {
    match RunChildren(fs, t.children)
    case Err(p) => Err(p)
    case Ok(fs1) => CatSpec(fs1, t.files)
  }

  function RunChildren(fs: FileMap, cs: seq<Task>): Outcome
    decreases cs
  {
    if cs == [] then Ok(fs)
    else
      match RunTree(fs, cs[0])
      case Err(p) => Err(p)
      case Ok(fs1) => RunChildren(fs1, cs[1..])
  }

  /** The effect of merging one range of fragments into its first one. */
  function Merged(fs: FileMap, seg: seq<Path>): FileMap
  {
    if seg == [] then fs else CatLoop(fs, seg[0], seg[1..])
  }

  /** The ranges of a sequence of tasks merged one after the other. */
  function MergedAll(fs: FileMap, cs: seq<Task>): FileMap
    decreases cs
  {
    if cs == [] then fs else MergedAll(Merged(fs, Frags(cs[0])), cs[1..])
  }

  /** Every entry of `s` is a file of `fs`. */
  predicate Present(fs: FileMap, s: seq<Path>)
  {
    forall i :: 0 <= i < |s| ==> s[i] in fs
  }

  /** `a` and `b` share no path. */
  predicate Disjoint(a: seq<Path>, b: seq<Path>)
  {
    forall i :: 0 <= i < |a| ==> a[i] !in b
  }

  /** The fragments a reconstruction starts from: real, distinct, existing
      paths. */
  predicate Ready(fs: FileMap, s: seq<Path>)
  {
    NoEmptyPath(fs) && Present(fs, s) && Distinct(s)
  }

  /** The two halves of ready fragments are ready and share no path. */
  lemma ReadySplit(fs: FileMap, a: seq<Path>, b: seq<Path>)
    requires Ready(fs, a + b)
    ensures Ready(fs, a) && Ready(fs, b) && Disjoint(a, b)
  {
    forall i | 0 <= i < |a|
      ensures a[i] == (a + b)[i]
    {
    }
    forall i | 0 <= i < |b|
      ensures b[i] == (a + b)[|a| + i]
    {
    }
  }

  // ---------------------------------------------------------------------
  // Steps that touch different files commute

  /** Two `cat` steps on four different paths can be swapped. */
  lemma StepsCommute(fs: FileMap, l1: Path, f1: Path, l2: Path, f2: Path)
    requires f1 != f2 && f1 != l2 && f2 != l1 && l1 != l2
    ensures CatStep(CatStep(fs, l1, f1), l2, f2) == CatStep(CatStep(fs, l2, f2), l1, f1)
  {
  }

  /** A `cat` step commutes with a `cat` loop over other paths. */
  lemma {:induction false} StepLoopCommute(fs: FileMap, l1: Path, f1: Path, l2: Path, t: seq<Path>)
    requires f1 != l2 && l1 != l2 && f1 !in t && l1 !in t
    ensures CatStep(CatLoop(fs, l2, t), l1, f1) == CatLoop(CatStep(fs, l1, f1), l2, t)
    decreases |t|
  {
    if t != [] {
      StepsCommute(fs, l2, t[0], l1, f1);
      assert forall p :: p in t[1..] ==> p in t;
      StepLoopCommute(CatStep(fs, l2, t[0]), l1, f1, l2, t[1..]);
    }
  }

  lemma StepMergedCommute(fs: FileMap, l1: Path, f1: Path, seg: seq<Path>)
    requires f1 !in seg && l1 !in seg
    ensures CatStep(Merged(fs, seg), l1, f1) == Merged(CatStep(fs, l1, f1), seg)
  {
    if seg != [] {
      assert forall p :: p in seg[1..] ==> p in seg;
      StepLoopCommute(fs, l1, f1, seg[0], seg[1..]);
    }
  }

  /** A `cat` step commutes with the merges of tasks over other paths. */
  lemma {:induction false} StepMergedAllCommute(fs: FileMap, l1: Path, f1: Path, cs: seq<Task>)
    requires f1 !in FragsAll(cs) && l1 !in FragsAll(cs)
    ensures CatStep(MergedAll(fs, cs), l1, f1) == MergedAll(CatStep(fs, l1, f1), cs)
    decreases |cs|
  {
    if cs != [] {
      assert FragsAll(cs) == Frags(cs[0]) + FragsAll(cs[1..]);
      StepMergedCommute(fs, l1, f1, Frags(cs[0]));
      StepMergedAllCommute(Merged(fs, Frags(cs[0])), l1, f1, cs[1..]);
    }
  }

  // ---------------------------------------------------------------------
  // Appending a merged range equals appending its members

  /** Appending `m`, which already received `x`, to `l` equals appending
      `m` and then `x` to `l`. */
  lemma AbsorbStep(fs: FileMap, l: Path, m: Path, x: Path)
    requires l in fs && m in fs && x in fs && m != "" && x != ""
    requires l != m && l != x && m != x
    ensures CatStep(CatStep(fs, m, x), l, m) == CatStep(CatStep(fs, l, m), l, x)
  {
    var both := (fs - {m, x})[l := fs[l] + fs[m] + fs[x]];
    var fs1 := fs[m := fs[m] + fs[x]] - {x};
    assert CatStep(fs, m, x) == fs1;
    assert CatStep(fs1, l, m) == fs1[l := fs[l] + (fs[m] + fs[x])] - {m};
    assert fs[l] + (fs[m] + fs[x]) == fs[l] + fs[m] + fs[x];
    assert (fs1[l := fs[l] + (fs[m] + fs[x])] - {m}).Keys == both.Keys;
    assert fs1[l := fs[l] + (fs[m] + fs[x])] - {m} == both;
    var fs2 := fs[l := fs[l] + fs[m]] - {m};
    assert CatStep(fs, l, m) == fs2;
    assert CatStep(fs2, l, x) == fs2[l := fs[l] + fs[m] + fs[x]] - {x};
    assert fs2[l := fs[l] + fs[m] + fs[x]] - {x} == both;
  }

  /** Appending `m` to `l` after `t` went into `m` is the same as appending
      `m`, then each of `t`, to `l`. */
  lemma {:induction false} AbsorbLoop(fs: FileMap, l: Path, m: Path, t: seq<Path>)
    requires l in fs && m in fs && m != "" && l != m && l !in t && m !in t
    ensures CatStep(CatLoop(fs, m, t), l, m) == CatLoop(CatStep(fs, l, m), l, t)
    decreases |t|
  {
    if t != [] {
      var x := t[0];
      var fs1 := CatStep(fs, m, x);
      assert forall p :: p in t[1..] ==> p in t;
      AbsorbLoop(fs1, l, m, t[1..]);
      if x != "" && x in fs {
        AbsorbStep(fs, l, m, x);
      }
    }
  }

  /** Appending the leader of a merged range equals appending the whole
      range. */
  lemma AbsorbMerged(fs: FileMap, l: Path, seg: seq<Path>)
    requires l in fs && l !in seg && Present(fs, seg) && Distinct(seg)
    requires forall i :: 0 <= i < |seg| ==> seg[i] != ""
    ensures CatStep(Merged(fs, seg), l, if seg == [] then "" else seg[0]) == CatLoop(fs, l, seg)
  {
    if seg != [] {
      assert forall i :: 0 <= i < |seg[1..]| ==> seg[1..][i] == seg[i + 1];
      AbsorbLoop(fs, l, seg[0], seg[1..]);
    }
  }

  /** Merging a range keeps every file outside it but its first member's
      secondaries, and keeps the file system free of the empty path. */
  lemma MergedFrame(fs: FileMap, seg: seq<Path>)
    requires NoEmptyPath(fs)
    ensures NoEmptyPath(Merged(fs, seg))
    ensures forall p :: p in fs && p !in seg ==> p in Merged(fs, seg) && Merged(fs, seg)[p] == fs[p]
    ensures seg != [] && seg[0] in fs && seg[0] !in seg[1..] ==> seg[0] in Merged(fs, seg)
  {
    if seg != [] {
      CatLoopFrame(fs, seg[0], seg[1..]);
    }
  }

  lemma {:induction false} MergedAllFrame(fs: FileMap, cs: seq<Task>)
    requires NoEmptyPath(fs)
    ensures NoEmptyPath(MergedAll(fs, cs))
    ensures forall p :: p in fs && p !in FragsAll(cs) ==> p in MergedAll(fs, cs)
    decreases |cs|
  {
    if cs != [] {
      assert FragsAll(cs) == Frags(cs[0]) + FragsAll(cs[1..]);
      MergedFrame(fs, Frags(cs[0]));
      MergedAllFrame(Merged(fs, Frags(cs[0])), cs[1..]);
    }
  }

  /** Merging each task's range and then appending the tasks' leaders to
      `l` is the same as appending every fragment to `l`. */
  lemma {:induction false} AbsorbChildren(fs: FileMap, l: Path, cs: seq<Task>)
    requires Ready(fs, FragsAll(cs)) && l in fs && l !in FragsAll(cs)
    requires forall i :: 0 <= i < |cs| ==> Shaped(cs[i])
    ensures CatLoop(MergedAll(fs, cs), l, Leaders(cs)) == CatLoop(fs, l, FragsAll(cs))
    decreases |cs|
  {
    if cs != [] {
      var c, rest := cs[0], cs[1..];
      var s := Frags(c);
      assert FragsAll(cs) == s + FragsAll(rest);
      ReadySplit(fs, s, FragsAll(rest));
      ShapedLeader(c);
      var m := Leader(c);
      assert m == (if s == [] then "" else s[0]);
      assert m !in FragsAll(rest);
      assert Leaders(cs) == [m] + Leaders(rest);
      StepMergedAllCommute(Merged(fs, s), l, m, rest);
      AbsorbMerged(fs, l, s);
      var z := CatLoop(fs, l, s);
      CatLoopFrame(fs, l, s);
      AbsorbChildren(z, l, rest);
      CatLoopAppend(fs, l, s, FragsAll(rest));
    } else {
      assert Leaders(cs) == [] && FragsAll(cs) == [];
    }
  }

  // ---------------------------------------------------------------------
  // A well-formed tree merges its range

  /** A leaf merges its real entries into its first entry. */
  lemma LeafMerged(fs: FileMap, t: Task)
    requires t.children == [] && Shaped(t) && Ready(fs, Frags(t))
    ensures RunTree(fs, t) == Ok(Merged(fs, Frags(t)))
  {
    assert RunChildren(fs, t.children) == Ok(fs);
    var f := t.files;
    if |f| > 1 {
      assert NonBlank(f) == [f[0]] + NonBlank(f[1..]);
      CatLoopSkipsBlanks(fs, f[0], f[1..]);
    } else if |f| == 1 {
      assert NonBlank(f) == [f[0]] + NonBlank([]);
    }
  }

  /** What merging the first child's range leaves for the others: their
      fragments are still ready, and the first fragment stays in place
      until the parent's `cat`. */
  lemma FirstChildMerged(fs: FileMap, cs: seq<Task>)
    requires cs != [] && Frags(cs[0]) != []
    requires Ready(fs, FragsAll(cs))
    ensures var s0 := Frags(cs[0]);
      FragsAll(cs) == s0 + FragsAll(cs[1..]) &&
      s0[0] !in s0[1..] && s0[0] !in FragsAll(cs[1..]) && s0[0] in Merged(fs, s0) &&
      Ready(Merged(fs, s0), FragsAll(cs[1..])) && s0[0] in MergedAll(fs, cs)
  {
    var s0, rest := Frags(cs[0]), cs[1..];
    assert FragsAll(cs) == s0 + FragsAll(rest);
    ReadySplit(fs, s0, FragsAll(rest));
    assert s0[0] !in s0[1..];
    MergedFrame(fs, s0);
    MergedAllFrame(Merged(fs, s0), rest);
  }

  lemma DropFirstAppend<T>(a: seq<T>, b: seq<T>)
    requires a != []
    ensures (a + b)[1..] == a[1..] + b
  {
  }

  /** Once the children have merged their ranges, the `cat` of their
      leaders into the first leader completes the merge of the parent's
      range. */
  lemma ParentCat(fs: FileMap, cs: seq<Task>)
    requires cs != [] && Frags(cs[0]) != []
    requires forall i :: 0 <= i < |cs| ==> Shaped(cs[i])
    requires Ready(fs, FragsAll(cs))
    ensures CatSpec(MergedAll(fs, cs), Leaders(cs)) == Ok(Merged(fs, FragsAll(cs)))
  {
    var s0, rest := Frags(cs[0]), cs[1..];
    var l := s0[0];
    FirstChildMerged(fs, cs);
    var fs0 := Merged(fs, s0);
    assert Leaders(cs) == [l] + Leaders(rest) by {
      ShapedLeader(cs[0]);
    }
    assert MergedAll(fs, cs) == MergedAll(fs0, rest);
    if rest != [] {
      assert CatSpec(MergedAll(fs, cs), Leaders(cs)) == Ok(CatLoop(MergedAll(fs0, rest), l, Leaders(rest)));
      assert CatLoop(MergedAll(fs0, rest), l, Leaders(rest)) == CatLoop(fs0, l, FragsAll(rest)) by {
        AbsorbChildren(fs0, l, rest);
      }
      assert CatLoop(fs0, l, FragsAll(rest)) == Merged(fs, FragsAll(cs)) by {
        CatLoopAppend(fs, l, s0[1..], FragsAll(rest));
        DropFirstAppend(s0, FragsAll(rest));
      }
    } else {
      assert FragsAll(cs) == s0;
    }
  }

  /** Running a well-formed task over ready fragments merges its whole
      range into its first fragment and never blocks. */
  lemma {:induction false} RunTreeMerged(fs: FileMap, t: Task)
    requires Shaped(t) && Ready(fs, Frags(t))
    ensures RunTree(fs, t) == Ok(Merged(fs, Frags(t)))
    decreases t, 1
  {
    if t.children == [] {
      LeafMerged(fs, t);
    } else {
      assert t.files == Leaders(t.children) && Frags(t) == FragsAll(t.children);
      assert forall i :: 0 <= i < |t.children| ==> Shaped(t.children[i]);
      RunChildrenMerged(fs, t.children);
      ParentCat(fs, t.children);
      assert RunChildren(fs, t.children) == Ok(MergedAll(fs, t.children));
      assert RunTree(fs, t) == CatSpec(MergedAll(fs, t.children), t.files);
      assert RunTree(fs, t) == Ok(Merged(fs, FragsAll(t.children)));
    }
  }

  lemma {:induction false} RunChildrenMerged(fs: FileMap, cs: seq<Task>)
    requires forall i :: 0 <= i < |cs| ==> Shaped(cs[i])
    requires Ready(fs, FragsAll(cs))
    ensures RunChildren(fs, cs) == Ok(MergedAll(fs, cs))
    decreases cs, 0
  {
    if cs != [] {
      var s := Frags(cs[0]);
      assert FragsAll(cs) == s + FragsAll(cs[1..]);
      ReadySplit(fs, s, FragsAll(cs[1..]));
      RunTreeMerged(fs, cs[0]);
      MergedFrame(fs, s);
      RunChildrenMerged(Merged(fs, s), cs[1..]);
    }
  }

  // ---------------------------------------------------------------------
  // One reconstruction

  /** How the reconstruction of one logical file ends: the new file system;
      a `cat` that the program would retry for ever; or a final rename that
      fails (a panic of that file's thread). */
  datatype Finish = Done(fs: FileMap) | Hung | RenameFailed

  /** `reconstruct(file, fragments)`: run the merge tree, then rename the
      root's leader to `file`. */
  function ReconstructSpec(fs: FileMap, file: Path, fragments: seq<Path>, b: nat): Finish
    requires b >= 2 && |fragments| >= 1 && fragments[0] != ""
  {
    var root := MergeTreeOf(fragments, b);
    match RunTree(fs, root)
    case Err(_) => Hung
    case Ok(fs1) =>
      match RenameSpec(fs1, Leader(root), file)
      case Err(_) => RenameFailed
      case Ok(fs2) => Done(fs2)
  }

  /** The root task merges every fragment into the first one. */
  lemma RootMerges(fs: FileMap, fragments: seq<Path>, b: nat)
    requires b >= 2 && |fragments| >= 1 && Ready(fs, fragments)
    ensures fragments[0] != ""
    ensures Leader(MergeTreeOf(fragments, b)) == fragments[0]
    ensures RunTree(fs, MergeTreeOf(fragments, b)) ==
      Ok((fs - set p | p in fragments[1..])[fragments[0] := Gather(fs, fragments)])
  {
    var f0, rest := fragments[0], fragments[1..];
    assert forall i :: 0 <= i < |fragments| ==> fragments[i] != "";
    MergeTreeCovers(fragments, b);
    RunTreeMerged(fs, MergeTreeOf(fragments, b));
    assert fragments == [f0] + rest;
    ReadySplit(fs, [f0], rest);
    NonBlankClean(rest);
    CatLoopClosedForm(fs, f0, rest);
    assert Gather(fs, fragments) == fs[f0] + Gather(fs, rest);
  }

  /** Renaming the merged first fragment to `file`. */
  lemma RenameMerged(fs: FileMap, fragments: seq<Path>, file: Path)
    requires |fragments| >= 1 && Ready(fs, fragments) && file != ""
    ensures var merged := (fs - set p | p in fragments[1..])[fragments[0] := Gather(fs, fragments)];
      RenameSpec(merged, fragments[0], file) ==
      Ok((fs - set p | p in fragments)[file := Gather(fs, fragments)])
  {
    var f0 := fragments[0];
    var merged := (fs - set p | p in fragments[1..])[f0 := Gather(fs, fragments)];
    assert fragments == [f0] + fragments[1..];
    assert (set p | p in fragments) == {f0} + set p | p in fragments[1..];
    assert merged - {f0} == fs - set p | p in fragments;
  }

  /** End to end: starting from real, distinct, existing fragments, the
      reconstruction never blocks; `file` ends up holding the bytes of all
      fragments in list order, every fragment is gone (unless it is `file`
      itself) and every other file is untouched. Only the empty target
      path makes the final rename fail. */
  lemma ReconstructMerges(fs: FileMap, file: Path, fragments: seq<Path>, b: nat)
    requires b >= 2 && |fragments| >= 1 && Ready(fs, fragments)
    ensures fragments[0] != ""
    ensures file != "" ==>
      ReconstructSpec(fs, file, fragments, b) ==
      Done((fs - set p | p in fragments)[file := Gather(fs, fragments)])
    ensures file == "" ==> ReconstructSpec(fs, file, fragments, b) == RenameFailed
  {
    RootMerges(fs, fragments, b);
    if file != "" {
      RenameMerged(fs, fragments, file);
    }
  }

  /** A single fragment is only renamed to `file`. */
  lemma ReconstructSingle(fs: FileMap, file: Path, f: Path, b: nat)
    requires b >= 2 && NoEmptyPath(fs) && f in fs
    ensures f != ""
    ensures file != "" ==> ReconstructSpec(fs, file, [f], b) == Done(RenameSpec(fs, f, file).fs)
  {
    assert Ready(fs, [f]);
    ReconstructMerges(fs, file, [f], b);
    assert Gather(fs, [f]) == fs[f] + Gather(fs, []) == fs[f];
    assert (set p | p in [f]) == {f};
  }

  /** The batch size changes the shape of the tree, never the result. */
  lemma BatchSizeIrrelevant(fs: FileMap, file: Path, fragments: seq<Path>, b1: nat, b2: nat)
    requires b1 >= 2 && b2 >= 2 && |fragments| >= 1 && Ready(fs, fragments)
    ensures fragments[0] != ""
    ensures ReconstructSpec(fs, file, fragments, b1) == ReconstructSpec(fs, file, fragments, b2)
  {
    ReconstructMerges(fs, file, fragments, b1);
    ReconstructMerges(fs, file, fragments, b2);
  }

  /** Running with the default batch size gives the result of any other
      batch size in range. */
  lemma DefaultBatchSizeAgrees(fs: FileMap, file: Path, fragments: seq<Path>, b: BatchSize)
    requires |fragments| >= 1 && Ready(fs, fragments)
    ensures fragments[0] != ""
    ensures ReconstructSpec(fs, file, fragments, b) == ReconstructSpec(fs, file, fragments, DefaultBatchSize)
  {
    BatchSizeIrrelevant(fs, file, fragments, b, DefaultBatchSize);
  }

  const ReportFragments: seq<Path> := ["report.txt.FRAG-00000", "report.txt.FRAG-00001", "report.txt.FRAG-00002"]

  /** Three fragments of `report.txt` with a batch size of two: leaves
      [F0, F1] and [F2, ""], then one parent merging their leaders
      [F0, F2]. */
  lemma ReportTree()
    ensures var f := ReportFragments;
      MergeTreeOf(f, 2) == Task([f[0], f[2]], [Task([f[0], f[1]], []), Task([f[2], ""], [])])
  {
    var f := ReportFragments;
    var leaves := [Task([f[0], f[1]], []), Task([f[2], ""], [])];
    assert LeafTasks(f, 2) == leaves by {
      assert (f + Blanks(2))[..2] == [f[0], f[1]];
      assert f[2..] == [f[2]];
      assert ([f[2]] + Blanks(2))[..2] == [f[2], ""];
      assert LeafTasks([f[2]], 2) == [Task([f[2], ""], [])] + LeafTasks([], 2);
    }
    var root := Task([f[0], f[2]], leaves);
    assert FoldLevel(leaves, 2) == [root] by {
      assert (leaves + Pads(2))[..2] == leaves;
      assert Leaders(leaves) == [f[0], f[2]];
    }
    assert Reduce(leaves, 2) == Reduce([root], 2) == [root];
  }

  /** Three distinct fragments that are the only files: the target ends up
      as the only file, holding their contents in order. */
  lemma ThreeFragments(a: Path, b: Path, c: Path, x: seq<byte>, y: seq<byte>, z: seq<byte>, file: Path)
    requires a != "" && b != "" && c != "" && a != b && a != c && b != c && file != ""
    ensures ReconstructSpec(map[a := x, b := y, c := z], file, [a, b, c], 2) == Done(map[file := x + y + z])
  {
    var fs := map[a := x, b := y, c := z];
    var f := [a, b, c];
    assert ReconstructSpec(fs, file, f, 2) == Done((fs - set p | p in f)[file := Gather(fs, f)]) by {
      assert Ready(fs, f);
      ReconstructMerges(fs, file, f, 2);
    }
    assert Gather(fs, f) == x + y + z by {
      assert Gather(fs, f) == fs[a] + Gather(fs, f[1..]);
      assert Gather(fs, f[1..]) == fs[b] + Gather(fs, f[2..]);
      assert Gather(fs, f[2..]) == fs[c] + Gather(fs, []);
    }
    assert fs - (set p | p in f) == map[] by {
      var gone := set p | p in f;
      assert a in gone && b in gone && c in gone;
      assert (fs - gone).Keys == {};
    }
  }

  /** The same fragments holding "AAA", "BBB" and "CCC" leave `report.txt`
      as the only file, holding "AAA" + "BBB" + "CCC". */
  lemma ReportBytes(fs: FileMap)
    requires fs == map[ReportFragments[0] := [65, 65, 65], ReportFragments[1] := [66, 66, 66], ReportFragments[2] := [67, 67, 67]]
    ensures ReconstructSpec(fs, "report.txt", ReportFragments, 2) == Done(map["report.txt" := fs[ReportFragments[0]] + fs[ReportFragments[1]] + fs[ReportFragments[2]]])
  {
    var f := ReportFragments;
    var x: seq<byte>, y: seq<byte>, z: seq<byte> := [65, 65, 65], [66, 66, 66], [67, 67, 67];
    ThreeFragments(f[0], f[1], f[2], x, y, z, "report.txt");
    assert f == [f[0], f[1], f[2]];
  }

  /** A task run on the file system object: its children first, in order,
      then its own `cat`; `false` is a `cat` that would be retried for
      ever. */
  method RunTask(fs: FileSystem, t: Task) returns (ok: bool)
    modifies fs
    ensures ok == RunTree(old(fs.contents), t).Ok?
    ensures ok ==> fs.contents == RunTree(old(fs.contents), t).fs
    decreases t
  {
    var cs := t.children;
    for i := 0 to |cs|
      invariant RunChildren(old(fs.contents), cs) == RunChildren(fs.contents, cs[i..])
    {
      assert cs[i..][0] == cs[i] && cs[i..][1..] == cs[i + 1..];
      ok := RunTask(fs, cs[i]);
      if !ok {
        return;
      }
    }
    ok := fs.Cat(t.files);
  }

  /** `reconstruct(file, fragments)` on the file system object: build the
      tree, run it, rename the root's leader to `file`. */
  method Reconstruct(fs: FileSystem, file: Path, fragments: seq<Path>, b: BatchSize) returns (r: Finish)
    requires |fragments| >= 1 && fragments[0] != ""
    modifies fs
    ensures r == ReconstructSpec(old(fs.contents), file, fragments, b)
    ensures r.Done? ==> fs.contents == r.fs
  {
    var root := BuildTree(fragments, b);
    var ok := RunTask(fs, root);
    if !ok {
      return Hung;
    }
    ok := fs.Rename(Leader(root), file);
    if !ok {
      return RenameFailed;
    }
    r := Done(fs.contents);
  }
}
