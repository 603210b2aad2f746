// Construction of the merge tree of one logical file: leaf tasks take the
// sorted fragments B at a time, then each level of tasks is folded into
// parents of B children until one task is left.

module MergeTree {
  import opened Files

  /** The configured number of entries merged by one task (`-n`), checked to
      lie in 2..=100 before any reconstruction starts; 32 by default. */
  type BatchSize = b: nat | 2 <= b <= 100 witness 32

  const DefaultBatchSize: BatchSize := 32

  /** A task of the merge tree: the file list its `cat` merges, and the tasks
      its thread joins before running that `cat`. */
  datatype Task = Task(files: seq<Path>, children: seq<Task>)

  /** `Task::new()`: no files and a thread with nothing to do. */
  const Idle: Task := Task([], [])

  /** The first entry of a task's file list, or "" when the list is empty. */
  function Leader(t: Task): Path
  {
    if |t.files| > 0 then t.files[0] else ""
  }

  /** The leaders of a sequence of tasks, in order. */
  function Leaders(ts: seq<Task>): (r: seq<Path>)
    ensures |r| == |ts|
    ensures forall i :: 0 <= i < |ts| ==> r[i] == Leader(ts[i])
  {
    if ts == [] then [] else [Leader(ts[0])] + Leaders(ts[1..])
  }

  lemma LeadersSnoc(ts: seq<Task>, t: Task)
    ensures Leaders(ts + [t]) == Leaders(ts) + [Leader(t)]
  {
  }

  /** `reverse()`: the same elements, last first. */
  function Reverse<T>(s: seq<T>): (r: seq<T>)
    ensures |r| == |s|
    ensures forall i :: 0 <= i < |s| ==> r[i] == s[|s| - 1 - i]
  {
    if s == [] then [] else Reverse(s[1..]) + [s[0]]
  }

  /** Popping from the reversed sequence yields its first element. */
  lemma PopReverse<T>(s: seq<T>)
    requires s != []
    ensures Reverse(s)[|s| - 1] == s[0] && Reverse(s)[..|s| - 1] == Reverse(s[1..])
  {
  }

  lemma TakeOneMore<T>(s: seq<T>, k: nat)
    requires k < |s|
    ensures s[..k + 1] == s[..k] + [s[k]]
  {
  }

  function Min(a: nat, b: nat): nat
  {
    if a <= b then a else b
  }

  function Blanks(k: nat): (r: seq<Path>)
    ensures |r| == k && forall i :: 0 <= i < k ==> r[i] == ""
  {
    seq(k, _ => "")
  }

  function Pads(k: nat): (r: seq<Task>)
    ensures |r| == k && forall i :: 0 <= i < k ==> r[i] == Idle
  {
    seq(k, _ => Idle)
  }

  /** ceil(n / b), counted by subtraction. */
  function CeilDiv(n: nat, b: nat): (q: nat)
    requires b >= 1
    decreases n
  {
    if n == 0 then 0 else if n <= b then 1 else 1 + CeilDiv(n - b, b)
  }

  lemma {:induction false} CeilDivIsCeiling(n: nat, b: nat)
    requires b >= 1 && n >= 1
    ensures CeilDiv(n, b) >= 1
    ensures (CeilDiv(n, b) - 1) * b < n <= CeilDiv(n, b) * b
  {
    if n > b {
      CeilDivIsCeiling(n - b, b);
      var q := CeilDiv(n - b, b);
      assert (q + 1) * b == q * b + b;
    }
  }

  /** With at least two entries per task, a level of two or more tasks folds
      into strictly fewer parents. */
  lemma {:induction false} CeilDivShrinks(n: nat, b: nat)
    requires b >= 2 && n >= 2
    ensures 1 <= CeilDiv(n, b) < n
  {
    if n > b {
      if n - b >= 2 {
        CeilDivShrinks(n - b, b);
      }
    }
  }

  // ---------------------------------------------------------------------
  // Leaf level

  /** The leaf tasks built from the fragments in forward order: each takes
      the next B fragments, padded with "" after the last one; building stops
      at the first batch whose first entry is "". */
  function LeafTasks(s: seq<Path>, b: nat): seq<Task>
    requires b >= 1
    decreases |s|
  {
    if s == [] || s[0] == "" then []
    else [Task((s + Blanks(b))[..b], [])] + LeafTasks(s[Min(b, |s|)..], b)
  }

  /** One leaf batch: B fragments are popped from the stack
      (`pop().unwrap_or_default()` gives "" once it is empty). */
  method PopBatch(stack: seq<Path>, b: BatchSize, ghost rest: seq<Path>)
    returns (remaining: seq<Path>, files: seq<Path>)
    requires stack == Reverse(rest)
    ensures files == (rest + Blanks(b))[..b]
    ensures remaining == Reverse(rest[Min(b, |rest|)..])
  {
    remaining := stack;
    files := [];
    for k := 0 to b
      invariant remaining == Reverse(rest[Min(k, |rest|)..])
      invariant files == (rest + Blanks(b))[..k]
    {
      var f := "";
      if |remaining| > 0 {
        PopReverse(rest[k..]);
        assert rest[k..][1..] == rest[k + 1..];
        f := remaining[|remaining| - 1];
        remaining := remaining[..|remaining| - 1];
      }
      assert files + [f] == (rest + Blanks(b))[..k + 1] by {
        TakeOneMore(rest + Blanks(b), k);
      }
      files := files + [f];
    }
  }

  /** The leaf loop: the fragments are reversed once, then popped B at a
      time, so they are consumed in their original order; it stops at the
      first batch whose first entry is "". */
  method BuildLeaves(fragments: seq<Path>, b: BatchSize) returns (leafTasks: seq<Task>)
    ensures leafTasks == LeafTasks(fragments, b)
  {
    var stack := Reverse(fragments);
    ghost var done := 0;
    leafTasks := [];
    while true
      invariant 0 <= done <= |fragments|
      invariant stack == Reverse(fragments[done..])
      invariant leafTasks + LeafTasks(fragments[done..], b) == LeafTasks(fragments, b)
      decreases |stack|
    {
      ghost var rest := fragments[done..];
      var files;
      stack, files := PopBatch(stack, b, rest);
      done := done + Min(b, |rest|);
      assert fragments[done..] == rest[Min(b, |rest|)..];
      if files[0] == "" {
        break;
      }
      leafTasks := leafTasks + [Task(files, [])];
    }
  }

  // ---------------------------------------------------------------------
  // Reduction levels

  /** The parent of a group of tasks: its file list is their leaders. */
  function Parent(kids: seq<Task>): Task
  {
    Task(Leaders(kids), kids)
  }

  /** One reduction pass: consecutive groups of B tasks, the last padded
      with idle tasks, each become the children of one parent. */
  function FoldLevel(level: seq<Task>, b: nat): (r: seq<Task>)
    requires b >= 1
    ensures |level| >= 1 ==> |r| == CeilDiv(|level|, b)
    decreases |level|
  {
    [Parent((level + Pads(b))[..b])] + (if |level| <= b then [] else FoldLevel(level[b..], b))
  }

  /** One parent of a reduction pass: B child tasks are popped from the
      stack (`unwrap_or_else(Task::new)` once it is empty) and their leaders
      (`first().unwrap_or("")`) make the parent's file list. */
  method PopChildren(stack: seq<Task>, b: BatchSize, ghost rest: seq<Task>)
    returns (remaining: seq<Task>, files: seq<Path>, kids: seq<Task>)
    requires stack == Reverse(rest)
    ensures kids == (rest + Pads(b))[..b] && files == Leaders(kids)
    ensures remaining == Reverse(rest[Min(b, |rest|)..])
  {
    remaining := stack;
    files, kids := [], [];
    for k := 0 to b
      invariant remaining == Reverse(rest[Min(k, |rest|)..])
      invariant kids == (rest + Pads(b))[..k]
      invariant files == Leaders(kids)
    {
      var t := Idle;
      if |remaining| > 0 {
        PopReverse(rest[k..]);
        assert rest[k..][1..] == rest[k + 1..];
        t := remaining[|remaining| - 1];
        remaining := remaining[..|remaining| - 1];
      }
      assert kids + [t] == (rest + Pads(b))[..k + 1] by {
        TakeOneMore(rest + Pads(b), k);
      }
      LeadersSnoc(kids, t);
      files := files + [Leader(t)];
      kids := kids + [t];
    }
  }

  /** A reduction pass: the level is reversed, then parents are made until
      the stack is empty; at least one parent is always made. */
  method FoldOnce(level: seq<Task>, b: BatchSize) returns (parents: seq<Task>)
    ensures parents == FoldLevel(level, b)
  {
    var stack := Reverse(level);
    ghost var rest := level;
    parents := [];
    while true
      invariant stack == Reverse(rest)
      invariant parents + FoldLevel(rest, b) == FoldLevel(level, b)
      decreases |stack|
    {
      var files, kids;
      stack, files, kids := PopChildren(stack, b, rest);
      ghost var later := if |rest| <= b then [] else FoldLevel(rest[b..], b);
      assert parents + [Task(files, kids)] + later == FoldLevel(level, b) by {
        assert FoldLevel(rest, b) == [Task(files, kids)] + later;
      }
      parents := parents + [Task(files, kids)];
      if |stack| == 0 {
        break;
      }
      rest := rest[b..];
    }
  }

  /** Reduction passes until at most one task is left. */
  function Reduce(level: seq<Task>, b: nat): (r: seq<Task>)
    requires b >= 2
    ensures |level| >= 1 ==> |r| == 1
    decreases |level|
  {
    if |level| <= 1 then level
    else
      CeilDivShrinks(|level|, b);
      Reduce(FoldLevel(level, b), b)
  }

  /** The root task of the merge tree of `fragments`. */
  function MergeTreeOf(fragments: seq<Path>, b: nat): Task
    requires b >= 2 && |fragments| >= 1 && fragments[0] != ""
  {
    assert LeafTasks(fragments, b) != [];
    Reduce(LeafTasks(fragments, b), b)[0]
  }

  /** The scheduling part of `reconstruct`: leaf tasks, then reduction
      passes while more than one task is left, then the last task. */
  method BuildTree(fragments: seq<Path>, b: BatchSize) returns (root: Task)
    requires |fragments| >= 1 && fragments[0] != ""
    ensures root == MergeTreeOf(fragments, b)
  {
    var tasks := BuildLeaves(fragments, b);
    while |tasks| > 1
      invariant |tasks| >= 1
      invariant Reduce(tasks, b) == Reduce(LeafTasks(fragments, b), b)
      decreases |tasks|
    {
      CeilDivShrinks(|tasks|, b);
      tasks := FoldOnce(tasks, b);
    }
    root := tasks[0];
  }

  // ---------------------------------------------------------------------
  // Shape of the tree

  /** The fragments a task is responsible for, in order: the real entries of
      a leaf, the fragments of each child in turn for a parent. */
  function Frags(t: Task): (r: seq<Path>)
    ensures forall i :: 0 <= i < |r| ==> r[i] != ""
    decreases t
  {
    if t.children == [] then NonBlank(t.files) else FragsAll(t.children)
  }

  function FragsAll(ts: seq<Task>): (r: seq<Path>)
    ensures forall i :: 0 <= i < |r| ==> r[i] != ""
    decreases ts
  {
    if ts == [] then [] else Frags(ts[0]) + FragsAll(ts[1..])
  }

  /** All child tasks of a level, level order then child order. */
  function ChildrenAll(ts: seq<Task>): seq<Task>
  {
    if ts == [] then [] else ts[0].children + ChildrenAll(ts[1..])
  }

  /** "" placeholders only after the last real entry. */
  predicate TailPadded(files: seq<Path>)
  {
    forall i, j :: 0 <= i < j < |files| && files[i] == "" ==> files[j] == ""
  }

  /** A well-formed task: a leaf whose first entry, if any, is a real path;
      or a parent whose file list is its children's leaders, whose first
      child has fragments, and whose children are all well formed. */
  ghost predicate Shaped(t: Task)
    decreases t
  {
    if t.children == [] then |t.files| > 0 ==> t.files[0] != ""
    else
      t.files == Leaders(t.children) && Frags(t.children[0]) != [] &&
      forall i :: 0 <= i < |t.children| ==> Shaped(t.children[i])
  }

  /** The leader of a well-formed task is the first fragment of its range,
      and "" exactly when it has no fragments (an idle task). */
  lemma {:induction false} ShapedLeader(t: Task)
    requires Shaped(t)
    ensures Frags(t) == [] <==> Leader(t) == ""
    ensures Frags(t) != [] ==> Leader(t) == Frags(t)[0]
    decreases t
  {
    if t.children == [] {
      if |t.files| > 0 {
        assert NonBlank(t.files) == [t.files[0]] + NonBlank(t.files[1..]);
      }
    } else {
      ShapedLeader(t.children[0]);
      assert Frags(t) == Frags(t.children[0]) + FragsAll(t.children[1..]);
    }
  }

  lemma {:induction false} FragsAllAppend(a: seq<Task>, b: seq<Task>)
    ensures FragsAll(a + b) == FragsAll(a) + FragsAll(b)
  {
    if a != [] {
      assert (a + b)[1..] == a[1..] + b;
      FragsAllAppend(a[1..], b);
    } else {
      assert a + b == b;
    }
  }

  lemma {:induction false} FragsAllPads(k: nat)
    ensures FragsAll(Pads(k)) == []
  {
    if k > 0 {
      assert Pads(k)[1..] == Pads(k - 1);
      FragsAllPads(k - 1);
      assert NonBlank([]) == [];
    }
  }

  lemma {:induction false} NonBlankBlanks(k: nat)
    ensures NonBlank(Blanks(k)) == []
  {
    if k > 0 {
      assert Blanks(k)[1..] == Blanks(k - 1);
      NonBlankBlanks(k - 1);
    }
  }

  /** A leaf as the leaf loop makes it: B entries, a real first entry,
      placeholders only at the tail. */
  predicate IsLeaf(t: Task, b: nat)
  {
    t.children == [] && |t.files| == b >= 1 && t.files[0] != "" && TailPadded(t.files)
  }

  /** A well-formed task that has fragments. */
  ghost predicate Covering(t: Task)
  {
    Shaped(t) && Frags(t) != []
  }

  /** One batch of leaf entries taken from the front of `s`. */
  lemma LeafBatch(s: seq<Path>, b: nat)
    requires b >= 1 && s != []
    requires forall i :: 0 <= i < |s| ==> s[i] != ""
    ensures IsLeaf(Task((s + Blanks(b))[..b], []), b)
    ensures Covering(Task((s + Blanks(b))[..b], []))
    ensures Frags(Task((s + Blanks(b))[..b], [])) == s[..Min(b, |s|)]
  {
    var k := Min(b, |s|);
    var files := (s + Blanks(b))[..b];
    assert files == s[..k] + Blanks(b - k);
    NonBlankAppend(s[..k], Blanks(b - k));
    NonBlankClean(s[..k]);
    NonBlankBlanks(b - k);
  }

  /** Leaf batching: ceil(n/B) leaves, each of exactly B entries with a real
      first entry and placeholders only at its tail, whose real entries,
      leaf after leaf, are the fragments in their original order. */
  lemma {:induction false} LeafTasksShape(s: seq<Path>, b: nat)
    requires b >= 1
    requires forall i :: 0 <= i < |s| ==> s[i] != ""
    ensures |LeafTasks(s, b)| == CeilDiv(|s|, b)
    ensures forall i :: 0 <= i < |LeafTasks(s, b)| ==> IsLeaf(LeafTasks(s, b)[i], b) && Covering(LeafTasks(s, b)[i])
    ensures FragsAll(LeafTasks(s, b)) == s
    decreases |s|
  {
    if s != [] {
      var k := Min(b, |s|);
      var leaf := Task((s + Blanks(b))[..b], []);
      LeafBatch(s, b);
      LeafTasksShape(s[k..], b);
      var leaves := LeafTasks(s, b);
      assert leaves == [leaf] + LeafTasks(s[k..], b);
      assert leaves[1..] == LeafTasks(s[k..], b);
      assert FragsAll(leaves) == Frags(leaf) + FragsAll(LeafTasks(s[k..], b));
      assert s == s[..k] + s[k..];
    }
  }

  /** The parent made from the first group of a level covers the fragments
      of that group. */
  lemma ParentFrags(level: seq<Task>, b: nat)
    requires b >= 1
    ensures Frags(Parent((level + Pads(b))[..b])) == FragsAll(level[..Min(b, |level|)])
  {
    var k := Min(b, |level|);
    var kids := (level + Pads(b))[..b];
    assert kids == level[..k] + Pads(b - k);
    FragsAllAppend(level[..k], Pads(b - k));
    FragsAllPads(b - k);
  }

  /** The parent made from the first group of a level is well formed. */
  lemma ParentShape(level: seq<Task>, b: nat)
    requires b >= 1 && |level| >= 1
    requires forall i :: 0 <= i < |level| ==> Covering(level[i])
    ensures var kids := (level + Pads(b))[..b];
      Covering(Parent(kids)) && |kids| == b &&
      Frags(Parent(kids)) == FragsAll(level[..Min(b, |level|)])
  {
    var k := Min(b, |level|);
    var kids := (level + Pads(b))[..b];
    ParentFrags(level, b);
    assert FragsAll(level[..k]) == Frags(level[0]) + FragsAll(level[..k][1..]);
    forall i | 0 <= i < |kids|
      ensures Shaped(kids[i])
    {
      if i < k {
        assert kids[i] == level[i];
      } else {
        assert kids[i] == Idle;
      }
    }
  }

  /** A parent as a reduction pass makes it: well formed, with fragments,
      exactly B children, and the children's leaders as its file list. */
  ghost predicate IsParent(p: Task, b: nat)
  {
    Covering(p) && |p.children| == b && p.files == Leaders(p.children)
  }

  /** One reduction pass makes only well-formed parents of B children. */
  lemma {:induction false} FoldLevelParents(level: seq<Task>, b: nat)
    requires b >= 1 && |level| >= 1
    requires forall i :: 0 <= i < |level| ==> Covering(level[i])
    ensures forall i :: 0 <= i < |FoldLevel(level, b)| ==> IsParent(FoldLevel(level, b)[i], b)
    decreases |level|
  {
    var p := Parent((level + Pads(b))[..b]);
    ParentShape(level, b);
    assert IsParent(p, b);
    var folded := FoldLevel(level, b);
    if |level| > b {
      var rest := FoldLevel(level[b..], b);
      assert folded == [p] + rest;
      FoldLevelParents(level[b..], b);
      forall i | 0 <= i < |folded|
        ensures IsParent(folded[i], b)
      {
        if i > 0 {
          assert folded[i] == rest[i - 1];
        }
      }
    }
  }

  /** One reduction pass keeps the fragments, parent after parent. */
  lemma {:induction false} FoldLevelFrags(level: seq<Task>, b: nat)
    requires b >= 1
    ensures FragsAll(FoldLevel(level, b)) == FragsAll(level)
    decreases |level|
  {
    var p := Parent((level + Pads(b))[..b]);
    var folded := FoldLevel(level, b);
    if |level| <= b {
      assert Frags(p) == FragsAll(level) by {
        ParentFrags(level, b);
        assert level[..Min(b, |level|)] == level;
      }
      assert folded == [p];
      assert FragsAll(folded) == Frags(p) + FragsAll([]);
    } else {
      var rest := FoldLevel(level[b..], b);
      assert FragsAll(folded) == Frags(p) + FragsAll(rest) by {
        assert folded == [p] + rest;
      }
      assert Frags(p) == FragsAll(level[..b]) by {
        ParentFrags(level, b);
      }
      assert FragsAll(level) == FragsAll(level[..b]) + FragsAll(level[b..]) by {
        FragsAllAppend(level[..b], level[b..]);
        assert level == level[..b] + level[b..];
      }
      FoldLevelFrags(level[b..], b);
    }
  }

  /** One reduction pass groups the level in order: the children, parent
      after parent, are the level followed by fewer than B idle tasks. */
  lemma {:induction false} FoldLevelGroups(level: seq<Task>, b: nat)
    requires b >= 1 && |level| >= 1
    ensures |level| <= |ChildrenAll(FoldLevel(level, b))| < |level| + b
    ensures ChildrenAll(FoldLevel(level, b)) == level + Pads(|ChildrenAll(FoldLevel(level, b))| - |level|)
    decreases |level|
  {
    var k := Min(b, |level|);
    var kids := (level + Pads(b))[..b];
    var folded := FoldLevel(level, b);
    if |level| <= b {
      assert folded == [Parent(kids)];
      assert ChildrenAll(folded) == kids + ChildrenAll([]);
      assert kids == level + Pads(b - |level|);
    } else {
      var rest := FoldLevel(level[b..], b);
      assert folded == [Parent(kids)] + rest;
      assert folded[1..] == rest;
      FoldLevelGroups(level[b..], b);
      assert ChildrenAll(folded) == kids + ChildrenAll(rest);
      assert kids == level[..b];
      assert level == level[..b] + level[b..];
    }
  }

  /** Repeated passes end in one well-formed task holding every fragment. */
  lemma {:induction false} ReduceShape(level: seq<Task>, b: nat)
    requires b >= 2 && |level| >= 1
    requires forall i :: 0 <= i < |level| ==> Covering(level[i])
    ensures Shaped(Reduce(level, b)[0]) && Frags(Reduce(level, b)[0]) == FragsAll(level)
    decreases |level|
  {
    if |level| <= 1 {
      assert level == [level[0]];
      assert FragsAll(level) == Frags(level[0]) + FragsAll([]);
    } else {
      CeilDivShrinks(|level|, b);
      FoldLevelParents(level, b);
      FoldLevelFrags(level, b);
      ReduceShape(FoldLevel(level, b), b);
    }
  }

  /** The root of the merge tree is well formed, covers every fragment in
      order, and its leader is the first fragment. */
  lemma MergeTreeCovers(fragments: seq<Path>, b: nat)
    requires b >= 2 && |fragments| >= 1
    requires forall i :: 0 <= i < |fragments| ==> fragments[i] != ""
    ensures Shaped(MergeTreeOf(fragments, b))
    ensures Frags(MergeTreeOf(fragments, b)) == fragments
    ensures Leader(MergeTreeOf(fragments, b)) == fragments[0]
  {
    LeafTasksShape(fragments, b);
    ReduceShape(LeafTasks(fragments, b), b);
    ShapedLeader(MergeTreeOf(fragments, b));
  }
}
