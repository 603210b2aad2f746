// Finding the fragments and grouping them by the logical file they belong
// to: the `.FRAG-` path filter, the key before the first ".FRAG-", the
// grouping map and the sorting of each group.

module Grouping {
  import opened Files
  import opened Reconstruction

  // ---------------------------------------------------------------------
  // The path filter

  /** The regular expression `.FRAG-` matches at `i`: one character other
      than a line feed (all that an unescaped `.` accepts), then "FRAG-". */
  predicate PatternAt(s: Path, i: nat)
  {
    i + 6 <= |s| && s[i] != '\n' && s[i + 1..i + 6] == "FRAG-"
  }

  /** The unanchored search for the pattern, trying each start from `i` on. */
  function SearchFrom(s: Path, i: nat): bool
    decreases |s| - i
  {
    if i + 6 > |s| then false else PatternAt(s, i) || SearchFrom(s, i + 1)
  }

  /** `is_match` of the filter. */
  function IsMatch(s: Path): bool
  {
    SearchFrom(s, 0)
  }

  /** "FRAG-" occurs at `j >= 1`, right after a character that is not a line
      feed. */
  predicate FragAt(s: Path, j: nat)
  {
    1 <= j && j + 5 <= |s| && s[j - 1] != '\n' && s[j..j + 5] == "FRAG-"
  }

  lemma {:induction false} SearchFromFinds(s: Path, i: nat)
    ensures SearchFrom(s, i) <==> exists j :: i <= j && PatternAt(s, j)
    decreases |s| - i
  {
    if i + 6 <= |s| {
      SearchFromFinds(s, i + 1);
      forall j | i <= j && PatternAt(s, j)
        ensures j == i || i + 1 <= j
      {
      }
    }
  }

  /** The filter accepts exactly the paths in which "FRAG-" follows some
      character other than a line feed: the dot is a wildcard, so "aFRAG-1"
      is accepted as well as "a.FRAG-1". */
  lemma IsMatchExactly(s: Path)
    ensures IsMatch(s) <==> exists j :: FragAt(s, j)
  {
    SearchFromFinds(s, 0);
    if IsMatch(s) {
      var i: nat :| PatternAt(s, i);
      assert FragAt(s, i + 1);
    }
    if exists j :: FragAt(s, j) {
      var j: nat :| FragAt(s, j);
      assert PatternAt(s, j - 1);
    }
  }

  /** The paths of a directory listing that the filter keeps, in listing
      order. */
  function Accepted(entries: seq<Path>): (r: seq<Path>)
    ensures forall i :: 0 <= i < |r| ==> IsMatch(r[i])
    ensures forall x :: multiset(r)[x] == if IsMatch(x) then multiset(entries)[x] else 0
  {
    if entries == [] then []
    else
      assert entries == [entries[0]] + entries[1..];
      (if IsMatch(entries[0]) then [entries[0]] else []) + Accepted(entries[1..])
  }

  // ---------------------------------------------------------------------
  // The key of a fragment

  /** The literal separator ".FRAG-" starts at `i`. */
  predicate SeparatorAt(s: Path, i: nat)
  {
    i + 6 <= |s| && s[i..i + 6] == ".FRAG-"
  }

  /** The first piece of `split(".FRAG-")`, scanning from `i` on. */
  function KeyFrom(s: Path, i: nat): (r: Path)
    requires i <= |s|
    requires forall j :: 0 <= j < i ==> !SeparatorAt(s, j)
    ensures i <= |r| <= |s| && r == s[..|r|]
    ensures forall j :: 0 <= j < |r| ==> !SeparatorAt(s, j)
    ensures |r| < |s| ==> SeparatorAt(s, |r|)
    decreases |s| - i
  {
    if i + 6 > |s| then s
    else if s[i..i + 6] == ".FRAG-" then s[..i]
    else KeyFrom(s, i + 1)
  }

  /** `split(".FRAG-").next()`: the path up to its first ".FRAG-", or the
      whole path when the literal does not occur. */
  function KeyOf(s: Path): (r: Path)
    ensures |r| <= |s| && r == s[..|r|]
    ensures forall j :: 0 <= j < |r| ==> !SeparatorAt(s, j)
    ensures |r| < |s| ==> SeparatorAt(s, |r|)
  {
    KeyFrom(s, 0)
  }

  /** A key contains no separator, so it is its own key: a path that equals
      the key of a group always belongs to that very group. */
  lemma KeyOfIdempotent(s: Path)
    ensures KeyOf(KeyOf(s)) == KeyOf(s)
  {
    var k := KeyOf(s);
    var n := |KeyOf(k)|;
    if n < |k| {
      assert k[n..n + 6] == s[n..n + 6];
      assert SeparatorAt(s, n);
    }
  }

  /** A path with the separator passes the filter. */
  lemma SeparatorMatches(s: Path)
    requires KeyOf(s) != s
    ensures IsMatch(s)
  {
    var k := |KeyOf(s)|;
    assert s[k + 1..k + 6] == s[k..k + 6][1..];
    IsMatchExactly(s);
    assert FragAt(s, k + 1);
  }

  /** "aFRAG-1" passes the filter but has no separator: it forms a group of
      its own, keyed by itself, and its final rename targets itself. */
  lemma WildcardDot()
    ensures IsMatch("aFRAG-1") && KeyOf("aFRAG-1") == "aFRAG-1"
  {
    var s := "aFRAG-1";
    IsMatchExactly(s);
    assert FragAt(s, 1);
  }

  // ---------------------------------------------------------------------
  // Ordering of paths

  /** The order of `String`: lexicographic, character by character, a
      proper prefix first. */
  predicate PathLe(a: Path, b: Path)
    decreases |a|
  {
    a == [] || (b != [] && (a[0] < b[0] || (a[0] == b[0] && PathLe(a[1..], b[1..]))))
  }

  lemma {:induction false} PathLeTotal(a: Path, b: Path)
    ensures PathLe(a, b) || PathLe(b, a)
    decreases |a|
  {
    if a != [] && b != [] && a[0] == b[0] {
      PathLeTotal(a[1..], b[1..]);
    }
  }

  lemma {:induction false} PathLeAntisymmetric(a: Path, b: Path)
    requires PathLe(a, b) && PathLe(b, a)
    ensures a == b
    decreases |a|
  {
    if a != [] {
      PathLeAntisymmetric(a[1..], b[1..]);
      assert a == [a[0]] + a[1..] && b == [b[0]] + b[1..];
    }
  }

  lemma {:induction false} PathLeTransitive(a: Path, b: Path, c: Path)
    requires PathLe(a, b) && PathLe(b, c)
    ensures PathLe(a, c)
    decreases |a|
  {
    if a != [] && a[0] == b[0] && b[0] == c[0] {
      PathLeTransitive(a[1..], b[1..], c[1..]);
    }
  }

  predicate Sorted(s: seq<Path>)
  {
    forall i, j :: 0 <= i < j < |s| ==> PathLe(s[i], s[j])
  }

  /** `x` put in place in a sorted list. */
  function Insert(x: Path, s: seq<Path>): (r: seq<Path>)
    requires Sorted(s)
    ensures Sorted(r) && multiset(r) == multiset(s) + multiset{x}
  {
    if s == [] then [x]
    else if PathLe(x, s[0]) then
      InsertFront(x, s);
      [x] + s
    else
      var t := Insert(x, s[1..]);
      PathLeTotal(x, s[0]);
      InsertBelow(s, x, t);
      assert s == [s[0]] + s[1..];
      [s[0]] + t
  }

  lemma InsertFront(x: Path, s: seq<Path>)
    requires Sorted(s) && s != [] && PathLe(x, s[0])
    ensures Sorted([x] + s)
  {
    forall j | 0 < j < |[x] + s|
      ensures PathLe(x, ([x] + s)[j])
    {
      if j > 1 {
        PathLeTransitive(x, s[0], s[j - 1]);
      }
    }
  }

  lemma InsertBelow(s: seq<Path>, x: Path, t: seq<Path>)
    requires s != [] && Sorted(s) && Sorted(t) && PathLe(s[0], x)
    requires multiset(t) == multiset(s[1..]) + multiset{x}
    ensures Sorted([s[0]] + t)
  {
    forall j | 0 <= j < |t|
      ensures PathLe(s[0], t[j])
    {
      assert t[j] in multiset(t);
      if t[j] != x {
        assert t[j] in multiset(s[1..]);
        var i :| 0 <= i < |s[1..]| && s[1..][i] == t[j];
        assert s[i + 1] == t[j];
      }
    }
  }

  /** `sort_unstable`: the sorted arrangement of the group. */
  function SortPaths(s: seq<Path>): (r: seq<Path>)
    ensures Sorted(r) && multiset(r) == multiset(s)
  {
    if s == [] then []
    else
      assert s == [s[0]] + s[1..];
      Insert(s[0], SortPaths(s[1..]))
  }

  /** There is only one sorted arrangement of a multiset of paths, so an
      unstable sort gives the same list as any other sort. */
  lemma {:induction false} SortedUnique(a: seq<Path>, b: seq<Path>)
    requires Sorted(a) && Sorted(b) && multiset(a) == multiset(b)
    ensures a == b
    decreases |a|
  {
    if a != [] {
      SameHead(a, b);
      SameTail(a, b);
      SortedTail(a);
      SortedTail(b);
      SortedUnique(a[1..], b[1..]);
      assert a == [a[0]] + a[1..] && b == [b[0]] + b[1..];
    }
  }

  /** Two sorted arrangements of one multiset start with the same path. */
  lemma SameHead(a: seq<Path>, b: seq<Path>)
    requires a != [] && Sorted(a) && Sorted(b) && multiset(a) == multiset(b)
    ensures b != [] && a[0] == b[0]
  {
    assert a[0] in multiset(b);
    assert b[0] in multiset(a);
    LeastFirst(a, b[0]);
    LeastFirst(b, a[0]);
    PathLeAntisymmetric(a[0], b[0]);
  }

  lemma SameTail(a: seq<Path>, b: seq<Path>)
    requires a != [] && b != [] && a[0] == b[0] && multiset(a) == multiset(b)
    ensures multiset(a[1..]) == multiset(b[1..])
  {
    assert a == [a[0]] + a[1..] && b == [b[0]] + b[1..];
    assert multiset(a[1..]) == multiset(a) - multiset{a[0]};
    assert multiset(b[1..]) == multiset(b) - multiset{b[0]};
  }

  /** The first path of a sorted list is below every path in it. */
  lemma LeastFirst(s: seq<Path>, x: Path)
    requires Sorted(s) && x in s
    ensures PathLe(s[0], x)
  {
    var i :| 0 <= i < |s| && s[i] == x;
    if i == 0 {
      PathLeTotal(x, x);
    }
  }

  lemma SortedTail(s: seq<Path>)
    requires s != [] && Sorted(s)
    ensures Sorted(s[1..])
  {
    forall i, j | 0 <= i < j < |s| - 1
      ensures PathLe(s[1..][i], s[1..][j])
    {
      assert s[1..][i] == s[i + 1] && s[1..][j] == s[j + 1];
    }
  }

  // ---------------------------------------------------------------------
  // Grouping

  /** The grouping map after the paths went through the `entry` loop in
      order: each path is appended to the list of its key, which is created
      on first use. */
  function Collect(paths: seq<Path>): map<Path, seq<Path>>
  {
    if paths == [] then map[]
    else
      var m := Collect(paths[..|paths| - 1]);
      var p := paths[|paths| - 1];
      var k := KeyOf(p);
      m[k := (if k in m then m[k] else []) + [p]]
  }

  /** The paths of `paths` with key `k`, in order. */
  function Members(paths: seq<Path>, k: Path): seq<Path>
  {
    if paths == [] then []
    else
      var p := paths[|paths| - 1];
      Members(paths[..|paths| - 1], k) + (if KeyOf(p) == k then [p] else [])
  }

  /** The groups handed to `reconstruct`: each list of the map, sorted. */
  function Groups(paths: seq<Path>): map<Path, seq<Path>>
  {
    var m := Collect(paths);
    map k | k in m :: SortPaths(m[k])
  }

  /** The grouping loop keeps, for every key, exactly the paths with that
      key, in order, and has a list for a key exactly when some path has
      it. */
  lemma {:induction false} CollectMembers(paths: seq<Path>)
    ensures forall k :: k in Collect(paths) <==> Members(paths, k) != []
    ensures forall k :: k in Collect(paths) ==> Collect(paths)[k] == Members(paths, k)
    decreases |paths|
  {
    if paths != [] {
      CollectMembers(paths[..|paths| - 1]);
    }
  }

  /** A path is counted among the members of its own key, and only there. */
  lemma {:induction false} MembersCount(paths: seq<Path>, k: Path)
    ensures forall x :: multiset(Members(paths, k))[x] == if KeyOf(x) == k then multiset(paths)[x] else 0
    decreases |paths|
  {
    if paths != [] {
      var init, p := paths[..|paths| - 1], paths[|paths| - 1];
      MembersCount(init, k);
      assert paths == init + [p];
    }
  }

  lemma EmptyIffNoCount(s: seq<Path>)
    ensures s == [] <==> multiset(s) == multiset{}
  {
    if s != [] {
      assert s[0] in multiset(s);
    }
  }

  /** Grouping partitions the accepted paths: each one lies in the group of
      its key, every member of a group has that group's key, and each group
      is a sorted, non-empty arrangement of exactly its members. */
  lemma GroupsPartition(paths: seq<Path>)
    ensures forall i :: 0 <= i < |paths| ==>
      KeyOf(paths[i]) in Groups(paths) && paths[i] in Groups(paths)[KeyOf(paths[i])]
    ensures forall k, q :: k in Groups(paths) && q in Groups(paths)[k] ==> KeyOf(q) == k
    ensures forall k :: k in Groups(paths) ==>
      Groups(paths)[k] != [] && Sorted(Groups(paths)[k]) &&
      multiset(Groups(paths)[k]) == multiset(Members(paths, k))
  {
    CollectMembers(paths);
    var g := Groups(paths);
    forall i | 0 <= i < |paths|
      ensures KeyOf(paths[i]) in g && paths[i] in g[KeyOf(paths[i])]
    {
      var k := KeyOf(paths[i]);
      MembersCount(paths, k);
      assert paths[i] in multiset(paths);
      assert paths[i] in multiset(Members(paths, k));
      EmptyIffNoCount(Members(paths, k));
      assert paths[i] in multiset(g[k]);
    }
    forall k, q | k in g && q in g[k]
      ensures KeyOf(q) == k
    {
      MembersCount(paths, k);
      assert q in multiset(g[k]);
    }
    forall k | k in g
      ensures g[k] != []
    {
      EmptyIffNoCount(Members(paths, k));
      EmptyIffNoCount(g[k]);
    }
  }

  /** Different groups share no path, and the rename target of one group
      is never a fragment of another, so the groups can be reconstructed
      independently of each other. */
  lemma GroupsIndependent(paths: seq<Path>, k1: Path, k2: Path)
    requires k1 in Groups(paths) && k2 in Groups(paths) && k1 != k2
    ensures forall p :: p in Groups(paths)[k1] ==> p !in Groups(paths)[k2]
    ensures k1 !in Groups(paths)[k2]
  {
    var g := Groups(paths);
    forall p
      ensures p in g[k1] ==> KeyOf(p) == k1
      ensures p in g[k2] ==> KeyOf(p) == k2
    {
      if p in g[k1] {
        KeyOfMember(paths, k1, p);
      }
      if p in g[k2] {
        KeyOfMember(paths, k2, p);
      }
    }
    assert g[k1] != [] by {
      GroupsPartition(paths);
    }
    KeyOfIdempotent(g[k1][0]);
  }

  lemma KeyOfMember(paths: seq<Path>, k: Path, q: Path)
    requires k in Groups(paths) && q in Groups(paths)[k]
    ensures KeyOf(q) == k
  {
    GroupsPartition(paths);
  }

  /** The same paths in any order have the same members for every key, in
      some order. */
  lemma MembersOrderFree(p1: seq<Path>, p2: seq<Path>, k: Path)
    requires multiset(p1) == multiset(p2)
    ensures multiset(Members(p1, k)) == multiset(Members(p2, k))
    ensures Members(p1, k) == [] <==> Members(p2, k) == []
  {
    var m1, m2 := Members(p1, k), Members(p2, k);
    assert multiset(m1) == multiset(m2) by {
      MembersCount(p1, k);
      MembersCount(p2, k);
      forall x
        ensures multiset(m1)[x] == multiset(m2)[x]
      {
      }
    }
    EmptyIffNoCount(m1);
    EmptyIffNoCount(m2);
  }

  /** Grouping does not depend on the order in which the directory walk
      yields the paths: the same paths in any order give the same groups. */
  lemma GroupsOrderFree(p1: seq<Path>, p2: seq<Path>)
    requires multiset(p1) == multiset(p2)
    ensures Groups(p1) == Groups(p2)
  {
    var c1, c2 := Collect(p1), Collect(p2);
    CollectMembers(p1);
    CollectMembers(p2);
    forall k
      ensures k in c1 <==> k in c2
    {
      MembersOrderFree(p1, p2, k);
    }
    forall k | k in c1
      ensures SortPaths(c1[k]) == SortPaths(c2[k])
    {
      MembersOrderFree(p1, p2, k);
      SortedUnique(SortPaths(c1[k]), SortPaths(c2[k]));
    }
    assert Groups(p1).Keys == Groups(p2).Keys;
  }

  /** The same holds for the whole listing, before filtering. */
  lemma ListingOrderFree(e1: seq<Path>, e2: seq<Path>)
    requires multiset(e1) == multiset(e2)
    ensures Groups(Accepted(e1)) == Groups(Accepted(e2))
  {
    assert multiset(Accepted(e1)) == multiset(Accepted(e2));
    GroupsOrderFree(Accepted(e1), Accepted(e2));
  }

  /** A key is a prefix of every path in its group, so a path that is
      itself the key comes first in the sorted group: its leader is renamed
      to itself. */
  lemma {:induction false} PrefixFirst(a: Path, s: Path)
    requires |a| <= |s| && a == s[..|a|]
    ensures PathLe(a, s)
    decreases |a|
  {
    if a != [] {
      assert a[1..] == s[1..][..|a| - 1];
      PrefixFirst(a[1..], s[1..]);
    }
  }

  lemma KeyLeadsItsGroup(paths: seq<Path>, k: Path)
    requires k in Groups(paths) && k in Groups(paths)[k]
    ensures Groups(paths)[k][0] == k
  {
    var g := Groups(paths)[k];
    GroupsPartition(paths);
    var i :| 0 <= i < |g| && g[i] == k;
    assert KeyOf(g[0]) == k;
    PrefixFirst(k, g[0]);
    PathLeTotal(k, k);
    assert PathLe(g[0], g[i]);
    PathLeAntisymmetric(k, g[0]);
  }

  /** No path is listed twice exactly when no path is counted twice. */
  lemma {:induction false} DistinctCounts(s: seq<Path>)
    ensures Distinct(s) <==> forall x :: multiset(s)[x] <= 1
  {
    if s != [] {
      DistinctCounts(s[1..]);
      assert s == [s[0]] + s[1..];
      if Distinct(s) {
        DistinctDrop(s);
        assert s[0] !in s[1..] by {
          forall j | 0 <= j < |s[1..]|
            ensures s[1..][j] != s[0]
          {
            assert s[j + 1] != s[0];
          }
        }
      } else {
        var i, j :| 0 <= i < j < |s| && s[i] == s[j];
        assert s == s[..j] + s[j..];
        assert s[i] in multiset(s[..j]) && s[j] in multiset(s[j..]);
        assert multiset(s)[s[i]] >= 2;
      }
    }
  }

  /** A group counts each path at most as often as the accepted paths do,
      and so at most as often as the listing does. */
  lemma GroupCounts(entries: seq<Path>, k: Path)
    requires k in Groups(Accepted(entries))
    ensures Groups(Accepted(entries))[k] != []
    ensures forall x :: multiset(Groups(Accepted(entries))[k])[x] <= multiset(Accepted(entries))[x]
    ensures forall x :: multiset(Groups(Accepted(entries))[k])[x] <= multiset(entries)[x]
  {
    var paths := Accepted(entries);
    GroupsPartition(paths);
    MembersCount(paths, k);
  }

  /** Starting from a listing without repeats whose accepted paths are
      existing files (other entries, such as directories, may be anything),
      every group handed to `reconstruct` is a non-empty list of distinct
      existing files. */
  lemma GroupReady(fs: FileMap, entries: seq<Path>, k: Path)
    requires NoEmptyPath(fs) && Distinct(entries) && Present(fs, Accepted(entries))
    requires k in Groups(Accepted(entries))
    ensures |Groups(Accepted(entries))[k]| >= 1 && Ready(fs, Groups(Accepted(entries))[k])
  {
    var g := Groups(Accepted(entries))[k];
    assert Distinct(g) by {
      GroupCounts(entries, k);
      DistinctCounts(entries);
      DistinctCounts(g);
    }
    GroupPresent(fs, entries, k);
  }

  /** Every member of a group is one of the accepted paths. */
  lemma GroupPresent(fs: FileMap, entries: seq<Path>, k: Path)
    requires Present(fs, Accepted(entries)) && k in Groups(Accepted(entries))
    ensures Groups(Accepted(entries))[k] != [] && Present(fs, Groups(Accepted(entries))[k])
  {
    var g := Groups(Accepted(entries))[k];
    var paths := Accepted(entries);
    GroupCounts(entries, k);
    forall i | 0 <= i < |g|
      ensures g[i] in fs
    {
      assert g[i] in multiset(g);
      assert g[i] in multiset(paths);
      var j :| 0 <= j < |paths| && paths[j] == g[i];
    }
  }

  /** The whole pipeline of `main` for one group: from a listing without
      repeats whose accepted paths are existing files, the reconstruction of group `k` leaves `k`
      holding the bytes of its fragments in sorted order and removes the
      fragments, whatever the batch size. */
  lemma MainReconstructsGroup(fs: FileMap, entries: seq<Path>, k: Path, b: nat)
    requires b >= 2 && NoEmptyPath(fs) && Distinct(entries) && Present(fs, Accepted(entries))
    requires k in Groups(Accepted(entries)) && k != ""
    ensures var g := Groups(Accepted(entries))[k];
      |g| >= 1 && g[0] != "" && Sorted(g) &&
      ReconstructSpec(fs, k, g, b) == Done((fs - set p | p in g)[k := Gather(fs, g)])
  {
    var g := Groups(Accepted(entries))[k];
    GroupReady(fs, entries, k);
    GroupsPartition(Accepted(entries));
    ReconstructMerges(fs, k, g, b);
  }

  /** The `entry` loop of `main`: each path goes to the end of its key's
      list, which is created on first use. */
  method CollectPaths(paths: seq<Path>) returns (groups: map<Path, seq<Path>>)
    ensures groups == Collect(paths)
  {
    groups := map[];
    for i := 0 to |paths|
      invariant groups == Collect(paths[..i])
    {
      assert paths[..i + 1][..i] == paths[..i];
      assert paths[..i + 1][i] == paths[i];
      var p := paths[i];
      var key := KeyOf(p);
      assert Collect(paths[..i + 1]) == groups[key := (if key in groups then groups[key] else []) + [p]];
      if key in groups {
        groups := groups[key := groups[key] + [p]];
      } else {
        assert [] + [p] == [p];
        groups := groups[key := [p]];
      }
    }
    assert paths[..|paths|] == paths;
  }

  /** Every list of the map sorted in place, keys visited in whatever order
      the map yields them. */
  method SortGroups(collected: map<Path, seq<Path>>) returns (groups: map<Path, seq<Path>>)
    ensures groups == map k | k in collected :: SortPaths(collected[k])
  {
    groups := collected;
    var todo := groups.Keys;
    while todo != {}
      invariant todo <= groups.Keys == collected.Keys
      invariant forall k :: k in groups ==> groups[k] == if k in todo then collected[k] else SortPaths(collected[k])
      decreases |todo|
    {
      var k :| k in todo;
      groups := groups[k := SortPaths(groups[k])];
      todo := todo - {k};
    }
  }

  /** The grouping part of `main`: filter the listing, collect each path
      under its key, then sort every list. */
  method GroupFragments(entries: seq<Path>) returns (groups: map<Path, seq<Path>>)
    ensures groups == Groups(Accepted(entries))
  {
    var paths := Accepted(entries);
    var collected := CollectPaths(paths);
    groups := SortGroups(collected);
  }
}
