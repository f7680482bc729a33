/** What a tree walk emits: exactly the leaf paths with the prefix behind the marker, in order. */
module WalkMeaning {
  import opened Basics
  import opened PathOrder
  import opened Tree
  import opened TreeWalk

  // ----- an independent notion of leaf path

  /** path, relative to a directory holding `nodes`, names a file or an empty directory. */
  ghost predicate IsLeaf(nodes: seq<Node>, path: string)
    decreases nodes
  {
    exists n <- nodes :: IsNodeLeaf(n, path)
  }

  ghost predicate IsNodeLeaf(n: Node, path: string)
    decreases n
  {
    if n.File? || n.children == [] then path == Entry(n)
    else Entry(n) <= path && IsLeaf(n.children, path[|Entry(n)|..])
  }

  ghost predicate Increasing(paths: seq<string>) {
    forall i, j :: 0 <= i < j < |paths| ==> Less(paths[i], paths[j])
  }

  // ----- order

  lemma PrependIncreasing(p: string, paths: seq<string>)
    requires Increasing(paths)
    ensures Increasing(Prepend(p, paths))
  {
    forall i, j | 0 <= i < j < |paths|
      ensures Less(Prepend(p, paths)[i], Prepend(p, paths)[j])
    {
      PrependAt(p, paths, i);
      PrependAt(p, paths, j);
      LessCommon(p, paths[i], paths[j]);
    }
  }

  /** Every leaf of a list of nodes belongs to one of them. */
  lemma {:induction false} LeafOwner(nodes: seq<Node>, i: nat) returns (k: nat)
    requires i < |Leaves(nodes)|
    ensures k < |nodes| && Leaves(nodes)[i] in NodeLeaves(nodes[k])
    ensures Entry(nodes[k]) <= Leaves(nodes)[i] && (nodes[k].File? ==> Leaves(nodes)[i] == Entry(nodes[k]))
  {
    if i < |NodeLeaves(nodes[0])| {
      LeavesStart(nodes[0], i);
      k := 0;
    } else {
      k := LeafOwner(nodes[1..], i - |NodeLeaves(nodes[0])|);
      k := k + 1;
    }
  }

  /** Leaves of a smaller entry come before leaves of a greater one. */
  lemma LeavesInOrder(m: Node, n: Node, a: string, b: string)
    requires ValidName(m.name) && ValidName(n.name) && Less(Entry(m), Entry(n))
    requires Entry(m) <= a && (m.File? ==> a == Entry(m)) && Entry(n) <= b
    ensures Less(a, b)
  {
    EntryForm(m);
    EntryForm(n);
    LessTotal(Entry(m), Entry(n));
    var x, y := a[|Entry(m)|..], b[|Entry(n)|..];
    assert a == Entry(m) + x && b == Entry(n) + y;
    if Entry(m) <= Entry(n) {
      EntryPrefixes(Entry(m), Entry(n));
      LessGrow(Entry(m), Entry(n), y);
    } else {
      LessDiverge(Entry(m), Entry(n), x, y);
    }
  }

  lemma {:induction false} NodeLeavesIncreasing(n: Node)
    requires ValidName(n.name) && (n.Dir? ==> WellFormed(n.children))
    ensures Increasing(NodeLeaves(n))
    decreases NodeSize(n), 0
  {
    if n.Dir? && n.children != [] {
      ListedProperties(n.children, "");
      LeavesIncreasing(Listed(n.children, ""));
      PrependIncreasing(Entry(n), Leaves(Listed(n.children, "")));
    }
  }

  /** The leaves of a sorted listing are strictly increasing. */
  lemma {:induction false} LeavesIncreasing(nodes: seq<Node>)
    requires Sorted(nodes) && (forall n <- nodes :: ValidName(n.name) && (n.Dir? ==> WellFormed(n.children)))
    ensures Increasing(Leaves(nodes))
    decreases Size(nodes), 1
  {
    if nodes != [] {
      NodeLeavesIncreasing(nodes[0]);
      LeavesIncreasing(nodes[1..]);
      var a, b := NodeLeaves(nodes[0]), Leaves(nodes[1..]);
      forall i, j | 0 <= i < |a| && 0 <= j < |b|
        ensures Less(a[i], b[j])
      {
        LeavesStart(nodes[0], i);
        var k := LeafOwner(nodes[1..], j);
        LeavesInOrder(nodes[0], nodes[k + 1], a[i], b[j]);
      }
    }
  }

  // ----- membership

  lemma {:induction false} PrependMember(p: string, paths: seq<string>, x: string)
    ensures x in Prepend(p, paths) <==> p <= x && x[|p|..] in paths
  {
    if paths != [] {
      PrependMember(p, paths[1..], x);
      assert p + paths[0] == x <==> p <= x && x[|p|..] == paths[0];
    }
  }

  lemma {:induction false} LeavesMember(nodes: seq<Node>, x: string)
    ensures x in Leaves(nodes) <==> exists n <- nodes :: x in NodeLeaves(n)
  {
    if nodes != [] {
      LeavesMember(nodes[1..], x);
      assert x in Leaves(nodes) <==> x in NodeLeaves(nodes[0]) || x in Leaves(nodes[1..]);
      assert nodes[0] in nodes && forall n <- nodes[1..] :: n in nodes;
    }
  }

  lemma {:induction false} NodeLeavesAreLeaves(n: Node, x: string)
    ensures x in NodeLeaves(n) <==> IsNodeLeaf(n, x)
    decreases NodeSize(n)
  {
    if n.Dir? && n.children != [] {
      var l := Listed(n.children, "");
      PrependMember(Entry(n), Leaves(l), x);
      if Entry(n) <= x {
        var y := x[|Entry(n)|..];
        LeavesMember(l, y);
        ListedAll(n.children);
        SortMembers(n.children);
        forall m <- n.children
          ensures y in NodeLeaves(m) <==> IsNodeLeaf(m, y)
        {
          SizeMember(n.children, m);
          NodeLeavesAreLeaves(m, y);
        }
      }
    }
  }

  lemma {:induction false} MatchingExact(nodes: seq<Node>, prefix: string, n: Node)
    ensures n in Matching(nodes, prefix) <==> n in nodes && HasPrefix(Entry(n), prefix)
  {
    if nodes != [] {
      MatchingExact(nodes[1..], prefix, n);
    }
  }

  /** A prefix without a slash selects leaves just as it selects the entries they are under. */
  lemma LeafPrefix(n: Node, prefix: string, x: string)
    requires ValidName(n.name) && '/' !in prefix && IsNodeLeaf(n, x)
    ensures HasPrefix(x, prefix) <==> HasPrefix(Entry(n), prefix)
  {
    EntryForm(n);
    assert Entry(n) <= x;
  }

  /** The listing of one directory holds exactly the leaves with the prefix. */
  lemma LeavesExact(children: seq<Node>, prefix: string, x: string)
    requires WellFormed(children) && '/' !in prefix
    ensures x in Leaves(Listed(children, prefix)) <==> IsLeaf(children, x) && HasPrefix(x, prefix)
  {
    var l := Listed(children, prefix);
    LeavesMember(l, x);
    SortMembers(Matching(children, prefix));
    forall n: Node
      ensures n in l <==> n in children && HasPrefix(Entry(n), prefix)
    {
      MatchingExact(children, prefix, n);
    }
    forall n <- children
      ensures x in NodeLeaves(n) <==> IsNodeLeaf(n, x)
      ensures IsNodeLeaf(n, x) ==> (HasPrefix(x, prefix) <==> HasPrefix(Entry(n), prefix))
    {
      NodeLeavesAreLeaves(n, x);
      if IsNodeLeaf(n, x) {
        LeafPrefix(n, prefix, x);
      }
    }
  }

  lemma {:induction false} FilterExact(paths: seq<string>, marker: string, x: string)
    ensures x in Filter(paths, marker) <==> x in paths && Shown(x, marker)
  {
    if paths != [] {
      FilterExact(paths[1..], marker, x);
    }
  }

  lemma {:induction false} FilterIncreasing(paths: seq<string>, marker: string)
    requires Increasing(paths)
    ensures Increasing(Filter(paths, marker))
  {
    if paths != [] {
      FilterIncreasing(paths[1..], marker);
      var r := Filter(paths[1..], marker);
      forall j | 0 <= j < |r|
        ensures Less(paths[0], r[j])
      {
        FilterExact(paths[1..], marker, r[j]);
      }
    }
  }

  // ----- startTreeWalk

  /** The contents of the directory at a path that is empty or ends in a slash. */
  function Lookup(nodes: seq<Node>, dir: string): Option<seq<Node>>
    decreases |dir|
  {
    if dir == [] then Some(nodes)
    else
      MarkerSplit(dir);
      match FindDir(nodes, MarkerDir(dir))
      case None => None
      case Some(ch) => Lookup(ch, MarkerBase(dir))
  }

  function FindDir(nodes: seq<Node>, entry: string): Option<seq<Node>> {
    if nodes == [] then None
    else if nodes[0].Dir? && Entry(nodes[0]) == entry then Some(nodes[0].children)
    else FindDir(nodes[1..], entry)
  }

  /** prefix up to and including its last slash. */
  function DirPart(prefix: string): string {
    if prefix == [] || prefix[|prefix| - 1] == '/' then prefix else DirPart(prefix[..|prefix| - 1])
  }

  lemma {:induction false} DirPartSplit(prefix: string)
    ensures DirPart(prefix) <= prefix && (DirPart(prefix) == [] || IsDirPath(DirPart(prefix)))
    ensures '/' !in prefix[|DirPart(prefix)|..]
  {
    if prefix != [] && prefix[|prefix| - 1] != '/' {
      DirPartSplit(prefix[..|prefix| - 1]);
      var d := DirPart(prefix);
      assert prefix[|d|..] == prefix[..|prefix| - 1][|d|..] + [prefix[|prefix| - 1]];
    }
  }

  /** The results of an undisturbed walk; the marker is relative to the prefix's directory. */
  function FreshWalk(root: seq<Node>, prefix: string, marker: string, recursive: bool): seq<TreeWalkResult> {
    DirPartSplit(prefix);
    var dir := DirPart(prefix);
    match Lookup(root, dir)
    case None => []
    case Some(ch) =>
      var rel := if dir <= marker then marker[|dir|..] else marker;
      if ch == [] then [] else Results(dir, Selected(Listed(ch, prefix[|dir|..]), rel, recursive), true)
  }

  /** The directory a prefix points into lists the matching entries side by side. */
  ghost predicate ListsContiguously(root: seq<Node>, prefix: string) {
    DirPart(prefix) <= prefix &&
    match Lookup(root, DirPart(prefix))
    case None => true
    case Some(ch) => Contiguous(ch, prefix[|DirPart(prefix)|..])
  }

  lemma {:induction false} LookupWellFormed(nodes: seq<Node>, dir: string)
    requires WellFormed(nodes)
    ensures Lookup(nodes, dir).Some? ==> WellFormed(Lookup(nodes, dir).value)
    decreases |dir|
  {
    if dir != [] {
      MarkerSplit(dir);
      FindDirExact(nodes, MarkerDir(dir));
      if FindDir(nodes, MarkerDir(dir)).Some? {
        LookupWellFormed(FindDir(nodes, MarkerDir(dir)).value, MarkerBase(dir));
      }
    }
  }

  lemma {:induction false} FindDirExact(nodes: seq<Node>, entry: string)
    ensures FindDir(nodes, entry).Some? ==> exists n <- nodes :: n.Dir? && Entry(n) == entry && n.children == FindDir(nodes, entry).value
    ensures FindDir(nodes, entry).None? ==> forall n <- nodes :: n.Dir? ==> Entry(n) != entry
  {
    if nodes != [] {
      FindDirExact(nodes[1..], entry);
      assert nodes == [nodes[0]] + nodes[1..];
    }
  }

  /** The walk as a goroutine that sends on a channel and may be abandoned. */
  method StartTreeWalk(root: seq<Node>, prefix: string, marker: string, recursive: bool)
    returns (ch: ResultChannel, aborted: bool)
    requires WellFormed(root) && ListsContiguously(root, prefix)
    ensures fresh(ch)
    ensures ch.sent <= FreshWalk(root, prefix, marker, recursive)
    ensures !aborted ==> ch.sent == FreshWalk(root, prefix, marker, recursive)
  {
    hide Selected, Results, Lookup, Listed, Contiguous, WellFormed;
    DirPartSplit(prefix);
    var prefixDir := DirPart(prefix);
    var entryPrefixMatch := prefix[|prefixDir|..];
    var rel := if prefixDir <= marker then marker[|prefixDir|..] else marker;
    ch := new ResultChannel();
    aborted := false;
    var dir := Lookup(root, prefixDir);
    LookupWellFormed(root, prefixDir);
    if dir.Some? {
      var emptyDir;
      ghost var all := Results(prefixDir, Selected(Listed(dir.value, entryPrefixMatch), rel, recursive), true);
      assert [] + all == all;
      emptyDir, aborted := DoTreeWalk(dir.value, prefixDir, entryPrefixMatch, rel, recursive, ch, true);
    }
  }

  // ----- the meaning of a whole walk

  function Entries(rs: seq<TreeWalkResult>): (r: seq<string>)
    ensures |r| == |rs|
  {
    seq(|rs|, i requires 0 <= i < |rs| => rs[i].entry)
  }

  lemma ResultsEntries(dir: string, paths: seq<string>, isEnd: bool)
    ensures Entries(Results(dir, paths, isEnd)) == Prepend(dir, paths)
  {
    forall i | 0 <= i < |paths|
      ensures Entries(Results(dir, paths, isEnd))[i] == Prepend(dir, paths)[i]
    {
      PrependAt(dir, paths, i);
    }
  }

  lemma ShownCommon(p: string, path: string, marker: string)
    requires path != []
    ensures Shown(p + path, p + marker) <==> Shown(path, marker)
  {
    LessCommon(p, marker, path);
    assert IsDirPath(p + path) <==> IsDirPath(path);
    if path <= marker {
      assert (p + marker)[..|p + path|] == p + marker[..|path|];
    }
    if p + path <= p + marker {
      assert marker[..|path|] == (p + marker)[..|p + path|][|p|..] == path;
    }
  }

  /** Two directory entries a path starts with are one. */
  lemma FirstComponent(d: string, e: string, x: string)
    requires IsEntry(d) && IsDirPath(d) && IsEntry(e) && IsDirPath(e) && d <= x && e <= x
    ensures d == e
  {
    if |d| < |e| {
      EntryPrefixes(d, e);
    } else if |e| < |d| {
      EntryPrefixes(e, d);
    }
  }

  /** A path below d is a leaf below the node of that entry, or below none. */
  lemma LeafBelow(nodes: seq<Node>, d: string, x: string)
    requires WellFormed(nodes) && IsEntry(d) && IsDirPath(d) && d <= x && d != x
    ensures IsLeaf(nodes, x) <==> FindDir(nodes, d).Some? && IsLeaf(FindDir(nodes, d).value, x[|d|..])
  {
    FindDirExact(nodes, d);
    forall n <- nodes | IsNodeLeaf(n, x)
      ensures n.Dir? && n.children != [] && Entry(n) == d
    {
      EntryForm(n);
      if n.Dir? {
        FirstComponent(d, Entry(n), x);
      }
    }
    if FindDir(nodes, d).Some? {
      var m :| m in nodes && m.Dir? && Entry(m) == d && m.children == FindDir(nodes, d).value;
      forall n <- nodes | Entry(n) == d
        ensures n == m
      {
        EntryInjective(m, n);
      }
      if m.children != [] {
        assert IsNodeLeaf(m, x) <==> IsLeaf(m.children, x[|d|..]);
      }
    }
  }

  /** The leaves below a directory of the tree are the leaves of its contents. */
  lemma {:induction false} LookupLeaf(nodes: seq<Node>, dir: string, x: string)
    requires WellFormed(nodes) && (dir == [] || IsDirPath(dir)) && dir <= x && x != dir
    ensures IsLeaf(nodes, x) <==> Lookup(nodes, dir).Some? && IsLeaf(Lookup(nodes, dir).value, x[|dir|..])
    decreases |dir|
  {
    hide FindDir, MarkerDir, DistinctEntries, Entry, IsNodeLeaf;
    if dir != [] {
      MarkerSplit(dir);
      DirIsEntry(dir);
      var d, b := MarkerDir(dir), MarkerBase(dir);
      assert dir[|dir| - 1] == '/' && '/' in dir;
      assert '/' in d;
      assert d <= x && d != x;
      LeafBelow(nodes, d, x);
      if FindDir(nodes, d).Some? {
        FindDirExact(nodes, d);
        assert b == [] || IsDirPath(b);
        assert x[|d|..][..|b|] == b && x[|d|..] != b;
        assert x[|d|..][|b|..] == x[|dir|..];
        LookupLeaf(FindDir(nodes, d).value, b, x[|d|..]);
      }
    }
  }

  /** The marker fits the prefix, as checkListObjsArgs demands. */
  predicate MarkerFits(prefix: string, marker: string) {
    marker == [] || prefix <= marker
  }

  /** Without descending, the entries behind the marker are selected. */
  lemma {:induction false} FlatMember(nodes: seq<Node>, marker: string, x: string)
    ensures x in Selected(nodes, marker, false) <==> Less(marker, x) && exists n <- nodes :: x == Entry(n)
  {
    if nodes != [] {
      FlatMember(nodes[1..], marker, x);
      assert nodes[0] in nodes && forall n <- nodes[1..] :: n in nodes;
      assert forall n <- nodes :: n == nodes[0] || n in nodes[1..];
    }
  }

  lemma {:induction false} FlatIncreasing(nodes: seq<Node>, marker: string)
    requires Sorted(nodes)
    ensures Increasing(Selected(nodes, marker, false))
  {
    if nodes != [] {
      var rest := nodes[1..];
      FlatIncreasing(rest, marker);
      var r := Selected(rest, marker, false);
      forall j | 0 <= j < |r|
        ensures Less(Entry(nodes[0]), r[j])
      {
        FlatMember(rest, marker, r[j]);
        var n :| n in rest && r[j] == Entry(n);
        var k :| 0 <= k < |rest| && rest[k] == n;
        assert nodes[k + 1] == n;
      }
    }
  }

  lemma SelectedIncreasing(ch: seq<Node>, prefix: string, marker: string, recursive: bool)
    requires WellFormed(ch)
    ensures Increasing(Selected(Listed(ch, prefix), marker, recursive))
  {
    var l := Listed(ch, prefix);
    ListedProperties(ch, prefix);
    if recursive {
      SelectedIsFilter(l, marker);
      LeavesIncreasing(l);
      FilterIncreasing(Leaves(l), marker);
    } else {
      FlatIncreasing(l, marker);
    }
  }

  /** A walk's results are strictly increasing, hence without repetition, and exactly the last one is
      marked as the end. */
  lemma WalkOrder(root: seq<Node>, prefix: string, marker: string, recursive: bool)
    requires WellFormed(root)
    ensures Increasing(Entries(FreshWalk(root, prefix, marker, recursive)))
    ensures var w := FreshWalk(root, prefix, marker, recursive);
            forall i :: 0 <= i < |w| ==> (w[i].end <==> i == |w| - 1)
  {
    DirPartSplit(prefix);
    var dir := DirPart(prefix);
    LookupWellFormed(root, dir);
    if Lookup(root, dir).Some? {
      var ch := Lookup(root, dir).value;
      var rel := if dir <= marker then marker[|dir|..] else marker;
      var sel := Selected(Listed(ch, prefix[|dir|..]), rel, recursive);
      SelectedIncreasing(ch, prefix[|dir|..], rel, recursive);
      ResultsEntries(dir, sel, true);
      PrependIncreasing(dir, sel);
    }
  }

  /** The recursive walk emits the leaf paths of the whole tree that have the prefix and are shown for the
      marker: those behind the marker, and the empty directories above it. The one exception is a prefix
      that is itself an empty directory. */
  lemma WalkExact(root: seq<Node>, prefix: string, marker: string, x: string)
    requires WellFormed(root) && MarkerFits(prefix, marker)
    ensures x in Entries(FreshWalk(root, prefix, marker, true)) <==>
              IsLeaf(root, x) && HasPrefix(x, prefix) && Shown(x, marker) && x != DirPart(prefix)
  {
    hide Lookup, Less, Results, Entry;
    DirPartSplit(prefix);
    var dir, base := DirPart(prefix), prefix[|DirPart(prefix)|..];
    assert prefix == dir + base;
    LookupWellFormed(root, dir);
    var rel := if dir <= marker then marker[|dir|..] else marker;
    if dir <= x && x != dir {
      LookupLeaf(root, dir, x);
      PrefixBelow(dir, base, x);
      ShownBelow(dir, marker, x);
    }
    if Lookup(root, dir).Some? {
      var ch := Lookup(root, dir).value;
      var sel := Selected(Listed(ch, base), rel, true);
      ResultsEntries(dir, sel, true);
      PrependMember(dir, sel, x);
      SelectedExact(ch, base, rel, "");
      if dir <= x {
        SelectedExact(ch, base, rel, x[|dir|..]);
        assert x == dir ==> x[|dir|..] == "";
        assert x[|dir|..] == "" ==> x == dir;
      }
    }
  }

  lemma PrefixBelow(dir: string, base: string, x: string)
    requires dir <= x
    ensures HasPrefix(x, dir + base) <==> HasPrefix(x[|dir|..], base)
  {
    var y := x[|dir|..];
    assert x == dir + y;
    if HasPrefix(y, base) {
      assert x[..|dir + base|] == dir + y[..|base|];
    }
    if HasPrefix(x, dir + base) {
      assert y[..|base|] == x[..|dir + base|][|dir|..] == base;
    }
  }

  /** Taking the directory off both path and marker changes nothing. */
  lemma ShownBelow(dir: string, marker: string, x: string)
    requires dir <= x && x != dir && (marker == [] || dir <= marker)
    ensures var rel := if dir <= marker then marker[|dir|..] else marker;
            && (Shown(x, marker) <==> Shown(x[|dir|..], rel))
            && (Less(marker, x) <==> Less(rel, x[|dir|..]))
  {
    var y := x[|dir|..];
    assert x == dir + y;
    if marker != [] {
      var rel := marker[|dir|..];
      assert marker == dir + rel;
      ShownCommon(dir, y, rel);
      LessCommon(dir, rel, y);
    }
  }

  lemma SelectedExact(ch: seq<Node>, prefix: string, marker: string, y: string)
    requires WellFormed(ch) && '/' !in prefix
    ensures y in Selected(Listed(ch, prefix), marker, true) <==>
              IsLeaf(ch, y) && HasPrefix(y, prefix) && Shown(y, marker)
    ensures "" !in Selected(Listed(ch, prefix), marker, true)
  {
    SelectedIsFilter(Listed(ch, prefix), marker);
    FilterExact(Leaves(Listed(ch, prefix)), marker, y);
    FilterExact(Leaves(Listed(ch, prefix)), marker, "");
    LeavesExact(ch, prefix, y);
    ListedProperties(ch, prefix);
    LeavesNonempty(Listed(ch, prefix));
  }

  /** The walk that does not descend emits the entries of the prefix's directory that have the prefix and
      are behind the marker. */
  lemma FlatWalkExact(root: seq<Node>, prefix: string, marker: string, x: string)
    requires WellFormed(root) && MarkerFits(prefix, marker)
    ensures x in Entries(FreshWalk(root, prefix, marker, false)) <==>
              && Lookup(root, DirPart(prefix)).Some?
              && HasPrefix(x, prefix) && Less(marker, x)
              && exists n <- Lookup(root, DirPart(prefix)).value :: x == DirPart(prefix) + Entry(n)
  {
    hide HasPrefix, Prepend;
    DirPartSplit(prefix);
    var dir, base := DirPart(prefix), prefix[|DirPart(prefix)|..];
    assert prefix == dir + base;
    var rel := if dir <= marker then marker[|dir|..] else marker;
    LookupWellFormed(root, dir);
    if Lookup(root, dir).Some? {
      var ch := Lookup(root, dir).value;
      var sel := Selected(Listed(ch, base), rel, false);
      ResultsEntries(dir, sel, true);
      PrependMember(dir, sel, x);
      FlatSelectedExact(ch, base, rel, if dir <= x then x[|dir|..] else "");
      if dir <= x {
        PrefixBelow(dir, base, x);
        if x != dir {
          ShownBelow(dir, marker, x);
        }
        EntriesBelow(ch, dir, x);
      }
    }
  }

  lemma EntriesBelow(ch: seq<Node>, dir: string, x: string)
    requires dir <= x
    ensures (exists n <- ch :: x == dir + Entry(n)) <==> exists n <- ch :: x[|dir|..] == Entry(n)
    ensures (exists n <- ch :: x == dir + Entry(n)) && (forall n <- ch :: ValidName(n.name)) ==> x != dir
  {
    assert x == dir + x[|dir|..];
    forall n <- ch | x == dir + Entry(n)
      ensures x[|dir|..] == Entry(n)
    {
      assert (dir + Entry(n))[|dir|..] == Entry(n);
    }
  }

  lemma FlatSelectedExact(ch: seq<Node>, prefix: string, marker: string, y: string)
    ensures y in Selected(Listed(ch, prefix), marker, false) <==>
              HasPrefix(y, prefix) && Less(marker, y) && exists n <- ch :: y == Entry(n)
  {
    var l := Listed(ch, prefix);
    FlatMember(l, marker, y);
    SortMembers(Matching(ch, prefix));
    forall n: Node
      ensures n in l <==> n in ch && HasPrefix(Entry(n), prefix)
    {
      MatchingExact(ch, prefix, n);
    }
  }
}
