/** A walk with a marker is a suffix of the walk without one; where that suffix starts. */
module Resume {
  import opened Basics
  import opened PathOrder
  import opened Tree
  import opened TreeWalk
  import opened WalkMeaning

  /** No directory path in the list is above another path of the list. */
  ghost predicate PrefixFree(paths: seq<string>) {
    forall i, j :: 0 <= i < |paths| && 0 <= j < |paths| && i != j && IsDirPath(paths[i]) ==> !(paths[i] <= paths[j])
  }

  /** A directory that is a leaf is empty. */
  lemma {:induction false} EmptyLeaf(nodes: seq<Node>, d: string)
    requires WellFormed(nodes) && IsLeaf(nodes, d) && IsDirPath(d)
    ensures Lookup(nodes, d) == Some([])
    decreases |d|
  {
    MarkerSplit(d);
    DirIsEntry(d);
    var e, b := MarkerDir(d), MarkerBase(d);
    assert '/' in d;
    if b == [] {
      var n :| n in nodes && IsNodeLeaf(n, d);
      EntryForm(n);
      assert e == d;
      if n.Dir? && n.children != [] {
        FirstComponent(d, Entry(n), d);
        LeafPathsExist(n.children, d[|Entry(n)|..]);
      }
      FindDirExact(nodes, d);
      FoundIs(nodes, n, d);
    } else {
      LeafBelow(nodes, e, d);
      FindDirExact(nodes, e);
      assert d[|e|..] == b && IsDirPath(b);
      EmptyLeaf(FindDir(nodes, e).value, b);
    }
  }

  /** No leaf path is empty. */
  lemma LeafPathsExist(nodes: seq<Node>, x: string)
    requires WellFormed(nodes) && IsLeaf(nodes, x)
    ensures x != []
  {
    var n :| n in nodes && IsNodeLeaf(n, x);
    assert Entry(n) != [];
  }

  lemma FoundIs(nodes: seq<Node>, n: Node, d: string)
    requires WellFormed(nodes) && n in nodes && n.Dir? && Entry(n) == d
    ensures FindDir(nodes, d) == Some(n.children)
  {
    FindDirExact(nodes, d);
    forall m <- nodes | m.Dir? && Entry(m) == d
      ensures m == n
    {
      EntryInjective(m, n);
    }
  }

  lemma LeavesPrefixFree(children: seq<Node>, prefix: string)
    requires WellFormed(children) && '/' !in prefix
    ensures PrefixFree(Leaves(Listed(children, prefix)))
  {
    var paths := Leaves(Listed(children, prefix));
    ListedProperties(children, prefix);
    LeavesIncreasing(Listed(children, prefix));
    forall i, j | 0 <= i < |paths| && 0 <= j < |paths| && i != j && IsDirPath(paths[i])
      ensures !(paths[i] <= paths[j])
    {
      LeavesExact(children, prefix, paths[i]);
      LeavesExact(children, prefix, paths[j]);
      EmptyLeaf(children, paths[i]);
      LessTotal(paths[i], paths[j]);
      if paths[i] <= paths[j] {
        LookupLeaf(children, paths[i], paths[j]);
      }
    }
  }

  /** Whatever follows a shown path is shown. */
  lemma ShownUpward(a: string, b: string, marker: string)
    requires Less(a, b) && Shown(a, marker) && (IsDirPath(a) ==> !(a <= b))
    ensures Less(marker, b)
  {
    if Less(marker, a) {
      LessTransitive(marker, a, b);
    } else {
      LessTotal(marker, b);
      if Less(b, marker) {
        PrefixBetween(a, a, b, marker);
      }
    }
  }

  lemma {:induction false} FilterSuffix(paths: seq<string>, marker: string) returns (j: nat)
    requires Increasing(paths) && PrefixFree(paths)
    ensures j <= |paths| && Filter(paths, marker) == paths[j..]
    ensures forall i :: 0 <= i < |paths| ==> (Shown(paths[i], marker) <==> j <= i)
  {
    if paths == [] {
      j := 0;
    } else if Shown(paths[0], marker) {
      forall i | 0 < i < |paths|
        ensures Shown(paths[i], marker)
      {
        ShownUpward(paths[0], paths[i], marker);
      }
      FilterAll(paths, marker);
      j := 0;
    } else {
      j := FilterSuffix(paths[1..], marker);
      assert paths[1..][j..] == paths[j + 1..];
      forall i | 0 < i < |paths|
        ensures Shown(paths[i], marker) <==> j + 1 <= i
      {
        assert paths[i] == paths[1..][i - 1];
      }
      j := j + 1;
    }
  }

  lemma {:induction false} FlatSuffix(nodes: seq<Node>, marker: string) returns (j: nat)
    requires Sorted(nodes) && (forall n <- nodes :: n.name != [])
    ensures j <= |nodes| == |Selected(nodes, "", false)|
    ensures Selected(nodes, marker, false) == Selected(nodes, "", false)[j..]
    ensures forall i :: 0 <= i < |nodes| ==>
              Selected(nodes, "", false)[i] == Entry(nodes[i]) && (Less(marker, Entry(nodes[i])) <==> j <= i)
  {
    if nodes == [] {
      j := 0;
    } else {
      var rest := nodes[1..];
      var k := FlatSuffix(rest, marker);
      assert Selected(nodes, "", false) == [Entry(nodes[0])] + Selected(rest, "", false);
      if Less(marker, Entry(nodes[0])) {
        if k > 0 {
          LessTransitive(marker, Entry(nodes[0]), Entry(nodes[1]));
        }
        j := 0;
      } else {
        j := k + 1;
      }
      forall i | 0 < i < |nodes|
        ensures Less(marker, Entry(nodes[i])) <==> j <= i
        ensures Selected(nodes, "", false)[i] == Entry(nodes[i])
      {
        assert nodes[i] == rest[i - 1];
      }
    }
  }

  /** The walk over everything with the prefix. */
  function FullWalk(root: seq<Node>, prefix: string, recursive: bool): seq<TreeWalkResult> {
    FreshWalk(root, prefix, "", recursive)
  }

  /** Does a fresh walk from the marker emit this path of the full walk? */
  predicate Emitted(path: string, marker: string, recursive: bool) {
    if recursive then Shown(path, marker) else Less(marker, path)
  }

  lemma SelectedSuffix(ch: seq<Node>, base: string, rel: string, recursive: bool) returns (j: nat)
    requires WellFormed(ch) && '/' !in base
    ensures var full := Selected(Listed(ch, base), "", recursive);
            && j <= |full| && Selected(Listed(ch, base), rel, recursive) == full[j..]
            && forall i :: 0 <= i < |full| ==> full[i] != "" && (Emitted(full[i], rel, recursive) <==> j <= i)
  {
    var l := Listed(ch, base);
    ListedProperties(ch, base);
    if recursive {
      LeavesIncreasing(l);
      LeavesPrefixFree(ch, base);
      SelectedIsFilter(l, "");
      SelectedIsFilter(l, rel);
      LeavesNonempty(l);
      FilterAll(Leaves(l), "");
      j := FilterSuffix(Leaves(l), rel);
    } else {
      j := FlatSuffix(l, rel);
    }
  }

  lemma ResultsSuffix(dir: string, paths: seq<string>, j: nat)
    requires j <= |paths|
    ensures Results(dir, paths, true)[j..] == Results(dir, paths[j..], true)
  {
  }

  /** A fresh walk from any marker is the suffix of the full walk that starts with the first emitted path. */
  lemma FreshIsSuffix(root: seq<Node>, prefix: string, marker: string, recursive: bool) returns (j: nat)
    requires WellFormed(root) && MarkerFits(prefix, marker)
    ensures var full := FullWalk(root, prefix, recursive);
            && j <= |full| && FreshWalk(root, prefix, marker, recursive) == full[j..]
            && forall i :: 0 <= i < |full| ==> (Emitted(full[i].entry, marker, recursive) <==> j <= i)
  {
    hide DirPart, Listed, Lookup, Selected;
    DirPartSplit(prefix);
    var dir, base := DirPart(prefix), prefix[|DirPart(prefix)|..];
    LookupWellFormed(root, dir);
    j := 0;
    if Lookup(root, dir).Some? {
      var ch := Lookup(root, dir).value;
      var rel := if dir <= marker then marker[|dir|..] else marker;
      var rel0 := if dir <= "" then ""[|dir|..] else "";
      assert rel0 == "";
      if ch != [] {
        var sel := Selected(Listed(ch, base), "", recursive);
        j := SelectedSuffix(ch, base, rel, recursive);
        ResultsSuffix(dir, sel, j);
        forall i | 0 <= i < |sel|
          ensures Emitted(dir + sel[i], marker, recursive) <==> j <= i
        {
          assert (dir + sel[i])[|dir|..] == sel[i];
          ShownBelow(dir, marker, dir + sel[i]);
        }
      }
    }
  }

  /** Resuming from the k-th path with a fresh walk continues right behind it, except when the walk
      descends and that path is an empty directory: then this directory comes again. */
  lemma ResumeExact(root: seq<Node>, prefix: string, recursive: bool, k: nat)
    requires WellFormed(root) && 0 < k <= |FullWalk(root, prefix, recursive)|
    ensures var full := FullWalk(root, prefix, recursive);
            var marker := full[k - 1].entry;
            && MarkerFits(prefix, marker)
            && FreshWalk(root, prefix, marker, recursive)
            == if recursive && IsDirPath(marker) then full[k - 1..] else full[k..]
  {
    hide FreshWalk, Less, WellFormed, DistinctEntries;
    var full := FullWalk(root, prefix, recursive);
    var marker := full[k - 1].entry;
    FullHasPrefix(root, prefix, recursive, k - 1);
    var j := FreshIsSuffix(root, prefix, marker, recursive);
    WalkOrder(root, prefix, "", recursive);
    LessTotal(marker, marker);
    assert Emitted(marker, marker, recursive) <==> recursive && IsDirPath(marker);
    assert j <= k by {
      if k < |full| {
        assert Less(Entries(full)[k - 1], Entries(full)[k]);
        assert Emitted(full[k].entry, marker, recursive);
      }
    }
    if j < k - 1 {
      assert Less(Entries(full)[j], Entries(full)[k - 1]);
      var x := full[j].entry;
      assert Emitted(x, marker, recursive);
      LessTotal(x, marker);
      assert recursive && Shown(x, marker) && IsDirPath(x) && x <= marker;
      FullPrefixFree(root, prefix, j, k - 1);
    }
  }

  lemma FullHasPrefix(root: seq<Node>, prefix: string, recursive: bool, i: nat)
    requires WellFormed(root) && i < |FullWalk(root, prefix, recursive)|
    ensures HasPrefix(FullWalk(root, prefix, recursive)[i].entry, prefix)
  {
    var x := FullWalk(root, prefix, recursive)[i].entry;
    assert x == Entries(FullWalk(root, prefix, recursive))[i];
    if recursive {
      WalkExact(root, prefix, "", x);
    } else {
      FlatWalkExact(root, prefix, "", x);
    }
  }

  lemma FullPrefixFree(root: seq<Node>, prefix: string, i: nat, k: nat)
    requires WellFormed(root) && i < k < |FullWalk(root, prefix, true)|
    requires IsDirPath(FullWalk(root, prefix, true)[i].entry)
    ensures !(FullWalk(root, prefix, true)[i].entry <= FullWalk(root, prefix, true)[k].entry)
  {
    var full := FullWalk(root, prefix, true);
    var x, y := full[i].entry, full[k].entry;
    assert x == Entries(full)[i] && y == Entries(full)[k];
    WalkExact(root, prefix, "", x);
    WalkExact(root, prefix, "", y);
    WalkOrder(root, prefix, "", true);
    LessTotal(x, y);
    EmptyLeaf(root, x);
    if x <= y {
      LookupLeaf(root, x, y);
    }
  }
}
