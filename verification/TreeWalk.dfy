/** doTreeWalk: the recursive directory walk with marker, against the sorted list of all leaf paths. */
module TreeWalk {
  import opened Basics
  import opened PathOrder
  import opened Tree

  datatype TreeWalkResult = TreeWalkResult(entry: string, end: bool)

  // ----- the listing a walk is proved against

  function Prepend(p: string, paths: seq<string>): (r: seq<string>)
    ensures |r| == |paths|
  {
    if paths == [] then [] else [p + paths[0]] + Prepend(p, paths[1..])
  }

  function Listed(children: seq<Node>, prefix: string): seq<Node> {
    Sort(Matching(children, prefix))
  }

  lemma {:induction false} MatchingSize(nodes: seq<Node>, prefix: string)
    ensures Size(Matching(nodes, prefix)) <= Size(nodes)
  {
    if nodes != [] {
      MatchingSize(nodes[1..], prefix);
    }
  }

  lemma {:induction false} SortSize(nodes: seq<Node>)
    ensures Size(Sort(nodes)) == Size(nodes)
  {
    if nodes != [] {
      SortSize(nodes[1..]);
      InsertSize(nodes[0], Sort(nodes[1..]));
    }
  }

  lemma {:induction false} InsertSize(n: Node, nodes: seq<Node>)
    ensures Size(Insert(n, nodes)) == NodeSize(n) + Size(nodes)
  {
    if nodes != [] && Less(Entry(nodes[0]), Entry(n)) {
      InsertSize(n, nodes[1..]);
    }
  }

  lemma ListedSize(children: seq<Node>, prefix: string)
    ensures Size(Listed(children, prefix)) <= Size(children)
  {
    SortSize(Matching(children, prefix));
    MatchingSize(children, prefix);
  }

  /** The leaf paths below one node, relative to its directory: files, and directories that are empty. */
  function NodeLeaves(n: Node): seq<string>
    decreases NodeSize(n), 0
  {
    if n.File? || n.children == [] then [Entry(n)]
    else
      ListedSize(n.children, "");
      Prepend(Entry(n), Leaves(Listed(n.children, "")))
  }

  /** The leaf paths below a list of nodes, in the order of the list. */
  function Leaves(nodes: seq<Node>): seq<string>
    decreases Size(nodes), 1
  {
    if nodes == [] then [] else
      assert NodeSize(nodes[0]) >= 1;
      NodeLeaves(nodes[0]) + Leaves(nodes[1..])
  }

  /** Everything up to and including the first slash, or the whole string. */
  function MarkerDir(m: string): string {
    if m == [] then [] else if m[0] == '/' then [m[0]] else [m[0]] + MarkerDir(m[1..])
  }

  function MarkerBase(m: string): string {
    if m == [] then [] else if m[0] == '/' then m[1..] else MarkerBase(m[1..])
  }

  lemma {:induction false} MarkerSplit(m: string)
    ensures m == MarkerDir(m) + MarkerBase(m)
    ensures '/' in MarkerDir(m) ==> IsDirPath(MarkerDir(m)) && '/' !in MarkerDir(m)[..|MarkerDir(m)| - 1]
    ensures '/' !in MarkerDir(m) ==> MarkerBase(m) == []
  {
    if m != [] && m[0] != '/' {
      MarkerSplit(m[1..]);
      var d := MarkerDir(m[1..]);
      assert m == [m[0]] + m[1..];
      if '/' in MarkerDir(m) {
        assert MarkerDir(m)[..|MarkerDir(m)| - 1] == [m[0]] + d[..|d| - 1];
      }
    }
  }

  /** What a walk with a marker shows: the paths behind the marker, and the empty directories above it. */
  predicate Shown(path: string, marker: string) {
    Less(marker, path) || (IsDirPath(path) && path <= marker)
  }

  function Filter(paths: seq<string>, marker: string): seq<string> {
    if paths == [] then []
    else if Shown(paths[0], marker) then [paths[0]] + Filter(paths[1..], marker)
    else Filter(paths[1..], marker)
  }

  /** The part of one node that a walk shows. */
  function NodeSelected(n: Node, marker: string, recursive: bool): seq<string> {
    if recursive then Filter(NodeLeaves(n), marker)
    else if Less(marker, Entry(n)) then [Entry(n)] else []
  }

  function Selected(nodes: seq<Node>, marker: string, recursive: bool): seq<string> {
    if nodes == [] then [] else NodeSelected(nodes[0], marker, recursive) + Selected(nodes[1..], marker, recursive)
  }

  /** Results on the channel: only the last one of a walk that ends the listing carries the end flag. */
  function Results(dir: string, paths: seq<string>, isEnd: bool): (r: seq<TreeWalkResult>)
    ensures |r| == |paths|
  {
    seq(|paths|, i requires 0 <= i < |paths| => TreeWalkResult(dir + paths[i], isEnd && i == |paths| - 1))
  }

  lemma {:induction false} FilterAppend(a: seq<string>, b: seq<string>, marker: string)
    ensures Filter(a + b, marker) == Filter(a, marker) + Filter(b, marker)
  {
    if a == [] {
      assert a + b == b;
    } else {
      assert (a + b)[1..] == a[1..] + b;
      FilterAppend(a[1..], b, marker);
    }
  }

  /** The recursive listing is the filtered list of all leaves. */
  lemma {:induction false} SelectedIsFilter(nodes: seq<Node>, marker: string)
    ensures Selected(nodes, marker, true) == Filter(Leaves(nodes), marker)
  {
    if nodes != [] {
      SelectedIsFilter(nodes[1..], marker);
      FilterAppend(NodeLeaves(nodes[0]), Leaves(nodes[1..]), marker);
    }
  }

  lemma {:induction false} SelectedAppend(a: seq<Node>, b: seq<Node>, marker: string, recursive: bool)
    ensures Selected(a + b, marker, recursive) == Selected(a, marker, recursive) + Selected(b, marker, recursive)
  {
    if a == [] {
      assert a + b == b;
    } else {
      assert (a + b)[1..] == a[1..] + b;
      SelectedAppend(a[1..], b, marker, recursive);
    }
  }

  lemma {:induction false} PrependAt(p: string, paths: seq<string>, i: nat)
    requires i < |paths|
    ensures Prepend(p, paths)[i] == p + paths[i]
  {
    if i > 0 {
      PrependAt(p, paths[1..], i - 1);
    }
  }

  // ----- one entry against the marker

  /** The form of a directory entry: no slash, or one at the end. */
  predicate IsEntry(e: string) {
    e != [] && '/' !in e[..|e| - 1]
  }

  lemma EntryForm(n: Node)
    requires ValidName(n.name)
    ensures IsEntry(Entry(n)) && (IsDirPath(Entry(n)) <==> n.Dir?)
  {
    if n.Dir? {
      assert Entry(n)[..|Entry(n)| - 1] == n.name;
    } else {
      assert n.name[..|n.name| - 1] <= n.name;
    }
  }

  /** One entry is a proper prefix of another, or of a marker's first part, only if it is a file. */
  lemma EntryPrefixes(e: string, d: string)
    requires IsEntry(e) && IsEntry(d) && e <= d && e != d
    ensures !IsDirPath(e)
  {
    assert e[|e| - 1] == d[|e| - 1] && e[|e| - 1] == d[..|d| - 1][|e| - 1];
  }

  lemma BeforeMarker(e: string, sub: string, marker: string)
    requires IsEntry(e) && (sub != [] ==> IsDirPath(e))
    requires Less(e, MarkerDir(marker))
    ensures !Shown(e + sub, marker)
  {
    MarkerSplit(marker);
    var d, b := MarkerDir(marker), MarkerBase(marker);
    DirIsEntry(marker);
    LessTotal(e, d);
    if e <= d {
      EntryPrefixes(e, d);
      assert e + sub == e;
      LessGrow(e, d, b);
    } else {
      LessDiverge(e, d, sub, b);
    }
    LessTotal(e + sub, marker);
  }

  lemma DirIsEntry(marker: string)
    requires marker != []
    ensures IsEntry(MarkerDir(marker))
  {
    MarkerSplit(marker);
    var d := MarkerDir(marker);
    assert d[..|d| - 1] <= d;
  }

  lemma BehindMarker(e: string, sub: string, marker: string)
    requires IsEntry(e) && Less(MarkerDir(marker), e)
    ensures Less(marker, e + sub)
  {
    MarkerSplit(marker);
    var d, b := MarkerDir(marker), MarkerBase(marker);
    LessTotal(d, e);
    if d <= e {
      if d != [] {
        DirIsEntry(marker);
        EntryPrefixes(d, e);
      }
      assert marker == d;
      LessGrow(d, e, sub);
    } else {
      LessDiverge(d, e, b, sub);
    }
  }

  lemma AtMarker(e: string, sub: string, marker: string)
    requires e == MarkerDir(marker)
    ensures sub != [] ==> (Shown(e + sub, marker) <==> Shown(sub, MarkerBase(marker)))
    ensures Shown(e, marker) <==> IsDirPath(e)
  {
    MarkerSplit(marker);
    var b := MarkerBase(marker);
    LessCommon(e, b, sub);
    LessExtend(e, b);
    assert sub != [] ==> (IsDirPath(e + sub) <==> IsDirPath(sub));
    assert e + sub <= e + b <==> sub <= b by {
      if sub <= b {
        assert (e + b)[|e|..] == b;
        assert (e + b)[..|e + sub|] == e + b[..|sub|];
      }
      if e + sub <= e + b {
        assert b[..|sub|] == (e + b)[..|e + sub|][|e|..] == sub;
      }
    }
  }

  /** Every leaf path of a node starts with its entry; only a directory's goes on. */
  lemma {:induction false} LeavesStart(n: Node, i: nat)
    requires i < |NodeLeaves(n)|
    ensures Entry(n) <= NodeLeaves(n)[i] && (n.File? ==> NodeLeaves(n)[i] == Entry(n))
    ensures n.Dir? && n.children != [] ==>
              i < |Leaves(Listed(n.children, ""))| && NodeLeaves(n)[i] == Entry(n) + Leaves(Listed(n.children, ""))[i]
  {
    if n.Dir? && n.children != [] {
      PrependAt(Entry(n), Leaves(Listed(n.children, "")), i);
    }
  }

  lemma {:induction false} FilterNone(paths: seq<string>, marker: string)
    requires forall i :: 0 <= i < |paths| ==> !Shown(paths[i], marker)
    ensures Filter(paths, marker) == []
  {
    if paths != [] {
      FilterNone(paths[1..], marker);
    }
  }

  lemma {:induction false} FilterAll(paths: seq<string>, marker: string)
    requires forall i :: 0 <= i < |paths| ==> Shown(paths[i], marker)
    ensures Filter(paths, marker) == paths
  {
    if paths != [] {
      FilterAll(paths[1..], marker);
    }
  }

  lemma NodeBefore(n: Node, marker: string, recursive: bool)
    requires ValidName(n.name) && Less(Entry(n), MarkerDir(marker))
    ensures NodeSelected(n, marker, recursive) == []
  {
    EntryForm(n);
    if recursive {
      forall i | 0 <= i < |NodeLeaves(n)|
        ensures !Shown(NodeLeaves(n)[i], marker)
      {
        LeavesStart(n, i);
        var l := NodeLeaves(n)[i];
        assert l == Entry(n) + l[|Entry(n)|..];
        BeforeMarker(Entry(n), l[|Entry(n)|..], marker);
      }
      FilterNone(NodeLeaves(n), marker);
    } else {
      assert Entry(n) + [] == Entry(n);
      BeforeMarker(Entry(n), [], marker);
    }
  }

  lemma NodeBehind(n: Node, marker: string, recursive: bool)
    requires ValidName(n.name) && Less(MarkerDir(marker), Entry(n))
    ensures NodeSelected(n, marker, recursive) == if recursive then NodeLeaves(n) else [Entry(n)]
  {
    EntryForm(n);
    if recursive {
      forall i | 0 <= i < |NodeLeaves(n)|
        ensures Shown(NodeLeaves(n)[i], marker)
      {
        LeavesStart(n, i);
        var l := NodeLeaves(n)[i];
        assert l == Entry(n) + l[|Entry(n)|..];
        BehindMarker(Entry(n), l[|Entry(n)|..], marker);
      }
      FilterAll(NodeLeaves(n), marker);
    } else {
      assert Entry(n) + [] == Entry(n);
      BehindMarker(Entry(n), [], marker);
    }
  }

  /** Below the marker's directory the walk goes on with the rest of the marker. */
  lemma {:induction false} FilterPrepend(e: string, paths: seq<string>, marker: string)
    requires e == MarkerDir(marker) && (forall i :: 0 <= i < |paths| ==> paths[i] != [])
    ensures Filter(Prepend(e, paths), marker) == Prepend(e, Filter(paths, MarkerBase(marker)))
  {
    if paths != [] {
      FilterPrepend(e, paths[1..], marker);
      AtMarker(e, paths[0], marker);
    }
  }

  lemma {:induction false} LeavesNonempty(nodes: seq<Node>)
    requires forall n <- nodes :: n.name != []
    ensures forall i :: 0 <= i < |Leaves(nodes)| ==> Leaves(nodes)[i] != []
  {
    if nodes != [] {
      LeavesNonempty(nodes[1..]);
      forall i | 0 <= i < |NodeLeaves(nodes[0])|
        ensures NodeLeaves(nodes[0])[i] != []
      {
        LeavesStart(nodes[0], i);
      }
    }
  }

  /** A node that holds something has a leaf. */
  lemma {:induction false} NodeLeavesExist(n: Node)
    ensures NodeLeaves(n) != []
    decreases NodeSize(n)
  {
    if n.Dir? && n.children != [] {
      var l := Listed(n.children, "");
      ListedAll(n.children);
      ListedSize(n.children, "");
      assert l[0] in l;
      SizeMember(l, l[0]);
      NodeLeavesExist(l[0]);
    }
  }

  lemma {:induction false} MatchingAll(nodes: seq<Node>)
    ensures Matching(nodes, "") == nodes
  {
    if nodes != [] {
      MatchingAll(nodes[1..]);
    }
  }

  lemma ListedAll(children: seq<Node>)
    ensures Listed(children, "") == Sort(children) && |Sort(children)| == |children|
  {
    MatchingAll(children);
    SortContents(children);
    assert |multiset(Sort(children))| == |multiset(children)|;
  }

  lemma NodeAt(n: Node, marker: string, recursive: bool)
    requires ValidName(n.name) && (n.Dir? ==> WellFormed(n.children))
    requires Entry(n) == MarkerDir(marker)
    ensures !recursive || n.File? ==> NodeSelected(n, marker, recursive) == []
    ensures recursive && n.Dir? ==>
              NodeSelected(n, marker, recursive)
              == if n.children == [] then [Entry(n)]
                 else Prepend(Entry(n), Filter(Leaves(Listed(n.children, "")), MarkerBase(marker)))
  {
    EntryForm(n);
    AtMarker(Entry(n), [], marker);
    MarkerSplit(marker);
    if n.Dir? && n.children != [] && recursive {
      var l := Listed(n.children, "");
      ListedAll(n.children);
      SortMembers(n.children);
      LeavesNonempty(l);
      FilterPrepend(Entry(n), Leaves(l), marker);
    }
    if n.File? || n.children == [] {
      assert Filter(NodeLeaves(n)[1..], marker) == [];
    }
    if !recursive {
      LessExtend(Entry(n), MarkerBase(marker));
    }
  }

  // ----- the walk

  class ResultChannel {
    var sent: seq<TreeWalkResult>

    constructor ()
      ensures sent == []
    {
      sent := [];
    }
  }

  lemma ResultsAppend(dir: string, a: seq<string>, b: seq<string>, isEnd: bool)
    requires b == [] && isEnd ==> a == []
    ensures Results(dir, a, false) + Results(dir, b, isEnd) == Results(dir, a + b, isEnd)
  {
  }

  lemma ResultsPrepend(dir: string, e: string, paths: seq<string>, isEnd: bool)
    ensures Results(dir + e, paths, isEnd) == Results(dir, Prepend(e, paths), isEnd)
  {
    forall i | 0 <= i < |paths|
      ensures Results(dir + e, paths, isEnd)[i] == Results(dir, Prepend(e, paths), isEnd)[i]
    {
      PrependAt(e, paths, i);
    }
  }

  /** sort.Search: the first entry that is not smaller than the marker's first part. */
  method SearchEntries(nodes: seq<Node>, markerDir: string) returns (idx: nat)
    requires Sorted(nodes)
    ensures idx <= |nodes|
    ensures forall i :: 0 <= i < idx ==> Less(Entry(nodes[i]), markerDir)
    ensures forall i :: idx <= i < |nodes| ==> !Less(Entry(nodes[i]), markerDir)
  {
    var lo, hi := 0, |nodes|;
    while lo < hi
      invariant 0 <= lo <= hi <= |nodes|
      invariant forall i :: 0 <= i < lo ==> Less(Entry(nodes[i]), markerDir)
      invariant forall i :: hi <= i < |nodes| ==> !Less(Entry(nodes[i]), markerDir)
    {
      var h := (lo + hi) / 2;
      if Less(Entry(nodes[h]), markerDir) {
        forall i | 0 <= i < h
          ensures Less(Entry(nodes[i]), markerDir)
        {
          LessTransitive(Entry(nodes[i]), Entry(nodes[h]), markerDir);
        }
        lo := h + 1;
      } else {
        forall i | h < i < |nodes|
          ensures !Less(Entry(nodes[i]), markerDir)
        {
          if Less(Entry(nodes[i]), markerDir) {
            LessTransitive(Entry(nodes[h]), Entry(nodes[i]), markerDir);
          }
        }
        hi := h;
      }
    }
    idx := lo;
  }

  /** Entries before the marker's first part contribute nothing. */
  lemma {:induction false} SelectedFrom(nodes: seq<Node>, idx: nat, marker: string, recursive: bool)
    requires idx <= |nodes| && (forall n <- nodes :: ValidName(n.name))
    requires forall i :: 0 <= i < idx ==> Less(Entry(nodes[i]), MarkerDir(marker))
    ensures Selected(nodes, marker, recursive) == Selected(nodes[idx..], marker, recursive)
  {
    if idx > 0 {
      NodeBefore(nodes[0], marker, recursive);
      SelectedFrom(nodes[1..], idx - 1, marker, recursive);
      assert nodes[1..][idx - 1..] == nodes[idx..];
    }
  }

  /** Below a directory that is not the marker's, everything is shown. */
  lemma SelectedWithoutMarker(children: seq<Node>)
    requires WellFormed(children)
    ensures Selected(Listed(children, ""), "", true) == Leaves(Listed(children, ""))
  {
    var l := Listed(children, "");
    ListedAll(children);
    SortMembers(children);
    LeavesNonempty(l);
    SelectedIsFilter(l, "");
    FilterAll(Leaves(l), "");
  }

  /** What the walk below entry n sends is what n contributes to the walk above. */
  lemma SubWalk(n: Node, marker: string)
    requires n.Dir? && n.children != [] && ValidName(n.name) && WellFormed(n.children)
    requires Entry(n) == MarkerDir(marker) || Less(MarkerDir(marker), Entry(n))
    ensures var arg := if Entry(n) == MarkerDir(marker) then MarkerBase(marker) else "";
            Prepend(Entry(n), Selected(Listed(n.children, ""), arg, true)) == NodeSelected(n, marker, true)
  {
    if Entry(n) == MarkerDir(marker) {
      NodeAt(n, marker, true);
      SelectedIsFilter(Listed(n.children, ""), MarkerBase(marker));
    } else {
      NodeBehind(n, marker, true);
      SelectedWithoutMarker(n.children);
    }
  }

  /** Sends one result unless the listing has been abandoned. */
  method Send(ch: ResultChannel, r: TreeWalkResult) returns (aborted: bool)
    modifies ch
    ensures ch.sent == if aborted then old(ch.sent) else old(ch.sent) + [r]
  {
    aborted :| true;
    if !aborted {
      ch.sent := ch.sent + [r];
    }
  }

  /** One turn of the loop over the entries; `first` tells the entry at index 0. */
  method WalkEntry(n: Node, first: bool, prefixDir: string, marker: string, recursive: bool, ch: ResultChannel, isEOF: bool)
    returns (aborted: bool)
    requires ValidName(n.name) && (n.Dir? ==> WellFormed(n.children))
    requires Entry(n) == MarkerDir(marker) || Less(MarkerDir(marker), Entry(n))
    requires Entry(n) == MarkerDir(marker) ==> first
    modifies ch
    ensures var all := old(ch.sent) + Results(prefixDir, NodeSelected(n, marker, recursive), isEOF);
            (!aborted ==> ch.sent == all) && ch.sent <= all
    decreases NodeSize(n), 0
  {
    hide Less, Sort, Matching, Size, MarkerDir;
    var entry, markerDir := Entry(n), MarkerDir(marker);
    var pentry := prefixDir + entry;
    var isDir := IsDirPath(pentry);
    EntryForm(n);
    LessTotal(markerDir, entry);
    if entry == markerDir {
      NodeAt(n, marker, recursive);
    } else {
      NodeBehind(n, marker, recursive);
    }
    if first && markerDir == entry {
      if !recursive || !isDir {
        return false;
      }
    }
    if recursive && isDir {
      var markerArg := if entry == markerDir then MarkerBase(marker) else "";
      var emptyDir;
      ghost var sub := Selected(Listed(n.children, ""), markerArg, true);
      emptyDir, aborted := DoTreeWalk(n.children, pentry, "", markerArg, recursive, ch, isEOF);
      if n.children != [] {
        SubWalk(n, marker);
        ResultsPrepend(prefixDir, entry, sub, isEOF);
      }
      if aborted || !emptyDir {
        return;
      }
    }
    aborted := Send(ch, TreeWalkResult(pentry, isEOF));
    assert Results(prefixDir, [entry], isEOF) == [TreeWalkResult(pentry, isEOF)];
  }

  method DoTreeWalk(children: seq<Node>, prefixDir: string, entryPrefixMatch: string, marker: string, recursive: bool,
                    ch: ResultChannel, isEnd: bool)
    returns (emptyDir: bool, aborted: bool)
    requires WellFormed(children) && Contiguous(children, entryPrefixMatch)
    modifies ch
    ensures emptyDir <==> children == []
    ensures var all := old(ch.sent) + Results(prefixDir, Selected(Listed(children, entryPrefixMatch), marker, recursive), isEnd);
            && (children != [] && !aborted ==> ch.sent == all)
            && (children != [] ==> ch.sent <= all)
    ensures children == [] ==> !aborted && ch.sent == old(ch.sent)
    decreases Size(children), 1
  {
    hide Results, NodeSelected, Selected, Less, MarkerDir, Sort, Matching, Size;
    var markerDir := MarkerDir(marker);
    emptyDir, aborted := children == [], false;
    if emptyDir {
      return;
    }
    var listing := FilterMatchingPrefix(children, entryPrefixMatch);
    ListedProperties(children, entryPrefixMatch);
    var idx := SearchEntries(listing, markerDir);
    var entries := listing[idx..];
    SelectedFrom(listing, idx, marker, recursive);
    ghost var start := ch.sent;
    SelectedNone(marker, recursive);
    for i := 0 to |entries|
      invariant ch.sent == start + Results(prefixDir, Selected(entries[..i], marker, recursive), i == |entries| && isEnd)
    {
      var isEOF := i == |entries| - 1 && isEnd;
      WalkStep(entries, i, prefixDir, marker, recursive, isEnd);
      EntryAgainstMarker(entries, i, marker, recursive);
      SizeMember(listing, entries[i]);
      Assoc(start, Results(prefixDir, Selected(entries[..i], marker, recursive), false),
            Results(prefixDir, NodeSelected(entries[i], marker, recursive), isEOF));
      aborted := WalkEntry(entries[i], i == 0, prefixDir, marker, recursive, ch, isEOF);
      if aborted {
        return;
      }
    }
    assert entries[..|entries|] == entries;
  }

  lemma ListedProperties(children: seq<Node>, prefix: string)
    requires WellFormed(children)
    ensures Sorted(Listed(children, prefix))
    ensures forall n <- Listed(children, prefix) :: ValidName(n.name) && (n.Dir? ==> WellFormed(n.children))
    ensures Size(Listed(children, prefix)) <= Size(children)
  {
    MatchingMembers(children, prefix);
    MatchingDistinct(children, prefix);
    SortMembers(Matching(children, prefix));
    SortSorted(Matching(children, prefix));
    ListedSize(children, prefix);
  }

  lemma {:induction false} MatchingMembers(nodes: seq<Node>, prefix: string)
    ensures forall n <- Matching(nodes, prefix) :: n in nodes
  {
    if nodes != [] {
      MatchingMembers(nodes[1..], prefix);
    }
  }

  lemma {:induction false} MatchingDistinct(nodes: seq<Node>, prefix: string)
    requires DistinctEntries(nodes)
    ensures DistinctEntries(Matching(nodes, prefix))
  {
    if nodes != [] {
      var rest := nodes[1..];
      assert DistinctEntries(rest) by {
        forall i, j | 0 <= i < j < |rest|
          ensures rest[i].name != rest[j].name
        {
          assert nodes[i + 1].name != nodes[j + 1].name;
        }
      }
      MatchingDistinct(rest, prefix);
      MatchingMembers(rest, prefix);
      forall m <- Matching(rest, prefix)
        ensures m.name != nodes[0].name
      {
        var k :| 0 <= k < |rest| && rest[k] == m;
        assert nodes[0].name != nodes[k + 1].name;
      }
    }
  }

  lemma SelectedNone(marker: string, recursive: bool)
    ensures Selected([], marker, recursive) == []
  {
  }

  lemma SelectedAround(entries: seq<Node>, i: nat, marker: string, recursive: bool)
    requires i < |entries|
    ensures Selected(entries[..i + 1], marker, recursive)
         == Selected(entries[..i], marker, recursive) + NodeSelected(entries[i], marker, recursive)
    ensures Selected(entries, marker, recursive)
         == Selected(entries[..i + 1], marker, recursive) + Selected(entries[i + 1..], marker, recursive)
  {
    assert entries[..i + 1] == entries[..i] + [entries[i]];
    assert Selected([entries[i]], marker, recursive) == NodeSelected(entries[i], marker, recursive) + [];
    SelectedAppend(entries[..i], [entries[i]], marker, recursive);
    assert entries == entries[..i + 1] + entries[i + 1..];
    SelectedAppend(entries[..i + 1], entries[i + 1..], marker, recursive);
  }

  /** Only the first entry can be the marker's; every later one contributes something. */
  lemma EntryAgainstMarker(entries: seq<Node>, i: nat, marker: string, recursive: bool)
    requires i < |entries| && Sorted(entries)
    requires forall n <- entries :: ValidName(n.name)
    requires forall j :: 0 <= j < |entries| ==> !Less(Entry(entries[j]), MarkerDir(marker))
    ensures Entry(entries[i]) == MarkerDir(marker) || Less(MarkerDir(marker), Entry(entries[i]))
    ensures Entry(entries[i]) == MarkerDir(marker) ==> i == 0
    ensures NodeSelected(entries[i], marker, recursive) == [] ==> i == 0
  {
    LessTotal(Entry(entries[i]), MarkerDir(marker));
    if i > 0 {
      LessTotal(Entry(entries[0]), MarkerDir(marker));
      if Entry(entries[0]) != MarkerDir(marker) {
        LessTransitive(MarkerDir(marker), Entry(entries[0]), Entry(entries[i]));
      }
      NodeBehind(entries[i], marker, recursive);
      NodeLeavesExist(entries[i]);
      LessTotal(MarkerDir(marker), Entry(entries[i]));
    }
  }

  /** Behind any entry but the last something follows. */
  lemma RestNonempty(entries: seq<Node>, i: nat, marker: string, recursive: bool)
    requires i + 1 < |entries| && Sorted(entries)
    requires forall n <- entries :: ValidName(n.name)
    requires forall j :: 0 <= j < |entries| ==> !Less(Entry(entries[j]), MarkerDir(marker))
    ensures Selected(entries[i + 1..], marker, recursive) != []
  {
    EntryAgainstMarker(entries, i + 1, marker, recursive);
    assert entries[i + 1..][0] == entries[i + 1];
  }

  /** Results sent before the walk is complete are a prefix of all results. */
  lemma ResultsPrefix(dir: string, part: seq<string>, rest: seq<string>, isEOF: bool, isEnd: bool)
    requires if rest == [] then isEOF == isEnd else !isEOF
    ensures Results(dir, part, isEOF) <= Results(dir, part + rest, isEnd)
  {
    if rest == [] {
      assert part + rest == part;
    }
  }

  /** The loop's turn number i: what it sends continues what has been sent, and both begin the whole. */
  lemma WalkStep(entries: seq<Node>, i: nat, dir: string, marker: string, recursive: bool, isEnd: bool)
    requires i < |entries| && Sorted(entries)
    requires forall n <- entries :: ValidName(n.name)
    requires forall j :: 0 <= j < |entries| ==> !Less(Entry(entries[j]), MarkerDir(marker))
    ensures var isEOF := i == |entries| - 1 && isEnd;
            var done := Results(dir, Selected(entries[..i + 1], marker, recursive), isEOF);
            && done == Results(dir, Selected(entries[..i], marker, recursive), false)
                     + Results(dir, NodeSelected(entries[i], marker, recursive), isEOF)
            && done <= Results(dir, Selected(entries, marker, recursive), isEnd)
  {
    SelectedAround(entries, i, marker, recursive);
    EntryAgainstMarker(entries, i, marker, recursive);
    var isEOF := i == |entries| - 1 && isEnd;
    ResultsAppend(dir, Selected(entries[..i], marker, recursive), NodeSelected(entries[i], marker, recursive), isEOF);
    var rest := Selected(entries[i + 1..], marker, recursive);
    if i + 1 < |entries| {
      RestNonempty(entries, i, marker, recursive);
    }
    ResultsPrefix(dir, Selected(entries[..i + 1], marker, recursive), rest, isEOF, isEnd);
  }
}
