/** A bucket as a tree of files and directories, listed one directory at a time. */
module Tree {
  import opened PathOrder

  datatype Node = File(name: string) | Dir(name: string, children: seq<Node>)

  /** The name under which a directory listing shows a node: directories end in a slash. */
  function Entry(n: Node): string {
    if n.File? then n.name else n.name + "/"
  }

  predicate ValidName(s: string) {
    s != [] && '/' !in s
  }

  ghost predicate DistinctEntries(nodes: seq<Node>) {
    forall i, j :: 0 <= i < j < |nodes| ==> nodes[i].name != nodes[j].name
  }

  /** Names are nonempty and without slashes, and no directory holds two nodes of one name. */
  ghost predicate WellFormed(nodes: seq<Node>)
    decreases nodes
  {
    && DistinctEntries(nodes)
    && forall n <- nodes :: ValidName(n.name) && (n.Dir? ==> WellFormed(n.children))
  }

  function Size(nodes: seq<Node>): nat
    decreases nodes
  {
    if nodes == [] then 0 else NodeSize(nodes[0]) + Size(nodes[1..])
  }

  function NodeSize(n: Node): nat
    decreases n
  {
    if n.File? then 1 else 1 + Size(n.children)
  }

  lemma {:induction false} SizeMember(nodes: seq<Node>, n: Node)
    requires n in nodes
    ensures NodeSize(n) <= Size(nodes)
  {
    if n != nodes[0] {
      SizeMember(nodes[1..], n);
    }
  }

  // ----- filtering and sorting one directory

  function Matching(nodes: seq<Node>, prefix: string): seq<Node> {
    if nodes == [] then []
    else if HasPrefix(Entry(nodes[0]), prefix) then [nodes[0]] + Matching(nodes[1..], prefix)
    else Matching(nodes[1..], prefix)
  }

  /** Insertion into a list sorted by entry; sort.Strings is this insertion repeated. */
  function Insert(n: Node, nodes: seq<Node>): seq<Node> {
    if nodes == [] then [n]
    else if Less(Entry(nodes[0]), Entry(n)) then [nodes[0]] + Insert(n, nodes[1..])
    else [n] + nodes
  }

  function Sort(nodes: seq<Node>): seq<Node> {
    if nodes == [] then [] else Insert(nodes[0], Sort(nodes[1..]))
  }

  ghost predicate Sorted(nodes: seq<Node>) {
    forall i, j :: 0 <= i < j < |nodes| ==> Less(Entry(nodes[i]), Entry(nodes[j]))
  }

  lemma {:induction false} InsertContents(n: Node, nodes: seq<Node>)
    ensures multiset(Insert(n, nodes)) == multiset(nodes) + multiset{n}
  {
    if nodes != [] {
      assert nodes == [nodes[0]] + nodes[1..];
      if Less(Entry(nodes[0]), Entry(n)) {
        InsertContents(n, nodes[1..]);
      }
    }
  }

  lemma {:induction false} SortContents(nodes: seq<Node>)
    ensures multiset(Sort(nodes)) == multiset(nodes)
  {
    if nodes != [] {
      SortContents(nodes[1..]);
      InsertContents(nodes[0], Sort(nodes[1..]));
      assert nodes == [nodes[0]] + nodes[1..];
    }
  }

  lemma {:induction false} InsertSorted(n: Node, nodes: seq<Node>)
    requires Sorted(nodes) && (forall m <- nodes :: Entry(m) != Entry(n))
    ensures Sorted(Insert(n, nodes))
  {
    hide Less, Entry;
    var r := Insert(n, nodes);
    if nodes != [] {
      LessTotal(Entry(nodes[0]), Entry(n));
      if Less(Entry(nodes[0]), Entry(n)) {
        InsertSorted(n, nodes[1..]);
        InsertContents(n, nodes[1..]);
        forall j | 1 <= j < |r|
          ensures Less(Entry(r[0]), Entry(r[j]))
        {
          assert r[j] in multiset(Insert(n, nodes[1..]));
        }
      } else {
        forall j | 1 <= j < |r|
          ensures Less(Entry(r[0]), Entry(r[j]))
        {
          if j > 1 {
            LessTransitive(Entry(n), Entry(nodes[0]), Entry(nodes[j - 1]));
          }
        }
      }
    }
  }

  lemma EntryInjective(m: Node, n: Node)
    requires ValidName(m.name) && ValidName(n.name) && Entry(m) == Entry(n)
    ensures m.name == n.name
  {
    if m.Dir? && n.Dir? {
      assert Entry(m)[..|m.name|] == m.name && Entry(n)[..|n.name|] == n.name;
    }
  }

  lemma {:induction false} SortSorted(nodes: seq<Node>)
    requires DistinctEntries(nodes) && (forall n <- nodes :: ValidName(n.name))
    ensures Sorted(Sort(nodes))
  {
    if nodes != [] {
      SortSorted(nodes[1..]);
      SortContents(nodes[1..]);
      forall m <- Sort(nodes[1..])
        ensures Entry(m) != Entry(nodes[0])
      {
        assert m in multiset(nodes[1..]);
        if Entry(m) == Entry(nodes[0]) {
          EntryInjective(m, nodes[0]);
        }
      }
      InsertSorted(nodes[0], Sort(nodes[1..]));
    }
  }

  /** The matching entries stand next to each other. */
  ghost predicate Contiguous(nodes: seq<Node>, prefix: string) {
    forall i, j, k :: 0 <= i < j < k < |nodes| && HasPrefix(Entry(nodes[i]), prefix) && HasPrefix(Entry(nodes[k]), prefix)
      ==> HasPrefix(Entry(nodes[j]), prefix)
  }

  /** filterMatchingPrefix: cuts off what does not match at both ends and sorts the rest. */
  method FilterMatchingPrefix(entries: seq<Node>, prefix: string) returns (r: seq<Node>)
    ensures Contiguous(entries, prefix) <==> forall n <- r :: HasPrefix(Entry(n), prefix)
    ensures Contiguous(entries, prefix) ==> r == Sort(Matching(entries, prefix))
  {
    hide Contiguous, Entry, HasPrefix, Sort;
    var start, end := 0, |entries|;
    while start != end && !HasPrefix(Entry(entries[start]), prefix)
      invariant 0 <= start <= end
      invariant forall i :: 0 <= i < start ==> !HasPrefix(Entry(entries[i]), prefix)
      decreases end - start
    {
      start := start + 1;
    }
    while start != end && !HasPrefix(Entry(entries[end - 1]), prefix)
      invariant 0 <= start <= end <= |entries|
      invariant forall i :: end <= i < |entries| ==> !HasPrefix(Entry(entries[i]), prefix)
      decreases end - start
    {
      end := end - 1;
    }
    r := Sort(entries[start..end]);
    MatchingBlock(entries, prefix, start, end);
    SortMembers(entries[start..end]);
  }

  lemma SortMembers(nodes: seq<Node>)
    ensures forall n :: n in Sort(nodes) <==> n in nodes
  {
    SortContents(nodes);
    assert forall n :: n in nodes <==> n in multiset(nodes);
    assert forall n :: n in Sort(nodes) <==> n in multiset(Sort(nodes));
  }

  /** Cutting non-matching ends off leaves the matching entries, if they stand together. */
  lemma MatchingBlock(nodes: seq<Node>, prefix: string, start: nat, end: nat)
    requires start <= end <= |nodes|
    requires forall i :: 0 <= i < start || end <= i < |nodes| ==> !HasPrefix(Entry(nodes[i]), prefix)
    requires start < end ==> HasPrefix(Entry(nodes[start]), prefix) && HasPrefix(Entry(nodes[end - 1]), prefix)
    ensures Contiguous(nodes, prefix) <==> forall n <- nodes[start..end] :: HasPrefix(Entry(n), prefix)
    ensures Contiguous(nodes, prefix) ==> Matching(nodes, prefix) == nodes[start..end]
  {
    hide Entry, HasPrefix, Matching;
    if forall n <- nodes[start..end] :: HasPrefix(Entry(n), prefix) {
      forall i | start <= i < end
        ensures HasPrefix(Entry(nodes[i]), prefix)
      {
        assert nodes[start..end][i - start] == nodes[i];
      }
      MatchingRange(nodes, prefix, start, end);
    }
  }

  lemma {:induction false} MatchingRange(nodes: seq<Node>, prefix: string, start: nat, end: nat)
    requires start <= end <= |nodes|
    requires forall i :: 0 <= i < |nodes| ==> (HasPrefix(Entry(nodes[i]), prefix) <==> start <= i < end)
    ensures Matching(nodes, prefix) == nodes[start..end]
  {
    if nodes != [] {
      if start > 0 {
        MatchingRange(nodes[1..], prefix, start - 1, end - 1);
        assert nodes[1..][start - 1..end - 1] == nodes[start..end];
      } else if end > 0 {
        MatchingRange(nodes[1..], prefix, 0, end - 1);
        assert nodes[..end] == [nodes[0]] + nodes[1..][..end - 1];
      } else {
        MatchingRange(nodes[1..], prefix, 0, 0);
      }
    }
  }

  // ----- directories listed in name order

  lemma {:induction false} PrefixBetween(p: string, a: string, b: string, c: string)
    requires HasPrefix(a, p) && HasPrefix(c, p) && Less(a, b) && Less(b, c)
    ensures HasPrefix(b, p)
  {
    if p != [] {
      PrefixBetween(p[1..], a[1..], b[1..], c[1..]);
      assert p == [p[0]] + p[1..] && b == [b[0]] + b[1..];
    }
  }

  lemma EntryPrefix(n: Node, prefix: string)
    requires '/' !in prefix
    ensures HasPrefix(Entry(n), prefix) <==> HasPrefix(n.name, prefix)
  {
    if n.Dir? && HasPrefix(Entry(n), prefix) {
      assert Entry(n)[|n.name|] == '/';
    }
  }

  /** A directory listed in the order of its names is filtered correctly for every prefix without a slash. */
  lemma NameOrderContiguous(nodes: seq<Node>, prefix: string)
    requires '/' !in prefix
    requires forall i, j :: 0 <= i < j < |nodes| ==> Less(nodes[i].name, nodes[j].name)
    ensures Contiguous(nodes, prefix)
  {
    forall i, j, k | 0 <= i < j < k < |nodes| && HasPrefix(Entry(nodes[i]), prefix) && HasPrefix(Entry(nodes[k]), prefix)
      ensures HasPrefix(Entry(nodes[j]), prefix)
    {
      EntryPrefix(nodes[i], prefix);
      EntryPrefix(nodes[j], prefix);
      EntryPrefix(nodes[k], prefix);
      PrefixBetween(prefix, nodes[i].name, nodes[j].name, nodes[k].name);
    }
  }

  /** A listing, not in name order, that is filtered wrongly. */
  method FilterFails() returns (r: seq<Node>)
    ensures exists n <- r :: !HasPrefix(Entry(n), "a")
  {
    var entries := [File("ab"), File("b"), File("ac")];
    assert Entry(entries[1])[0] != "a"[0];
    assert HasPrefix(Entry(entries[0]), "a") && !HasPrefix(Entry(entries[1]), "a") && HasPrefix(Entry(entries[2]), "a");
    r := FilterMatchingPrefix(entries, "a");
  }
}
