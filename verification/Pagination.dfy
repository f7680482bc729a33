/** Following NextMarker from page to page: when it lists everything once, and when it repeats. */
module Pagination {
  import opened Basics
  import opened PathOrder
  import opened Tree
  import opened TreeWalk
  import opened WalkMeaning
  import opened Resume
  import opened Listing

  // ----- pages of fresh walks, on the names of the full listing

  /** Does a fresh walk from the k-th name begin with that name again? */
  predicate ComesAgain(full: seq<string>, recursive: bool, k: nat) {
    0 < k <= |full| && recursive && IsDirPath(full[k - 1])
  }

  /** The number of names in the first m pages of n names. */
  function Boundary(m: nat, n: nat): nat {
    m * n
  }

  /** No page but the last ends on an empty directory. */
  ghost predicate NeverRepeats(full: seq<string>, recursive: bool, n: nat) {
    forall m: nat :: Boundary(m, n) < |full| ==> !ComesAgain(full, recursive, Boundary(m, n))
  }

  /** Where a fresh walk goes on after the first k names. */
  function FreshStart(full: seq<string>, recursive: bool, k: nat): nat {
    if ComesAgain(full, recursive, k) then k - 1 else k
  }

  /** The names in at most so many pages of n names, from the page after the first k names on, when every
      page needs a fresh walk. */
  function FreshPages(full: seq<string>, recursive: bool, n: nat, k: nat, rounds: nat): seq<string>
    requires k <= |full|
    decreases rounds
  {
    if rounds == 0 then []
    else
      var j := FreshStart(full, recursive, k);
      if j + n >= |full| then full[j..]
      else full[j..j + n] + FreshPages(full, recursive, n, j + n, rounds - 1)
  }

  lemma PageStep(full: seq<string>, recursive: bool, n: nat, k: nat, rounds: nat)
    requires k <= |full| && rounds > 0
    ensures var j := FreshStart(full, recursive, k);
            && j <= |full|
            && FreshPages(full, recursive, n, k, rounds)
            == if j + n >= |full| then full[j..]
               else full[j..j + n] + FreshPages(full, recursive, n, j + n, rounds - 1)
    ensures FreshPages(full, recursive, n, k, 0) == []
  {
  }

  lemma NextBoundary(i: nat, m: nat, n: nat)
    ensures Boundary(i, n) + n == Boundary(i + 1, n)
    ensures i < m ==> Boundary(i, n) + n <= Boundary(m, n)
    decreases m
  {
    if i + 1 < m {
      NextBoundary(i, m - 1, n);
    }
  }

  lemma {:induction false} PagesComplete(full: seq<string>, recursive: bool, n: nat, i: nat, rounds: nat)
    requires n > 0 && NeverRepeats(full, recursive, n) && Boundary(i, n) < |full| && rounds >= |full| - Boundary(i, n)
    ensures FreshPages(full, recursive, n, Boundary(i, n), rounds) == full[Boundary(i, n)..]
    decreases rounds
  {
    hide Boundary;
    var k := Boundary(i, n);
    NextBoundary(i, i, n);
    if k + n < |full| {
      PagesComplete(full, recursive, n, i + 1, rounds - 1);
      assert full[k..k + n] + full[k + n..] == full[k..];
    }
  }

  /** Before a page that begins with a repetition the pages are right; from there on they are wrong. */
  lemma {:induction false} PagesRepeat(full: seq<string>, recursive: bool, n: nat, i: nat, m: nat, rounds: nat)
    requires n > 0 && Increasing(full) && i <= m && Boundary(m, n) < |full| && ComesAgain(full, recursive, Boundary(m, n))
    ensures Boundary(i, n) <= Boundary(m, n)
    ensures FreshPages(full, recursive, n, Boundary(i, n), rounds) != full[Boundary(i, n)..]
    decreases rounds
  {
    hide Boundary, FreshPages, Less, Increasing, NeverRepeats;
    var k := Boundary(i, n);
    NextBoundary(i, m, n);
    if rounds == 0 {
      PageStep(full, recursive, n, k, 1);
    } else {
      PageStep(full, recursive, n, k, rounds);
      if ComesAgain(full, recursive, k) {
        Neighbours(full, k);
        assert FreshPages(full, recursive, n, k, rounds)[0] == full[k - 1];
      } else {
        PagesRepeat(full, recursive, n, i + 1, m, rounds - 1);
        SameFront(full, k, n, FreshPages(full, recursive, n, k + n, rounds - 1));
      }
    }
  }

  lemma Neighbours(full: seq<string>, k: nat)
    requires Increasing(full) && 0 < k < |full|
    ensures full[k - 1] != full[k]
  {
    LessTotal(full[k - 1], full[k]);
  }

  lemma SameFront(full: seq<string>, k: nat, n: nat, rest: seq<string>)
    requires k + n <= |full| && rest != full[k + n..]
    ensures full[k..k + n] + rest != full[k..]
  {
    assert (full[k..k + n] + rest)[n..] == rest && full[k..][n..] == full[k + n..];
  }

  /** When walks never outlive their page, the pages add up to the full listing exactly if no page but the
      last ends on an empty directory. */
  lemma ExpiredExactly(full: seq<string>, recursive: bool, n: nat)
    requires n > 0 && Increasing(full)
    ensures NeverRepeats(full, recursive, n) <==> exists rounds: nat :: FreshPages(full, recursive, n, 0, rounds) == full
  {
    assert full[Boundary(0, n)..] == full;
    if NeverRepeats(full, recursive, n) {
      if full == [] {
        assert FreshPages(full, recursive, n, 0, 0) == full;
      } else {
        PagesComplete(full, recursive, n, 0, |full|);
      }
    } else {
      var m: nat :| Boundary(m, n) < |full| && ComesAgain(full, recursive, Boundary(m, n));
      forall rounds: nat
        ensures FreshPages(full, recursive, n, 0, rounds) != full
      {
        PagesRepeat(full, recursive, n, 0, m, rounds);
      }
    }
  }

  /** Pages of one name never get past an empty directory that is not the last name. */
  lemma {:induction false} StuckForEver(full: seq<string>, k: nat, rounds: nat)
    requires ComesAgain(full, true, k) && k < |full|
    ensures FreshPages(full, true, 1, k, rounds) == seq(rounds, _ => full[k - 1])
  {
    if rounds > 0 {
      StuckForEver(full, k, rounds - 1);
    }
  }

  // ----- the code

  /** Where the page after the first k names starts. */
  lemma NextPageStarts(root: seq<Node>, prefix: string, marker: string, recursive: bool, pooled: bool, k: nat, j: nat)
    requires WellFormed(root) && k <= |FullWalk(root, prefix, recursive)|
    requires if k == 0 then marker == "" else marker == FullWalk(root, prefix, recursive)[k - 1].entry
    requires StartsAt(root, prefix, marker, recursive, pooled, j)
    ensures MarkerFits(prefix, marker) && (pooled ==> k > 0)
    ensures j == if pooled then k else FreshStart(Entries(FullWalk(root, prefix, recursive)), recursive, k)
  {
    hide FreshWalk, WellFormed;
    var full := FullWalk(root, prefix, recursive);
    WalkOrder(root, prefix, "", recursive);
    LessTotal(marker, marker);
    assert j > 0 ==> Entries(full)[j - 1] == full[j - 1].entry;
    if k > 0 {
      assert marker == Entries(full)[k - 1];
      ResumeExact(root, prefix, recursive, k);
      if !pooled {
        assert |full[j..]| == |full| - j;
      }
    } else if pooled {
      FullNonempty(root, prefix, recursive, j - 1);
    }
  }

  lemma FullNonempty(root: seq<Node>, prefix: string, recursive: bool, i: nat)
    requires WellFormed(root) && i < |FullWalk(root, prefix, recursive)|
    ensures FullWalk(root, prefix, recursive)[i].entry != ""
  {
    var x := FullWalk(root, prefix, recursive)[i].entry;
    assert x == Entries(FullWalk(root, prefix, recursive))[i];
    if recursive {
      WalkExact(root, prefix, "", x);
    } else {
      FlatWalkExact(root, prefix, "", x);
    }
  }

  lemma MarkersFit(root: seq<Node>, prefix: string, marker: string, recursive: bool, k: nat)
    requires WellFormed(root) && k <= |FullWalk(root, prefix, recursive)|
    requires if k == 0 then marker == "" else marker == FullWalk(root, prefix, recursive)[k - 1].entry
    ensures MarkerFits(prefix, marker)
  {
    hide FullWalk, WellFormed;
    if k > 0 {
      FullHasPrefix(root, prefix, recursive, k - 1);
    }
  }

  /** Any walks suspended under the parameters expire, and all of them if so wished. */
  method ExpireSome(roots: map<string, seq<Node>>, tpool: TreeWalkPool, params: ListParams, all: bool)
    requires tpool.Valid(roots)
    modifies tpool
    ensures tpool.Valid(roots)
    ensures all ==> tpool.Waiting(params) == []
  {
    var again: bool :| true;
    while (again || all) && params in tpool.pool && |tpool.pool[params]| > 0
      invariant tpool.Valid(roots)
      decreases |tpool.Waiting(params)|
    {
      ghost var waiting := tpool.Waiting(params);
      tpool.Expire(params, 0);
      assert tpool.Waiting(params) == waiting[..0] + waiting[1..];
      again :| true;
    }
  }

  /** The page after the first k names. */
  method Page(roots: map<string, seq<Node>>, bucket: string, prefix: string, marker: string, slash: bool, maxKeys: int,
              tpool: TreeWalkPool, ghost k: nat)
    returns (objects: seq<string>, prefixes: seq<string>, more: bool, nextMarker: string, ghost names: seq<string>)
    requires bucket in roots && WellFormed(roots[bucket]) && ListsContiguously(roots[bucket], prefix) && tpool.Valid(roots)
    requires maxKeys != 0 && !(slash && prefix == "/")
    requires k <= |FullWalk(roots[bucket], prefix, !slash)|
    requires marker == if k == 0 then "" else Entries(FullWalk(roots[bucket], prefix, !slash))[k - 1]
    modifies tpool
    ensures tpool.Valid(roots)
    ensures objects == Objects(names, slash) && prefixes == Prefixes(names, slash)
    ensures var full := Entries(FullWalk(roots[bucket], prefix, !slash));
            var pooled := old(tpool.Waiting(ListParams(bucket, !slash, marker, prefix))) != [];
            IsPageOf(full, if pooled then k else FreshStart(full, !slash, k), PageSize(maxKeys), names, more, nextMarker)
    ensures more ==> tpool.Waiting(ListParams(bucket, !slash, nextMarker, prefix)) != []
  {
    hide FullWalk, WellFormed, StartsAt, Objects, Prefixes, ListsContiguously, FreshStart, TreeWalkPool.Valid,
      TreeWalkPool.Waiting, PageSize, IsPage, IsPageOf, MarkerFits;
    ghost var root, full := roots[bucket], Entries(FullWalk(roots[bucket], prefix, !slash));
    ghost var pooled := tpool.Waiting(ListParams(bucket, !slash, marker, prefix)) != [];
    MarkersFit(root, prefix, marker, !slash, k);
    var ok;
    ghost var j: nat;
    objects, prefixes, more, nextMarker, ok, names, j := ListObjects(roots, bucket, prefix, marker, slash, maxKeys, tpool);
    NextPageStarts(root, prefix, marker, !slash, pooled, k, j);
    StartsInside(root, prefix, marker, !slash, pooled, j);
    SamePage(root, prefix, !slash, j, PageSize(maxKeys), names, more, nextMarker);
  }

  lemma SamePage(root: seq<Node>, prefix: string, recursive: bool, j: nat, n: nat, names: seq<string>, more: bool, nextMarker: string)
    requires j <= |FullWalk(root, prefix, recursive)|
    requires var full := FullWalk(root, prefix, recursive);
             var k := if |full| - j <= n then |full| - j else n;
             && IsPage(root, prefix, recursive, j, k, names)
             && (more <==> j + k < |full|)
             && (more ==> k > 0 && nextMarker == names[k - 1])
    ensures IsPageOf(Entries(FullWalk(root, prefix, recursive)), j, n, names, more, nextMarker)
  {
    hide FullWalk;
  }

  /** A page from name k on extends the first k names. */
  lemma NextNames(full: seq<string>, k: nat, n: nat, names: seq<string>, more: bool, nextMarker: string)
    requires IsPageOf(full, k, n, names, more, nextMarker)
    ensures k + |names| <= |full| && full[..k] + names == full[..k + |names|]
    ensures if more then |names| == n && k + n < |full| && k + n > 0 && nextMarker == full[k + n - 1] else k + |names| == |full|
  {
  }

  /** The names from index j on, n of them if there are more. */
  predicate IsPageOf(full: seq<string>, j: nat, n: nat, names: seq<string>, more: bool, nextMarker: string) {
    && j <= |full|
    && (more <==> j + n < |full|)
    && names == (if more then full[j..j + n] else full[j..])
    && (more ==> j + n > 0 && nextMarker == full[j + n - 1])
  }

  lemma SomeNames(maxKeys: int)
    requires maxKeys != 0
    ensures PageSize(maxKeys) > 0
  {
  }

  /** Following NextMarker from page to page lists everything once and in order, whether or not the suspended
      walks are still there, and then stops. */
  method ListAll(roots: map<string, seq<Node>>, bucket: string, prefix: string, slash: bool, maxKeys: int, tpool: TreeWalkPool)
    returns (objects: seq<string>, prefixes: seq<string>)
    requires bucket in roots && WellFormed(roots[bucket]) && ListsContiguously(roots[bucket], prefix) && tpool.Valid(roots)
    requires maxKeys != 0 && !(slash && prefix == "/")
    requires NeverRepeats(Entries(FullWalk(roots[bucket], prefix, !slash)), !slash, PageSize(maxKeys))
    modifies tpool
    ensures tpool.Valid(roots)
    ensures objects == Objects(Entries(FullWalk(roots[bucket], prefix, !slash)), slash)
    ensures prefixes == Prefixes(Entries(FullWalk(roots[bucket], prefix, !slash)), slash)
    ensures Partitioned(Entries(FullWalk(roots[bucket], prefix, !slash)), slash, objects, prefixes)
  {
    hide FullWalk, WellFormed, Objects, Prefixes, Partitioned, ListsContiguously, NeverRepeats, Boundary, FreshStart, PageSize,
      TreeWalkPool.Valid, TreeWalkPool.Waiting, IsPageOf, Entries;
    SplitNone(slash);
    SomeNames(maxKeys);
    objects, prefixes := [], [];
    ghost var full, n := Entries(FullWalk(roots[bucket], prefix, !slash)), PageSize(maxKeys);
    ghost var k: nat, i: nat := 0, 0;
    var marker, more := "", true;
    FirstBoundary(n);
    while more
      invariant tpool.Valid(roots) && k <= |full|
      invariant more ==> k == Boundary(i, n) && (k < |full| || k == 0)
      invariant more ==> marker == if k == 0 then "" else full[k - 1]
      invariant !more ==> k == |full|
      invariant objects == Objects(full[..k], slash) && prefixes == Prefixes(full[..k], slash)
      decreases |full| - k, more
    {
      ExpireSome(roots, tpool, ListParams(bucket, !slash, marker, prefix), false);
      NoRepetition(full, !slash, n, i, k);
      NextBoundary(i, i, n);
      var os, ps;
      ghost var names;
      os, ps, more, marker, names := Page(roots, bucket, prefix, marker, slash, maxKeys, tpool, k);
      NextNames(full, k, PageSize(maxKeys), names, more, marker);
      SplitAppend(full[..k], names, slash);
      objects, prefixes := objects + os, prefixes + ps;
      k, i := k + |names|, i + 1;
    }
    assert full[..k] == full;
    SplitExactly(full, slash);
  }

  /** When no walk expires, no tree makes the listing repeat anything. */
  method ListSuspended(roots: map<string, seq<Node>>, bucket: string, prefix: string, slash: bool, maxKeys: int, tpool: TreeWalkPool)
    returns (objects: seq<string>, prefixes: seq<string>)
    requires bucket in roots && WellFormed(roots[bucket]) && ListsContiguously(roots[bucket], prefix) && tpool.Valid(roots)
    requires maxKeys != 0 && !(slash && prefix == "/")
    modifies tpool
    ensures tpool.Valid(roots)
    ensures objects == Objects(Entries(FullWalk(roots[bucket], prefix, !slash)), slash)
    ensures prefixes == Prefixes(Entries(FullWalk(roots[bucket], prefix, !slash)), slash)
    ensures Partitioned(Entries(FullWalk(roots[bucket], prefix, !slash)), slash, objects, prefixes)
  {
    hide FullWalk, WellFormed, Objects, Prefixes, Partitioned, ListsContiguously, PageSize, TreeWalkPool.Valid, TreeWalkPool.Waiting,
      IsPageOf, Entries;
    SplitNone(slash);
    SomeNames(maxKeys);
    objects, prefixes := [], [];
    ghost var full := Entries(FullWalk(roots[bucket], prefix, !slash));
    ghost var k: nat := 0;
    var marker, more := "", true;
    while more
      invariant tpool.Valid(roots) && k <= |full|
      invariant more && k > 0 ==> tpool.Waiting(ListParams(bucket, !slash, marker, prefix)) != []
      invariant more ==> marker == if k == 0 then "" else full[k - 1]
      invariant !more ==> k == |full|
      invariant objects == Objects(full[..k], slash) && prefixes == Prefixes(full[..k], slash)
      decreases |full| - k, more
    {
      var os, ps;
      ghost var names;
      os, ps, more, marker, names := Page(roots, bucket, prefix, marker, slash, maxKeys, tpool, k);
      NextNames(full, k, PageSize(maxKeys), names, more, marker);
      SplitAppend(full[..k], names, slash);
      objects, prefixes := objects + os, prefixes + ps;
      k := k + |names|;
    }
    assert full[..k] == full;
    SplitExactly(full, slash);
  }

  lemma FirstBoundary(n: nat)
    ensures Boundary(0, n) == 0
  {
  }

  lemma NoRepetition(full: seq<string>, recursive: bool, n: nat, i: nat, k: nat)
    requires NeverRepeats(full, recursive, n) && k == Boundary(i, n) && (k < |full| || k == 0)
    ensures FreshStart(full, recursive, k) == k
  {
  }

  /** The page after the first k names, when its walk has expired. */
  method ExpiredPage(roots: map<string, seq<Node>>, bucket: string, prefix: string, marker: string, slash: bool, maxKeys: int,
                     tpool: TreeWalkPool, ghost k: nat)
    returns (objects: seq<string>, prefixes: seq<string>, more: bool, nextMarker: string, ghost names: seq<string>)
    requires bucket in roots && WellFormed(roots[bucket]) && ListsContiguously(roots[bucket], prefix) && tpool.Valid(roots)
    requires maxKeys != 0 && !(slash && prefix == "/")
    requires k <= |FullWalk(roots[bucket], prefix, !slash)|
    requires marker == if k == 0 then "" else Entries(FullWalk(roots[bucket], prefix, !slash))[k - 1]
    modifies tpool
    ensures tpool.Valid(roots)
    ensures objects == Objects(names, slash) && prefixes == Prefixes(names, slash)
    ensures var full := Entries(FullWalk(roots[bucket], prefix, !slash));
            IsPageOf(full, FreshStart(full, !slash, k), PageSize(maxKeys), names, more, nextMarker)
  {
    hide FullWalk, WellFormed, Objects, Prefixes, ListsContiguously, FreshStart, TreeWalkPool.Valid, TreeWalkPool.Waiting, PageSize, IsPageOf;
    ExpireSome(roots, tpool, ListParams(bucket, !slash, marker, prefix), true);
    objects, prefixes, more, nextMarker, names := Page(roots, bucket, prefix, marker, slash, maxKeys, tpool, k);
  }

  /** One page of the listing with expiring walks. */
  lemma FreshStep(full: seq<string>, recursive: bool, n: nat, k: nat, rounds: nat, names: seq<string>, more: bool, nextMarker: string)
    returns (next: nat)
    requires k <= |full| && rounds > 0 && IsPageOf(full, FreshStart(full, recursive, k), n, names, more, nextMarker)
    ensures next <= |full| && (more ==> next > 0 && nextMarker == full[next - 1])
    ensures FreshPages(full, recursive, n, k, rounds)
         == if more then names + FreshPages(full, recursive, n, next, rounds - 1) else names
  {
    PageStep(full, recursive, n, k, rounds);
    next := if more then FreshStart(full, recursive, k) + n else k;
  }

  /** When all walks expire between pages, any number of pages from the one after the first k names on gives
      exactly what FreshPages says. */
  method ListExpired(roots: map<string, seq<Node>>, bucket: string, prefix: string, marker: string, slash: bool, maxKeys: int,
                     tpool: TreeWalkPool, rounds: nat, ghost k: nat)
    returns (objects: seq<string>, prefixes: seq<string>)
    requires bucket in roots && WellFormed(roots[bucket]) && ListsContiguously(roots[bucket], prefix) && tpool.Valid(roots)
    requires maxKeys != 0 && !(slash && prefix == "/")
    requires k <= |FullWalk(roots[bucket], prefix, !slash)|
    requires marker == if k == 0 then "" else Entries(FullWalk(roots[bucket], prefix, !slash))[k - 1]
    modifies tpool
    ensures var names := FreshPages(Entries(FullWalk(roots[bucket], prefix, !slash)), !slash, PageSize(maxKeys), k, rounds);
            objects == Objects(names, slash) && prefixes == Prefixes(names, slash)
            && Partitioned(names, slash, objects, prefixes)
    decreases rounds
  {
    hide FullWalk, WellFormed, StartsAt, Objects, Prefixes, Partitioned, ListsContiguously, FreshPages, FreshStart, Entries, Resumes,
      IsPageOf, PageSize, TreeWalkPool.Valid;
    ghost var full, n: nat := Entries(FullWalk(roots[bucket], prefix, !slash)), PageSize(maxKeys);
    SplitExactly(FreshPages(full, !slash, n, k, rounds), slash);
    if rounds == 0 {
      SplitNone(slash);
      PageStep(full, !slash, n, k, 1);
      return [], [];
    }
    var more, nextMarker;
    ghost var names;
    objects, prefixes, more, nextMarker, names := ExpiredPage(roots, bucket, prefix, marker, slash, maxKeys, tpool, k);
    ghost var next := FreshStep(full, !slash, n, k, rounds, names, more, nextMarker);
    if more {
      var os, ps := ListExpired(roots, bucket, prefix, nextMarker, slash, maxKeys, tpool, rounds - 1, next);
      SplitAppend(names, FreshPages(full, !slash, n, next, rounds - 1), slash);
      objects, prefixes := objects + os, prefixes + ps;
    }
  }

  /** A page that needs a fresh walk from an empty directory begins with that directory. If it is not the
      last name, a page of one name is this directory again, truncated and with the same next marker. */
  method EmptyDirectoryRepeats(roots: map<string, seq<Node>>, bucket: string, prefix: string, maxKeys: int, tpool: TreeWalkPool,
                               marker: string, ghost k: nat)
    returns (objects: seq<string>, more: bool, nextMarker: string)
    requires bucket in roots && WellFormed(roots[bucket]) && ListsContiguously(roots[bucket], prefix) && tpool.Valid(roots)
    requires maxKeys != 0
    requires 0 < k < |FullWalk(roots[bucket], prefix, true)|
    requires marker == Entries(FullWalk(roots[bucket], prefix, true))[k - 1] && IsDirPath(marker)
    modifies tpool
    ensures objects != [] && objects[0] == marker
    ensures PageSize(maxKeys) == 1 ==> objects == [marker] && more && nextMarker == marker
  {
    hide FullWalk, WellFormed, ListsContiguously, Objects;
    var prefixes;
    ghost var names;
    objects, prefixes, more, nextMarker, names := ExpiredPage(roots, bucket, prefix, marker, false, maxKeys, tpool, k);
    ObjectsAll(names);
  }

  /** The smallest tree whose listing repeats: an empty directory before a file. With pages of one name that
      need fresh walks, the listing never gets past the directory. */
  lemma StuckTree()
    ensures var root := [Dir("a", []), File("b")];
            var full := Entries(FullWalk(root, "", true));
            && WellFormed(root) && ListsContiguously(root, "") && full == ["a/", "b"]
            && (forall rounds: nat :: FreshPages(full, true, 1, 0, rounds) == seq(rounds, _ => "a/"))
  {
    hide Results, Selected, Leaves, FreshWalk, FreshPages, ListsContiguously;
    var root := [Dir("a", []), File("b")];
    assert Entry(root[0]) == "a/" && Entry(root[1]) == "b" && root[1..] == [root[1]];
    assert Less("a/", "b") && Less("", "a/") && Less("", "b");
    assert ListsContiguously(root, "") by {
      EverythingContiguous(root);
    }
    TwoEntryWalk(root);
    forall rounds: nat
      ensures FreshPages(["a/", "b"], true, 1, 0, rounds) == seq(rounds, _ => "a/")
    {
      PageStep(["a/", "b"], true, 1, 0, rounds + 1);
      if rounds > 0 {
        PageStep(["a/", "b"], true, 1, 0, rounds);
        StuckForEver(["a/", "b"], 1, rounds - 1);
      }
    }
  }

  lemma EverythingContiguous(root: seq<Node>)
    ensures ListsContiguously(root, "")
  {
    assert DirPart("") == "";
  }

  lemma TwoEntryWalk(root: seq<Node>)
    requires root == [Dir("a", []), File("b")] && WellFormed(root)
    requires Entry(root[0]) == "a/" && Entry(root[1]) == "b" && Less("a/", "b") && Less("", "a/") && Less("", "b")
    ensures Entries(FullWalk(root, "", true)) == ["a/", "b"]
  {
    hide Less, Results, Selected, Entries, WellFormed;
    assert root[1..] == [root[1]] && root[1..][1..] == [];
    assert Listed(root, "") == root by {
      MatchingAll(root);
      assert Sort(root[1..][1..]) == [];
      assert Sort(root[1..]) == root[1..];
      LessTotal("a/", "b");
    }
    assert Leaves(root) == ["a/", "b"] by {
      assert Leaves(root[1..][1..]) == [];
      assert Leaves(root[1..]) == ["b"];
    }
    hide Leaves, Listed;
    assert Filter(["a/", "b"], "") == ["a/", "b"] by {
      assert ["a/", "b"][1..] == ["b"] && ["b"][1..] == [];
      assert Filter(["b"], "") == ["b"];
    }
    SelectedIsFilter(root, "");
    assert Prepend("", ["a/", "b"]) == ["a/", "b"] by {
      assert ["a/", "b"][1..] == ["b"] && ["b"][1..] == [];
      assert "" + "a/" == "a/" && "" + "b" == "b" && Prepend("", ["b"]) == ["b"];
    }
    ResultsEntries("", ["a/", "b"], true);
    assert ""[0..] == "";
  }
}
