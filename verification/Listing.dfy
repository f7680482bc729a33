/** listObjects: listing a bucket page by page, with a pool of suspended walks. */
module Listing {
  import opened Basics
  import opened PathOrder
  import opened Tree
  import opened TreeWalk
  import opened WalkMeaning
  import opened Resume

  const MAX_OBJECT_LIST: int := 10000

  datatype ListParams = ListParams(bucket: string, recursive: bool, marker: string, prefix: string)

  /** A walk of which the results in `rest` are still to be received. */
  datatype Walk = Walk(rest: seq<TreeWalkResult>)

  /** A suspended walk stands right behind the path that is its marker. */
  ghost predicate Resumes(root: seq<Node>, p: ListParams, w: Walk) {
    var full := FullWalk(root, p.prefix, p.recursive);
    exists j :: 0 < j <= |full| && full[j - 1].entry == p.marker && w.rest == full[j..]
  }

  /** TreeWalkPool: suspended walks by parameters, first in first out. */
  class TreeWalkPool {
    var pool: map<ListParams, seq<Walk>>

    constructor ()
      ensures pool == map[]
    {
      pool := map[];
    }

    ghost function Waiting(p: ListParams): seq<Walk>
      reads this
    {
      if p in pool then pool[p] else []
    }

    /** Every suspended walk goes on where its parameters say, in the tree of its bucket. */
    ghost predicate Valid(roots: map<string, seq<Node>>)
      reads this
    {
      forall p <- pool.Keys :: p.bucket in roots && forall w <- pool[p] :: Resumes(roots[p.bucket], p, w)
    }

    method Release(params: ListParams) returns (walk: Option<Walk>)
      modifies this
      ensures forall p :: Waiting(p) == if p == params && old(Waiting(p)) != [] then old(Waiting(p))[1..] else old(Waiting(p))
      ensures walk == if old(Waiting(params)) == [] then None else Some(old(Waiting(params))[0])
      ensures forall roots :: old(Valid(roots)) ==>
                Valid(roots) && (walk.Some? ==> params.bucket in roots && Resumes(roots[params.bucket], params, walk.value))
    {
      walk := None;
      if params in pool {
        var walks := pool[params];
        if |walks| > 0 {
          walk := Some(walks[0]);
          walks := walks[1..];
          if |walks| > 0 {
            pool := pool[params := walks];
          } else {
            pool := pool - {params};
          }
        }
      }
    }

    method Set(params: ListParams, walk: Walk)
      modifies this
      ensures forall p :: Waiting(p) == if p == params then old(Waiting(p)) + [walk] else old(Waiting(p))
      ensures forall roots :: old(Valid(roots)) && params.bucket in roots && Resumes(roots[params.bucket], params, walk) ==>
                Valid(roots)
    {
      pool := pool[params := (if params in pool then pool[params] else []) + [walk]];
    }

    /** The timer of a suspended walk fires: it leaves the pool. */
    method Expire(params: ListParams, i: nat)
      requires i < |Waiting(params)|
      modifies this
      ensures forall p :: Waiting(p) == if p == params then old(Waiting(p))[..i] + old(Waiting(p))[i + 1..] else old(Waiting(p))
      ensures forall roots :: old(Valid(roots)) ==> Valid(roots)
    {
      var walks := pool[params][..i] + pool[params][i + 1..];
      if |walks| == 0 {
        pool := pool - {params};
      } else {
        pool := pool[params := walks];
      }
    }
  }

  // ----- one page

  /** With a slash as delimiter, directories are reported apart from objects. */
  function Objects(names: seq<string>, slash: bool): seq<string> {
    if names == [] then []
    else if slash && IsDirPath(names[0]) then Objects(names[1..], slash)
    else [names[0]] + Objects(names[1..], slash)
  }

  function Prefixes(names: seq<string>, slash: bool): seq<string> {
    if names == [] then []
    else if slash && IsDirPath(names[0]) then [names[0]] + Prefixes(names[1..], slash)
    else Prefixes(names[1..], slash)
  }

  lemma {:induction false} SplitAppend(a: seq<string>, b: seq<string>, slash: bool)
    ensures Objects(a + b, slash) == Objects(a, slash) + Objects(b, slash)
    ensures Prefixes(a + b, slash) == Prefixes(a, slash) + Prefixes(b, slash)
  {
    if a == [] {
      assert a + b == b;
    } else {
      assert (a + b)[1..] == a[1..] + b;
      SplitAppend(a[1..], b, slash);
    }
  }

  /** The elements of `some` are those at the given places, in their order. */
  ghost predicate Picks(names: seq<string>, some: seq<string>, at: seq<nat>) {
    && |at| == |some|
    && (forall i, j :: 0 <= i < j < |at| ==> at[i] < at[j])
    && (forall i :: 0 <= i < |at| ==> at[i] < |names| && some[i] == names[at[i]])
  }

  /** Those that end in a slash, or those that do not, each at its place. */
  ghost predicate Selects(names: seq<string>, slashed: bool, some: seq<string>, at: seq<nat>) {
    && Picks(names, some, at)
    && (forall k :: 0 <= k < |names| ==> (k in at <==> slashed == (names[k] != "" && names[k][|names[k]| - 1] == '/')))
  }

  /** With a slash as delimiter each name is reported once: as a common prefix if it ends in a slash, as an object if
      it does not, and in the order of the names. Without a delimiter all names are objects. */
  ghost predicate Partitioned(names: seq<string>, slash: bool, objects: seq<string>, prefixes: seq<string>) {
    if slash then
      && multiset(objects) + multiset(prefixes) == multiset(names)
      && (exists at :: Selects(names, false, objects, at))
      && (exists at :: Selects(names, true, prefixes, at))
    else objects == names && prefixes == []
  }

  function Shifted(at: seq<nat>): (r: seq<nat>)
    ensures |r| == |at| && forall i :: 0 <= i < |at| ==> r[i] == at[i] + 1
  {
    seq(|at|, i requires 0 <= i < |at| => at[i] + 1)
  }

  lemma InShifted(at: seq<nat>, k: nat)
    ensures k in Shifted(at) <==> k > 0 && k - 1 in at
  {
    if k > 0 && k - 1 in at {
      var i :| 0 <= i < |at| && at[i] == k - 1;
      assert Shifted(at)[i] == k;
    }
  }

  lemma PicksBehind(name: string, names: seq<string>, some: seq<string>, at: seq<nat>)
    requires Picks(names, some, at)
    ensures Picks([name] + names, some, Shifted(at))
  {
    var all, bt := [name] + names, Shifted(at);
    forall i | 0 <= i < |bt|
      ensures bt[i] < |all| && some[i] == all[bt[i]]
    {
      assert bt[i] == at[i] + 1 && all[at[i] + 1] == names[at[i]];
    }
  }

  lemma PicksFront(all: seq<string>, some: seq<string>, at: seq<nat>)
    requires all != [] && Picks(all, some, at) && 0 !in at
    ensures Picks(all, [all[0]] + some, [0] + at)
  {
    var more, ct := [all[0]] + some, [0] + at;
    assert forall i :: 0 <= i < |at| ==> at[i] in at && at[i] > 0;
    forall i | 0 <= i < |ct|
      ensures ct[i] < |all| && more[i] == all[ct[i]]
    {
      if i > 0 {
        assert ct[i] == at[i - 1] && more[i] == some[i - 1];
      }
    }
    forall i, j | 0 <= i < j < |ct|
      ensures ct[i] < ct[j]
    {
      if i > 0 {
        assert ct[i] == at[i - 1] && ct[j] == at[j - 1];
      }
    }
  }

  lemma PlacesBehind(name: string, names: seq<string>, at: seq<nat>, k: nat)
    requires k <= |names|
    ensures k in Shifted(at) <==> k > 0 && k - 1 in at
    ensures k in [0] + Shifted(at) <==> k == 0 || k - 1 in at
    ensures k > 0 ==> ([name] + names)[k] == names[k - 1]
  {
    InShifted(at, k);
  }

  /** One more name in front that is not selected. */
  lemma SelectsBehind(name: string, names: seq<string>, slashed: bool, some: seq<string>, at: seq<nat>)
    requires Selects(names, slashed, some, at) && IsDirPath(name) != slashed
    ensures Selects([name] + names, slashed, some, Shifted(at))
  {
    hide Shifted, Picks, IsDirPath;
    var all, bt := [name] + names, Shifted(at);
    PicksBehind(name, names, some, at);
    forall k | 0 <= k < |all|
      ensures k in bt <==> slashed == IsDirPath(all[k])
    {
      PlacesBehind(name, names, at, k);
      if k > 0 {
        SlashEnd(names[k - 1]);
      }
    }
    SlashEnds(all);
  }

  lemma SlashEnd(name: string)
    ensures IsDirPath(name) <==> name != "" && name[|name| - 1] == '/'
  {
  }

  lemma SlashEnds(names: seq<string>)
    ensures forall k :: 0 <= k < |names| ==> (IsDirPath(names[k]) <==> names[k] != "" && names[k][|names[k]| - 1] == '/')
  {
  }

  /** One more name in front that is selected. */
  lemma SelectsFront(name: string, names: seq<string>, slashed: bool, some: seq<string>, at: seq<nat>)
    requires Selects(names, slashed, some, at) && IsDirPath(name) == slashed
    ensures Selects([name] + names, slashed, [name] + some, [0] + Shifted(at))
  {
    hide Shifted, Picks, IsDirPath;
    var all, bt := [name] + names, [0] + Shifted(at);
    PicksBehind(name, names, some, at);
    InShifted(at, 0);
    PicksFront(all, some, Shifted(at));
    forall k | 0 <= k < |all|
      ensures k in bt <==> slashed == IsDirPath(all[k])
    {
      PlacesBehind(name, names, at, k);
      if k > 0 {
        SlashEnd(names[k - 1]);
      }
    }
    SlashEnds(all);
  }

  lemma SelectsMore(name: string, names: seq<string>, slashed: bool, some: seq<string>, at: seq<nat>)
    returns (more: seq<string>, at': seq<nat>)
    requires Selects(names, slashed, some, at)
    ensures more == (if IsDirPath(name) == slashed then [name] + some else some) && Selects([name] + names, slashed, more, at')
  {
    hide Selects;
    if IsDirPath(name) == slashed {
      SelectsFront(name, names, slashed, some, at);
      more, at' := [name] + some, [0] + Shifted(at);
    } else {
      SelectsBehind(name, names, slashed, some, at);
      more, at' := some, Shifted(at);
    }
  }

  lemma {:induction false} Split(names: seq<string>) returns (at: seq<nat>, bt: seq<nat>)
    ensures Selects(names, false, Objects(names, true), at) && Selects(names, true, Prefixes(names, true), bt)
  {
    hide Selects;
    if names == [] {
      at, bt := [], [];
      SelectsNothing();
    } else {
      var at0, bt0 := Split(names[1..]);
      var objects, prefixes;
      objects, at := SelectsMore(names[0], names[1..], false, Objects(names[1..], true), at0);
      prefixes, bt := SelectsMore(names[0], names[1..], true, Prefixes(names[1..], true), bt0);
      assert names == [names[0]] + names[1..];
    }
  }

  lemma {:induction false} NothingLost(names: seq<string>)
    ensures multiset(Objects(names, true)) + multiset(Prefixes(names, true)) == multiset(names)
  {
    if names != [] {
      NothingLost(names[1..]);
      assert names == [names[0]] + names[1..];
    }
  }

  lemma SelectsNothing()
    ensures Selects([], false, [], []) && Selects([], true, [], [])
  {
  }

  lemma {:induction false} ObjectsAll(names: seq<string>)
    ensures Objects(names, false) == names && Prefixes(names, false) == []
  {
    if names != [] {
      ObjectsAll(names[1..]);
    }
  }

  lemma SplitExactly(names: seq<string>, slash: bool)
    ensures Partitioned(names, slash, Objects(names, slash), Prefixes(names, slash))
  {
    hide Objects, Prefixes, Selects;
    if slash {
      var at, bt := Split(names);
      NothingLost(names);
    } else {
      ObjectsAll(names);
    }
  }

  lemma SplitNone(slash: bool)
    ensures Objects([], slash) == [] && Prefixes([], slash) == []
  {
  }

  /** Receives up to maxKeys results; the end of the listing is a result marked as the end or a closed channel. */
  method ReceivePage(walk: Walk, maxKeys: nat) returns (names: seq<string>, eof: bool, rest: Walk)
    requires forall i :: 0 <= i < |walk.rest| ==> (walk.rest[i].end <==> i == |walk.rest| - 1)
    ensures |names| <= |walk.rest| && names == Entries(walk.rest)[..|names|] && rest.rest == walk.rest[|names|..]
    ensures |names| == if |walk.rest| <= maxKeys then |walk.rest| else maxKeys
    ensures maxKeys > 0 ==> (eof <==> |names| == |walk.rest|)
  {
    names, eof, rest := [], false, walk;
    var i := 0;
    while i < maxKeys
      invariant i == |names| <= maxKeys && i <= |walk.rest|
      invariant names == Entries(walk.rest)[..i] && rest.rest == walk.rest[i..]
      invariant !eof && (i > 0 ==> i < |walk.rest|)
    {
      if rest.rest == [] {
        eof := true;
        break;
      }
      var walkResult := rest.rest[0];
      rest := Walk(rest.rest[1..]);
      names := names + [walkResult.entry];
      if walkResult.end {
        eof := true;
        break;
      }
      i := i + 1;
    }
  }

  /** The effective page size. */
  function PageSize(maxKeys: int): nat {
    if maxKeys < 0 || maxKeys > MAX_OBJECT_LIST then MAX_OBJECT_LIST else maxKeys
  }

  /** A page starts at index j of the full listing: behind the marker if its walk was suspended, and else
      where a fresh walk from the marker starts. */
  ghost predicate StartsAt(root: seq<Node>, prefix: string, marker: string, recursive: bool, pooled: bool, j: nat) {
    var full := FullWalk(root, prefix, recursive);
    j <= |full| && if pooled then j > 0 && full[j - 1].entry == marker else FreshWalk(root, prefix, marker, recursive) == full[j..]
  }

  lemma StartsInside(root: seq<Node>, prefix: string, marker: string, recursive: bool, pooled: bool, j: nat)
    requires StartsAt(root, prefix, marker, recursive, pooled, j)
    ensures j <= |FullWalk(root, prefix, recursive)|
  {
  }

  /** The page of k names from index j on. */
  ghost predicate IsPage(root: seq<Node>, prefix: string, recursive: bool, j: nat, k: nat, names: seq<string>) {
    var full := FullWalk(root, prefix, recursive);
    j + k <= |full| && names == Entries(full)[j..j + k]
  }

  lemma SuffixPage(full: seq<TreeWalkResult>, j: nat, k: nat)
    requires j + k <= |full|
    ensures Entries(full[j..])[..k] == Entries(full)[j..j + k] && full[j..][k..] == full[j + k..]
  {
  }

  /** Takes a suspended walk out of the pool or starts a fresh one. */
  method OpenWalk(roots: map<string, seq<Node>>, params: ListParams, tpool: TreeWalkPool) returns (walk: Walk, ghost j: nat)
    requires params.bucket in roots && WellFormed(roots[params.bucket]) && MarkerFits(params.prefix, params.marker) && tpool.Valid(roots)
    modifies tpool
    ensures tpool.Valid(roots)
    ensures StartsAt(roots[params.bucket], params.prefix, params.marker, params.recursive, old(tpool.Waiting(params)) != [], j)
    ensures walk.rest == FullWalk(roots[params.bucket], params.prefix, params.recursive)[j..]
  {
    hide FreshWalk, WellFormed;
    var root := roots[params.bucket];
    ghost var full := FullWalk(root, params.prefix, params.recursive);
    var released := tpool.Release(params);
    if released.None? {
      walk := Walk(FreshWalk(root, params.prefix, params.marker, params.recursive));
      j := FreshIsSuffix(root, params.prefix, params.marker, params.recursive);
    } else {
      walk := released.value;
      j :| 0 < j <= |full| && full[j - 1].entry == params.marker && walk.rest == full[j..];
    }
  }

  /** The walk behind the page's last name is put into the pool. */
  method SuspendWalk(roots: map<string, seq<Node>>, params: ListParams, rest: Walk, tpool: TreeWalkPool, ghost j: nat)
    requires tpool.Valid(roots) && params.bucket in roots
    requires var full := FullWalk(roots[params.bucket], params.prefix, params.recursive);
             0 < j <= |full| && full[j - 1].entry == params.marker && rest.rest == full[j..]
    modifies tpool
    ensures tpool.Valid(roots) && tpool.Waiting(params) != []
  {
    hide FreshWalk;
    assert Resumes(roots[params.bucket], params, rest);
    tpool.Set(params, rest);
  }

  /** Receives one page from a walk and suspends the walk if it is not at its end. */
  method ReadPage(roots: map<string, seq<Node>>, params: ListParams, walk: Walk, maxKeys: int, tpool: TreeWalkPool, ghost j: nat)
    returns (page: seq<string>, isTruncated: bool, nextMarker: string)
    requires params.bucket in roots && WellFormed(roots[params.bucket]) && tpool.Valid(roots) && maxKeys != 0
    requires j <= |FullWalk(roots[params.bucket], params.prefix, params.recursive)|
    requires walk.rest == FullWalk(roots[params.bucket], params.prefix, params.recursive)[j..]
    modifies tpool
    ensures tpool.Valid(roots)
    ensures var full := FullWalk(roots[params.bucket], params.prefix, params.recursive);
            var k := if |full| - j <= PageSize(maxKeys) then |full| - j else PageSize(maxKeys);
            && IsPage(roots[params.bucket], params.prefix, params.recursive, j, k, page)
            && (isTruncated <==> j + k < |full|)
            && (isTruncated ==> k > 0 && nextMarker == page[k - 1])
    ensures isTruncated ==> tpool.Waiting(params.(marker := nextMarker)) != []
  {
    hide FreshWalk, WellFormed, TreeWalkPool.Valid, Increasing;
    isTruncated, nextMarker := false, "";
    ghost var full := FullWalk(roots[params.bucket], params.prefix, params.recursive);
    WalkOrder(roots[params.bucket], params.prefix, "", params.recursive);
    var eof, rest;
    page, eof, rest := ReceivePage(walk, PageSize(maxKeys));
    SuffixPage(full, j, |page|);
    if !eof {
      nextMarker := page[|page| - 1];
      assert full[j + |page| - 1].entry == Entries(full)[j + |page| - 1] == nextMarker;
      SuspendWalk(roots, params.(marker := nextMarker), rest, tpool, j + |page|);
      isTruncated := true;
    }
  }

  lemma PageBound(root: seq<Node>, prefix: string, recursive: bool, j: nat, n: nat, names: seq<string>)
    requires j <= |FullWalk(root, prefix, recursive)|
    requires var full := FullWalk(root, prefix, recursive);
             IsPage(root, prefix, recursive, j, if |full| - j <= n then |full| - j else n, names)
    ensures |names| <= n && (j + |names| < |FullWalk(root, prefix, recursive)| ==> |names| == n)
  {
  }

  method ListObjects(roots: map<string, seq<Node>>, bucket: string, prefix: string, marker: string, slash: bool, maxKeys: int,
                     tpool: TreeWalkPool)
    returns (objects: seq<string>, prefixes: seq<string>, isTruncated: bool, nextMarker: string, ok: bool,
             ghost names: seq<string>, ghost j: nat)
    requires bucket in roots && WellFormed(roots[bucket]) && ListsContiguously(roots[bucket], prefix) && tpool.Valid(roots)
    modifies tpool
    ensures tpool.Valid(roots)
    ensures ok <==> MarkerFits(prefix, marker)
    ensures ok <==> marker == "" || (|prefix| <= |marker| && marker[..|prefix|] == prefix)
    ensures objects == Objects(names, slash) && prefixes == Prefixes(names, slash)
    ensures Partitioned(names, slash, objects, prefixes)
    ensures |names| <= if 0 < maxKeys <= 10000 then maxKeys else 10000
    ensures isTruncated ==> |names| == if 0 < maxKeys <= 10000 then maxKeys else 10000
    ensures !ok || maxKeys == 0 || (slash && prefix == "/") ==> names == [] && !isTruncated
    ensures ok && maxKeys != 0 && !(slash && prefix == "/") ==>
              var full := FullWalk(roots[bucket], prefix, !slash);
              var k := if |full| - j <= PageSize(maxKeys) then |full| - j else PageSize(maxKeys);
              && StartsAt(roots[bucket], prefix, marker, !slash, old(tpool.Waiting(ListParams(bucket, !slash, marker, prefix))) != [], j)
              && IsPage(roots[bucket], prefix, !slash, j, k, names)
              && (isTruncated <==> j + k < |full|)
              && (isTruncated ==> k > 0 && nextMarker == names[k - 1])
    ensures isTruncated ==> tpool.Waiting(ListParams(bucket, !slash, nextMarker, prefix)) != []
  {
    SplitNone(slash);
    SplitExactly([], slash);
    hide FreshWalk, WellFormed, StartsAt, Objects, Prefixes, ListsContiguously, IsPage, Partitioned;
    objects, prefixes, isTruncated, nextMarker, names, j := [], [], false, "", [], 0;
    ok := MarkerFits(prefix, marker);
    if !ok || maxKeys == 0 || (slash && prefix == "/") {
      return;
    }
    var params := ListParams(bucket, !slash, marker, prefix);
    var walk;
    ghost var pooled := tpool.Waiting(params) != [];
    walk, j := OpenWalk(roots, params, tpool);
    StartsInside(roots[bucket], prefix, marker, !slash, pooled, j);
    var page;
    page, isTruncated, nextMarker := ReadPage(roots, params, walk, maxKeys, tpool, j);
    names := page;
    PageBound(roots[bucket], prefix, !slash, j, PageSize(maxKeys), page);
    SplitExactly(page, slash);
    objects, prefixes := Objects(page, slash), Prefixes(page, slash);
  }
}
