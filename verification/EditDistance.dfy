/** pkg/words: the edit distance with adjacent swaps, filled in as a matrix. */
module EditDistance {
  import opened Bytes

  const MAX_INT32: nat := 0x7fff_ffff

  // ------------------------------------------------------------ edit scripts

  /** One step of editing a string from left to right. */
  datatype Op =
    | Keep(c: byte)
    | Substitute(from: byte, to: byte)
    | Delete(c: byte)
    | Insert(c: byte)
    | Swap(x: byte, y: byte)

  /** What the step takes from the first string. */
  function Taken(op: Op): seq<byte> {
    match op
    case Keep(c) => [c]
    case Substitute(from, _) => [from]
    case Delete(c) => [c]
    case Insert(_) => []
    case Swap(x, y) => [x, y]
  }

  /** What the step puts into the second string. */
  function Given(op: Op): seq<byte> {
    match op
    case Keep(c) => [c]
    case Substitute(_, to) => [to]
    case Delete(_) => []
    case Insert(c) => [c]
    case Swap(x, y) => [y, x]
  }

  function OpCost(op: Op): nat {
    if op.Keep? then 0 else 1
  }

  function Source(ops: seq<Op>): seq<byte> {
    if ops == [] then [] else Source(ops[..|ops| - 1]) + Taken(ops[|ops| - 1])
  }

  function Target(ops: seq<Op>): seq<byte> {
    if ops == [] then [] else Target(ops[..|ops| - 1]) + Given(ops[|ops| - 1])
  }

  function Cost(ops: seq<Op>): nat {
    if ops == [] then 0 else Cost(ops[..|ops| - 1]) + OpCost(ops[|ops| - 1])
  }

  /** A script that edits a into b. */
  predicate Edits(ops: seq<Op>, a: seq<byte>, b: seq<byte>) {
    Source(ops) == a && Target(ops) == b
  }

  // ------------------------------------------------------------ the recurrence

  function Differ(x: byte, y: byte): nat {
    if x == y then 0 else 1
  }

  predicate Swapped(a: seq<byte>, b: seq<byte>) {
    |a| > 1 && |b| > 1 && a[|a| - 1] == b[|b| - 2] && a[|a| - 2] == b[|b| - 1]
  }

  function Distance(a: seq<byte>, b: seq<byte>): nat
    decreases |a| + |b|
  {
    if a == [] then |b|
    else if b == [] then |a|
    else
      var m, n := |a| - 1, |b| - 1;
      var cost := Differ(a[m], b[n]);
      var least := Min(Min(Distance(a[..m], b) + 1, Distance(a, b[..n]) + 1), Distance(a[..m], b[..n]) + cost);
      if Swapped(a, b) then Min(least, Distance(a[..m - 1], b[..n - 1]) + cost) else least
  }

  lemma {:induction false} Symmetric(a: seq<byte>, b: seq<byte>)
    ensures Distance(a, b) == Distance(b, a)
    decreases |a| + |b|
  {
    if a != [] && b != [] {
      var m, n := |a| - 1, |b| - 1;
      Symmetric(a[..m], b);
      Symmetric(a, b[..n]);
      Symmetric(a[..m], b[..n]);
      if Swapped(a, b) {
        Symmetric(a[..m - 1], b[..n - 1]);
      }
    }
  }

  lemma {:induction false} Bounds(a: seq<byte>, b: seq<byte>)
    ensures |a| - |b| <= Distance(a, b) && |b| - |a| <= Distance(a, b)
    ensures Distance(a, b) <= |a| || Distance(a, b) <= |b|
    decreases |a| + |b|
  {
    if a != [] && b != [] {
      var m, n := |a| - 1, |b| - 1;
      Bounds(a[..m], b);
      Bounds(a, b[..n]);
      Bounds(a[..m], b[..n]);
      if Swapped(a, b) {
        Bounds(a[..m - 1], b[..n - 1]);
      }
    }
  }

  lemma {:induction false} DistanceStep(a: seq<byte>, b: seq<byte>)
    requires a != [] && b != []
    ensures var m, n := |a| - 1, |b| - 1;
            var cost := Differ(a[m], b[n]);
            var least := Min(Min(Distance(a[..m], b) + 1, Distance(a, b[..n]) + 1), Distance(a[..m], b[..n]) + cost);
            Distance(a, b) == if Swapped(a, b) then Min(least, Distance(a[..m - 1], b[..n - 1]) + cost) else least
  {
  hide Differ, Min;
  }

  lemma ZeroIffEqual(a: seq<byte>, b: seq<byte>)
    ensures Distance(a, b) == 0 <==> a == b
  {
    hide Distance;
    EqualIsZero(a);
    if Distance(a, b) == 0 {
      ZeroIsEqual(a, b);
    }
  }

  lemma {:induction false} EqualIsZero(a: seq<byte>)
    ensures Distance(a, a) == 0
  {
    if a != [] {
      EqualIsZero(a[..|a| - 1]);
    }
  }

  lemma {:induction false} ZeroIsEqual(a: seq<byte>, b: seq<byte>)
    requires Distance(a, b) == 0
    ensures a == b
    decreases |a| + |b|
  {
    hide Distance;
    if a == [] || b == [] {
      EmptyDistance(a, b);
    } else {
      var m, n := |a| - 1, |b| - 1;
      DistanceStep(a, b);
      assert a[m] == b[n];
      if Distance(a[..m], b[..n]) != 0 {
        ZeroIsEqual(a[..m - 1], b[..n - 1]);
        assert a[..m] == a[..m - 1] + [a[m - 1]] && b[..n] == b[..n - 1] + [b[n - 1]];
      } else {
        ZeroIsEqual(a[..m], b[..n]);
      }
      assert a == a[..m] + [a[m]] && b == b[..n] + [b[n]];
    }
  }

  // ------------------------------------------------------------ the distance is the cheapest script

  lemma EditsSnoc(ops: seq<Op>, op: Op)
    ensures Source(ops + [op]) == Source(ops) + Taken(op)
    ensures Target(ops + [op]) == Target(ops) + Given(op)
    ensures Cost(ops + [op]) == Cost(ops) + OpCost(op)
  {
    assert (ops + [op])[..|ops|] == ops;
  }

  /** No script is cheaper. */
  lemma {:induction false} NoneCheaper(ops: seq<Op>, a: seq<byte>, b: seq<byte>)
    requires Edits(ops, a, b)
    ensures Distance(a, b) <= Cost(ops)
    decreases |ops|
  {
    if ops == [] {
      return;
    }
    var k := |ops| - 1;
    var before, op := ops[..k], ops[k];
    var a', b' := Source(before), Target(before);
    NoneCheaper(before, a', b');
    assert a[..|a'|] == a' && b[..|b'|] == b';
    StepCost(a', b', op);
  }

  /** Each kind of last step bounds the distance. */
  lemma DistanceAtMost(a: seq<byte>, b: seq<byte>)
    requires a != [] && b != []
    ensures var m, n := |a| - 1, |b| - 1;
            && Distance(a, b) <= Distance(a[..m], b) + 1
            && Distance(a, b) <= Distance(a, b[..n]) + 1
            && Distance(a, b) <= Distance(a[..m], b[..n]) + Differ(a[m], b[n])
            && (Swapped(a, b) ==> Distance(a, b) <= Distance(a[..m - 1], b[..n - 1]) + Differ(a[m], b[n]))
  {
    hide Distance;
    DistanceStep(a, b);
  }

  /** One more step costs at least what the distance grows by. */
  lemma StepCost(a: seq<byte>, b: seq<byte>, op: Op)
    ensures Distance(a + Taken(op), b + Given(op)) <= Distance(a, b) + OpCost(op)
  {
    hide Distance, Swapped, Min;
    var c, d := a + Taken(op), b + Given(op);
    assert c[..|a|] == a && d[..|b|] == b;
    if c == [] || d == [] {
      EmptyDistance(c, d);
      EmptyDistance(a, b);
    } else {
      DistanceAtMost(c, d);
      match op
      case Keep(_) =>
      case Substitute(_, _) =>
      case Delete(_) =>
        assert d == b;
      case Insert(_) =>
        assert c == a;
      case Swap(x, y) =>
        SwapGiven(a, b, x, y);
    }
  }

  lemma SwapGiven(a: seq<byte>, b: seq<byte>, x: byte, y: byte)
    ensures var c, d := a + [x, y], b + [y, x];
            Swapped(c, d) && c[..|c| - 2] == a && d[..|d| - 2] == b && c[|c| - 1] == y && d[|d| - 1] == x
  {
  }

  /** Swapping two equal bytes is never better than keeping them. */
  lemma SwapsDiffer(a: seq<byte>, b: seq<byte>)
    requires Swapped(a, b) && a[|a| - 1] == b[|b| - 1]
    ensures Distance(a[..|a| - 1], b[..|b| - 1]) <= Distance(a[..|a| - 2], b[..|b| - 2])
  {
    hide Distance;
    var m, n := |a| - 1, |b| - 1;
    StepCost(a[..m - 1], b[..n - 1], Keep(a[m - 1]));
    assert a[..m - 1] + [a[m - 1]] == a[..m] && b[..n - 1] + [a[m - 1]] == b[..n];
  }

  /** Some script costs the distance. */
  lemma {:induction false} Cheapest(a: seq<byte>, b: seq<byte>) returns (ops: seq<Op>)
    ensures Edits(ops, a, b) && Cost(ops) == Distance(a, b)
    decreases |a| + |b|
  {
    hide Source, Target, Cost;
    NoSteps();
    if a == [] && b == [] {
      ops := [];
    } else if b == [] {
      var m := |a| - 1;
      ops := Cheapest(a[..m], b);
      ops := AddStep(ops, a[..m], b, Delete(a[m]), a, b);
    } else if a == [] {
      var n := |b| - 1;
      ops := Cheapest(a, b[..n]);
      ops := AddStep(ops, a, b[..n], Insert(b[n]), a, b);
    } else {
      ops := CheapestStep(a, b);
    }
  }

  lemma {:induction false} CheapestStep(a: seq<byte>, b: seq<byte>) returns (ops: seq<Op>)
    requires a != [] && b != []
    ensures Edits(ops, a, b) && Cost(ops) == Distance(a, b)
    decreases |a| + |b|, 0
  {
    hide Edits, Cost, Distance, Swapped;
    var m, n, d := |a| - 1, |b| - 1, Distance(a, b);
    LastSteps(a, b);
    if d == Distance(a[..m], b) + 1 {
      ops := Cheapest(a[..m], b);
      ops := AddStep(ops, a[..m], b, Delete(a[m]), a, b);
    } else if d == Distance(a, b[..n]) + 1 {
      ops := Cheapest(a, b[..n]);
      ops := AddStep(ops, a, b[..n], Insert(b[n]), a, b);
    } else if d == Distance(a[..m], b[..n]) + Differ(a[m], b[n]) {
      ops := Cheapest(a[..m], b[..n]);
      ops := AddStep(ops, a[..m], b[..n], if a[m] == b[n] then Keep(a[m]) else Substitute(a[m], b[n]), a, b);
    } else {
      SwapEnds(a, b);
      ops := Cheapest(a[..m - 1], b[..n - 1]);
      ops := AddStep(ops, a[..m - 1], b[..n - 1], Swap(a[m - 1], a[m]), a, b);
    }
  }

  /** The steps of which the last one of a cheapest script is. */
  lemma LastSteps(a: seq<byte>, b: seq<byte>)
    requires a != [] && b != []
    ensures var m, n, d := |a| - 1, |b| - 1, Distance(a, b);
            || d == Distance(a[..m], b) + 1 || d == Distance(a, b[..n]) + 1
            || d == Distance(a[..m], b[..n]) + Differ(a[m], b[n])
            || (Swapped(a, b) && d == Distance(a[..m - 1], b[..n - 1]) + 1)
  {
    hide Distance;
    DistanceStep(a, b);
    if Swapped(a, b) && a[|a| - 1] == b[|b| - 1] {
      SwapsDiffer(a, b);
    }
  }

  lemma SwapEnds(a: seq<byte>, b: seq<byte>)
    requires Swapped(a, b)
    ensures var m, n := |a| - 1, |b| - 1;
            && m > 0 && n > 0
            && a == a[..m - 1] + Taken(Swap(a[m - 1], a[m])) && b == b[..n - 1] + Given(Swap(a[m - 1], a[m]))
  {
  }

  lemma NoSteps()
    ensures Edits([], [], []) && Cost([]) == 0
  {
  }

  lemma AddStep(before: seq<Op>, a: seq<byte>, b: seq<byte>, op: Op, c: seq<byte>, d: seq<byte>) returns (ops: seq<Op>)
    requires Edits(before, a, b) && c == a + Taken(op) && d == b + Given(op)
    ensures Edits(ops, c, d) && Cost(ops) == Cost(before) + OpCost(op) && ops == before + [op]
  {
    EditsSnoc(before, op);
    ops := before + [op];
  }

  // ------------------------------------------------------------ the matrix

  /** The smallest of the values and MaxInt32. */
  method Minimum(integers: seq<nat>) returns (minVal: nat)
    ensures minVal == LeastOf(integers)
  {
    minVal := MAX_INT32;
    for i := 0 to |integers|
      invariant minVal == LeastOf(integers[..i])
    {
      assert integers[..i + 1][..i] == integers[..i];
      if integers[i] < minVal {
        minVal := integers[i];
      }
    }
    assert integers[..|integers|] == integers;
  }

  function LeastOf(integers: seq<nat>): nat {
    if integers == [] then MAX_INT32
    else Min(LeastOf(integers[..|integers| - 1]), integers[|integers| - 1])
  }

  lemma LeastOfThree(x: nat, y: nat, z: nat)
    ensures LeastOf([x, y]) == Min(MAX_INT32, Min(x, y))
    ensures LeastOf([x, y, z]) == Min(MAX_INT32, Min(Min(x, y), z))
  {
    assert [x][..0] == [] && [x, y][..1] == [x] && [x, y, z][..2] == [x, y];
    assert LeastOf([x]) == Min(MAX_INT32, x);
  }

  /** The entry for two prefixes: the distance, cut off at MaxInt32 unless one prefix is empty. */
  function Entry(a: seq<byte>, b: seq<byte>): nat {
    if a == [] || b == [] then |a| + |b| else Min(MAX_INT32, Distance(a, b))
  }

  lemma {:induction false} EntryStep(a: seq<byte>, b: seq<byte>)
    requires a != [] && b != []
    ensures var m, n := |a| - 1, |b| - 1;
            var cost := Differ(a[m], b[n]);
            var least := Min(Min(Entry(a[..m], b) + 1, Entry(a, b[..n]) + 1), Entry(a[..m], b[..n]) + cost);
            Entry(a, b) == Min(MAX_INT32,
              if Swapped(a, b) then Min(least, Entry(a[..m - 1], b[..n - 1]) + cost) else least)
  {
    hide Distance;
    EmptyDistance(a[..|a| - 1], b);
    EmptyDistance(a, b[..|b| - 1]);
    EmptyDistance(a[..|a| - 1], b[..|b| - 1]);
    if Swapped(a, b) {
      EmptyDistance(a[..|a| - 2], b[..|b| - 2]);
    }
    DistanceStep(a, b);
  }

  lemma EmptyDistance(a: seq<byte>, b: seq<byte>)
    ensures a == [] || b == [] ==> Distance(a, b) == |a| + |b|
  {
  }

  /** For strings within the bounds of int32 this is the distance. */
  method DamerauLevenshteinDistance(a: seq<byte>, b: seq<byte>) returns (r: nat)
    ensures r == Entry(a, b)
    ensures |a| <= MAX_INT32 && |b| <= MAX_INT32 ==> r == Distance(a, b)
  {
    hide Distance, Swapped;
    var d := new nat[|a| + 1, |b| + 1];
    for i := 0 to |a| + 1
      invariant forall k :: 0 <= k < i ==> d[k, 0] == k
    {
      d[i, 0] := i;
    }
    for j := 0 to |b| + 1
      invariant forall k :: 0 <= k <= |a| ==> d[k, 0] == k
      invariant forall k :: 0 <= k < j ==> d[0, k] == k
    {
      d[0, j] := j;
    }
    for i := 1 to |a| + 1
      invariant forall k, l :: 0 <= k < i && 0 <= l <= |b| ==> d[k, l] == Entry(a[..k], b[..l])
      invariant forall k :: 0 <= k <= |a| ==> d[k, 0] == k
    {
      for j := 1 to |b| + 1
        invariant forall k, l :: 0 <= k < i && 0 <= l <= |b| ==> d[k, l] == Entry(a[..k], b[..l])
        invariant forall l :: 0 <= l < j ==> d[i, l] == Entry(a[..i], b[..l])
        invariant forall k :: 0 <= k <= |a| ==> d[k, 0] == k
      {
        FillEntry(a, b, d, i, j);
      }
    }
    assert a[..|a|] == a && b[..|b|] == b;
    r := d[|a|, |b|];
    Bounds(a, b);
    EmptyDistance(a, b);
  }

  method FillEntry(a: seq<byte>, b: seq<byte>, d: array2<nat>, i: nat, j: nat)
    requires d.Length0 == |a| + 1 && d.Length1 == |b| + 1 && 1 <= i <= |a| && 1 <= j <= |b|
    requires forall k, l :: 0 <= k < i && 0 <= l <= |b| ==> d[k, l] == Entry(a[..k], b[..l])
    requires forall l :: 0 <= l < j ==> d[i, l] == Entry(a[..i], b[..l])
    modifies d
    ensures d[i, j] == Entry(a[..i], b[..j])
    ensures forall k, l :: 0 <= k <= |a| && 0 <= l <= |b| && (k != i || l != j) ==> d[k, l] == old(d[k, l])
  {
    hide Entry, LeastOf;
    EntryStep(a[..i], b[..j]);
    assert a[..i][..i - 1] == a[..i - 1] && b[..j][..j - 1] == b[..j - 1];
    var cost := if a[i - 1] == b[j - 1] then 0 else 1;
    LeastOfThree(d[i - 1, j] + 1, d[i, j - 1] + 1, d[i - 1, j - 1] + cost);
    var v := Minimum([d[i - 1, j] + 1, d[i, j - 1] + 1, d[i - 1, j - 1] + cost]);
    d[i, j] := v;
    if i > 1 && j > 1 && a[i - 1] == b[j - 2] && a[i - 2] == b[j - 1] {
      assert a[..i][..i - 2] == a[..i - 2] && b[..j][..j - 2] == b[..j - 2];
      LeastOfThree(d[i, j], d[i - 2, j - 2] + cost, 0);
      v := Minimum([d[i, j], d[i - 2, j - 2] + cost]);
      d[i, j] := v;
    }
  }

  /** The distance is not a metric: the detour through "AC" is shorter. */
  lemma TriangleFails()
    ensures Distance([67, 65], [65, 67]) + Distance([65, 67], [65, 66, 67]) < Distance([67, 65], [65, 66, 67])
  {
  }
}
