/** When the edit distance satisfies the triangle inequality. */
module Triangle {
  import opened Bytes
  import opened EditDistance

  // ------------------------------------------------------------ scripts without swaps

  predicate SwapFree(ops: seq<Op>) {
    forall i :: 0 <= i < |ops| ==> !ops[i].Swap?
  }

  /** No two distinct neighbours in a stand reversed in b. */
  predicate NoReversal(a: seq<byte>, b: seq<byte>) {
    forall i, j :: 0 <= i < |a| - 1 && 0 <= j < |b| - 1 && a[i] == b[j + 1] && a[i + 1] == b[j] ==> a[i] == a[i + 1]
  }

  /** A step that turns byte x into byte y. */
  function Turn(x: byte, y: byte): Op {
    if x == y then Keep(x) else Substitute(x, y)
  }

  /** Without reversals some cheapest script has no swap. */
  lemma {:induction false} CheapestSwapFree(a: seq<byte>, b: seq<byte>) returns (ops: seq<Op>)
    requires NoReversal(a, b)
    ensures Edits(ops, a, b) && Cost(ops) == Distance(a, b) && SwapFree(ops)
    decreases |a| + |b|
  {
    hide Edits, Cost, Distance;
    NoSteps();
    EmptyDistance(a, b);
    if a == [] && b == [] {
      ops := [];
    } else if b == [] {
      var m := |a| - 1;
      EmptyDistance(a[..m], b);
      ops := CheapestSwapFree(a[..m], b);
      ops := AddFree(ops, a[..m], b, Delete(a[m]), a, b);
    } else if a == [] {
      var n := |b| - 1;
      EmptyDistance(a, b[..n]);
      ops := CheapestSwapFree(a, b[..n]);
      ops := AddFree(ops, a, b[..n], Insert(b[n]), a, b);
    } else {
      ops := CheapestFreeStep(a, b);
    }
  }

  lemma {:induction false} CheapestFreeStep(a: seq<byte>, b: seq<byte>) returns (ops: seq<Op>)
    requires NoReversal(a, b) && a != [] && b != []
    ensures Edits(ops, a, b) && Cost(ops) == Distance(a, b) && SwapFree(ops)
    decreases |a| + |b|, 0
  {
    hide Edits, Cost, Distance, NoReversal, SwapFree;
    var m, n, d := |a| - 1, |b| - 1, Distance(a, b);
    NoReversalInside(a, b);
    LastDistance(a, b);
    if d == Distance(a[..m], b) + 1 {
      ops := CheapestSwapFree(a[..m], b);
      ops := AddFree(ops, a[..m], b, Delete(a[m]), a, b);
    } else if d == Distance(a, b[..n]) + 1 {
      ops := CheapestSwapFree(a, b[..n]);
      ops := AddFree(ops, a, b[..n], Insert(b[n]), a, b);
    } else {
      ops := CheapestSwapFree(a[..m], b[..n]);
      ops := AddFree(ops, a[..m], b[..n], Turn(a[m], b[n]), a, b);
    }
  }

  lemma NoReversalInside(a: seq<byte>, b: seq<byte>)
    requires NoReversal(a, b) && a != [] && b != []
    ensures NoReversal(a[..|a| - 1], b) && NoReversal(a, b[..|b| - 1]) && NoReversal(a[..|a| - 1], b[..|b| - 1])
  {
  }

  /** Without reversals the distance comes from one of the three steps that do not swap. */
  lemma LastDistance(a: seq<byte>, b: seq<byte>)
    requires NoReversal(a, b) && a != [] && b != []
    ensures var m, n, d := |a| - 1, |b| - 1, Distance(a, b);
            || d == Distance(a[..m], b) + 1 || d == Distance(a, b[..n]) + 1
            || d == Distance(a[..m], b[..n]) + Differ(a[m], b[n])
  {
    hide Distance;
    DistanceStep(a, b);
    if Swapped(a, b) {
      var m, n := |a| - 1, |b| - 1;
      assert a[m - 1] == b[n] && a[m] == b[n - 1];
      SwapsDiffer(a, b);
    }
  }

  lemma AddFree(before: seq<Op>, a: seq<byte>, b: seq<byte>, op: Op, c: seq<byte>, d: seq<byte>) returns (ops: seq<Op>)
    requires Edits(before, a, b) && SwapFree(before) && !op.Swap? && c == a + Taken(op) && d == b + Given(op)
    ensures Edits(ops, c, d) && SwapFree(ops) && Cost(ops) == Cost(before) + OpCost(op)
  {
    hide Edits, Cost;
    ops := AddStep(before, a, b, op, c, d);
  }

  /** A swap is at most as good as two substitutions. */
  lemma {:induction false} WithoutSwaps(ops: seq<Op>) returns (free: seq<Op>)
    ensures SwapFree(free) && Source(free) == Source(ops) && Target(free) == Target(ops) && Cost(free) <= 2 * Cost(ops)
    decreases |ops|
  {
    hide Source, Target, Cost;
    NoSteps();
    if ops == [] {
      return [];
    }
    var k := |ops| - 1;
    var before, op := ops[..k], ops[k];
    LastStep(ops, Source(ops), Target(ops));
    free := WithoutSwaps(before);
    var s, t := Source(free), Target(free);
    if op.Swap? {
      var first := AddStep(free, s, t, Turn(op.x, op.y), s + [op.x], t + [op.y]);
      free := AddStep(first, s + [op.x], t + [op.y], Turn(op.y, op.x), s + Taken(op), t + Given(op));
    } else {
      free := AddStep(free, s, t, op, s + Taken(op), t + Given(op));
    }
  }

  /** Two scripts without swaps, one after the other, are one script that costs no more. */
  lemma {:induction false} Compose(p: seq<Op>, q: seq<Op>, a: seq<byte>, b: seq<byte>, c: seq<byte>) returns (r: seq<Op>)
    requires SwapFree(p) && SwapFree(q) && Edits(p, a, b) && Edits(q, b, c)
    ensures Edits(r, a, c) && Cost(r) <= Cost(p) + Cost(q)
    decreases |p| + |q|
  {
    hide Source, Target, Cost;
    NoSteps();
    if p != [] {
      LastStep(p, a, b);
    }
    if q != [] {
      LastStep(q, b, c);
    }
    var i, j := |p| - 1, |q| - 1;
    if p != [] && p[i].Delete? {
      var s := Source(p[..i]);
      r := Compose(p[..i], q, s, b, c);
      r := AddStep(r, s, c, p[i], a, c);
    } else if q != [] && q[j].Insert? {
      var t := Target(q[..j]);
      r := Compose(p, q[..j], a, b, t);
      r := AddStep(r, a, t, q[j], a, c);
    } else if p == [] || q == [] {
      r := [];
    } else {
      var s, t, before := Source(p[..i]), Target(q[..j]), Target(p[..i]);
      assert b[..|b| - 1] == before == Source(q[..j]);
      r := Compose(p[..i], q[..j], s, before, t);
      if p[i].Insert? && !q[j].Delete? {
        r := AddStep(r, s, t, Insert(Given(q[j])[0]), a, c);
      } else if !p[i].Insert? && q[j].Delete? {
        r := AddStep(r, s, t, Delete(Taken(p[i])[0]), a, c);
      } else if !p[i].Insert? {
        r := AddStep(r, s, t, Turn(Taken(p[i])[0], Given(q[j])[0]), a, c);
      }
    }
  }

  /** A nonempty script is a script and one more step. */
  lemma LastStep(ops: seq<Op>, a: seq<byte>, b: seq<byte>)
    requires ops != [] && Edits(ops, a, b)
    ensures var k := |ops| - 1;
            && a == Source(ops[..k]) + Taken(ops[k]) && b == Target(ops[..k]) + Given(ops[k])
            && Edits(ops[..k], Source(ops[..k]), Target(ops[..k]))
            && Cost(ops) == Cost(ops[..k]) + OpCost(ops[k])
  {
  }

  // ------------------------------------------------------------ the inequality

  /** The triangle inequality holds wherever neither pair of strings has a reversed pair of neighbours. */
  lemma TriangleHolds(a: seq<byte>, b: seq<byte>, c: seq<byte>)
    requires NoReversal(a, b) && NoReversal(b, c)
    ensures Distance(a, c) <= Distance(a, b) + Distance(b, c)
  {
    hide Distance, Edits;
    var p := CheapestSwapFree(a, b);
    var q := CheapestSwapFree(b, c);
    var r := Compose(p, q, a, b, c);
    NoneCheaper(r, a, c);
  }

  /** A detour is never better than half the distance. */
  lemma TriangleWithinTwo(a: seq<byte>, b: seq<byte>, c: seq<byte>)
    ensures Distance(a, c) <= 2 * (Distance(a, b) + Distance(b, c))
  {
    hide Distance;
    var p := Cheapest(a, b);
    var q := Cheapest(b, c);
    p := WithoutSwaps(p);
    q := WithoutSwaps(q);
    var r := Compose(p, q, a, b, c);
    NoneCheaper(r, a, c);
  }

  // ------------------------------------------------------------ common beginnings and ends

  /** Leaving out the last byte of the second string costs at most one more step. */
  lemma {:induction false} DropLast(ops: seq<Op>, a: seq<byte>, b: seq<byte>, z: byte) returns (r: seq<Op>)
    requires Edits(ops, a, b + [z])
    ensures Edits(r, a, b) && Cost(r) <= Cost(ops) + 1
    decreases |ops|
  {
    hide Source, Target, Cost;
    NoSteps();
    LastStepExists(ops, b, z);
    LastStep(ops, a, b + [z]);
    var k := |ops| - 1;
    var s, t := Source(ops[..k]), Target(ops[..k]);
    match ops[k]
    case Delete(x) =>
      r := DropLast(ops[..k], s, b, z);
      r := AddStep(r, s, b, ops[k], a, b);
    case Insert(_) =>
      assert (b + [z])[..|b|] == b == t;
      r := ops[..k];
    case Swap(x, y) =>
      assert b + [z] == t + [y] + [x];
      assert (b + [z])[..|b|] == b == t + [y];
      r := AddStep(ops[..k], s, t, Delete(x), s + [x], t);
      r := AddStep(r, s + [x], t, Keep(y), a, b);
    case _ =>
      assert (b + [z])[..|b|] == b == t;
      r := AddStep(ops[..k], s, t, Delete(Taken(ops[k])[0]), a, b);
  }

  lemma LastStepExists(ops: seq<Op>, b: seq<byte>, z: byte)
    requires Target(ops) == b + [z]
    ensures ops != []
  {
  }

  lemma DistanceDropLast(a: seq<byte>, b: seq<byte>, z: byte)
    ensures Distance(a, b) <= Distance(a, b + [z]) + 1
  {
    hide Distance, Edits;
    var ops := Cheapest(a, b + [z]);
    var r := DropLast(ops, a, b, z);
    NoneCheaper(r, a, b);
  }

  /** A common last byte does not matter. */
  lemma CommonLast(a: seq<byte>, b: seq<byte>, z: byte)
    ensures Distance(a + [z], b + [z]) == Distance(a, b)
  {
    hide Distance;
    var c, d := a + [z], b + [z];
    assert c[..|a|] == a && d[..|b|] == b;
    StepCost(a, b, Keep(z));
    DistanceStep(c, d);
    DistanceDropLast(a, b, z);
    DistanceDropLast(b, a, z);
    Symmetric(b, a);
    Symmetric(b, c);
    if Swapped(c, d) {
      SwapsDiffer(c, d);
    }
  }

  lemma {:induction false} CommonEnd(a: seq<byte>, b: seq<byte>, q: seq<byte>)
    ensures Distance(a + q, b + q) == Distance(a, b)
  {
    hide Distance;
    if q == [] {
      assert a + q == a && b + q == b;
    } else {
      var front, z := q[..|q| - 1], q[|q| - 1];
      CommonEnd(a, b, front);
      CommonLast(a + front, b + front, z);
      assert a + q == a + front + [z] && b + q == b + front + [z];
    }
  }

  function Reverse(s: seq<byte>): (r: seq<byte>)
    ensures |r| == |s|
  {
    if s == [] then [] else [s[|s| - 1]] + Reverse(s[..|s| - 1])
  }

  lemma ReverseSnoc(s: seq<byte>, z: byte)
    ensures Reverse(s + [z]) == [z] + Reverse(s)
  {
    assert (s + [z])[..|s|] == s;
  }

  lemma {:induction false} ReverseAppend(s: seq<byte>, t: seq<byte>)
    ensures Reverse(s + t) == Reverse(t) + Reverse(s)
  {
    if t == [] {
      assert s + t == s;
    } else {
      var front, z := t[..|t| - 1], t[|t| - 1];
      ReverseAppend(s, front);
      ReverseSnoc(s + front, z);
      ReverseSnoc(front, z);
      hide Reverse;
      assert s + t == s + front + [z] && t == front + [z];
    }
  }

  lemma {:induction false} ReverseTwice(s: seq<byte>)
    ensures Reverse(Reverse(s)) == s
  {
    if s != [] {
      var front, z := s[..|s| - 1], s[|s| - 1];
      ReverseTwice(front);
      ReverseAppend([z], Reverse(front));
      assert Reverse([z]) == [z];
    }
  }

  /** The script for the reversed strings. */
  function Mirrored(ops: seq<Op>): seq<Op> {
    if ops == [] then []
    else
      var op := ops[|ops| - 1];
      [if op.Swap? then Swap(op.y, op.x) else op] + Mirrored(ops[..|ops| - 1])
  }

  lemma {:induction false} FirstStep(op: Op, rest: seq<Op>)
    ensures Source([op] + rest) == Taken(op) + Source(rest) && Target([op] + rest) == Given(op) + Target(rest)
    ensures Cost([op] + rest) == OpCost(op) + Cost(rest)
    decreases |rest|
  {
    hide Source, Target, Cost, Given, Taken;
    NoSteps();
    var ops := [op] + rest;
    if rest == [] {
      assert ops == [] + [op];
      EditsSnoc([], op);
      assert [] + Taken(op) == Taken(op) + [] && [] + Given(op) == Given(op) + [];
    } else {
      var k := |rest| - 1;
      FirstStep(op, rest[..k]);
      assert ops == ([op] + rest[..k]) + [rest[k]] && rest == rest[..k] + [rest[k]];
      EditsSnoc([op] + rest[..k], rest[k]);
      EditsSnoc(rest[..k], rest[k]);
    }
  }

  lemma {:induction false} MirroredEdits(ops: seq<Op>)
    ensures Edits(Mirrored(ops), Reverse(Source(ops)), Reverse(Target(ops))) && Cost(Mirrored(ops)) == Cost(ops)
    decreases |ops|
  {
    hide Source, Target, Cost;
    NoSteps();
    if ops != [] {
      var k := |ops| - 1;
      var op := ops[k];
      LastStep(ops, Source(ops), Target(ops));
      MirroredEdits(ops[..k]);
      ReverseAppend(Source(ops[..k]), Taken(op));
      ReverseAppend(Target(ops[..k]), Given(op));
      ShortReverse(op);
      FirstStep(if op.Swap? then Swap(op.y, op.x) else op, Mirrored(ops[..k]));
    }
  }

  lemma ShortReverse(op: Op)
    ensures var m := if op.Swap? then Swap(op.y, op.x) else op;
            Taken(m) == Reverse(Taken(op)) && Given(m) == Reverse(Given(op))
  {
    forall x, y
      ensures Reverse([x]) == [x] && Reverse([x, y]) == [y, x]
    {
      assert [x, y][..1] == [x] && [x][..0] == [];
    }
  }

  /** The distance is the same read backwards. */
  lemma DistanceReversed(a: seq<byte>, b: seq<byte>)
    ensures Distance(Reverse(a), Reverse(b)) == Distance(a, b)
  {
    ReversedNoMore(a, b);
    ReversedNoMore(Reverse(a), Reverse(b));
    ReverseTwice(a);
    ReverseTwice(b);
  }

  lemma ReversedNoMore(a: seq<byte>, b: seq<byte>)
    ensures Distance(Reverse(a), Reverse(b)) <= Distance(a, b)
  {
    hide Distance;
    var ops := Cheapest(a, b);
    MirroredEdits(ops);
    NoneCheaper(Mirrored(ops), Reverse(a), Reverse(b));
  }

  /** A common beginning and a common end do not matter. */
  lemma CommonAround(p: seq<byte>, a: seq<byte>, b: seq<byte>, q: seq<byte>)
    ensures Distance(p + a + q, p + b + q) == Distance(a, b)
  {
    hide Distance;
    CommonEnd(p + a, p + b, q);
    DistanceReversed(p + a, p + b);
    ReverseAppend(p, a);
    ReverseAppend(p, b);
    CommonEnd(Reverse(a), Reverse(b), Reverse(p));
    DistanceReversed(a, b);
  }

  // ------------------------------------------------------------ exactly when a detour is never shorter

  predicate OneByteOnly(b: seq<byte>) {
    forall i :: 0 <= i < |b| - 1 ==> b[i] == b[i + 1]
  }

  ghost predicate NoShortDetour(b: seq<byte>) {
    forall a, c :: Distance(a, c) <= Distance(a, b) + Distance(b, c)
  }

  lemma SwapDetour(x: byte, y: byte, f: byte)
    requires x != y && f != x && f != y
    ensures Distance([x, f, y], [y, x]) == 3 && Distance([x, f, y], [x, y]) == 1 && Distance([x, y], [y, x]) == 1
  {
    assert [x, f, y][..2] == [x, f] && [x, f][..1] == [x] == [x, y][..1] && [x][..0] == [];
    assert [y, x][..1] == [y] && [y][..0] == [] && [x, y][..0] == [] == [y, x][..0];
    assert Distance([x], [y]) == 1 && Distance([x], [y, x]) == 1 && Distance([x, f], [y]) == 2;
    assert Distance([x, f], [y, x]) == 2 && Distance([x, f, y], [y]) == 2;
    assert Distance([x], [x]) == 0 && Distance([x, f], [x]) == 1;
  }

  /** Between two neighbours that differ a third byte can be put in; removing it and then swapping the two
      takes two steps, but three are needed without the detour. */
  lemma DetourExists(b: seq<byte>, i: nat) returns (a: seq<byte>, c: seq<byte>)
    requires i < |b| - 1 && b[i] != b[i + 1]
    ensures Distance(a, c) == 3 && Distance(a, b) == 1 && Distance(b, c) == 1
  {
    hide Distance;
    var x, y := b[i], b[i + 1];
    var f: byte := if x != 0 && y != 0 then 0 else if x != 1 && y != 1 then 1 else 2;
    var p, q := b[..i], b[i + 2..];
    a, c := p + [x, f, y] + q, p + [y, x] + q;
    assert b == p + [x, y] + q;
    SwapDetour(x, y, f);
    CommonAround(p, [x, f, y], [y, x], q);
    CommonAround(p, [x, f, y], [x, y], q);
    CommonAround(p, [x, y], [y, x], q);
  }

  /** The triangle inequality holds for all detours through a string if and only if the string repeats one
      byte. */
  lemma TriangleExactly(b: seq<byte>)
    ensures NoShortDetour(b) <==> OneByteOnly(b)
  {
    hide Distance;
    if OneByteOnly(b) {
      forall a, c
        ensures Distance(a, c) <= Distance(a, b) + Distance(b, c)
      {
        TriangleHolds(a, b, c);
      }
    } else {
      var i :| 0 <= i < |b| - 1 && b[i] != b[i + 1];
      var a, c := DetourExists(b, i);
    }
  }
}
