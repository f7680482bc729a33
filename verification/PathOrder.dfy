/** The byte-wise order of Go strings and its relation to paths. */
module PathOrder {

  /** Strict lexicographic order. */
  predicate Less(a: string, b: string) {
    b != [] && (a == [] || a[0] < b[0] || (a[0] == b[0] && Less(a[1..], b[1..])))
  }

  predicate HasPrefix(s: string, prefix: string) {
    prefix <= s
  }

  predicate IsDirPath(s: string) {
    s != [] && s[|s| - 1] == '/'
  }

  /** One string is a proper beginning of the other, or has the smaller character where they first differ. */
  ghost predicate FirstSmaller(a: string, b: string, k: nat) {
    k <= |a| && k < |b| && a[..k] == b[..k] && (k < |a| ==> a[k] < b[k])
  }

  lemma {:induction false} LessExactly(a: string, b: string)
    ensures Less(a, b) <==> exists k: nat :: FirstSmaller(a, b, k)
  {
    if Less(a, b) {
      var k := SmallerAt(a, b);
    }
    forall k: nat | FirstSmaller(a, b, k)
      ensures Less(a, b)
    {
      SmallerIsLess(a, b, k);
    }
  }

  lemma {:induction false} SmallerAt(a: string, b: string) returns (k: nat)
    requires Less(a, b)
    ensures FirstSmaller(a, b, k)
  {
    if a == [] || a[0] < b[0] {
      k := 0;
    } else {
      k := SmallerAt(a[1..], b[1..]);
      k := k + 1;
      assert a == [a[0]] + a[1..] && b == [b[0]] + b[1..];
      assert a[..k] == [a[0]] + a[1..][..k - 1] && b[..k] == [b[0]] + b[1..][..k - 1];
    }
  }

  lemma {:induction false} SmallerIsLess(a: string, b: string, k: nat)
    requires FirstSmaller(a, b, k)
    ensures Less(a, b)
  {
    if k > 0 {
      assert a[..k][0] == b[..k][0];
      assert a[..k][1..] == a[1..][..k - 1] && b[..k][1..] == b[1..][..k - 1];
      SmallerIsLess(a[1..], b[1..], k - 1);
    }
  }

  lemma {:induction false} LessTotal(a: string, b: string)
    ensures Less(a, b) || a == b || Less(b, a)
    ensures !(Less(a, b) && Less(b, a)) && !(Less(a, b) && a == b)
  {
    if a != [] && b != [] && a[0] == b[0] {
      LessTotal(a[1..], b[1..]);
      assert a == [a[0]] + a[1..] && b == [b[0]] + b[1..];
    }
  }

  lemma {:induction false} LessTransitive(a: string, b: string, c: string)
    requires Less(a, b) && Less(b, c)
    ensures Less(a, c)
  {
    if a != [] && a[0] == b[0] == c[0] {
      LessTransitive(a[1..], b[1..], c[1..]);
    }
  }

  /** A common prefix does not matter. */
  lemma {:induction false} LessCommon(p: string, a: string, b: string)
    ensures Less(p + a, p + b) <==> Less(a, b)
  {
    if p == [] {
      assert p + a == a && p + b == b;
    } else {
      assert (p + a)[1..] == p[1..] + a && (p + b)[1..] == p[1..] + b;
      LessCommon(p[1..], a, b);
    }
  }

  /** A proper extension is greater. */
  lemma {:induction false} LessExtend(a: string, x: string)
    ensures Less(a, a + x) <==> x != []
    ensures !Less(a + x, a)
  {
    assert a + [] == a;
    LessCommon(a, [], x);
    LessCommon(a, x, []);
  }

  /** Strings that differ inside both keep their order under any extension. */
  lemma {:induction false} LessDiverge(a: string, b: string, x: string, y: string)
    requires Less(a, b) && !(a <= b)
    ensures Less(a + x, b + y) && !(a + x <= b + y) && !(b <= a + x)
  {
    assert a != [] && b != [];
    assert (a + x)[0] == a[0] && (b + y)[0] == b[0];
    if a[0] == b[0] {
      LessDiverge(a[1..], b[1..], x, y);
      assert (a + x)[1..] == a[1..] + x && (b + y)[1..] == b[1..] + y;
    }
  }

  /** A smaller string stays smaller when the greater one grows. */
  lemma LessGrow(a: string, b: string, y: string)
    requires Less(a, b)
    ensures Less(a, b + y)
  {
    LessExtend(b, y);
    if y != [] {
      LessTransitive(a, b, b + y);
    } else {
      assert b + y == b;
    }
  }
}
