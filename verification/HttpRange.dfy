/** Byte ranges: parsing the Range header and resolving it against a resource size. */
module HttpRange {
  import opened Basics
  import opened Bytes

  type int64 = x: int | -0x8000_0000_0000_0000 <= x < 0x8000_0000_0000_0000

  datatype Spec = Spec(isSuffixLength: bool, start: int64, end: int64)

  datatype RangeError = InvalidRange | Malformed | NegativeSize | UnexpectedCase

  datatype Result<+T> = Ok(value: T) | Error(error: RangeError)

  /** Negation of an int64: the least value is its own negative. */
  function Neg64(x: int64): int64 {
    if x == -0x8000_0000_0000_0000 then x else -(x as int)
  }

  /** GetLength; None is the nil range. */
  function GetLength(h: Option<Spec>, resourceSize: int64): Result<int> {
    if resourceSize < 0 then Error(NegativeSize)
    else if h.None? then Ok(resourceSize)
    else
      var s := h.value;
      if s.isSuffixLength then Ok(if Neg64(s.start) > resourceSize then resourceSize else Neg64(s.start))
      else if s.start >= resourceSize then Error(InvalidRange)
      else if s.end > -1 then Ok((if resourceSize <= s.end then resourceSize - 1 else s.end) - s.start + 1)
      else if s.end == -1 then Ok(resourceSize - s.start)
      else Error(UnexpectedCase)
  }

  function GetOffsetLength(h: Option<Spec>, resourceSize: int64): Result<(int, int)> {
    if h.None? then Ok((0, resourceSize))
    else
      match GetLength(h, resourceSize)
      case Error(e) => Error(e)
      case Ok(length) =>
        var s := h.value;
        Ok((if !s.isSuffixLength then s.start
            else if resourceSize + s.start < 0 then 0 else resourceSize + s.start, length))
  }

  /** The ranges the parser produces: a nonempty suffix, or a start with an optional end behind it. */
  predicate WellFormed(s: Spec) {
    if s.isSuffixLength then -0x8000_0000_0000_0000 < s.start < 0 && s.end == -1 else 0 <= s.start && (s.end == -1 || s.start <= s.end)
  }

  /** Section 2.1 of RFC 7233: the positions a range selects from a resource of n bytes. */
  predicate Selects(s: Spec, n: nat, i: nat) {
    && i < n
    && if s.isSuffixLength then n + s.start <= i else s.start <= i && (s.end == -1 || i <= s.end)
  }

  /** The resolved range is exactly the set of selected positions; resolving fails exactly when a
      range with a start selects none. */
  lemma RangeSelects(s: Spec, n: int64)
    requires WellFormed(s) && 0 <= n
    ensures var r := GetOffsetLength(Some(s), n);
            && (r.Ok? ==> 0 <= r.value.0 && 0 <= r.value.1 && r.value.0 + r.value.1 <= n)
            && (r.Ok? ==> forall i: nat :: Selects(s, n, i) <==> r.value.0 <= i < r.value.0 + r.value.1)
            && (r.Error? <==> !s.isSuffixLength && n <= s.start)
            && (r.Error? ==> r.error == InvalidRange && forall i: nat :: !Selects(s, n, i))
  {
  }

  // ----- parsing

  predicate IsDigit(c: char) { '0' <= c <= '9' }

  predicate AllDigits(s: string) { forall i :: 0 <= i < |s| ==> IsDigit(s[i]) }

  function DigitsValue(s: string): nat
    requires AllDigits(s)
  {
    if s == [] then 0 else DigitsValue(s[..|s| - 1]) * 10 + (s[|s| - 1] - '0') as int
  }

  function DecimalDigit(d: nat): char
    requires d < 10
  {
    "0123456789"[d]
  }

  /** A number in decimal notation, as strconv.Itoa writes it. */
  function Decimal(n: nat): string {
    if n < 10 then [DecimalDigit(n)] else Decimal(n / 10) + [DecimalDigit(n % 10)]
  }

  lemma DigitIs(d: nat)
    requires d < 10
    ensures DecimalDigit(d) == '0' + d as char
  {
  }

  lemma {:induction false} DecimalRoundTrip(n: nat)
    ensures Decimal(n) != "" && AllDigits(Decimal(n)) && DigitsValue(Decimal(n)) == n
  {
    hide DecimalDigit;
    DigitIs(n % 10);
    if n >= 10 {
      DecimalRoundTrip(n / 10);
      assert Decimal(n)[..|Decimal(n)| - 1] == Decimal(n / 10);
    } else {
      assert Decimal(n)[..0] == "";
    }
  }

  /** strconv.ParseInt(s, 10, 64). */
  function ParseInt64(s: string): Option<int64> {
    if s == [] then None
    else
      var neg := s[0] == '-';
      var digits := if s[0] == '-' || s[0] == '+' then s[1..] else s;
      if digits == [] || !AllDigits(digits) then None
      else
        var v: int := DigitsValue(digits);
        if neg then (if v > 0x8000_0000_0000_0000 then None else Some(-v))
        else if v >= 0x8000_0000_0000_0000 then None
        else Some(v)
  }

  /** One side of the dash: -1 when it is empty. */
  function ParsePosition(s: string): Result<int64> {
    if s == [] then Ok(-1)
    else if s[0] == '+' then Error(Malformed)
    else
      match ParseInt64(s)
      case None => Error(Malformed)
      case Some(v) => if v < 0 then Error(Malformed) else Ok(v)
  }

  function IndexOf(s: string, c: char): (r: int)
    ensures r == -1 <==> c !in s
    ensures r != -1 ==> 0 <= r < |s| && s[r] == c && c !in s[..r]
  {
    if s == [] then -1
    else if s[0] == c then 0
    else
      var r := IndexOf(s[1..], c);
      assert s == [s[0]] + s[1..];
      assert r != -1 ==> s[..r + 1] == [s[0]] + s[1..][..r];
      if r == -1 then -1 else r + 1
  }

  lemma {:induction false} IndexOfFirst(a: string, c: char, b: string)
    requires c !in a
    ensures IndexOf(a + [c] + b, c) == |a|
  {
    if a != [] {
      assert (a + [c] + b)[1..] == a[1..] + [c] + b;
      IndexOfFirst(a[1..], c, b);
    }
  }

  const PREFIX := "bytes="

  function ParseRange(rangeString: string): Result<Spec> {
    if !(PREFIX <= rangeString) then Error(Malformed)
    else
      var byteRange := rangeString[|PREFIX|..];
      var sep := IndexOf(byteRange, '-');
      if sep == -1 then Error(Malformed)
      else
        Combine(ParsePosition(byteRange[..sep]), ParsePosition(byteRange[sep + 1..]))
  }

  /** The case analysis on the two sides of the dash. */
  function Combine(first: Result<int64>, last: Result<int64>): Result<Spec> {
    if first.Error? then Error(first.error)
    else if last.Error? then Error(last.error)
    else
      var begin, end := first.value, last.value;
      if begin > -1 && end > -1 then
        if begin > end then Error(InvalidRange) else Ok(Spec(false, begin, end))
      else if begin > -1 then Ok(Spec(false, begin, -1))
      else if end > -1 then
        if end == 0 then Error(InvalidRange) else Ok(Spec(true, -(end as int), -1))
      else Error(Malformed)
  }

  lemma ParsedIsWellFormed(rangeString: string)
    ensures ParseRange(rangeString).Ok? ==> WellFormed(ParseRange(rangeString).value)
  {
  }

  /** A byte position of RFC 7233 (one or more digits) that fits an int64. */
  predicate IsPosition(s: string) {
    s != [] && AllDigits(s) && DigitsValue(s) < 0x8000_0000_0000_0000
  }

  /** A minus sign followed by zeros, which ParseInt reads as 0. */
  predicate IsSignedZero(s: string) {
    |s| > 1 && s[0] == '-' && AllDigits(s[1..]) && DigitsValue(s[1..]) == 0
  }

  function PositionValue(s: string): int
    requires s == [] || IsPosition(s) || IsSignedZero(s)
  {
    if s == [] then -1 else if IsPosition(s) then DigitsValue(s) else 0
  }

  lemma ParsePositionExact(s: string)
    ensures ParsePosition(s).Ok? <==> s == [] || IsPosition(s) || IsSignedZero(s)
    ensures ParsePosition(s).Ok? ==> ParsePosition(s).value == PositionValue(s)
  {
  }

  lemma ParseRangeSplits(first: string, last: string)
    requires '-' !in first
    ensures ParseRange(PREFIX + first + "-" + last) == Combine(ParsePosition(first), ParsePosition(last))
  {
    hide ParsePosition, Combine;
    var s := PREFIX + first + "-" + last;
    var byteRange := first + ['-'] + last;
    assert s == PREFIX + byteRange;
    assert s[|PREFIX|..] == byteRange;
    IndexOfFirst(first, '-', last);
    assert byteRange[..|first|] == first && byteRange[|first| + 1..] == last;
  }

  /** What is accepted has the prefix and a dash. */
  lemma ParsedShape(s: string) returns (first: string, last: string)
    requires ParseRange(s).Ok?
    ensures '-' !in first && s == PREFIX + first + "-" + last
  {
    hide Combine, ParsePosition, IndexOf;
    var byteRange := s[|PREFIX|..];
    var sep := IndexOf(byteRange, '-');
    assert s == PREFIX + byteRange;
    first, last := byteRange[..sep], byteRange[sep + 1..];
    assert byteRange == first + ['-'] + last;
  }

  /** What the two sides of the dash must be, and the range they denote. */
  lemma ParseRangeExact(first: string, last: string)
    requires '-' !in first
    ensures var r := ParseRange(PREFIX + first + "-" + last);
            r.Ok? <==>
              && (first == [] || IsPosition(first))
              && (last == [] || IsPosition(last) || IsSignedZero(last))
              && (first == [] ==> last != [] && PositionValue(last) > 0)
              && (first != [] && last != [] ==> DigitsValue(first) <= PositionValue(last))
    ensures var r := ParseRange(PREFIX + first + "-" + last);
            r.Ok? ==> r.value == if first == [] then Spec(true, -PositionValue(last), -1)
                                 else Spec(false, DigitsValue(first), PositionValue(last))
  {
    ParseRangeSplits(first, last);
    ParsePositionExact(first);
    ParsePositionExact(last);
    hide ParseRange, ParsePosition;
  }

  /** Which strings are refused, and that only a range whose positions are right and that selects nothing of any
      resource counts as an invalid range. */
  lemma RefusedExactly(first: string, last: string)
    requires '-' !in first
    ensures var r := ParseRange(PREFIX + first + "-" + last);
            r == Error(InvalidRange) <==>
              if first == [] then last != [] && (IsPosition(last) || IsSignedZero(last)) && PositionValue(last) == 0
              else IsPosition(first) && (IsPosition(last) || IsSignedZero(last)) && PositionValue(last) < DigitsValue(first)
    ensures var r := ParseRange(PREFIX + first + "-" + last); r.Error? ==> r.error in {InvalidRange, Malformed}
  {
    ParseRangeSplits(first, last);
    ParsePositionExact(first);
    ParsePositionExact(last);
    PositionErrors(first);
    PositionErrors(last);
    hide ParseRange, ParsePosition;
  }

  lemma PositionErrors(s: string)
    ensures ParsePosition(s).Error? ==> ParsePosition(s).error == Malformed
  {
  }

  /** Without the prefix or a dash a string is malformed. */
  lemma ShapelessIsMalformed(s: string)
    ensures !(PREFIX <= s && '-' in s[|PREFIX|..]) ==> ParseRange(s) == Error(Malformed)
  {
    hide Combine, ParsePosition, IndexOf;
  }

  lemma {:induction false} NoDash(s: string)
    requires AllDigits(s)
    ensures '-' !in s
  {
    if s != "" {
      assert !IsDigit('-');
    }
  }

  /** The three usual forms, written with decimal numbers: a start and an end, a start, and the length of a suffix. */
  lemma WrittenRange(i: int64, j: int64)
    requires 0 <= i && 0 <= j
    ensures ParseRange(PREFIX + Decimal(i) + "-" + Decimal(j)) == if i <= j then Ok(Spec(false, i, j)) else Error(InvalidRange)
  {
    hide ParseRange, DigitsValue, AllDigits, Decimal, ParsePosition;
    DecimalRoundTrip(i);
    NoDash(Decimal(i));
    PositionWritten(i);
    PositionWritten(j);
    ParseRangeSplits(Decimal(i), Decimal(j));
  }

  lemma WrittenStart(i: int64)
    requires 0 <= i
    ensures ParseRange(PREFIX + Decimal(i) + "-" + "") == Ok(Spec(false, i, -1))
  {
    hide ParseRange, DigitsValue, AllDigits, Decimal, ParsePosition;
    DecimalRoundTrip(i);
    NoDash(Decimal(i));
    PositionWritten(i);
    ParseRangeSplits(Decimal(i), "");
  }

  lemma WrittenSuffix(j: int64)
    requires 0 <= j
    ensures ParseRange(PREFIX + "" + "-" + Decimal(j)) == if j > 0 then Ok(Spec(true, 0 - j, -1)) else Error(InvalidRange)
  {
    hide ParseRange, DigitsValue, AllDigits, Decimal, ParsePosition;
    PositionWritten(j);
    ParseRangeSplits("", Decimal(j));
  }

  lemma PositionWritten(i: nat)
    requires i < 0x8000_0000_0000_0000
    ensures ParsePosition(Decimal(i)) == Ok(i) && ParsePosition("") == Ok(-1)
  {
    hide ParsePosition, DigitsValue, AllDigits, Decimal;
    DecimalRoundTrip(i);
    ParsePositionExact(Decimal(i));
    ParsePositionExact("");
  }

  predicate IsNumber(s: string) {
    s != [] && AllDigits(s)
  }

  /** A single range of section 2.1 of RFC 7233: a start with an optional end that is not smaller, or the
      length of a suffix. */
  predicate RfcRange(first: string, last: string) {
    if first == [] then IsNumber(last)
    else IsNumber(first) && (last == [] || (IsNumber(last) && DigitsValue(first) <= DigitsValue(last)))
  }

  /** Accepted are the single ranges of RFC 7233 whose positions are below 2^63 and that are not the empty
      suffix, and besides them the range of byte 0 with its end written as a minus sign and zeros. */
  lemma AcceptedExactly(first: string, last: string)
    requires '-' !in first
    ensures ParseRange(PREFIX + first + "-" + last).Ok? <==>
              || (RfcRange(first, last)
                  && (first == [] || IsPosition(first)) && (last == [] || IsPosition(last))
                  && (first == [] ==> DigitsValue(last) > 0))
              || (IsPosition(first) && DigitsValue(first) == 0 && IsSignedZero(last))
  {
    ParseRangeExact(first, last);
    hide ParseRange;
    assert IsSignedZero(last) ==> !AllDigits(last) by {
      assert IsSignedZero(last) ==> !IsDigit(last[0]);
    }
  }

  /** Sets of ranges, which RFC 7233 separates by commas, are refused. */
  lemma SingleRangesOnly(s: string)
    requires ParseRange(s).Ok?
    ensures ',' !in s
  {
    hide ParseRange, DigitsValue;
    var first, last := ParsedShape(s);
    ParseRangeExact(first, last);
    hide ParseRange;
    assert ',' !in last by {
      if IsSignedZero(last) {
        assert last == [last[0]] + last[1..];
      }
    }
  }

  /** Such a range is accepted although it is none of RFC 7233. */
  lemma SignedZeroAccepted()
    ensures ParseRange("bytes=0--0") == Ok(Spec(false, 0, 0))
  {
    assert DigitsValue("") == 0;
    assert "0"[..0] == "" && DigitsValue("0") == 0;
    assert "-0"[1..] == "0";
    ParseRangeExact("0", "-0");
    assert PREFIX + "0" + "-" + "-0" == "bytes=0--0";
  }
}
