/** The lane masks of the 16-lane AVX-512 hash: for each row of blocks, which lanes still have a block. */
module LaneMask {
  const LANES: nat := 16
  const CHUNK: nat := 64

  datatype Lane = Lane(len: nat, pos: nat)

  datatype MaskRounds = MaskRounds(mask: bv64, rounds: nat)

  /** A lane number as a shift amount. */
  function Shift(c: nat): (b: bv64)
    requires c < LANES
    ensures b < 16
  {
    [0, 1, 2, 3, 4, 5, 6, 7, 8, 9, 10, 11, 12, 13, 14, 15][c]
  }

  predicate BitAt(m: bv64, c: bv64)
    requires c < 16
  {
    (m >> c) & 1 == 1
  }

  predicate Bit(m: bv64, c: nat)
    requires c < LANES
  {
    BitAt(m, Shift(c))
  }

  lemma ClearShifted(m: bv64, pos: bv64, c: bv64)
    requires pos < 16 && c < 16
    ensures BitAt(m & !(1 << pos), c) <==> BitAt(m, c) && c != pos
  {
  }

  lemma ShiftInjective(a: nat, b: nat)
    requires a < LANES && b < LANES && Shift(a) == Shift(b)
    ensures a == b
  {
  }

  function Clear(m: bv64, pos: nat): bv64
    requires pos < LANES
  {
    m & !(1 << Shift(pos))
  }

  lemma ClearBit(m: bv64, pos: nat, c: nat)
    requires pos < LANES && c < LANES
    ensures Bit(Clear(m, pos), c) <==> Bit(m, c) && c != pos
  {
    hide Shift, BitAt;
    ClearShifted(m, Shift(pos), Shift(c));
    if Shift(c) == Shift(pos) {
      ShiftInjective(c, pos);
    }
  }

  lemma AllBits()
    ensures forall c :: 0 <= c < LANES ==> Bit(0xffff, c)
  {
  }

  function Repeat(mask: bv64, n: nat): (r: seq<bv64>)
    ensures |r| == n && forall i :: 0 <= i < n ==> r[i] == mask
  {
    seq(n, i => mask)
  }

  /** Every mask as often as its rounds say. */
  function Expand(mr: seq<MaskRounds>): seq<bv64> {
    if mr == [] then [] else Expand(mr[..|mr| - 1]) + Repeat(mr[|mr| - 1].mask, mr[|mr| - 1].rounds)
  }

  lemma {:induction false} ExpandSplit(mr: seq<MaskRounds>, k: nat)
    requires k <= |mr|
    ensures Expand(mr[..k]) <= Expand(mr)
    ensures (forall i :: k <= i < |mr| ==> mr[i].rounds == 0) ==> Expand(mr[..k]) == Expand(mr)
  {
    if k < |mr| {
      ExpandSplit(mr[..|mr| - 1], k);
      assert mr[..|mr| - 1][..k] == mr[..k];
    } else {
      assert mr[..k] == mr;
    }
  }

  lemma ExpandSnoc(mr: seq<MaskRounds>, k: nat)
    requires k < |mr|
    ensures Expand(mr[..k + 1]) == Expand(mr[..k]) + Repeat(mr[k].mask, mr[k].rounds)
  {
    assert mr[..k + 1][..k] == mr[..k];
  }

  /** Row by row, lane c takes part while it has a full block left, and there is a row for every block of
      the longest lane. */
  ghost predicate Schedules(rows: seq<bv64>, lens: seq<nat>)
    requires |lens| == LANES
  {
    && (forall c :: 0 <= c < LANES ==> lens[c] / CHUNK <= |rows|)
    && (rows != [] ==> exists c :: 0 <= c < LANES && lens[c] / CHUNK == |rows|)
    && (forall r, c :: 0 <= r < |rows| && 0 <= c < LANES ==> (Bit(rows[r], c) <==> lens[c] / CHUNK > r))
  }

  ghost predicate Sorted(s: seq<Lane>) {
    forall i, j :: 0 <= i < j < |s| ==> s[i].len <= s[j].len
  }

  method Insert(sorted: seq<Lane>, lane: Lane) returns (r: seq<Lane>)
    requires Sorted(sorted)
    ensures Sorted(r) && multiset(r) == multiset(sorted) + multiset{lane}
  {
    hide Sorted;
    var k := 0;
    while k < |sorted| && sorted[k].len < lane.len
      invariant 0 <= k <= |sorted|
      invariant forall i :: 0 <= i < k ==> sorted[i].len < lane.len
    {
      k := k + 1;
    }
    Inserted(sorted, k, lane);
    r := sorted[..k] + [lane] + sorted[k..];
  }

  lemma Inserted(sorted: seq<Lane>, k: nat, lane: Lane)
    requires Sorted(sorted) && k <= |sorted|
    requires forall i :: 0 <= i < k ==> sorted[i].len < lane.len
    requires k < |sorted| ==> lane.len <= sorted[k].len
    ensures var r := sorted[..k] + [lane] + sorted[k..];
            Sorted(r) && multiset(r) == multiset(sorted) + multiset{lane}
  {
    InsertedSorted(sorted, k, lane);
    assert sorted == sorted[..k] + sorted[k..];
  }

  lemma InsertedSorted(sorted: seq<Lane>, k: nat, lane: Lane)
    requires Sorted(sorted) && k <= |sorted|
    requires forall i :: 0 <= i < k ==> sorted[i].len < lane.len
    requires k < |sorted| ==> lane.len <= sorted[k].len
    ensures Sorted(sorted[..k] + [lane] + sorted[k..])
  {
  }

  /** Sorts lanes by length; the order of equal lengths is not relied upon. */
  method SortLanes(lanes: seq<Lane>) returns (sorted: seq<Lane>)
    ensures Sorted(sorted) && multiset(sorted) == multiset(lanes)
  {
    sorted := [];
    for n := 0 to |lanes|
      invariant Sorted(sorted) && multiset(sorted) == multiset(lanes[..n])
    {
      sorted := Insert(sorted, lanes[n]);
      assert lanes[..n + 1] == lanes[..n] + [lanes[n]];
    }
    assert lanes[..|lanes|] == lanes;
  }

  ghost predicate Covers(sorted: seq<Lane>, c: nat) {
    exists j :: 0 <= j < |sorted| && sorted[j].pos == c
  }

  /** What is known when lanes sorted[..i] are done and `round` rows are scheduled. */
  ghost predicate Progress(rows: seq<bv64>, m: bv64, sorted: seq<Lane>, i: nat, lens: seq<nat>)
    requires |lens| == LANES && i <= |sorted|
  {
    && (forall j :: 0 <= j < |sorted| ==> sorted[j].pos < LANES && sorted[j].len == lens[sorted[j].pos])
    && (forall c :: 0 <= c < LANES ==> Covers(sorted, c))
    && (forall j, k :: 0 <= j < k < |sorted| ==> sorted[j].len <= sorted[k].len)
    && (forall j :: 0 <= j < i ==> sorted[j].len / CHUNK <= |rows|)
    && (rows != [] ==> exists j :: 0 <= j < i && sorted[j].len / CHUNK == |rows|)
    && (forall c :: 0 <= c < LANES ==> (Bit(m, c) <==> forall j :: 0 <= j < i ==> sorted[j].pos != c))
    && (forall r, c :: 0 <= r < |rows| && 0 <= c < LANES ==> (Bit(rows[r], c) <==> lens[c] / CHUNK > r))
  }

  /** The lanes from sorted[i] on take part in the rows up to the blocks of sorted[i]. */
  lemma ProgressRows(rows: seq<bv64>, m: bv64, sorted: seq<Lane>, i: nat, lens: seq<nat>)
    requires |lens| == LANES && i < |sorted| && Progress(rows, m, sorted, i, lens)
    ensures sorted[i].pos < LANES
    ensures var n := sorted[i].len / CHUNK;
            && (n <= |rows| ==> n == |rows|)
            && Progress(rows + Repeat(m, n - |rows|), Clear(m, sorted[i].pos), sorted, i + 1, lens)
  {
    hide Clear, Bit;
    var s := sorted[i];
    var n := s.len / CHUNK;
    var after := rows + Repeat(m, n - |rows|);
    forall c | 0 <= c < LANES
      ensures Bit(Clear(m, s.pos), c) <==> forall j :: 0 <= j < i + 1 ==> sorted[j].pos != c
    {
      ClearBit(m, s.pos, c);
    }
    forall r, c | 0 <= r < |after| && 0 <= c < LANES
      ensures Bit(after[r], c) <==> lens[c] / CHUNK > r
    {
      RowBit(rows, m, sorted, i, lens, r, c);
      assert after[r] == if r < |rows| then rows[r] else m;
    }
    assert sorted[i].len / CHUNK == |after|;
  }

  lemma RowBit(rows: seq<bv64>, m: bv64, sorted: seq<Lane>, i: nat, lens: seq<nat>, r: nat, c: nat)
    requires |lens| == LANES && i < |sorted| && Progress(rows, m, sorted, i, lens) && c < LANES
    ensures |rows| <= r < sorted[i].len / CHUNK ==> (Bit(m, c) <==> lens[c] / CHUNK > r)
  {
    hide Bit;
    if |rows| <= r < sorted[i].len / CHUNK {
      assert Covers(sorted, c);
      var k :| 0 <= k < |sorted| && sorted[k].pos == c;
      if Bit(m, c) {
        assert k >= i;
        assert sorted[i].len <= sorted[k].len;
      } else {
        var j :| 0 <= j < i && sorted[j].pos == c;
        assert sorted[j].len / CHUNK <= |rows|;
      }
    }
  }

  /** Writes the next mask with its rounds. */
  method Record(mr: array<MaskRounds>, index: nat, mask: bv64, rounds: nat)
    requires index < mr.Length
    modifies mr
    ensures Expand(mr[..index + 1]) == Expand(old(mr[..index])) + Repeat(mask, rounds)
    ensures forall k :: 0 <= k < mr.Length && k != index ==> mr[k] == old(mr[k])
  {
    hide Expand, Repeat;
    mr[index] := MaskRounds(mask, rounds);
    ExpandSnoc(mr[..], index);
    assert mr[..][..index] == mr[..index] == old(mr[..index]) && mr[..][..index + 1] == mr[..index + 1];
  }

  /** genMask. */
  method GenMask(lens: seq<nat>) returns (mr: array<MaskRounds>)
    requires |lens| == LANES
    ensures fresh(mr) && mr.Length == LANES
    ensures Schedules(Expand(mr[..]), lens)
  {
    hide Clear, Bit, Progress, Repeat, Schedules, Sorted, Expand;
    var lanes := seq(LANES, c requires 0 <= c < LANES => Lane(lens[c], c));
    var sorted := SortLanes(lanes);
    var m, round, index: nat := 0xffff, 0, 0;
    mr := new MaskRounds[LANES](_ => MaskRounds(0, 0));
    NothingExpanded();
    assert mr[..0] == [];
    SortedLanes(lens, lanes, sorted);
    ProgressStarts(sorted, lens);
    for i := 0 to LANES
      invariant index <= i
      invariant forall k :: index <= k < LANES ==> mr[k] == MaskRounds(0, 0)
      invariant round == |Expand(mr[..index])|
      invariant Progress(Expand(mr[..index]), m, sorted, i, lens)
    {
      ghost var rows := Expand(mr[..index]);
      var s := sorted[i];
      ProgressRows(rows, m, sorted, i, lens);
      assert rows + Repeat(m, 0) == rows;
      if s.len > 0 {
        if s.len / CHUNK > round {
          Record(mr, index, m, s.len / CHUNK - round);
          index := index + 1;
        }
        round := s.len / CHUNK;
      }
      m := Clear(m, s.pos);
    }
    ExpandSplit(mr[..], index);
    assert mr[..][..index] == mr[..index];
    ProgressEnds(Expand(mr[..]), m, sorted, lens);
  }

  lemma ProgressStarts(sorted: seq<Lane>, lens: seq<nat>)
    requires |lens| == LANES
    requires forall j :: 0 <= j < |sorted| ==> sorted[j].pos < LANES && sorted[j].len == lens[sorted[j].pos]
    requires forall c :: 0 <= c < LANES ==> Covers(sorted, c)
    requires forall i, j :: 0 <= i < j < |sorted| ==> sorted[i].len <= sorted[j].len
    ensures Progress([], 0xffff, sorted, 0, lens)
  {
    AllBits();
  }

  lemma ProgressEnds(rows: seq<bv64>, m: bv64, sorted: seq<Lane>, lens: seq<nat>)
    requires |lens| == LANES && Progress(rows, m, sorted, |sorted|, lens)
    ensures Schedules(rows, lens)
  {
    hide Bit;
    forall c | 0 <= c < LANES
      ensures lens[c] / CHUNK <= |rows|
    {
      assert Covers(sorted, c);
    }
  }

  lemma SortedLanes(lens: seq<nat>, lanes: seq<Lane>, sorted: seq<Lane>)
    requires |lens| == |lanes| == LANES && forall c :: 0 <= c < LANES ==> lanes[c] == Lane(lens[c], c)
    requires multiset(sorted) == multiset(lanes)
    ensures |sorted| == LANES
    ensures forall j :: 0 <= j < |sorted| ==> sorted[j].pos < LANES && sorted[j].len == lens[sorted[j].pos]
    ensures forall c :: 0 <= c < LANES ==> Covers(sorted, c)
  {
    assert |multiset(sorted)| == |multiset(lanes)|;
    forall j | 0 <= j < |sorted|
      ensures sorted[j].pos < LANES && sorted[j].len == lens[sorted[j].pos]
    {
      assert sorted[j] in multiset(lanes);
    }
    forall c | 0 <= c < LANES
      ensures Covers(sorted, c)
    {
      assert lanes[c] in multiset(sorted);
    }
  }

  method TotalRounds(mr: array<MaskRounds>) returns (size: nat)
    ensures size == |Expand(mr[..])|
  {
    hide Expand;
    size := 0;
    NothingExpanded();
    for i := 0 to mr.Length
      invariant size == |Expand(mr[..i])|
    {
      ExpandSnoc(mr[..], i);
      assert mr[..][..i] == mr[..i] && mr[..][..i + 1] == mr[..i + 1];
      size := size + mr[i].rounds;
    }
    assert mr[..mr.Length] == mr[..];
  }

  lemma NothingExpanded()
    ensures Expand([]) == []
  {
  }

  /** Writes a mask so many times. */
  method PutRounds(result: array<bv64>, index: nat, mask: bv64, rounds: nat)
    requires index + rounds <= result.Length
    modifies result
    ensures result[..index + rounds] == old(result[..index]) + Repeat(mask, rounds)
  {
    for j := 0 to rounds
      invariant result[..index + j] == old(result[..index]) + Repeat(mask, j)
    {
      result[index + j] := mask;
    }
  }

  /** expandMask. */
  method ExpandMask(mr: array<MaskRounds>) returns (result: array<bv64>)
    ensures result[..] == Expand(mr[..])
  {
    hide Expand, Repeat;
    NothingExpanded();
    var size := TotalRounds(mr);
    result := new bv64[size](_ => 0);
    var index := 0;
    for i := 0 to mr.Length
      invariant index == |Expand(mr[..i])| <= result.Length
      invariant result[..index] == Expand(mr[..i])
    {
      ExpandSnoc(mr[..], i);
      ExpandSplit(mr[..], i + 1);
      assert mr[..][..i] == mr[..i] && mr[..][..i + 1] == mr[..i + 1];
      PutRounds(result, index, mr[i].mask, mr[i].rounds);
      index := index + mr[i].rounds;
    }
    assert mr[..mr.Length] == mr[..] && result[..index] == result[..];
  }

  /** The row masks of a batch: bit c of row r is set exactly when input c has more than r full blocks. */
  method Masks(lens: seq<nat>) returns (rows: array<bv64>)
    requires |lens| == LANES
    ensures Schedules(rows[..], lens)
  {
    var mr := GenMask(lens);
    rows := ExpandMask(mr);
  }
}
