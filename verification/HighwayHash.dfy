/** pkg/highwayhash: the incremental digest, the one-shot sums and the packing of the last partial block. */
module HighwayHash {
  import opened Bytes
  import opened BlockFold

  const SIZE: nat := 32

  /** The arithmetic on the 16-word state: key setup, one block, the length mixed in before the last block,
      and the final permutation. */
  datatype Core<!S> = Core(
    init: seq<byte> -> S,
    round: (S, seq<byte>) -> S,
    mix: (S, nat) -> S,
    finish: (S, nat) -> seq<byte>)

  /** The last block for a message tail of 1 to 31 bytes: its whole words at the front, and its last bytes
      either at the end or in the fifth word. */
  function LastBlock(tail: seq<byte>): (block: seq<byte>)
    requires 0 < |tail| < SIZE
    ensures |block| == SIZE
  {
    var n := |tail|;
    var mod4 := n % 4;
    var remain := n - mod4;
    if n >= 28 then tail[..28] + tail[n - 4..]
    else if n >= 16 then tail[..remain] + Zeros(28 - remain) + tail[n - 4..]
    else if mod4 != 0 then
      tail[..remain] + Zeros(16 - remain) + [tail[remain], tail[remain + mod4 / 2], tail[n - 1], 0] + Zeros(12)
    else tail + Zeros(SIZE - n)
  }

  /** Given its length, the tail can be read off the last block: no two tails are packed alike. */
  lemma LastBlockInjective(s: seq<byte>, t: seq<byte>)
    requires 0 < |s| == |t| < SIZE && LastBlock(s) == LastBlock(t)
    ensures s == t
  {
    hide Zeros;
    var n := |s|;
    var mod4 := n % 4;
    var remain := n - mod4;
    assert s == s[..remain] + s[remain..] && t == t[..remain] + t[remain..];
    SameFront(s, t, remain);
    if n >= 16 {
      SameEnd(s, t);
      assert s[remain..] == s[n - 4..][4 - mod4..] && t[remain..] == t[n - 4..][4 - mod4..];
    } else {
      SameFifth(s, t, remain);
    }
  }

  lemma SameFront(s: seq<byte>, t: seq<byte>, remain: nat)
    requires 0 < |s| == |t| < SIZE && LastBlock(s) == LastBlock(t) && remain == |s| - |s| % 4
    ensures s[..remain] == t[..remain]
  {
    hide Zeros;
    assert LastBlock(s)[..remain] == s[..remain] && LastBlock(t)[..remain] == t[..remain];
  }

  lemma SameEnd(s: seq<byte>, t: seq<byte>)
    requires 16 <= |s| == |t| < SIZE && LastBlock(s) == LastBlock(t)
    ensures s[|s| - 4..] == t[|t| - 4..]
  {
    hide Zeros;
    assert LastBlock(s)[28..] == s[|s| - 4..] && LastBlock(t)[28..] == t[|t| - 4..];
  }

  lemma SameFifth(s: seq<byte>, t: seq<byte>, remain: nat)
    requires 0 < |s| == |t| < 16 && LastBlock(s) == LastBlock(t) && remain == |s| - |s| % 4
    ensures s[remain..] == t[remain..]
  {
    hide Zeros;
    var n := |s|;
    var mod4 := n % 4;
    if mod4 != 0 {
      var b, c := LastBlock(s), LastBlock(t);
      assert b[16] == s[remain] && b[17] == s[remain + mod4 / 2] && b[18] == s[n - 1];
      assert c[16] == t[remain] && c[17] == t[remain + mod4 / 2] && c[18] == t[n - 1];
    }
  }

  /** What hashBuffer does to the state, by the tail alone. */
  function Tail<S(!new)>(core: Core<S>, s: S, tail: seq<byte>): S
    requires |tail| < SIZE
  {
    if tail == [] then s else core.round(core.mix(s, |tail|), LastBlock(tail))
  }

  /** The hash of a message. */
  function Hash<S(!new)>(core: Core<S>, key: seq<byte>, data: seq<byte>, size: nat): seq<byte> {
    var k := |data| - |data| % SIZE;
    core.finish(Tail(core, Fold(core.round, SIZE, core.init(key), data[..k]), data[k..]), size)
  }

  // ----- the calls a message makes

  datatype Call = Init(key: seq<byte>) | Round(block: seq<byte>) | Mix(n: nat)

  function Rounds(blocks: seq<seq<byte>>): (calls: seq<Call>)
    ensures |calls| == |blocks| && forall i :: 0 <= i < |blocks| ==> calls[i] == Round(blocks[i])
  {
    seq(|blocks|, i requires 0 <= i < |blocks| => Round(blocks[i]))
  }

  function TailCalls(tail: seq<byte>): seq<Call>
    requires |tail| < SIZE
  {
    if tail == [] then [] else [Mix(|tail|), Round(LastBlock(tail))]
  }

  /** Key setup, a round for every whole block, and for a partial one its length and then a round for its packing. */
  function Calls(key: seq<byte>, blocks: seq<seq<byte>>, tail: seq<byte>): seq<Call>
    requires |tail| < SIZE
  {
    [Init(key)] + Rounds(blocks) + TailCalls(tail)
  }

  /** The calls of a message. */
  ghost predicate Makes(key: seq<byte>, data: seq<byte>, calls: seq<Call>) {
    exists blocks, tail ::
      AllOf(SIZE, blocks) && |tail| < SIZE && data == Flatten(blocks) + tail && calls == Calls(key, blocks, tail)
  }

  function PerformOne<S>(core: Core<S>, s: S, call: Call): S {
    match call
    case Init(key) => core.init(key)
    case Round(block) => core.round(s, block)
    case Mix(n) => core.mix(s, n)
  }

  function Perform<S>(core: Core<S>, s: S, calls: seq<Call>): S {
    if calls == [] then s else Perform(core, PerformOne(core, s, calls[0]), calls[1..])
  }

  lemma PerformNext<S(!new)>(core: Core<S>, s: S, call: Call, calls: seq<Call>)
    ensures Perform(core, s, [call] + calls) == Perform(core, PerformOne(core, s, call), calls)
    ensures Perform(core, s, []) == s
  {
    assert ([call] + calls)[1..] == calls;
  }

  lemma {:induction false} PerformRounds<S(!new)>(core: Core<S>, s: S, blocks: seq<seq<byte>>, more: seq<Call>)
    ensures Perform(core, s, Rounds(blocks) + more) == Perform(core, Replay(core.round, s, blocks), more)
    decreases |blocks|
  {
    hide Perform;
    if blocks == [] {
      assert Rounds(blocks) + more == more;
    } else {
      assert Rounds(blocks) + more == [Round(blocks[0])] + (Rounds(blocks[1..]) + more);
      PerformNext(core, s, Round(blocks[0]), Rounds(blocks[1..]) + more);
      PerformRounds(core, core.round(s, blocks[0]), blocks[1..], more);
    }
  }

  lemma PerformTail<S(!new)>(core: Core<S>, s: S, tail: seq<byte>)
    requires |tail| < SIZE
    ensures Perform(core, s, TailCalls(tail)) == Tail(core, s, tail)
  {
    hide LastBlock, Perform;
    PerformNext(core, s, Mix(|tail|), []);
    if tail != [] {
      var last := Round(LastBlock(tail));
      assert TailCalls(tail) == [Mix(|tail|)] + ([last] + []);
      PerformNext(core, s, Mix(|tail|), [last] + []);
      PerformNext(core, core.mix(s, |tail|), last, []);
      PerformNext(core, core.round(core.mix(s, |tail|), LastBlock(tail)), last, []);
    }
  }

  lemma HashParts<S(!new)>(core: Core<S>, key: seq<byte>, whole: seq<byte>, tail: seq<byte>, size: nat)
    requires |whole| % SIZE == 0 && |tail| < SIZE
    ensures Hash(core, key, whole + tail, size)
         == core.finish(Tail(core, Fold(core.round, SIZE, core.init(key), whole), tail), size)
  {
    hide Hash, Tail, Fold;
    var data := whole + tail;
    WholeAndTail(data, whole, tail);
    HashAt(core, key, data, size, whole, tail);
  }

  lemma HashAt<S(!new)>(core: Core<S>, key: seq<byte>, data: seq<byte>, size: nat, whole: seq<byte>, tail: seq<byte>)
    requires var k := |data| - |data| % SIZE; whole == data[..k] && tail == data[k..]
    ensures Hash(core, key, data, size)
         == core.finish(Tail(core, Fold(core.round, SIZE, core.init(key), whole), tail), size)
  {
    hide Tail, Fold;
  }

  lemma WholeAndTail(data: seq<byte>, whole: seq<byte>, tail: seq<byte>)
    requires data == whole + tail && |whole| % SIZE == 0 && |tail| < SIZE
    ensures var k := |data| - |data| % SIZE; whole == data[..k] && tail == data[k..]
  {
    assert |data| - |data| % SIZE == |whole|;
  }

  lemma CallsPerform<S(!new)>(core: Core<S>, key: seq<byte>, blocks: seq<seq<byte>>, tail: seq<byte>, s: S)
    requires AllOf(SIZE, blocks) && |tail| < SIZE
    ensures Perform(core, s, Calls(key, blocks, tail))
         == Tail(core, Fold(core.round, SIZE, core.init(key), Flatten(blocks)), tail)
  {
    hide Tail, Fold, Perform, TailCalls, AllOf;
    assert Calls(key, blocks, tail) == [Init(key)] + (Rounds(blocks) + TailCalls(tail));
    PerformNext(core, s, Init(key), Rounds(blocks) + TailCalls(tail));
    PerformRounds(core, core.init(key), blocks, TailCalls(tail));
    FoldIsReplay(core.round, SIZE, core.init(key), blocks, []);
    assert Flatten(blocks) + [] == Flatten(blocks);
    PerformTail(core, Replay(core.round, core.init(key), blocks), tail);
  }

  /** Every message makes a sequence of calls, and its hash is what these leave, whatever the core and its
      state before. */
  lemma HashPerforms<S(!new)>(core: Core<S>, key: seq<byte>, data: seq<byte>, size: nat, s: S) returns (calls: seq<Call>)
    ensures Makes(key, data, calls)
    ensures Hash(core, key, data, size) == core.finish(Perform(core, s, calls), size)
  {
    hide Hash, Perform, Tail, Fold, Calls, AllOf;
    var blocks, tail := CutBlocks(SIZE, data);
    calls := Calls(key, blocks, tail);
    FlattenSize(SIZE, blocks);
    HashParts(core, key, Flatten(blocks), tail, size);
    CallsPerform(core, key, blocks, tail, s);
  }

  /** Different messages make different calls, and so do different keys. */
  lemma CallsInjective(key: seq<byte>, data: seq<byte>, key': seq<byte>, data': seq<byte>, calls: seq<Call>)
    requires Makes(key, data, calls) && Makes(key', data', calls)
    ensures key == key' && data == data'
  {
    hide LastBlock, Calls, AllOf, Rounds;
    var blocks, tail :| AllOf(SIZE, blocks) && |tail| < SIZE && data == Flatten(blocks) + tail && calls == Calls(key, blocks, tail);
    var blocks', tail' :| AllOf(SIZE, blocks') && |tail'| < SIZE && data' == Flatten(blocks') + tail' && calls == Calls(key', blocks', tail');
    Ending(key, blocks, tail, calls);
    Ending(key', blocks', tail', calls);
    if tail != [] {
      LastBlockInjective(tail, tail');
    }
    SameBlocks(blocks, blocks', calls);
  }

  lemma SameBlocks(a: seq<seq<byte>>, b: seq<seq<byte>>, calls: seq<Call>)
    requires |a| == |b| < |calls|
    requires forall i :: 0 <= i < |a| ==> calls[1 + i] == Round(a[i]) && calls[1 + i] == Round(b[i])
    ensures a == b
  {
  }

  /** The calls show the number of blocks, the blocks and the tail. */
  lemma Ending(key: seq<byte>, blocks: seq<seq<byte>>, tail: seq<byte>, calls: seq<Call>)
    requires |tail| < SIZE && calls == Calls(key, blocks, tail)
    ensures |calls| == 1 + |blocks| + (if tail == [] then 0 else 2) && calls[0] == Init(key)
    ensures tail == [] <==> |calls| < 2 || !calls[|calls| - 2].Mix?
    ensures tail != [] ==> calls[|calls| - 2] == Mix(|tail|) && calls[|calls| - 1] == Round(LastBlock(tail))
    ensures forall i :: 0 <= i < |blocks| ==> calls[1 + i] == Round(blocks[i])
  {
    hide LastBlock, Rounds, TailCalls;
    var front := [Init(key)] + Rounds(blocks);
    RoundsAre(blocks);
    TailCallsAre(tail);
    Behind(front, TailCalls(tail));
  }

  lemma Behind(front: seq<Call>, more: seq<Call>)
    ensures forall i :: 0 <= i < |front| ==> (front + more)[i] == front[i]
    ensures forall i :: 0 <= i < |more| ==> (front + more)[|front| + i] == more[i]
  {
  }

  lemma RoundsAre(blocks: seq<seq<byte>>)
    ensures |Rounds(blocks)| == |blocks|
    ensures forall i :: 0 <= i < |blocks| ==> Rounds(blocks)[i] == Round(blocks[i])
  {
  }

  lemma TailCallsAre(tail: seq<byte>)
    requires |tail| < SIZE
    ensures |TailCalls(tail)| == if tail == [] then 0 else 2
    ensures tail != [] ==> TailCalls(tail)[0] == Mix(|tail|) && TailCalls(tail)[1] == Round(LastBlock(tail))
  {
  }

  /** Writing into the zeros behind t. */
  lemma SpliceZeros(t: seq<byte>, n: nat, at: nat, u: seq<byte>)
    requires |t| <= at && at + |u| <= n
    ensures Splice(t + Zeros(n - |t|), at, u) == t + Zeros(at - |t|) + u + Zeros(n - at - |u|)
  {
    var l, r := Splice(t + Zeros(n - |t|), at, u), t + Zeros(at - |t|) + u + Zeros(n - at - |u|);
    assert |l| == |r|;
    forall i | 0 <= i < |l|
      ensures l[i] == r[i]
    {
    }
  }

  /** The last block as the copies build it up. */
  lemma PackFront(tail: seq<byte>)
    requires 0 < |tail| < SIZE
    ensures var n := |tail|; var mod4 := n % 4; var remain := n - mod4;
            var front := Splice(Zeros(SIZE), 0, tail[..remain]);
            LastBlock(tail) == if n >= 16 then Splice(front, 28, tail[n - 4..])
                               else if mod4 != 0 then
                                 Splice(front, 16, [tail[remain], tail[remain + mod4 / 2], tail[n - 1], 0])
                               else front
  {
    hide Splice, LastBlock, Zeros;
    var n := |tail|;
    var remain := n - n % 4;
    FrontIs(tail[..remain]);
    if n >= 16 {
      PackEnd(tail, remain);
    } else if n % 4 != 0 {
      PackFifth(tail, remain);
    } else {
      PackWhole(tail);
    }
  }

  lemma FrontIs(t: seq<byte>)
    requires |t| <= SIZE
    ensures Splice(Zeros(SIZE), 0, t) == t + Zeros(SIZE - |t|)
  {
    assert Zeros(SIZE)[|t|..] == Zeros(SIZE - |t|);
    assert Zeros(SIZE)[..0] == [];
  }

  lemma PackEnd(tail: seq<byte>, remain: nat)
    requires 16 <= |tail| < SIZE && remain == |tail| - |tail| % 4
    ensures LastBlock(tail) == Splice(tail[..remain] + Zeros(SIZE - remain), 28, tail[|tail| - 4..])
  {
    hide Splice, Zeros;
    var t, u := tail[..remain], tail[|tail| - 4..];
    SpliceZeros(t, SIZE, 28, u);
    NothingBehind(t);
    NothingBehind(t + Zeros(28 - remain) + u);
  }

  lemma PackFifth(tail: seq<byte>, remain: nat)
    requires 0 < |tail| < 16 && |tail| % 4 != 0 && remain == |tail| - |tail| % 4
    ensures LastBlock(tail) == Splice(tail[..remain] + Zeros(SIZE - remain), 16,
                                      [tail[remain], tail[remain + |tail| % 4 / 2], tail[|tail| - 1], 0])
  {
    hide Splice, Zeros;
    SpliceZeros(tail[..remain], SIZE, 16, [tail[remain], tail[remain + |tail| % 4 / 2], tail[|tail| - 1], 0]);
  }

  lemma PackWhole(tail: seq<byte>)
    requires 0 < |tail| < 16 && |tail| % 4 == 0
    ensures LastBlock(tail) == tail[..|tail|] + Zeros(SIZE - |tail|)
  {
    hide Splice, Zeros;
    assert tail[..|tail|] == tail;
  }

  lemma NothingBehind(t: seq<byte>)
    ensures t + Zeros(0) == t
  {
  }

  /** hashBuffer: it reads the first `offset` bytes of the buffer and no other. */
  method HashBuffer<S(!new)>(core: Core<S>, state: S, buffer: array<byte>, offset: nat) returns (after: S)
    requires buffer.Length == SIZE && 0 < offset < SIZE
    ensures after == Tail(core, state, buffer[..offset])
  {
    hide LastBlock, Splice;
    var block := new byte[SIZE](_ => 0);
    var mixed := core.mix(state, offset);
    var mod4 := offset % 4;
    var remain := offset - mod4;
    ghost var tail := buffer[..offset];
    assert buffer[..remain] == tail[..remain];
    assert block[..] == Zeros(SIZE);
    Put(block, 0, buffer[..remain]);
    PackFront(tail);
    if offset >= 16 {
      assert buffer[offset - 4..offset] == tail[offset - 4..];
      Put(block, 28, buffer[offset - 4..offset]);
    } else if mod4 != 0 {
      var last := [buffer[remain], buffer[remain + mod4 / 2], buffer[offset - 1], 0];
      Put(block, 16, last);
    }
    after := core.round(mixed, block[..]);
  }

  class Digest<S(!new)> {
    const core: Core<S>
    const key: seq<byte>
    const size: nat
    const buffer: array<byte>
    var state: S
    var offset: nat
    /** All that was written. */
    ghost var data: seq<byte>

    constructor (core: Core<S>, key: seq<byte>, size: nat)
      ensures Valid() && data == [] && this.core == core && this.key == key && this.size == size && fresh(buffer)
    {
      hide Absorbed;
      this.core, this.key, this.size := core, key, size;
      buffer := new byte[SIZE];
      state, offset, data := core.init(key), 0, [];
      new;
      AbsorbedNothing(core.round, SIZE, core.init(key));
      assert buffer[..0] == [];
    }

    ghost predicate Valid()
      reads this, buffer
    {
      && buffer.Length == SIZE && offset < SIZE
      && Absorbed(core.round, SIZE, core.init(key), state, buffer[..offset], data)
    }

    method Reset()
      requires buffer.Length == SIZE
      modifies this
      ensures Valid() && data == []
    {
      hide Absorbed;
      AbsorbedNothing(core.round, SIZE, core.init(key));
      state, offset, data := core.init(key), 0, [];
      assert buffer[..0] == [];
    }

    /** Appends to the message. */
    method Write(p: seq<byte>) returns (n: nat)
      requires Valid()
      modifies this, buffer
      ensures Valid() && n == |p| && data == old(data) + p
    {
      hide Valid;
      n := |p|;
      var rest := p;
      if offset > 0 {
        OffsetInside();
        var remaining := SIZE - offset;
        if n < remaining {
          Buffer(p);
          return;
        }
        assert p == p[..remaining] + p[remaining..];
        FillBlock(p[..remaining]);
        rest := p[remaining..];
      }
      assert data + rest == old(data) + p;
      AbsorbRest(rest);
    }

    lemma OffsetInside()
      requires Valid()
      ensures offset < SIZE
    {
    }

    /** The part of Write behind a completed block: full blocks are absorbed and the rest is buffered. */
    method AbsorbRest(p: seq<byte>)
      requires Valid() && offset == 0
      modifies this, buffer
      ensures Valid() && data == old(data) + p
    {
      hide Valid;
      var rest := p;
      var nn := |rest| - |rest| % SIZE;
      if nn > 0 {
        assert rest == rest[..nn] + rest[nn..];
        Absorb(rest[..nn]);
        rest := rest[nn..];
      }
      assert data + rest == old(data) + p;
      if |rest| > 0 {
        Buffer(rest);
      } else {
        assert data + rest == data;
      }
    }

    /** Bytes that do not complete a block are kept. */
    method Buffer(p: seq<byte>)
      requires Valid() && offset + |p| < SIZE
      modifies this, buffer
      ensures Valid() && data == old(data) + p
    {
      hide Absorbed, Splice;
      AbsorbedMore(core.round, SIZE, core.init(key), state, buffer[..offset], data, p);
      SplicePrefix(buffer[..], offset, p);
      Put(buffer, offset, p);
      offset := offset + |p|;
      data := data + p;
    }

    /** The buffered bytes are completed to a block and absorbed. */
    method FillBlock(p: seq<byte>)
      requires Valid() && offset + |p| == SIZE
      modifies this, buffer
      ensures Valid() && offset == 0 && data == old(data) + p
    {
      hide Absorbed, Splice, Fold;
      ghost var block := buffer[..offset] + p;
      AbsorbedMore(core.round, SIZE, core.init(key), state, buffer[..offset], data, p);
      AbsorbedBlock(core.round, SIZE, core.init(key), state, block, data + p);
      SplicePrefix(buffer[..], offset, p);
      Put(buffer, offset, p);
      assert buffer[..] == block;
      state := Blocks(core.round, SIZE, state, buffer[..]);
      offset := 0;
      data := data + p;
      assert buffer[..0] == [];
    }

    method Absorb(p: seq<byte>)
      requires Valid() && offset == 0 && |p| % SIZE == 0
      modifies this
      ensures Valid() && offset == 0 && data == old(data) + p
    {
      hide Absorbed, Fold;
      assert buffer[..0] == [];
      AbsorbedBlocks(core.round, SIZE, core.init(key), state, data, p);
      state := Blocks(core.round, SIZE, state, p);
      data := data + p;
    }

    /** The hash of all that was written; the digest stays as it is. */
    method Sum(b: seq<byte>) returns (r: seq<byte>)
      requires Valid()
      ensures r == b + Hash(core, key, data, size)
    {
      hide Absorbed, Fold, LastBlock;
      AbsorbedParts(core.round, SIZE, core.init(key), state, buffer[..offset], data);
      var s := state;
      if offset > 0 {
        s := HashBuffer(core, s, buffer, offset);
      }
      r := b + core.finish(s, size);
    }
  }

  lemma FoldNothing<S(!new)>(core: Core<S>, s: S)
    ensures Fold(core.round, SIZE, s, []) == s
  {
  }

  /** The one-shot sums. */
  method SumOnce<S(!new)>(core: Core<S>, key: seq<byte>, data: seq<byte>, size: nat) returns (r: seq<byte>)
    ensures r == Hash(core, key, data, size)
  {
    hide Fold, LastBlock, Tail, Splice;
    FoldNothing(core, core.init(key));
    var state := core.init(key);
    var n := |data| - |data| % SIZE;
    var rest := data[n..];
    if n > 0 {
      state := Blocks(core.round, SIZE, state, data[..n]);
    } else {
      assert data[..n] == [];
    }
    if |rest| > 0 {
      var block := new byte[SIZE];
      PutFront(block, rest);
      state := HashBuffer(core, state, block, |rest|);
    } else {
      NoTail(core, state);
    }
    r := core.finish(state, size);
  }

  lemma NoTail<S(!new)>(core: Core<S>, s: S)
    ensures Tail(core, s, []) == s
  {
  }

  method PutFront(block: array<byte>, rest: seq<byte>)
    requires |rest| <= block.Length
    modifies block
    ensures block[..|rest|] == rest
  {
    hide Splice;
    SplicePrefix(block[..], 0, rest);
    assert block[..][..0] + rest == rest;
    Put(block, 0, rest);
  }

  /** Writing in any pieces gives the hash of the whole. */
  method HashPieces<S(!new)>(core: Core<S>, key: seq<byte>, pieces: seq<seq<byte>>, size: nat) returns (r: seq<byte>)
    ensures r == Hash(core, key, Flatten(pieces), size)
  {
    hide Digest.Valid, Hash;
    var d := new Digest(core, key, size);
    for i := 0 to |pieces|
      invariant d.Valid() && d.data == Flatten(pieces[..i]) && fresh(d) && fresh(d.buffer)
      invariant d.core == core && d.key == key && d.size == size
    {
      FlattenSnoc(pieces[..i], pieces[i]);
      assert pieces[..i + 1] == pieces[..i] + [pieces[i]];
      var _ := d.Write(pieces[i]);
    }
    assert pieces[..|pieces|] == pieces;
    r := d.Sum([]);
    assert [] + Hash(core, key, d.data, size) == Hash(core, key, d.data, size);
  }
}
