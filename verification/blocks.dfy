/** Basic-block splitting (`_bblock_create`, tcldis.py:182-230).

    The boundary scan collects the locations where blocks start and end;
    sorted starts are paired with sorted ends, the instruction list is cut
    between each pair, and finally every jump's target location is replaced
    by the index of the block that begins there. */
module Blocks {
  import opened Wrappers
  import opened Instructions

  datatype Block = Block(insts: seq<Inst>, loc: int)

  function Last<T>(s: seq<T>): T
    requires |s| > 0
  {
    s[|s| - 1]
  }

  /** The instructions of all blocks, in order. */
  function Flatten(blocks: seq<Block>): seq<Inst> {
    if |blocks| == 0 then [] else blocks[0].insts + Flatten(blocks[1..])
  }

  // ---------------------------------------------------------------------
  // Boundary scan (tcldis.py:187-207)
  // ---------------------------------------------------------------------

  /** First index at or after `j` whose instruction is located at `t`. */
  function FindLoc(insts: seq<Inst>, t: int, j: nat): (r: Result<nat>)
    decreases |insts| - j
    ensures r.Ok? ==> j <= r.value < |insts| && insts[r.value].loc == t
    ensures r.Ok? ==> forall m :: j <= m < r.value ==> insts[m].loc != t
    ensures r.Err? <==> forall m :: j <= m < |insts| ==> insts[m].loc != t
  {
    if j >= |insts| then Err(TargetNotFound(t))
    else if insts[j].loc == t then Ok(j)
    else FindLoc(insts, t, j + 1)
  }

  /** `m` is the first index after 0 whose instruction is located at `t`. */
  ghost predicate FirstAfterHead(insts: seq<Inst>, t: int, m: int) {
    && 1 <= m < |insts|
    && insts[m].loc == t
    && forall j :: 1 <= j < m ==> insts[j].loc != t
  }

  /** The `instbefore` search: the location of the instruction just before
      the first instruction after the first one that is located at `t`. */
  function InstBefore(insts: seq<Inst>, t: int): (r: Result<int>)
    ensures r.Ok? <==> exists m :: 1 <= m < |insts| && insts[m].loc == t
    ensures r.Ok? ==> exists m :: FirstAfterHead(insts, t, m) && r.value == insts[m - 1].loc
  {
    var m :- FindLoc(insts, t, 1);
    assert FirstAfterHead(insts, t, m);
    Ok(insts[m - 1].loc)
  }

  /** The scan gets past the jump at `k`: it has a target location and, when
      that location is not 0, some later instruction sits there. */
  predicate Scannable(insts: seq<Inst>, k: nat)
    requires k < |insts|
  {
    && insts[k].target.TargetLoc?
    && (insts[k].target.loc != 0 ==> InstBefore(insts, insts[k].target.loc).Ok?)
  }

  /** `x` starts a block because of the jump at `k`: it is the jump's target,
      or the location of the instruction right after the jump. */
  predicate StartsAfterJump(insts: seq<Inst>, k: nat, x: int)
    requires k < |insts|
  {
    && IsJump(insts[k])
    && insts[k].target.TargetLoc?
    && (x == insts[k].target.loc || (k + 1 < |insts| && x == insts[k + 1].loc))
  }

  /** `x` ends a block because of the jump at `k`: it is the jump itself, or
      the instruction just before a non-zero target. */
  predicate EndsAtJump(insts: seq<Inst>, k: nat, x: int)
    requires k < |insts|
  {
    && IsJump(insts[k])
    && insts[k].target.TargetLoc?
    && (x == insts[k].loc
        || (insts[k].target.loc != 0 && InstBefore(insts, insts[k].target.loc) == Ok(x)))
  }

  /** The boundary loop from index `i` on, with the sets gathered so far. */
  function ScanBounds(insts: seq<Inst>, i: nat, newstart: bool, starts: set<int>, ends: set<int>)
    : (r: Result<(set<int>, set<int>)>)
    requires i <= |insts|
    decreases |insts| - i
    ensures r.Ok? <==> forall k :: i <= k < |insts| && IsJump(insts[k]) ==> Scannable(insts, k)
    ensures r.Ok? ==> forall x :: x in r.value.0 <==>
              || x in starts
              || (newstart && i < |insts| && x == insts[i].loc)
              || exists k :: i <= k < |insts| && StartsAfterJump(insts, k, x)
    ensures r.Ok? ==> forall x :: x in r.value.1 <==>
              || x in ends
              || exists k :: i <= k < |insts| && EndsAtJump(insts, k, x)
  {
    if i == |insts| then Ok((starts, ends))
    else
      SplitFirst(insts, i);
      var inst := insts[i];
      var starts1 := if newstart then starts + {inst.loc} else starts;
      if !IsJump(inst) then ScanBounds(insts, i + 1, false, starts1, ends)
      else if !inst.target.TargetLoc? then Err(MissingTarget(inst.loc))
      else
        var t := inst.target.loc;
        var before :- if t != 0 then InstBefore(insts, t) else Ok(inst.loc);
        var ends1 := ends + {inst.loc, before};
        JumpStep(insts, i, newstart, starts, ends, before);
        ScanBounds(insts, i + 1, true, starts1 + {t}, ends1)
  }

  /** What the jump at `i` adds to the sets is what the rules attribute to it. */
  lemma JumpStep(insts: seq<Inst>, i: nat, newstart: bool, starts: set<int>, ends: set<int>, before: int)
    requires i < |insts| && IsJump(insts[i]) && insts[i].target.TargetLoc?
    requires insts[i].target.loc != 0 ==> InstBefore(insts, insts[i].target.loc) == Ok(before)
    requires insts[i].target.loc == 0 ==> before == insts[i].loc
    ensures forall x ::
              (|| x in (if newstart then starts + {insts[i].loc} else starts) + {insts[i].target.loc}
               || (i + 1 < |insts| && x == insts[i + 1].loc))
              <==>
              (|| x in starts
               || (newstart && x == insts[i].loc)
               || StartsAfterJump(insts, i, x))
    ensures forall x :: x in ends + {insts[i].loc, before} <==> x in ends || EndsAtJump(insts, i, x)
  {
  }

  /** The jumps from `i` on are the jump at `i` and those from `i + 1` on. */
  lemma SplitFirst(insts: seq<Inst>, i: nat)
    requires i < |insts|
    ensures forall x :: (exists k :: i <= k < |insts| && StartsAfterJump(insts, k, x)) <==>
              StartsAfterJump(insts, i, x) || (exists k :: i + 1 <= k < |insts| && StartsAfterJump(insts, k, x))
    ensures forall x :: (exists k :: i <= k < |insts| && EndsAtJump(insts, k, x)) <==>
              EndsAtJump(insts, i, x) || (exists k :: i + 1 <= k < |insts| && EndsAtJump(insts, k, x))
  {
  }

  /** The block-start rule: the first instruction, every jump target, and
      the instruction after every jump. */
  ghost predicate IsBlockStart(insts: seq<Inst>, x: int) {
    || (|insts| > 0 && x == insts[0].loc)
    || exists k :: 0 <= k < |insts| && StartsAfterJump(insts, k, x)
  }

  /** The block-end rule: the last instruction, every jump, and the
      instruction just before every non-zero target. */
  ghost predicate IsBlockEnd(insts: seq<Inst>, x: int) {
    || (|insts| > 0 && x == Last(insts).loc)
    || exists k :: 0 <= k < |insts| && EndsAtJump(insts, k, x)
  }

  /** The `starts` and `ends` sets. */
  function BoundarySets(insts: seq<Inst>): (r: Result<(set<int>, set<int>)>)
    ensures r.Ok? <==> |insts| > 0 && forall k :: 0 <= k < |insts| && IsJump(insts[k]) ==> Scannable(insts, k)
    ensures r.Ok? ==> forall x :: x in r.value.0 <==> IsBlockStart(insts, x)
    ensures r.Ok? ==> forall x :: x in r.value.1 <==> IsBlockEnd(insts, x)
  {
    var se :- ScanBounds(insts, 0, true, {}, {});
    if |insts| == 0 then Err(EmptyInstructionList)
    else Ok((se.0, se.1 + {Last(insts).loc}))
  }

  // ---------------------------------------------------------------------
  // Sorting a set (`sorted(list(s))`)
  // ---------------------------------------------------------------------

  predicate StrictlySorted(s: seq<int>) {
    forall i, j :: 0 <= i < j < |s| ==> s[i] < s[j]
  }

  lemma {:induction false} MinWitness(s: set<int>) returns (m: int)
    requires s != {}
    ensures m in s && forall y :: y in s ==> m <= y
    decreases |s|
  {
    if forall y :: y !in s {
      assert false;
    }
    var x :| x in s;
    if s == {x} {
      m := x;
    } else {
      var m' := MinWitness(s - {x});
      m := if x < m' then x else m';
      forall y | y in s
        ensures m <= y
      {
        if y != x {
          assert y in s - {x};
        }
      }
    }
  }

  lemma MinExists(s: set<int>)
    requires s != {}
    ensures exists m :: m in s && forall y :: y in s ==> m <= y
  {
    var m := MinWitness(s);
  }

  function SetMin(s: set<int>): (m: int)
    requires s != {}
    ensures m in s && forall y :: y in s ==> m <= y
  {
    MinExists(s);
    var m :| m in s && forall y :: y in s ==> m <= y;
    m
  }

  /** The elements of a finite set of integers in increasing order. */
  function SortedElems(s: set<int>): (r: seq<int>)
    ensures |r| == |s|
    ensures StrictlySorted(r)
    ensures forall x :: x in r <==> x in s
    decreases |s|
  {
    if s == {} then []
    else
      var m := SetMin(s);
      var rest := SortedElems(s - {m});
      assert forall i :: 0 <= i < |rest| ==> m < rest[i];
      [m] + rest
  }

  // ---------------------------------------------------------------------
  // Cutting the instruction list into blocks (tcldis.py:209-219)
  // ---------------------------------------------------------------------

  /** The `while bblocks_insts[0].loc < end` loop: the first index at or
      after `k` located at or beyond `end`. */
  function ScanTo(rest: seq<Inst>, end: int, k: nat): (r: Result<nat>)
    decreases |rest| - k
    ensures r.Ok? ==> k <= r.value < |rest| && rest[r.value].loc >= end
    ensures r.Ok? ==> forall m :: k <= m < r.value ==> rest[m].loc < end
    ensures r.Err? ==> forall m :: k <= m < |rest| ==> rest[m].loc < end
  {
    if k >= |rest| then Err(BlockMisaligned(end))
    else if rest[k].loc >= end then Ok(k)
    else ScanTo(rest, end, k + 1)
  }

  /** A block starting at `start` and ending at `end`. */
  predicate Spans(b: Block, start: int, end: int) {
    && |b.insts| > 0
    && b.loc == start == b.insts[0].loc
    && Last(b.insts).loc == end
  }

  /** Pair the sorted starts with the sorted ends and cut `rest` accordingly;
      each block must begin at its start and end exactly at its end. */
  function SliceBlocks(starts: seq<int>, ends: seq<int>, rest: seq<Inst>): (r: Result<seq<Block>>)
    requires |starts| == |ends|
    decreases |starts|
    ensures r.Ok? ==> |r.value| == |starts|
    ensures r.Ok? ==> forall m :: 0 <= m < |r.value| ==> Spans(r.value[m], starts[m], ends[m])
    ensures r.Ok? ==> |Flatten(r.value)| <= |rest| && Flatten(r.value) == rest[..|Flatten(r.value)|]
    ensures r.Ok? && |starts| > 0 ==> |Flatten(r.value)| > 0 && Last(Flatten(r.value)).loc == Last(ends)
  {
    if |starts| == 0 then Ok([])
    else if |rest| == 0 || rest[0].loc != starts[0] then Err(BlockMisaligned(starts[0]))
    else
      var k :- ScanTo(rest, ends[0], 0);
      if rest[k].loc != ends[0] then Err(BlockMisaligned(ends[0]))
      else
        var tail :- SliceBlocks(starts[1..], ends[1..], rest[k + 1..]);
        var b := Block(rest[..k + 1], rest[0].loc);
        SliceCons(starts, ends, rest, k, tail);
        Ok([b] + tail)
  }

  lemma SliceCons(starts: seq<int>, ends: seq<int>, rest: seq<Inst>, k: nat, tail: seq<Block>)
    requires |starts| == |ends| > 0 && k < |rest|
    requires rest[0].loc == starts[0] && rest[k].loc == ends[0]
    requires |tail| == |starts| - 1
    requires forall m :: 0 <= m < |tail| ==> Spans(tail[m], starts[1..][m], ends[1..][m])
    requires |Flatten(tail)| <= |rest[k + 1..]| && Flatten(tail) == rest[k + 1..][..|Flatten(tail)|]
    requires |starts| > 1 ==> |Flatten(tail)| > 0 && Last(Flatten(tail)).loc == Last(ends[1..])
    ensures var all := [Block(rest[..k + 1], rest[0].loc)] + tail;
            && (forall m :: 0 <= m < |all| ==> Spans(all[m], starts[m], ends[m]))
            && |Flatten(all)| <= |rest| && Flatten(all) == rest[..|Flatten(all)|]
            && |Flatten(all)| > 0 && Last(Flatten(all)).loc == Last(ends)
  {
    var b := Block(rest[..k + 1], rest[0].loc);
    var all := [b] + tail;
    FlattenCons(b, tail);
    assert rest[..k + 1] + rest[k + 1..][..|Flatten(tail)|] == rest[..|b.insts| + |Flatten(tail)|];
    forall m | 0 <= m < |all|
      ensures Spans(all[m], starts[m], ends[m])
    {
      if m > 0 {
        assert all[m] == tail[m - 1];
      }
    }
    if |tail| == 0 {
      assert Flatten(tail) == [];
    }
  }

  lemma FlattenCons(b: Block, tail: seq<Block>)
    ensures Flatten([b] + tail) == b.insts + Flatten(tail)
  {
    assert ([b] + tail)[1..] == tail;
  }

  /** Cutting the list at sorted starts and ends, after checking that there
      are as many of each. */
  function Partition(insts: seq<Inst>): (r: Result<seq<Block>>)
    ensures r.Ok? ==> BoundarySets(insts).Ok?
    ensures r.Ok? ==> PartitionOf(insts, BoundarySets(insts).value.0, BoundarySets(insts).value.1, r.value)
  {
    var se :- BoundarySets(insts);
    if |se.0| != |se.1| then Err(BoundaryCountMismatch)
    else
      var blocks :- SliceBlocks(SortedElems(se.0), SortedElems(se.1), insts);
      PartitionFacts(insts, se.0, se.1, blocks);
      Ok(blocks)
  }

  /** What a successful cut promises: non-empty blocks, each located at its
      first instruction, beginning at a start and ending at an end, in
      increasing order of location; every start begins some block; the
      blocks' instructions put back together are a prefix of the list and,
      when locations increase, the whole list. There are as many blocks as
      starts and as ends, and every end closes some block. */
  ghost predicate PartitionOf(insts: seq<Inst>, starts: set<int>, ends: set<int>, blocks: seq<Block>) {
    && |blocks| == |starts| == |ends|
    && EndsClose(ends, blocks)
    && BlocksBounded(starts, ends, blocks)
    && BlocksAscending(blocks)
    && StartsBegin(starts, blocks)
    && CoversPrefix(insts, blocks)
    && (Increasing(insts) ==> Flatten(blocks) == insts)
  }

  ghost predicate BlocksBounded(starts: set<int>, ends: set<int>, blocks: seq<Block>) {
    forall m :: 0 <= m < |blocks| ==>
      && |blocks[m].insts| > 0
      && blocks[m].loc == blocks[m].insts[0].loc
      && blocks[m].loc in starts
      && Last(blocks[m].insts).loc in ends
  }

  ghost predicate BlocksAscending(blocks: seq<Block>) {
    forall m, m' :: 0 <= m < m' < |blocks| ==> blocks[m].loc < blocks[m'].loc
  }

  ghost predicate StartsBegin(starts: set<int>, blocks: seq<Block>) {
    forall x :: x in starts ==> exists m :: 0 <= m < |blocks| && blocks[m].loc == x
  }

  ghost predicate EndsClose(ends: set<int>, blocks: seq<Block>) {
    forall x :: x in ends ==> exists m :: 0 <= m < |blocks| && |blocks[m].insts| > 0 && Last(blocks[m].insts).loc == x
  }

  ghost predicate CoversPrefix(insts: seq<Inst>, blocks: seq<Block>) {
    |Flatten(blocks)| <= |insts| && Flatten(blocks) == insts[..|Flatten(blocks)|]
  }

  lemma PartitionFacts(insts: seq<Inst>, starts: set<int>, ends: set<int>, blocks: seq<Block>)
    requires |insts| > 0 && |starts| == |ends|
    requires insts[0].loc in starts && Last(insts).loc in ends
    requires SliceBlocks(SortedElems(starts), SortedElems(ends), insts) == Ok(blocks)
    ensures PartitionOf(insts, starts, ends, blocks)
  {
    var ss := SortedElems(starts);
    var es := SortedElems(ends);
    assert Last(insts).loc in es;
    CutCoversAll(insts, es, blocks);
    SpansPartition(insts, starts, ends, ss, es, blocks);
  }

  /** The facts of a cut along sorted starts and ends, from the spans of
      its blocks alone. */
  lemma SpansPartition(insts: seq<Inst>, starts: set<int>, ends: set<int>, ss: seq<int>, es: seq<int>, blocks: seq<Block>)
    requires |ss| == |starts| && |es| == |ends| && |blocks| == |ss| == |es|
    requires StrictlySorted(ss) && StrictlySorted(es)
    requires forall x :: x in ss <==> x in starts
    requires forall x :: x in es <==> x in ends
    requires forall m :: 0 <= m < |blocks| ==> Spans(blocks[m], ss[m], es[m])
    requires CoversPrefix(insts, blocks)
    requires Increasing(insts) ==> Flatten(blocks) == insts
    ensures PartitionOf(insts, starts, ends, blocks)
  {
    SpansBounded(starts, ends, ss, es, blocks);
    SpansAscending(ss, es, blocks);
    SpansBegin(starts, ss, es, blocks);
    SpansClose(ends, ss, es, blocks);
  }

  lemma SpansBounded(starts: set<int>, ends: set<int>, ss: seq<int>, es: seq<int>, blocks: seq<Block>)
    requires |ss| == |es| == |blocks|
    requires forall x :: x in ss <==> x in starts
    requires forall x :: x in es <==> x in ends
    requires forall m :: 0 <= m < |blocks| ==> Spans(blocks[m], ss[m], es[m])
    ensures BlocksBounded(starts, ends, blocks)
  {
    forall m | 0 <= m < |blocks|
      ensures blocks[m].loc in starts && Last(blocks[m].insts).loc in ends
    {
      assert Spans(blocks[m], ss[m], es[m]);
      assert ss[m] in ss && es[m] in es;
    }
  }

  lemma SpansAscending(ss: seq<int>, es: seq<int>, blocks: seq<Block>)
    requires |ss| == |es| == |blocks| && StrictlySorted(ss)
    requires forall m :: 0 <= m < |blocks| ==> Spans(blocks[m], ss[m], es[m])
    ensures BlocksAscending(blocks)
  {
    forall m, m' | 0 <= m < m' < |blocks|
      ensures blocks[m].loc < blocks[m'].loc
    {
      assert Spans(blocks[m], ss[m], es[m]) && Spans(blocks[m'], ss[m'], es[m']);
    }
  }

  lemma SpansBegin(starts: set<int>, ss: seq<int>, es: seq<int>, blocks: seq<Block>)
    requires |ss| == |es| == |blocks|
    requires forall x :: x in ss <==> x in starts
    requires forall m :: 0 <= m < |blocks| ==> Spans(blocks[m], ss[m], es[m])
    ensures StartsBegin(starts, blocks)
  {
    forall x | x in starts
      ensures exists m :: 0 <= m < |blocks| && blocks[m].loc == x
    {
      assert x in ss;
      var m :| 0 <= m < |ss| && ss[m] == x;
      assert Spans(blocks[m], ss[m], es[m]);
    }
  }

  lemma SpansClose(ends: set<int>, ss: seq<int>, es: seq<int>, blocks: seq<Block>)
    requires |ss| == |es| == |blocks|
    requires forall x :: x in es <==> x in ends
    requires forall m :: 0 <= m < |blocks| ==> Spans(blocks[m], ss[m], es[m])
    ensures EndsClose(ends, blocks)
  {
    forall x | x in ends
      ensures exists m :: 0 <= m < |blocks| && |blocks[m].insts| > 0 && Last(blocks[m].insts).loc == x
    {
      assert x in es;
      var m :| 0 <= m < |es| && es[m] == x;
      assert Spans(blocks[m], ss[m], es[m]);
    }
  }

  /** When locations increase and the greatest end is the last
      instruction's, the cut leaves nothing over. */
  lemma CutCoversAll(insts: seq<Inst>, ends: seq<int>, blocks: seq<Block>)
    requires |insts| > 0 && |blocks| > 0 && |ends| > 0 && StrictlySorted(ends)
    requires Last(insts).loc in ends
    requires |Flatten(blocks)| <= |insts| && Flatten(blocks) == insts[..|Flatten(blocks)|]
    requires |Flatten(blocks)| > 0 && Last(Flatten(blocks)).loc == Last(ends)
    ensures CoversPrefix(insts, blocks)
    ensures Increasing(insts) ==> Flatten(blocks) == insts
  {
  }

  // ---------------------------------------------------------------------
  // Jump fixup (tcldis.py:220-229)
  // ---------------------------------------------------------------------

  /** Index of the first block located at `t`. */
  function FindBlock(blocks: seq<Block>, t: int, b: nat): (r: Result<nat>)
    decreases |blocks| - b
    ensures r.Ok? ==> b <= r.value < |blocks| && blocks[r.value].loc == t
    ensures r.Ok? ==> forall m :: b <= m < r.value ==> blocks[m].loc != t
    ensures r.Err? <==> forall m :: b <= m < |blocks| ==> blocks[m].loc != t
  {
    if b >= |blocks| then Err(UnresolvedJump(t))
    else if blocks[b].loc == t then Ok(b)
    else FindBlock(blocks, t, b + 1)
  }

  /** A jump is resolved when its target location became the index of the
      first block located there; any other instruction is untouched. */
  ghost predicate Resolved(blocks: seq<Block>, before: Inst, after: Inst) {
    if !IsJump(before) then after == before
    else
      && before.target.TargetLoc?
      && after.target.TargetBlock?
      && after == before.(target := after.target)
      && after.target.index < |blocks|
      && blocks[after.target.index].loc == before.target.loc
      && forall m :: 0 <= m < after.target.index ==> blocks[m].loc != before.target.loc
  }

  /** A jump the fixup can resolve: it has a target location at which some
      block begins. */
  ghost predicate Resolvable(blocks: seq<Block>, inst: Inst) {
    IsJump(inst) ==>
      inst.target.TargetLoc? && exists m :: 0 <= m < |blocks| && blocks[m].loc == inst.target.loc
  }

  function FixInst(blocks: seq<Block>, inst: Inst): (r: Result<Inst>)
    ensures r.Ok? <==> Resolvable(blocks, inst)
    ensures r.Ok? ==> Resolved(blocks, inst, r.value)
  {
    if !IsJump(inst) then Ok(inst)
    else if !inst.target.TargetLoc? then Err(MissingTarget(inst.loc))
    else
      var b :- FindBlock(blocks, inst.target.loc, 0);
      Ok(inst.(target := TargetBlock(b)))
  }

  function FixInsts(blocks: seq<Block>, insts: seq<Inst>): (r: Result<seq<Inst>>)
    ensures r.Ok? <==> forall j :: 0 <= j < |insts| ==> Resolvable(blocks, insts[j])
    ensures r.Ok? ==> |r.value| == |insts|
    ensures r.Ok? ==> forall j :: 0 <= j < |insts| ==> Resolved(blocks, insts[j], r.value[j])
  {
    if |insts| == 0 then Ok([])
    else
      var first :- FixInst(blocks, insts[0]);
      var rest :- FixInsts(blocks, insts[1..]);
      assert forall j :: 1 <= j < |insts| ==> insts[j] == insts[1..][j - 1];
      Ok([first] + rest)
  }

  /** Resolve the jumps of blocks `from..` against all of `blocks`. */
  function FixBlocks(blocks: seq<Block>, from: nat): (r: Result<seq<Block>>)
    requires from <= |blocks|
    decreases |blocks| - from
    ensures r.Ok? <==> forall m, j :: from <= m < |blocks| && 0 <= j < |blocks[m].insts| ==> Resolvable(blocks, blocks[m].insts[j])
    ensures r.Ok? ==> |r.value| == |blocks| - from
    ensures r.Ok? ==> forall m :: 0 <= m < |r.value| ==>
              && r.value[m].loc == blocks[from + m].loc
              && |r.value[m].insts| == |blocks[from + m].insts|
              && forall j :: 0 <= j < |r.value[m].insts| ==> Resolved(blocks, blocks[from + m].insts[j], r.value[m].insts[j])
  {
    if from == |blocks| then Ok([])
    else
      var insts :- FixInsts(blocks, blocks[from].insts);
      var rest :- FixBlocks(blocks, from + 1);
      Ok([Block(insts, blocks[from].loc)] + rest)
  }

  /** Back from block indices to locations: the target of a resolved jump
      becomes the location of its block again. */
  function Unresolve(blocks: seq<Block>, inst: Inst): Inst {
    if IsJump(inst) && inst.target.TargetBlock? && inst.target.index < |blocks|
    then inst.(target := TargetLoc(blocks[inst.target.index].loc))
    else inst
  }

  function UnresolveAll(blocks: seq<Block>, insts: seq<Inst>): (r: seq<Inst>)
    ensures |r| == |insts|
    ensures forall j :: 0 <= j < |insts| ==> r[j] == Unresolve(blocks, insts[j])
  {
    if |insts| == 0 then [] else [Unresolve(blocks, insts[0])] + UnresolveAll(blocks, insts[1..])
  }

  /** The blocks with every jump target turned back into a location. */
  function Erase(blocks: seq<Block>): seq<Block> {
    seq(|blocks|, m requires 0 <= m < |blocks| => Block(UnresolveAll(blocks, blocks[m].insts), blocks[m].loc))
  }

  /** Erasing what the fixup resolved gives back the blocks it was given. */
  lemma EraseFixed(blocks: seq<Block>, fixed: seq<Block>)
    requires FixBlocks(blocks, 0) == Ok(fixed)
    ensures Erase(fixed) == blocks
  {
    var e := Erase(fixed);
    forall m | 0 <= m < |blocks|
      ensures e[m] == blocks[m]
    {
      var xs := UnresolveAll(fixed, fixed[m].insts);
      forall j | 0 <= j < |xs|
        ensures xs[j] == blocks[m].insts[j]
      {
        assert Resolved(blocks, blocks[m].insts[j], fixed[m].insts[j]);
      }
      assert xs == blocks[m].insts;
    }
  }

  /** `_bblock_create(insts)`: cut the list into blocks, then resolve every
      jump of the list against them, replacing its target location by the
      index of the first block located there; nothing else about the blocks
      changes. The fixup walks the whole list, so a jump left over after the
      last block still has to resolve. */
  function BlockCreate(insts: seq<Inst>): (r: Result<seq<Block>>)
    ensures r.Ok? <==>
              && Partition(insts).Ok?
              && forall j :: 0 <= j < |insts| ==> Resolvable(Partition(insts).value, insts[j])
    ensures r.Ok? ==> Erase(r.value) == Partition(insts).value
    ensures r.Ok? ==> forall m, j :: 0 <= m < |r.value| && 0 <= j < |r.value[m].insts| ==>
              Resolved(r.value, Partition(insts).value[m].insts[j], r.value[m].insts[j])
  {
    var blocks :- Partition(insts);
    var fixedList :- FixInsts(blocks, insts);
    BlockInstsResolvable(insts, blocks);
    var fixed := FixBlocks(blocks, 0).value;
    EraseFixed(blocks, fixed);
    ResolvedAgainstFixed(blocks, fixed);
    Ok(fixed)
  }

  /** Every instruction of a block is one of the list's. */
  lemma {:induction false} FlattenHas(blocks: seq<Block>, m: nat, j: nat)
    requires m < |blocks| && j < |blocks[m].insts|
    ensures blocks[m].insts[j] in Flatten(blocks)
    decreases m
  {
    FlattenCons(blocks[0], blocks[1..]);
    assert [blocks[0]] + blocks[1..] == blocks;
    if m > 0 {
      FlattenHas(blocks[1..], m - 1, j);
    }
  }

  lemma BlockInstsResolvable(insts: seq<Inst>, blocks: seq<Block>)
    requires CoversPrefix(insts, blocks)
    requires forall j :: 0 <= j < |insts| ==> Resolvable(blocks, insts[j])
    ensures forall m, j :: 0 <= m < |blocks| && 0 <= j < |blocks[m].insts| ==> Resolvable(blocks, blocks[m].insts[j])
  {
    forall m, j | 0 <= m < |blocks| && 0 <= j < |blocks[m].insts|
      ensures Resolvable(blocks, blocks[m].insts[j])
    {
      FlattenHas(blocks, m, j);
      var f := Flatten(blocks);
      var i :| 0 <= i < |f| && f[i] == blocks[m].insts[j];
      assert f[i] == insts[i];
    }
  }

  /** The fixed blocks sit where the unfixed ones did, so a jump resolved
      against the unfixed blocks is resolved against the fixed ones too. */
  lemma ResolvedAgainstFixed(blocks: seq<Block>, fixed: seq<Block>)
    requires FixBlocks(blocks, 0) == Ok(fixed)
    ensures forall m, j :: 0 <= m < |fixed| && 0 <= j < |fixed[m].insts| ==>
              Resolved(fixed, blocks[m].insts[j], fixed[m].insts[j])
  {
    forall m, j | 0 <= m < |fixed| && 0 <= j < |fixed[m].insts|
      ensures Resolved(fixed, blocks[m].insts[j], fixed[m].insts[j])
    {
      assert Resolved(blocks, blocks[m].insts[j], fixed[m].insts[j]);
    }
  }

  /** Code without jumps is a single block holding all of it. */
  lemma StraightLine(insts: seq<Inst>)
    requires |insts| > 0 && Increasing(insts)
    requires forall k :: 0 <= k < |insts| ==> !IsJump(insts[k])
    ensures BlockCreate(insts) == Ok([Block(insts, insts[0].loc)])
  {
    StraightPartition(insts);
    NoJumpsNoFix(insts);
  }

  lemma StraightPartition(insts: seq<Inst>)
    requires |insts| > 0 && Increasing(insts)
    requires forall k :: 0 <= k < |insts| ==> !IsJump(insts[k])
    ensures Partition(insts) == Ok([Block(insts, insts[0].loc)])
  {
    StraightBounds(insts);
    SortedSingleton(insts[0].loc);
    SortedSingleton(Last(insts).loc);
    StraightSlice(insts);
  }

  lemma StraightBounds(insts: seq<Inst>)
    requires |insts| > 0
    requires forall k :: 0 <= k < |insts| ==> !IsJump(insts[k])
    ensures BoundarySets(insts) == Ok(({insts[0].loc}, {Last(insts).loc}))
  {
    var se := BoundarySets(insts).value;
    assert se.0 == {insts[0].loc};
    assert se.1 == {Last(insts).loc};
  }

  lemma SortedSingleton(x: int)
    ensures SortedElems({x}) == [x]
  {
    var r := SortedElems({x});
    assert x in r;
  }

  lemma StraightSlice(insts: seq<Inst>)
    requires |insts| > 0 && Increasing(insts)
    ensures SliceBlocks([insts[0].loc], [Last(insts).loc], insts) == Ok([Block(insts, insts[0].loc)])
  {
    var last := |insts| - 1;
    var k := ScanTo(insts, Last(insts).loc, 0);
    assert k.Ok?;
    assert k.value == last;
    assert insts[..last + 1] == insts;
    var ss, es := [insts[0].loc], [Last(insts).loc];
    assert ss[1..] == [] && es[1..] == [];
    assert SliceBlocks(ss[1..], es[1..], insts[last + 1..]) == Ok([]);
    assert [Block(insts[..last + 1], insts[0].loc)] + [] == [Block(insts, insts[0].loc)];
  }

  /** Without jumps the fixup has nothing to do: the blocks are the cut. */
  lemma NoJumpsNoFix(insts: seq<Inst>)
    requires Partition(insts).Ok?
    requires forall k :: 0 <= k < |insts| ==> !IsJump(insts[k])
    ensures BlockCreate(insts) == Partition(insts)
  {
    var blocks := Partition(insts).value;
    NoJumpsInBlocks(insts, blocks);
    var r := BlockCreate(insts);
    assert r.Ok?;
    NothingToResolve(blocks, r.value);
  }

  /** Blocks without jumps come out of the fixup as they went in. */
  lemma NothingToResolve(blocks: seq<Block>, fixed: seq<Block>)
    requires Erase(fixed) == blocks
    requires forall m, j :: 0 <= m < |blocks| && 0 <= j < |blocks[m].insts| ==> !IsJump(blocks[m].insts[j])
    requires forall m, j :: 0 <= m < |fixed| && 0 <= j < |fixed[m].insts| ==>
               Resolved(fixed, blocks[m].insts[j], fixed[m].insts[j])
    ensures fixed == blocks
  {
    forall m | 0 <= m < |blocks|
      ensures fixed[m] == blocks[m]
    {
      assert Erase(fixed)[m] == blocks[m];
      forall j | 0 <= j < |blocks[m].insts|
        ensures fixed[m].insts[j] == blocks[m].insts[j]
      {
        assert Resolved(fixed, blocks[m].insts[j], fixed[m].insts[j]);
      }
    }
  }

  /** A list without jumps cuts into blocks without jumps. */
  lemma NoJumpsInBlocks(insts: seq<Inst>, blocks: seq<Block>)
    requires Partition(insts) == Ok(blocks)
    requires forall k :: 0 <= k < |insts| ==> !IsJump(insts[k])
    ensures forall m, j :: 0 <= m < |blocks| && 0 <= j < |blocks[m].insts| ==> !IsJump(blocks[m].insts[j])
  {
    forall m, j | 0 <= m < |blocks| && 0 <= j < |blocks[m].insts|
      ensures !IsJump(blocks[m].insts[j])
    {
      FlattenHas(blocks, m, j);
    }
  }
}
