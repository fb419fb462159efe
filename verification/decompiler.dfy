/** The pipeline (`decompile`, tcldis.py:297-306): decode the bytecode,
    cut it into blocks, reduce every block, and format every block.

    Compiling the Tcl text (`getbc`) belongs to the Tcl runtime; here the
    bytecode, the literal pool and the opcode table are the inputs. */
module Decompiler {
  import opened Wrappers
  import opened Operands
  import opened Instructions
  import opened Blocks
  import opened Reduction
  import opened Format

  /** A block's instructions as a block under reduction. */
  function Lift(insts: seq<Inst>): (b: seq<Node>)
    ensures |b| == |insts|
  {
    if |insts| == 0 then [] else [Raw(insts[0])] + Lift(insts[1..])
  }

  /** A fresh block holds exactly its instructions, all of them raw. */
  lemma {:induction false} LiftRaws(insts: seq<Inst>)
    ensures Raws(Lift(insts)) == insts
    ensures AllWellFormed(Lift(insts))
  {
    if |insts| > 0 {
      var l := Lift(insts);
      var tail := Lift(insts[1..]);
      assert l == [Raw(insts[0])] + tail;
      assert l[0].Raw? && l[1..] == tail;
      LiftRaws(insts[1..]);
      assert Raws(l) == [insts[0]] + Raws(tail);
      assert insts == [insts[0]] + insts[1..];
      assert forall k :: 1 <= k < |l| ==> l[k] == tail[k - 1];
    }
  }

  /** No instruction of any block makes the reducer raise. */
  ghost predicate Sound(blocks: seq<Block>, literals: seq<string>) {
    forall m, j :: 0 <= m < |blocks| && 0 <= j < |blocks[m].insts| ==> !Faulty(blocks[m].insts[j], literals)
  }

  /** `[_bblock_reduce(bblock, literals) for bblock in bblocks]`: reduce the
      blocks in order; the first exception stops the whole list. */
  function ReduceBlocks(blocks: seq<Block>, literals: seq<string>): (r: Result<seq<seq<Node>>>)
    ensures r.Ok? <==> Sound(blocks, literals)
    ensures r.Ok? ==> |r.value| == |blocks|
    ensures r.Ok? ==> forall m :: 0 <= m < |blocks| ==> Reduce(Lift(blocks[m].insts), literals) == Ok(r.value[m])
  {
    if |blocks| == 0 then Ok([])
    else
      ReduceLiftOk(blocks[0].insts, literals);
      SoundCons(blocks, literals);
      var first :- Reduce(Lift(blocks[0].insts), literals);
      var rest :- ReduceBlocks(blocks[1..], literals);
      assert forall m :: 1 <= m < |blocks| ==> blocks[m] == blocks[1..][m - 1];
      Ok([first] + rest)
  }

  /** A fresh block reduces exactly when none of its instructions is
      faulty. */
  lemma ReduceLiftOk(insts: seq<Inst>, literals: seq<string>)
    ensures Reduce(Lift(insts), literals).Ok? <==> forall j :: 0 <= j < |insts| ==> !Faulty(insts[j], literals)
  {
    LiftRaws(insts);
  }

  /** A list of blocks is sound exactly when its first block and the rest
      are. */
  lemma SoundCons(blocks: seq<Block>, literals: seq<string>)
    requires |blocks| > 0
    ensures Sound(blocks, literals) <==>
              && (forall j :: 0 <= j < |blocks[0].insts| ==> !Faulty(blocks[0].insts[j], literals))
              && Sound(blocks[1..], literals)
  {
    assert forall m :: 1 <= m < |blocks| ==> blocks[m] == blocks[1..][m - 1];
    if (forall j :: 0 <= j < |blocks[0].insts| ==> !Faulty(blocks[0].insts[j], literals)) && Sound(blocks[1..], literals) {
      forall m, j | 0 <= m < |blocks| && 0 <= j < |blocks[m].insts|
        ensures !Faulty(blocks[m].insts[j], literals)
      {
        if m > 0 {
          assert blocks[m] == blocks[1..][m - 1];
        }
      }
    }
  }

  /** Every reduced block is settled and well formed, holds no push, shows
      a subsequence of its block's instructions, and keeps its block's net
      stack effect. */
  lemma ReducedBlocks(blocks: seq<Block>, literals: seq<string>)
    requires ReduceBlocks(blocks, literals).Ok?
    ensures forall m :: 0 <= m < |blocks| ==>
              var b := ReduceBlocks(blocks, literals).value[m];
              && Settled(b, literals)
              && AllWellFormed(b)
              && (forall k :: 0 <= k < |b| && b[k].Raw? ==> !IsPush(b[k].inst))
              && SubSeq(Raws(b), blocks[m].insts)
              && Effects(b) == Effects(Lift(blocks[m].insts))
  {
    forall m | 0 <= m < |blocks|
      ensures var b := ReduceBlocks(blocks, literals).value[m];
              && Settled(b, literals)
              && AllWellFormed(b)
              && (forall k :: 0 <= k < |b| && b[k].Raw? ==> !IsPush(b[k].inst))
              && SubSeq(Raws(b), blocks[m].insts)
              && Effects(b) == Effects(Lift(blocks[m].insts))
    {
      LiftRaws(blocks[m].insts);
    }
  }

  /** `[_bblock_format(bblock) for bblock in bblocks]` */
  function FormatBlocks(bs: seq<seq<Node>>): seq<seq<Line>>
    requires forall m :: 0 <= m < |bs| ==> AllWellFormed(bs[m])
  {
    seq(|bs|, m requires 0 <= m < |bs| => FormatBlock(bs[m]))
  }

  /** `decompile`: the formatted blocks of the bytecode. */
  function Decompile(table: InstTable, bytecode: seq<byte>, literals: seq<string>): (r: Result<seq<seq<Line>>>)
    ensures r.Ok? <==>
              && GetInsts(table, bytecode).Ok?
              && BlockCreate(GetInsts(table, bytecode).value).Ok?
              && Sound(BlockCreate(GetInsts(table, bytecode).value).value, literals)
    ensures r.Ok? ==> |r.value| == |BlockCreate(GetInsts(table, bytecode).value).value|
    ensures r.Ok? ==>
              var blocks := BlockCreate(GetInsts(table, bytecode).value).value;
              forall m :: 0 <= m < |blocks| ==> SubSeq(Unformatteds(r.value[m]), blocks[m].insts)
  {
    var insts :- GetInsts(table, bytecode);
    var blocks :- BlockCreate(insts);
    var reduced :- ReduceBlocks(blocks, literals);
    ReducedBlocks(blocks, literals);
    var r := FormatBlocks(reduced);
    ShownInstructions(blocks, reduced, r);
    Ok(r)
  }

  lemma ShownInstructions(blocks: seq<Block>, reduced: seq<seq<Node>>, r: seq<seq<Line>>)
    requires |reduced| == |blocks|
    requires forall m :: 0 <= m < |reduced| ==> AllWellFormed(reduced[m]) && SubSeq(Raws(reduced[m]), blocks[m].insts)
    requires r == FormatBlocks(reduced)
    ensures forall m :: 0 <= m < |blocks| ==> SubSeq(Unformatteds(r[m]), blocks[m].insts)
  {
    forall m | 0 <= m < |blocks|
      ensures SubSeq(Unformatteds(r[m]), blocks[m].insts)
    {
      FormatKeepsRaws(reduced[m]);
    }
  }

  // ---------------------------------------------------------------------
  // What the output shows, against the decoded instruction list
  // ---------------------------------------------------------------------

  /** The raw instructions the formatted blocks still show, block after
      block. */
  function Shown(r: seq<seq<Line>>): seq<Inst> {
    if |r| == 0 then [] else Unformatteds(r[0]) + Shown(r[1..])
  }

  /** `decompile` invents no instruction and reorders none: the raw
      instructions shown across all output blocks, with every resolved jump
      target turned back into its location, are a subsequence of the
      instructions `getinsts` decoded. */
  lemma DecompileShowsDecoded(table: InstTable, bytecode: seq<byte>, literals: seq<string>)
    requires Decompile(table, bytecode, literals).Ok?
    ensures var insts := GetInsts(table, bytecode).value;
            var blocks := BlockCreate(insts).value;
            SubSeq(UnresolveAll(blocks, Shown(Decompile(table, bytecode, literals).value)), insts)
  {
    var insts := GetInsts(table, bytecode).value;
    var blocks := BlockCreate(insts).value;
    var r := Decompile(table, bytecode, literals).value;
    ShownInBlocks(r, blocks);
    SubSeqUnresolve(blocks, Shown(r), Flatten(blocks));
    FlattenErase(blocks, blocks, Erase(blocks));
    GetInstsIncreasing(table, bytecode);
    assert Erase(blocks) == Partition(insts).value;
    assert Flatten(Partition(insts).value) == insts;
  }

  lemma {:induction false} ShownInBlocks(r: seq<seq<Line>>, blocks: seq<Block>)
    requires |r| == |blocks|
    requires forall m :: 0 <= m < |blocks| ==> SubSeq(Unformatteds(r[m]), blocks[m].insts)
    ensures SubSeq(Shown(r), Flatten(blocks))
    decreases |r|
  {
    if |r| == 0 {
      SubSeqRefl(Shown(r));
    } else {
      ShownInBlocks(r[1..], blocks[1..]);
      SubSeqConcat(Unformatteds(r[0]), blocks[0].insts, Shown(r[1..]), Flatten(blocks[1..]));
    }
  }

  lemma UnresolveConcat(bl: seq<Block>, x: seq<Inst>, y: seq<Inst>)
    ensures UnresolveAll(bl, x + y) == UnresolveAll(bl, x) + UnresolveAll(bl, y)
  {
    var l := UnresolveAll(bl, x + y);
    var rr := UnresolveAll(bl, x) + UnresolveAll(bl, y);
    assert |l| == |rr|;
    forall j | 0 <= j < |l|
      ensures l[j] == rr[j]
    {
      if j < |x| {
        assert (x + y)[j] == x[j];
      } else {
        assert (x + y)[j] == y[j - |x|];
      }
    }
  }

  /** Turning block indices back into locations block by block, or on the
      whole list at once, gives the same instructions. */
  lemma {:induction false} FlattenErase(bl: seq<Block>, fs: seq<Block>, es: seq<Block>)
    requires |fs| == |es|
    requires forall m :: 0 <= m < |fs| ==> es[m].insts == UnresolveAll(bl, fs[m].insts)
    ensures Flatten(es) == UnresolveAll(bl, Flatten(fs))
    decreases |fs|
  {
    if |fs| > 0 {
      FlattenErase(bl, fs[1..], es[1..]);
      UnresolveConcat(bl, fs[0].insts, Flatten(fs[1..]));
    }
  }

  /** Deleting entries commutes with turning block indices back into
      locations. */
  lemma {:induction false} SubSeqUnresolve(bl: seq<Block>, a: seq<Inst>, b: seq<Inst>)
    requires SubSeq(a, b)
    ensures SubSeq(UnresolveAll(bl, a), UnresolveAll(bl, b))
    decreases |b|
  {
    if |a| > 0 {
      var ua := UnresolveAll(bl, a);
      var ub := UnresolveAll(bl, b);
      assert ua[1..] == UnresolveAll(bl, a[1..]);
      assert ub[1..] == UnresolveAll(bl, b[1..]);
      if a[0] == b[0] && SubSeq(a[1..], b[1..]) {
        SubSeqUnresolve(bl, a[1..], b[1..]);
      } else {
        SubSeqUnresolve(bl, a, b[1..]);
      }
    }
  }

  /** The stages in a row, as the pipeline runs them. */
  lemma DecompileSteps(table: InstTable, bytecode: seq<byte>, literals: seq<string>,
                       insts: seq<Inst>, blocks: seq<Block>, reduced: seq<seq<Node>>)
    requires GetInsts(table, bytecode) == Ok(insts)
    requires BlockCreate(insts) == Ok(blocks)
    requires ReduceBlocks(blocks, literals) == Ok(reduced)
    ensures forall m :: 0 <= m < |reduced| ==> AllWellFormed(reduced[m])
    ensures Decompile(table, bytecode, literals) == Ok(FormatBlocks(reduced))
  {
    ReducedBlocks(blocks, literals);
  }
}
