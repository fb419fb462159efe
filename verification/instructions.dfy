/** Instruction decoding (`Inst.__init__`, `getinsts`, tcldis.py:39-52 and
    168-180).

    The opcode table (`INSTRUCTIONS`, supplied by the Tcl runtime) is a
    parameter: a map from opcode byte to the instruction's name, its length
    in bytes and its operand kinds. */
module Instructions {
  import opened Wrappers
  import opened Operands

  /** An entry of the opcode table: the instruction's name and the kinds of
      its operands. */
  datatype InstType = InstType(name: string, operands: seq<OperandType>)

  type InstTable = map<byte, InstType>

  /** Total bytes taken by a list of operand kinds. */
  function OperandBytes(ts: seq<OperandType>): nat {
    if |ts| == 0 then 0 else Width(ts[0]) + OperandBytes(ts[1..])
  }

  /** `num_bytes`: the opcode byte followed by the operands. */
  function NumBytes(it: InstType): (n: nat)
    ensures n >= 1
  {
    1 + OperandBytes(it.operands)
  }

  /** `JUMP_INSTRUCTIONS` */
  const JumpNames: set<string> :=
    {"jump1", "jump4", "jumpTrue1", "jumpTrue4", "jumpFalse1", "jumpFalse4"}

  /** Where a jump goes: nowhere (not a jump), a bytecode location as
      decoded, or, once blocks exist, the index of the target block. */
  datatype Target = NoTarget | TargetLoc(loc: int) | TargetBlock(index: nat)

  /** A decoded instruction. `target` is `targetloc` in tcldis.py. */
  datatype Inst = Inst(loc: int, name: string, ops: seq<Operand>, target: Target)

  predicate IsJump(inst: Inst) {
    inst.name in JumpNames
  }

  /** Read the operands of kinds `ts`, in order, off the front of `bs`;
      bytes left over are ignored. */
  function ReadOperands(ts: seq<OperandType>, bs: seq<byte>): Result<seq<Operand>> {
    if |ts| == 0 then Ok([])
    else
      var first :- ReadOperand(ts[0], bs);
      var more :- ReadOperands(ts[1..], first.1);
      Ok([Operand(ts[0], first.0)] + more)
  }

  /** Reading fails exactly when a NONE kind is met or the bytes run out;
      otherwise there is one operand of the listed kind per entry, each
      within its kind's range. */
  lemma {:induction false} ReadOperandsSpec(ts: seq<OperandType>, bs: seq<byte>)
    ensures ReadOperands(ts, bs).Ok? <==> NONE !in ts && OperandBytes(ts) <= |bs|
    ensures ReadOperands(ts, bs).Ok? ==> |ReadOperands(ts, bs).value| == |ts|
    ensures ReadOperands(ts, bs).Ok? ==>
              forall k :: 0 <= k < |ts| ==> ReadOperands(ts, bs).value[k].kind == ts[k]
    ensures ReadOperands(ts, bs).Ok? ==>
              forall k :: 0 <= k < |ts| ==> Lower(ts[k]) <= ReadOperands(ts, bs).value[k].value < Upper(ts[k])
  {
    if |ts| > 0 {
      assert ts == [ts[0]] + ts[1..];
      var first := ReadOperand(ts[0], bs);
      if first.Ok? {
        ReadOperandsSpec(ts[1..], first.value.1);
      }
    }
  }

  /** `Inst(bs, loc)`: the first byte selects the table entry, the operands
      follow it, and a jump's target is its location plus its first operand. */
  function DecodeInst(table: InstTable, bs: seq<byte>, loc: int): Result<Inst> {
    if |bs| == 0 then Err(Truncated)
    else if bs[0] !in table then Err(UnknownOpcode(bs[0]))
    else
      var it := table[bs[0]];
      var ops :- ReadOperands(it.operands, bs[1..]);
      if it.name in JumpNames then
        if |ops| == 0 then Err(MissingOperand(it.name))
        else Ok(Inst(loc, it.name, ops, TargetLoc(loc + ops[0].value)))
      else Ok(Inst(loc, it.name, ops, NoTarget))
  }

  /** Decoding succeeds exactly when the opcode is known, its operands can
      be read from the bytes that follow, and a jump has an operand to take
      its offset from; the result carries the entry's name, one operand per
      listed kind, and for a jump the target `loc` plus the first operand. */
  lemma DecodeInstSpec(table: InstTable, bs: seq<byte>, loc: int)
    ensures DecodeInst(table, bs, loc).Ok? <==>
              && |bs| >= 1 && bs[0] in table
              && NONE !in table[bs[0]].operands
              && NumBytes(table[bs[0]]) <= |bs|
              && (table[bs[0]].name in JumpNames ==> |table[bs[0]].operands| >= 1)
    ensures DecodeInst(table, bs, loc).Ok? ==>
              var inst := DecodeInst(table, bs, loc).value;
              && inst.loc == loc && inst.name == table[bs[0]].name
              && |inst.ops| == |table[bs[0]].operands|
              && (forall k :: 0 <= k < |inst.ops| ==> inst.ops[k].kind == table[bs[0]].operands[k])
              && (IsJump(inst) ==> inst.target == TargetLoc(loc + inst.ops[0].value))
              && (!IsJump(inst) ==> inst.target == NoTarget)
  {
    if |bs| >= 1 && bs[0] in table {
      ReadOperandsSpec(table[bs[0]].operands, bs[1..]);
    }
  }

  /** Decodes one instruction from its bytes and its location. The loop of
      `getinsts` below is written for any decoder; `InstDecoder` is the one
      `getinsts` uses, and the lemmas about the loop need only the two
      facts `ChecksLength` and `KeepsLoc` of it. */
  type Decoder = (seq<byte>, int) -> Result<Inst>

  function InstDecoder(table: InstTable): Decoder {
    (bs, loc) => DecodeInst(table, bs, loc)
  }

  /** A decoder fails on bytes that stop short of the opcode's length. */
  ghost predicate ChecksLength(table: InstTable, dec: Decoder) {
    forall bs, loc :: 1 <= |bs| && bs[0] in table && |bs| < NumBytes(table[bs[0]]) ==> dec(bs, loc).Err?
  }

  /** A decoder puts the instruction at the location it was given. */
  ghost predicate KeepsLoc(dec: Decoder) {
    forall bs, loc :: dec(bs, loc).Ok? ==> dec(bs, loc).value.loc == loc
  }

  lemma InstDecoderFacts(table: InstTable)
    ensures ChecksLength(table, InstDecoder(table))
    ensures KeepsLoc(InstDecoder(table))
  {
    forall bs, loc {
      DecodeInstSpec(table, bs, loc);
    }
  }

  /** The length the table gives the instruction at offset `pc`. */
  function SizeAt(table: InstTable, bc: seq<byte>, pc: nat): nat
    requires pc < |bc| && bc[pc] in table
  {
    NumBytes(table[bc[pc]])
  }

  /** The instruction at `pc` is a known opcode with all its bytes present. */
  predicate FitsAt(table: InstTable, bc: seq<byte>, pc: int) {
    0 <= pc < |bc| && bc[pc] in table && pc + NumBytes(table[bc[pc]]) <= |bc|
  }

  /** `insts` lie end to end over `bc[pc..]`: each is what `dec` makes of
      exactly its own bytes, the next one starts where those bytes end, and
      the last one ends with `bc`. */
  ghost predicate LaidOut(table: InstTable, dec: Decoder, bc: seq<byte>, pc: nat, insts: seq<Inst>)
    decreases |insts|
  {
    if |insts| == 0 then pc == |bc|
    else
      && FitsAt(table, bc, pc)
      && dec(bc[pc..pc + SizeAt(table, bc, pc)], pc) == Ok(insts[0])
      && LaidOut(table, dec, bc, pc + SizeAt(table, bc, pc), insts[1..])
  }

  /** Locations strictly increase along the list. */
  ghost predicate Increasing(insts: seq<Inst>) {
    forall i, j :: 0 <= i < j < |insts| ==> insts[i].loc < insts[j].loc
  }

  /** The `getinsts` loop from offset `pc` on: look up the length of the
      opcode in front, decode an instruction from (at most) that many
      bytes, and continue after them. */
  function DecodeFrom(table: InstTable, dec: Decoder, bc: seq<byte>, pc: nat): Result<seq<Inst>>
    requires pc <= |bc|
    decreases |bc| - pc
  {
    if pc == |bc| then Ok([])
    else if bc[pc] !in table then Err(UnknownOpcode(bc[pc]))
    else
      var n := NumBytes(table[bc[pc]]);
      var end := if pc + n <= |bc| then pc + n else |bc|;
      var inst :- dec(bc[pc..end], pc);
      var rest :- DecodeFrom(table, dec, bc, end);
      Ok([inst] + rest)
  }

  /** `getinsts(bytecode)` */
  function GetInsts(table: InstTable, bc: seq<byte>): Result<seq<Inst>> {
    DecodeFrom(table, InstDecoder(table), bc, 0)
  }

  /** One step of the loop at an offset where the table's length fits:
      the instruction decoded from exactly its bytes, then the rest. */
  lemma DecodeFromFits(table: InstTable, dec: Decoder, bc: seq<byte>, pc: nat)
    requires FitsAt(table, bc, pc)
    ensures var end := pc + SizeAt(table, bc, pc);
            var inst := dec(bc[pc..end], pc);
            && (DecodeFrom(table, dec, bc, pc).Ok? <==> inst.Ok? && DecodeFrom(table, dec, bc, end).Ok?)
            && (DecodeFrom(table, dec, bc, pc).Ok? ==>
                  DecodeFrom(table, dec, bc, pc).value == [inst.value] + DecodeFrom(table, dec, bc, end).value)
  {
  }

  /** The loop never gets past an instruction cut short by the end of the
      bytecode. */
  lemma DecodeFromOkFits(table: InstTable, dec: Decoder, bc: seq<byte>, pc: nat)
    requires ChecksLength(table, dec)
    requires pc < |bc|
    requires DecodeFrom(table, dec, bc, pc).Ok?
    ensures FitsAt(table, bc, pc)
  {
  }

  /** What `DecodeFrom` produces is laid out end to end over `bc[pc..]`. */
  lemma {:induction false} DecodeFromLaidOut(table: InstTable, dec: Decoder, bc: seq<byte>, pc: nat)
    requires ChecksLength(table, dec)
    requires pc <= |bc|
    requires DecodeFrom(table, dec, bc, pc).Ok?
    ensures LaidOut(table, dec, bc, pc, DecodeFrom(table, dec, bc, pc).value)
    decreases |bc| - pc
  {
    if pc < |bc| {
      DecodeFromOkFits(table, dec, bc, pc);
      DecodeFromFits(table, dec, bc, pc);
      var end := pc + SizeAt(table, bc, pc);
      var insts := DecodeFrom(table, dec, bc, pc).value;
      var rest := DecodeFrom(table, dec, bc, end).value;
      assert insts[1..] == rest;
      DecodeFromLaidOut(table, dec, bc, end);
    }
  }

  /** Only what `DecodeFrom` produces is laid out over `bc[pc..]`. */
  lemma {:induction false} LaidOutDecodes(table: InstTable, dec: Decoder, bc: seq<byte>, pc: nat, insts: seq<Inst>)
    requires pc <= |bc|
    requires LaidOut(table, dec, bc, pc, insts)
    ensures DecodeFrom(table, dec, bc, pc) == Ok(insts)
    decreases |insts|
  {
    if |insts| > 0 {
      var end := pc + SizeAt(table, bc, pc);
      LaidOutDecodes(table, dec, bc, end, insts[1..]);
      DecodeFromFits(table, dec, bc, pc);
      assert [insts[0]] + insts[1..] == insts;
    }
  }

  /** Laid-out instructions sit at strictly increasing locations inside
      `bc[pc..]`, the first one at `pc`. */
  lemma {:induction false} LaidOutIncreasing(table: InstTable, dec: Decoder, bc: seq<byte>, pc: nat, insts: seq<Inst>)
    requires KeepsLoc(dec)
    requires LaidOut(table, dec, bc, pc, insts)
    ensures Increasing(insts)
    ensures forall k :: 0 <= k < |insts| ==> pc <= insts[k].loc < |bc|
    ensures |insts| > 0 ==> insts[0].loc == pc
    decreases |insts|
  {
    if |insts| > 0 {
      var end := pc + SizeAt(table, bc, pc);
      assert dec(bc[pc..end], pc).value == insts[0];
      var rest := insts[1..];
      LaidOutIncreasing(table, dec, bc, end, rest);
      assert forall k :: 0 < k < |insts| ==> insts[k] == rest[k - 1];
    }
  }

  /** `getinsts` succeeds with `insts` exactly when `insts` lie end to end
      over the whole bytecode, each decoded from exactly its own bytes. */
  lemma GetInstsLaidOut(table: InstTable, bc: seq<byte>, insts: seq<Inst>)
    ensures GetInsts(table, bc) == Ok(insts) <==> LaidOut(table, InstDecoder(table), bc, 0, insts)
  {
    InstDecoderFacts(table);
    if GetInsts(table, bc) == Ok(insts) {
      DecodeFromLaidOut(table, InstDecoder(table), bc, 0);
    }
    if LaidOut(table, InstDecoder(table), bc, 0, insts) {
      LaidOutDecodes(table, InstDecoder(table), bc, 0, insts);
    }
  }

  /** What `getinsts` returns starts at offset 0 and is in increasing
      location order. */
  lemma GetInstsIncreasing(table: InstTable, bc: seq<byte>)
    requires GetInsts(table, bc).Ok?
    ensures Increasing(GetInsts(table, bc).value)
    ensures |GetInsts(table, bc).value| > 0 ==> GetInsts(table, bc).value[0].loc == 0
    ensures |GetInsts(table, bc).value| == 0 <==> |bc| == 0
  {
    var insts := GetInsts(table, bc).value;
    GetInstsLaidOut(table, bc, insts);
    InstDecoderFacts(table);
    LaidOutIncreasing(table, InstDecoder(table), bc, 0, insts);
  }

  /** Bytes appended after `bc` do not change an instruction that fits
      inside `bc`. */
  lemma FitsInPrefix(table: InstTable, bc: seq<byte>, more: seq<byte>, pc: nat)
    requires FitsAt(table, bc, pc)
    ensures FitsAt(table, bc + more, pc)
    ensures SizeAt(table, bc + more, pc) == SizeAt(table, bc, pc)
    ensures (bc + more)[pc..pc + SizeAt(table, bc, pc)] == bc[pc..pc + SizeAt(table, bc, pc)]
  {
    assert (bc + more)[pc] == bc[pc];
  }

  /** Instructions laid out over `bc` from `pc`, followed by instructions
      laid out over the bytes appended after `bc`, are laid out over the
      longer bytecode from `pc`. */
  lemma {:induction false} LaidOutAppend(table: InstTable, dec: Decoder, bc: seq<byte>, more: seq<byte>,
                                        pc: nat, a: seq<Inst>, b: seq<Inst>)
    requires LaidOut(table, dec, bc, pc, a)
    requires LaidOut(table, dec, bc + more, |bc|, b)
    ensures LaidOut(table, dec, bc + more, pc, a + b)
    decreases |a|
  {
    if |a| > 0 {
      FitsInPrefix(table, bc, more, pc);
      LaidOutAppend(table, dec, bc, more, pc + SizeAt(table, bc, pc), a[1..], b);
      assert (a + b)[0] == a[0];
      assert (a + b)[1..] == a[1..] + b;
    } else {
      assert a + b == b;
    }
  }

  /** Conversely, instructions laid out over a longer bytecode begin with
      those laid out over the shorter one, and the rest are laid out over
      the appended bytes. */
  lemma {:induction false} LaidOutSplit(table: InstTable, dec: Decoder, bc: seq<byte>, more: seq<byte>,
                                       pc: nat, a: seq<Inst>, all: seq<Inst>)
    requires LaidOut(table, dec, bc, pc, a)
    requires LaidOut(table, dec, bc + more, pc, all)
    ensures |a| <= |all| && all[..|a|] == a
    ensures LaidOut(table, dec, bc + more, |bc|, all[|a|..])
    decreases |a|
  {
    if |a| > 0 {
      FitsInPrefix(table, bc, more, pc);
      assert |all| > 0;
      LaidOutSplit(table, dec, bc, more, pc + SizeAt(table, bc, pc), a[1..], all[1..]);
      assert all[1..][|a| - 1..] == all[|a|..];
      assert all[..|a|] == [all[0]] + all[1..][..|a| - 1];
    }
  }

  /** An instruction whose bytes are cut short by the end of the bytecode
      makes the whole decoding fail, however well the bytes before it
      decode. */
  lemma TruncatedTailFails(table: InstTable, bc: seq<byte>, opcode: byte, tail: seq<byte>)
    requires GetInsts(table, bc).Ok?
    requires opcode in table && 1 + |tail| < NumBytes(table[opcode])
    ensures GetInsts(table, bc + ([opcode] + tail)).Err?
  {
    var dec := InstDecoder(table);
    var all := bc + ([opcode] + tail);
    if GetInsts(table, all).Ok? {
      GetInstsLaidOut(table, bc, GetInsts(table, bc).value);
      GetInstsLaidOut(table, all, GetInsts(table, all).value);
      LaidOutSplit(table, dec, bc, [opcode] + tail, 0, GetInsts(table, bc).value, GetInsts(table, all).value);
    }
  }

  /** One instruction written out by an assembler: an opcode and the values
      of its operands. */
  datatype Asm = Asm(opcode: byte, values: seq<int>)

  /** The table knows the opcode, and the values fit its operand kinds. */
  predicate Assemblable(table: InstTable, a: Asm) {
    && a.opcode in table
    && var ts := table[a.opcode].operands;
       && NONE !in ts
       && |a.values| == |ts|
       && (forall k :: 0 <= k < |ts| ==> Lower(ts[k]) <= a.values[k] < Upper(ts[k]))
       && (table[a.opcode].name in JumpNames ==> |ts| >= 1)
  }

  function EncodeOperands(ts: seq<OperandType>, vs: seq<int>): (bs: seq<byte>)
    requires NONE !in ts && |vs| == |ts|
    requires forall k :: 0 <= k < |ts| ==> Lower(ts[k]) <= vs[k] < Upper(ts[k])
    ensures |bs| == OperandBytes(ts)
  {
    if |ts| == 0 then []
    else
      assert ts[0] in ts;
      Encode(ts[0], vs[0]) + EncodeOperands(ts[1..], vs[1..])
  }

  function Pair(ts: seq<OperandType>, vs: seq<int>): (ops: seq<Operand>)
    requires |vs| == |ts|
    ensures |ops| == |ts|
    ensures forall k :: 0 <= k < |ts| ==> ops[k] == Operand(ts[k], vs[k])
  {
    if |ts| == 0 then [] else [Operand(ts[0], vs[0])] + Pair(ts[1..], vs[1..])
  }

  function EncodeInst(table: InstTable, a: Asm): seq<byte>
    requires Assemblable(table, a)
  {
    [a.opcode] + EncodeOperands(table[a.opcode].operands, a.values)
  }

  /** The instruction a decoder should produce for `a` placed at `loc`. */
  function Expected(table: InstTable, a: Asm, loc: int): Inst
    requires Assemblable(table, a)
  {
    var it := table[a.opcode];
    var ops := Pair(it.operands, a.values);
    Inst(loc, it.name, ops, if it.name in JumpNames then TargetLoc(loc + a.values[0]) else NoTarget)
  }

  function Assemble(table: InstTable, prog: seq<Asm>): seq<byte>
    requires forall k :: 0 <= k < |prog| ==> Assemblable(table, prog[k])
  {
    if |prog| == 0 then [] else EncodeInst(table, prog[0]) + Assemble(table, prog[1..])
  }

  /** The instructions a decoder should produce for `prog` laid out from `pc`. */
  function ExpectedFrom(table: InstTable, prog: seq<Asm>, pc: int): seq<Inst>
    requires forall k :: 0 <= k < |prog| ==> Assemblable(table, prog[k])
  {
    if |prog| == 0 then []
    else [Expected(table, prog[0], pc)] + ExpectedFrom(table, prog[1..], pc + NumBytes(table[prog[0].opcode]))
  }

  lemma {:induction false} ReadEncodedOperands(ts: seq<OperandType>, vs: seq<int>, rest: seq<byte>)
    requires NONE !in ts && |vs| == |ts|
    requires forall k :: 0 <= k < |ts| ==> Lower(ts[k]) <= vs[k] < Upper(ts[k])
    ensures ReadOperands(ts, EncodeOperands(ts, vs) + rest) == Ok(Pair(ts, vs))
  {
    if |ts| > 0 {
      assert ts[0] in ts;
      var head := Encode(ts[0], vs[0]);
      var tail := EncodeOperands(ts[1..], vs[1..]);
      assert EncodeOperands(ts, vs) + rest == head + (tail + rest);
      ReadEncode(ts[0], vs[0], tail + rest);
      assert forall k :: 0 <= k < |ts| - 1 ==> ts[1..][k] == ts[k + 1] && vs[1..][k] == vs[k + 1];
      ReadEncodedOperands(ts[1..], vs[1..], rest);
    }
  }

  /** Decoding an assembled instruction gives back the instruction the
      assembler meant, whatever bytes follow it. */
  lemma DecodeEncodedInst(table: InstTable, a: Asm, loc: int, rest: seq<byte>)
    requires Assemblable(table, a)
    ensures DecodeInst(table, EncodeInst(table, a) + rest, loc) == Ok(Expected(table, a, loc))
  {
    var bs := EncodeInst(table, a) + rest;
    var ts := table[a.opcode].operands;
    assert bs[1..] == EncodeOperands(ts, a.values) + rest;
    ReadEncodedOperands(ts, a.values, rest);
  }

  /** A decoder gives back every assembled instruction, whatever its
      location. */
  ghost predicate UndoesAssembly(table: InstTable, dec: Decoder) {
    forall a, loc :: Assemblable(table, a) ==> dec(EncodeInst(table, a), loc) == Ok(Expected(table, a, loc))
  }

  lemma InstDecoderUndoesAssembly(table: InstTable)
    ensures UndoesAssembly(table, InstDecoder(table))
  {
    forall a, loc | Assemblable(table, a)
      ensures InstDecoder(table)(EncodeInst(table, a), loc) == Ok(Expected(table, a, loc))
    {
      DecodeEncodedInst(table, a, loc, []);
      assert EncodeInst(table, a) + [] == EncodeInst(table, a);
    }
  }

  /** Assembly works instruction by instruction: the bytes of two programs
      in a row are the bytes of each in a row. */
  lemma {:induction false} AssembleConcat(table: InstTable, p: seq<Asm>, q: seq<Asm>)
    requires forall k :: 0 <= k < |p| ==> Assemblable(table, p[k])
    requires forall k :: 0 <= k < |q| ==> Assemblable(table, q[k])
    ensures forall k :: 0 <= k < |p + q| ==> Assemblable(table, (p + q)[k])
    ensures Assemble(table, p + q) == Assemble(table, p) + Assemble(table, q)
  {
    if |p| == 0 {
      assert p + q == q;
    } else {
      var pq := p + q;
      assert pq[0] == p[0] && pq[1..] == p[1..] + q;
      AssembleConcat(table, p[1..], q);
      var enc := EncodeInst(table, p[0]);
      assert Assemble(table, pq) == enc + Assemble(table, p[1..] + q);
      assert Assemble(table, p) == enc + Assemble(table, p[1..]);
    }
  }

  lemma AssembledHead(table: InstTable, before: seq<byte>, prog: seq<Asm>)
    requires |prog| > 0
    requires forall k :: 0 <= k < |prog| ==> Assemblable(table, prog[k])
    ensures var bc := before + Assemble(table, prog);
            var enc := EncodeInst(table, prog[0]);
            var pc := |before|;
            && FitsAt(table, bc, pc)
            && SizeAt(table, bc, pc) == |enc|
            && bc[pc..pc + |enc|] == enc
            && bc == (before + enc) + Assemble(table, prog[1..])
  {
    var bc := before + Assemble(table, prog);
    var enc := EncodeInst(table, prog[0]);
    assert bc == (before + enc) + Assemble(table, prog[1..]);
    assert bc[|before|] == prog[0].opcode;
  }

  /** Decoding an assembled program, wherever it is placed after other
      bytes, gives back the program's instructions at their offsets. */
  lemma {:induction false} AssembledLaidOut(table: InstTable, dec: Decoder, before: seq<byte>, prog: seq<Asm>)
    requires UndoesAssembly(table, dec)
    requires forall k :: 0 <= k < |prog| ==> Assemblable(table, prog[k])
    ensures LaidOut(table, dec, before + Assemble(table, prog), |before|, ExpectedFrom(table, prog, |before|))
    decreases |prog|
  {
    if |prog| == 0 {
      assert before + Assemble(table, prog) == before;
    } else {
      AssembledHead(table, before, prog);
      var bc := before + Assemble(table, prog);
      var enc := EncodeInst(table, prog[0]);
      var pc := |before|;
      var next := before + enc;
      var expected := ExpectedFrom(table, prog, pc);
      assert SizeAt(table, bc, pc) == |enc| == NumBytes(table[prog[0].opcode]);
      assert dec(bc[pc..pc + |enc|], pc) == Ok(expected[0]);
      assert expected[1..] == ExpectedFrom(table, prog[1..], |next|);
      AssembledLaidOut(table, dec, next, prog[1..]);
      assert bc == next + Assemble(table, prog[1..]);
    }
  }

  /** `getinsts` inverts assembly: the decoded instructions are exactly the
      assembled ones, at the offsets their lengths add up to. */
  lemma DecodeAssembled(table: InstTable, prog: seq<Asm>)
    requires forall k :: 0 <= k < |prog| ==> Assemblable(table, prog[k])
    ensures GetInsts(table, Assemble(table, prog)) == Ok(ExpectedFrom(table, prog, 0))
  {
    InstDecoderUndoesAssembly(table);
    AssembledLaidOut(table, InstDecoder(table), [], prog);
    assert [] + Assemble(table, prog) == Assemble(table, prog);
    GetInstsLaidOut(table, Assemble(table, prog), ExpectedFrom(table, prog, 0));
  }
}
