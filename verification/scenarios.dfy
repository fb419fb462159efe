/** Worked cases of the whole pipeline, after the repository's own tests
    (tests/test.py): the bytecode of `set x 15` and of `puts $a`, each
    followed by a `pop` that drops the command's result. The opcode table
    is a small excerpt in the shape of Tcl's. */
module Scenarios {
  import opened Wrappers
  import opened Operands
  import opened Instructions
  import opened Blocks
  import opened Reduction
  import opened Format
  import opened Decompiler

  const Table: InstTable := map[
    0 := InstType("done", []),
    1 := InstType("push1", [UINT1]),
    3 := InstType("pop", []),
    6 := InstType("invokeStk1", [UINT1]),
    16 := InstType("loadStk", []),
    23 := InstType("storeStk", []),
    34 := InstType("jump1", [INT1]),
    38 := InstType("jumpFalse1", [INT1])
  ]

  // ---------------------------------------------------------------------
  // set x 15
  // ---------------------------------------------------------------------

  const SetCode: seq<byte> := [1, 0, 1, 1, 23, 3]
  const SetLiterals: seq<string> := ["x", "15"]

  const SetInsts: seq<Inst> := [
    Inst(0, "push1", [Operand(UINT1, 0)], NoTarget),
    Inst(2, "push1", [Operand(UINT1, 1)], NoTarget),
    Inst(4, "storeStk", [], NoTarget),
    Inst(5, "pop", [], NoTarget)
  ]

  const SetProg: seq<Asm> := [Asm(1, [0]), Asm(1, [1]), Asm(23, []), Asm(3, [])]

  lemma SetAssemblable()
    ensures forall k :: 0 <= k < |SetProg| ==> Assemblable(Table, SetProg[k])
  {
    assert Table[1].operands == [UINT1];
    assert Table[23].operands == [] && Table[3].operands == [];
  }

  /** A one-byte unsigned operand is its own byte. */
  lemma SmallOperand(v: int)
    requires 0 <= v < 256
    ensures Encode(UINT1, v) == [v as byte]
  {
    assert Pow256(1) == 256;
    assert ToBigEndian(v, 1) == ToBigEndian(v / 256, 0) + [v % 256];
  }

  /** The instructions the worked cases assemble fit the table. */
  lemma TableFits()
    ensures Assemblable(Table, Asm(1, [0])) && Assemblable(Table, Asm(1, [1]))
    ensures Assemblable(Table, Asm(3, [])) && Assemblable(Table, Asm(16, []))
    ensures Assemblable(Table, Asm(23, [])) && Assemblable(Table, Asm(6, [2]))
  {
    assert Table[1].operands == [UINT1] && Table[6].operands == [UINT1];
  }

  /** An instruction with one one-byte unsigned operand is its opcode
      followed by the operand's byte. */
  lemma OneByteEncodes(opcode: byte, v: int)
    requires opcode in Table && Table[opcode].operands == [UINT1]
    requires 0 <= v < 256 && Assemblable(Table, Asm(opcode, [v]))
    ensures EncodeInst(Table, Asm(opcode, [v])) == [opcode, v as byte]
  {
    SmallOperand(v);
    assert EncodeOperands([UINT1], [v]) == Encode(UINT1, v) + EncodeOperands([], []);
  }

  /** Assembling a program one instruction at a time. */
  lemma AssembleStep(prog: seq<Asm>, enc: seq<byte>, tail: seq<byte>)
    requires |prog| > 0 && forall k :: 0 <= k < |prog| ==> Assemblable(Table, prog[k])
    requires EncodeInst(Table, prog[0]) == enc && Assemble(Table, prog[1..]) == tail
    ensures Assemble(Table, prog) == enc + tail
  {
  }

  lemma SetAssembles()
    requires forall k :: 0 <= k < |SetProg| ==> Assemblable(Table, SetProg[k])
    ensures Assemble(Table, SetProg) == SetCode
  {
    StoreAndPopAssemble();
    assert Table[1].operands == [UINT1];
    OneByteEncodes(1, 1);
    assert SetProg[2..] == [Asm(23, []), Asm(3, [])];
    assert SetProg[1..] == [SetProg[1]] + SetProg[2..];
    assert Assemble(Table, SetProg[1..]) == [1, 1, 23, 3];
    OneByteEncodes(1, 0);
  }

  lemma StoreAndPopAssemble()
    requires Assemblable(Table, Asm(23, [])) && Assemblable(Table, Asm(3, []))
    ensures Assemble(Table, [Asm(23, []), Asm(3, [])]) == [23, 3]
  {
    var tail := [Asm(23, []), Asm(3, [])];
    assert tail[1..] == [Asm(3, [])];
    assert Assemble(Table, tail[1..]) == [3];
  }

  lemma SetExpected()
    requires forall k :: 0 <= k < |SetProg| ==> Assemblable(Table, SetProg[k])
    ensures ExpectedFrom(Table, SetProg, 0) == SetInsts
  {
    assert Expected(Table, SetProg[0], 0) == SetInsts[0];
    assert Expected(Table, SetProg[1], 2) == SetInsts[1];
    assert Expected(Table, SetProg[2], 4) == SetInsts[2];
    assert Expected(Table, SetProg[3], 5) == SetInsts[3];
    assert SetProg[3..] == [SetProg[3]] && SetProg[2..] == [SetProg[2]] + SetProg[3..];
    assert SetProg[1..] == [SetProg[1]] + SetProg[2..];
  }

  lemma SetDecodes()
    ensures GetInsts(Table, SetCode) == Ok(SetInsts)
  {
    SetAssemblable();
    DecodeAssembled(Table, SetProg);
    SetAssembles();
    SetExpected();
  }

  lemma SetOneBlock()
    ensures BlockCreate(SetInsts) == Ok([Block(SetInsts, 0)])
  {
    StraightLine(SetInsts);
  }

  const SetCall: Node := ProcCall([Literal("set"), Literal("x"), Literal("15")])

  const SetB0: seq<Node> := [Raw(SetInsts[0]), Raw(SetInsts[1]), Raw(SetInsts[2]), Raw(SetInsts[3])]
  const SetB1: seq<Node> := [Literal("x"), Raw(SetInsts[1]), Raw(SetInsts[2]), Raw(SetInsts[3])]
  const SetB2: seq<Node> := [Literal("x"), Literal("15"), Raw(SetInsts[2]), Raw(SetInsts[3])]
  const SetB3: seq<Node> := [SetCall, Raw(SetInsts[3])]
  const SetB4: seq<Node> := [IgnoredProcCall(SetCall)]

  lemma SetRound1()
    ensures Round(SetB0, SetLiterals, 0, Rewrite(0, [Literal("x")]), SetB1)
  {
    assert StepAt(SetB0, 0, SetLiterals) == Ok(Some(Rewrite(0, [Literal("x")])));
  }

  lemma SetRound2()
    ensures Round(SetB1, SetLiterals, 1, Rewrite(1, [Literal("15")]), SetB2)
  {
    assert StepAt(SetB1, 0, SetLiterals) == Ok(None);
    assert StepAt(SetB1, 1, SetLiterals) == Ok(Some(Rewrite(1, [Literal("15")])));
  }

  lemma SetRound3()
    ensures Round(SetB2, SetLiterals, 2, Rewrite(0, [SetCall]), SetB3)
  {
    assert StepAt(SetB2, 0, SetLiterals) == Ok(None);
    assert StepAt(SetB2, 1, SetLiterals) == Ok(None);
    assert Slices.Slice(SetB2, 0, 2) == [Literal("x"), Literal("15")];
    assert StepAt(SetB2, 2, SetLiterals) == Ok(Some(Rewrite(0, [SetCall])));
  }

  lemma SetRound4()
    ensures Round(SetB3, SetLiterals, 1, Rewrite(0, [IgnoredProcCall(SetCall)]), SetB4)
  {
    assert StepAt(SetB3, 0, SetLiterals) == Ok(None);
    assert Slices.Slice(SetB3, 0, 1) == [SetCall];
    assert StepAt(SetB3, 1, SetLiterals) == Ok(Some(Rewrite(0, [IgnoredProcCall(SetCall)])));
  }

  lemma SetReducesEarly()
    ensures Reduce(Lift(SetInsts), SetLiterals) == Reduce(SetB2, SetLiterals)
  {
    assert Lift(SetInsts) == SetB0;
    SetRound1();
    RoundStep(SetB0, SetLiterals, 0, Rewrite(0, [Literal("x")]), SetB1);
    SetRound2();
    RoundStep(SetB1, SetLiterals, 1, Rewrite(1, [Literal("15")]), SetB2);
  }

  /** The two pushes become literals, `storeStk` a `set` call, and `pop`
      drops its result. */
  lemma SetReduces()
    ensures Reduce(Lift(SetInsts), SetLiterals) == Ok(SetB4)
  {
    SetReducesEarly();
    SetRound3();
    RoundStep(SetB2, SetLiterals, 2, Rewrite(0, [SetCall]), SetB3);
    SetRound4();
    RoundStep(SetB3, SetLiterals, 1, Rewrite(0, [IgnoredProcCall(SetCall)]), SetB4);
    assert FindStep(SetB4, 0, SetLiterals) == Ok(None);
  }

  lemma SetCallText()
    ensures Fmt(SetCall) == "[set x 15]"
  {
    var words := FmtWords(SetCall, SetCall.words);
    assert words == ["set", "x", "15"];
    assert Join(["15"], " ") == "15";
    assert ["x", "15"][1..] == ["15"];
    assert Join(["x", "15"], " ") == "x 15";
    assert words[1..] == ["x", "15"];
    assert Join(words, " ") == "set x 15";
  }

  lemma SetFormats()
    ensures FormatBlock(SetB4) == [Text("set x 15")]
  {
    SetCallText();
    IgnoredCallText(IgnoredProcCall(SetCall));
    assert FormatNode(SetB4[0]) == Text("set x 15");
    assert SetB4[1..] == [];
  }

  lemma SetReducesBlocks()
    ensures ReduceBlocks([Block(SetInsts, 0)], SetLiterals) == Ok([SetB4])
  {
    SetReduces();
    ReduceOneBlock(Block(SetInsts, 0), SetLiterals, SetB4);
  }

  lemma SetFormatsAll()
    ensures FormatBlocks([SetB4]) == [[Text("set x 15")]]
  {
    SetFormats();
    assert FormatBlocks([SetB4])[0] == FormatBlock(SetB4);
  }

  /** `set x 15` decompiles to one block holding the line `set x 15`. */
  lemma SetDecompiles()
    ensures Decompile(Table, SetCode, SetLiterals) == Ok([[Text("set x 15")]])
  {
    SetDecodes();
    SetOneBlock();
    SetReducesBlocks();
    DecompileSteps(Table, SetCode, SetLiterals, SetInsts, [Block(SetInsts, 0)], [SetB4]);
    SetFormatsAll();
  }

  // ---------------------------------------------------------------------
  // puts $a
  // ---------------------------------------------------------------------

  const PutsCode: seq<byte> := [1, 0, 1, 1, 16, 6, 2, 3]
  const PutsLiterals: seq<string> := ["puts", "a"]

  const PutsInsts: seq<Inst> := [
    Inst(0, "push1", [Operand(UINT1, 0)], NoTarget),
    Inst(2, "push1", [Operand(UINT1, 1)], NoTarget),
    Inst(4, "loadStk", [], NoTarget),
    Inst(5, "invokeStk1", [Operand(UINT1, 2)], NoTarget),
    Inst(7, "pop", [], NoTarget)
  ]

  const PutsProg: seq<Asm> := [Asm(1, [0]), Asm(1, [1]), Asm(16, []), Asm(6, [2]), Asm(3, [])]

  lemma PutsAssemblable()
    ensures forall k :: 0 <= k < |PutsProg| ==> Assemblable(Table, PutsProg[k])
  {
    assert Table[1].operands == [UINT1] && Table[6].operands == [UINT1];
    assert Table[16].operands == [] && Table[3].operands == [];
  }

  lemma PutsTailAssembles()
    requires Assemblable(Table, Asm(6, [2])) && Assemblable(Table, Asm(3, []))
    ensures Assemble(Table, [Asm(6, [2]), Asm(3, [])]) == [6, 2, 3]
  {
    var p := [Asm(6, [2]), Asm(3, [])];
    assert p[1..] == [Asm(3, [])] && p[1..][1..] == [];
    AssembleStep(p[1..], [3], []);
    assert Table[6].operands == [UINT1];
    OneByteEncodes(6, 2);
    AssembleStep(p, [6, 2], [3]);
  }

  lemma PutsLoadAssembles()
    requires Assemblable(Table, Asm(16, [])) && Assemblable(Table, Asm(6, [2])) && Assemblable(Table, Asm(3, []))
    ensures Assemble(Table, [Asm(16, []), Asm(6, [2]), Asm(3, [])]) == [16, 6, 2, 3]
  {
    var p := [Asm(16, []), Asm(6, [2]), Asm(3, [])];
    assert p[1..] == [Asm(6, [2]), Asm(3, [])];
    PutsTailAssembles();
    AssembleStep(p, [16], [6, 2, 3]);
  }

  lemma PushesAssemble()
    requires Assemblable(Table, Asm(1, [0])) && Assemblable(Table, Asm(1, [1]))
    ensures Assemble(Table, [Asm(1, [0]), Asm(1, [1])]) == [1, 0, 1, 1]
  {
    var p := [Asm(1, [0]), Asm(1, [1])];
    assert Table[1].operands == [UINT1];
    OneByteEncodes(1, 1);
    assert p[1..] == [Asm(1, [1])] && p[1..][1..] == [];
    AssembleStep(p[1..], [1, 1], []);
    OneByteEncodes(1, 0);
    AssembleStep(p, [1, 0], [1, 1]);
  }

  lemma PutsAssembles()
    requires forall k :: 0 <= k < |PutsProg| ==> Assemblable(Table, PutsProg[k])
    ensures Assemble(Table, PutsProg) == PutsCode
  {
    var p := [Asm(1, [0]), Asm(1, [1])];
    var q := [Asm(16, []), Asm(6, [2]), Asm(3, [])];
    TableFits();
    assert PutsProg == p + q;
    PushesAssemble();
    PutsLoadAssembles();
    AssembleConcat(Table, p, q);
  }

  lemma PutsExpectedTail()
    requires forall k :: 0 <= k < |PutsProg| ==> Assemblable(Table, PutsProg[k])
    ensures ExpectedFrom(Table, PutsProg[2..], 4) == PutsInsts[2..]
  {
    var p := PutsProg[2..];
    assert NumBytes(Table[16]) == 1 && NumBytes(Table[6]) == 2;
    assert Expected(Table, p[2], 7) == PutsInsts[4];
    assert p[2..] == [p[2]];
    assert ExpectedFrom(Table, p[2..], 7) == [PutsInsts[4]];
    assert Expected(Table, p[1], 5) == PutsInsts[3];
    assert ExpectedFrom(Table, p[1..], 5) == [PutsInsts[3], PutsInsts[4]];
    assert Expected(Table, p[0], 4) == PutsInsts[2];
  }

  lemma PutsExpected()
    requires forall k :: 0 <= k < |PutsProg| ==> Assemblable(Table, PutsProg[k])
    ensures ExpectedFrom(Table, PutsProg, 0) == PutsInsts
  {
    PutsExpectedTail();
    assert NumBytes(Table[1]) == 2;
    assert Expected(Table, PutsProg[0], 0) == PutsInsts[0];
    assert Expected(Table, PutsProg[1], 2) == PutsInsts[1];
    assert PutsProg[1..][1..] == PutsProg[2..];
  }

  lemma PutsDecodes()
    ensures GetInsts(Table, PutsCode) == Ok(PutsInsts)
  {
    PutsAssemblable();
    DecodeAssembled(Table, PutsProg);
    PutsAssembles();
    PutsExpected();
  }

  lemma PutsOneBlock()
    ensures BlockCreate(PutsInsts) == Ok([Block(PutsInsts, 0)])
  {
    StraightLine(PutsInsts);
  }

  const VarA: Node := VarRef(Literal("a"))
  const PutsCall: Node := ProcCall([Literal("puts"), VarA])

  const PutsB0: seq<Node> := [Raw(PutsInsts[0]), Raw(PutsInsts[1]), Raw(PutsInsts[2]), Raw(PutsInsts[3]), Raw(PutsInsts[4])]
  const PutsB1: seq<Node> := [Literal("puts"), Raw(PutsInsts[1]), Raw(PutsInsts[2]), Raw(PutsInsts[3]), Raw(PutsInsts[4])]
  const PutsB2: seq<Node> := [Literal("puts"), Literal("a"), Raw(PutsInsts[2]), Raw(PutsInsts[3]), Raw(PutsInsts[4])]
  const PutsB3: seq<Node> := [Literal("puts"), VarA, Raw(PutsInsts[3]), Raw(PutsInsts[4])]
  const PutsB4: seq<Node> := [PutsCall, Raw(PutsInsts[4])]
  const PutsB5: seq<Node> := [IgnoredProcCall(PutsCall)]

  lemma PutsRound1()
    ensures Round(PutsB0, PutsLiterals, 0, Rewrite(0, [Literal("puts")]), PutsB1)
  {
    assert StepAt(PutsB0, 0, PutsLiterals) == Ok(Some(Rewrite(0, [Literal("puts")])));
  }

  lemma PutsRound2()
    ensures Round(PutsB1, PutsLiterals, 1, Rewrite(1, [Literal("a")]), PutsB2)
  {
    assert StepAt(PutsB1, 0, PutsLiterals) == Ok(None);
    assert StepAt(PutsB1, 1, PutsLiterals) == Ok(Some(Rewrite(1, [Literal("a")])));
  }

  lemma PutsRound3()
    ensures Round(PutsB2, PutsLiterals, 2, Rewrite(1, [VarA]), PutsB3)
  {
    assert StepAt(PutsB2, 0, PutsLiterals) == Ok(None);
    assert StepAt(PutsB2, 1, PutsLiterals) == Ok(None);
    assert Slices.Slice(PutsB2, 1, 2) == [Literal("a")];
    assert StepAt(PutsB2, 2, PutsLiterals) == Ok(Some(Rewrite(1, [VarA])));
  }

  lemma PutsRound4()
    ensures Round(PutsB3, PutsLiterals, 2, Rewrite(0, [PutsCall]), PutsB4)
  {
    assert StepAt(PutsB3, 0, PutsLiterals) == Ok(None);
    assert StepAt(PutsB3, 1, PutsLiterals) == Ok(None);
    assert Slices.Slice(PutsB3, 0, 2) == [Literal("puts"), VarA];
    assert StepAt(PutsB3, 2, PutsLiterals) == Ok(Some(Rewrite(0, [PutsCall])));
  }

  lemma PutsRound5()
    ensures Round(PutsB4, PutsLiterals, 1, Rewrite(0, [IgnoredProcCall(PutsCall)]), PutsB5)
  {
    assert StepAt(PutsB4, 0, PutsLiterals) == Ok(None);
    assert Slices.Slice(PutsB4, 0, 1) == [PutsCall];
    assert StepAt(PutsB4, 1, PutsLiterals) == Ok(Some(Rewrite(0, [IgnoredProcCall(PutsCall)])));
  }

  lemma PutsReducesEarly()
    ensures Reduce(Lift(PutsInsts), PutsLiterals) == Reduce(PutsB2, PutsLiterals)
  {
    assert Lift(PutsInsts) == PutsB0;
    PutsRound1();
    RoundStep(PutsB0, PutsLiterals, 0, Rewrite(0, [Literal("puts")]), PutsB1);
    PutsRound2();
    RoundStep(PutsB1, PutsLiterals, 1, Rewrite(1, [Literal("a")]), PutsB2);
  }

  lemma PutsReducesLate()
    ensures Reduce(PutsB2, PutsLiterals) == Reduce(PutsB4, PutsLiterals)
  {
    PutsRound3();
    RoundStep(PutsB2, PutsLiterals, 2, Rewrite(1, [VarA]), PutsB3);
    PutsRound4();
    RoundStep(PutsB3, PutsLiterals, 2, Rewrite(0, [PutsCall]), PutsB4);
  }

  /** The pushes become literals, `loadStk` reads the variable, the call
      collects its two words, and `pop` drops its result. */
  lemma PutsReduces()
    ensures Reduce(Lift(PutsInsts), PutsLiterals) == Ok(PutsB5)
  {
    PutsReducesEarly();
    PutsReducesLate();
    PutsRound5();
    RoundStep(PutsB4, PutsLiterals, 1, Rewrite(0, [IgnoredProcCall(PutsCall)]), PutsB5);
    assert FindStep(PutsB5, 0, PutsLiterals) == Ok(None);
  }

  lemma PutsCallText()
    ensures WellFormed(PutsCall)
    ensures Fmt(PutsCall) == "[puts $a]"
  {
    assert WellFormed(VarA);
    assert Fmt(VarA) == "$a";
    assert WellFormed(PutsCall);
    var words := FmtWords(PutsCall, PutsCall.words);
    assert PutsCall.words[1..] == [VarA] && [VarA][1..] == [];
    assert FmtWords(PutsCall, [VarA]) == ["$a"];
    assert words == [Fmt(Literal("puts"))] + ["$a"];
    assert words[1..] == ["$a"];
    assert Join(words, " ") == "puts $a";
  }

  lemma PutsFormats()
    ensures AllWellFormed(PutsB5)
    ensures FormatBlock(PutsB5) == [Text("puts $a")]
  {
    PutsCallText();
    IgnoredCallText(IgnoredProcCall(PutsCall));
    assert FormatNode(PutsB5[0]) == Text("puts $a");
    assert PutsB5[1..] == [];
  }

  lemma PutsReducesBlocks()
    ensures ReduceBlocks([Block(PutsInsts, 0)], PutsLiterals) == Ok([PutsB5])
  {
    PutsReduces();
    ReduceOneBlock(Block(PutsInsts, 0), PutsLiterals, PutsB5);
  }

  lemma PutsFormatsAll()
    ensures AllWellFormed(PutsB5)
    ensures FormatBlocks([PutsB5]) == [[Text("puts $a")]]
  {
    PutsFormats();
    assert FormatBlocks([PutsB5])[0] == FormatBlock(PutsB5);
  }

  /** `puts $a` decompiles to one block holding the line `puts $a`. */
  lemma PutsDecompiles()
    ensures Decompile(Table, PutsCode, PutsLiterals) == Ok([[Text("puts $a")]])
  {
    PutsDecodes();
    PutsOneBlock();
    PutsReducesBlocks();
    DecompileSteps(Table, PutsCode, PutsLiterals, PutsInsts, [Block(PutsInsts, 0)], [PutsB5]);
    PutsFormatsAll();
  }

  lemma ReduceOneBlock(b: Block, literals: seq<string>, r: seq<Node>)
    requires Reduce(Lift(b.insts), literals) == Ok(r)
    ensures ReduceBlocks([b], literals) == Ok([r])
  {
    assert [b][0] == b && [b][1..] == [];
    assert ReduceBlocks([b][1..], literals) == Ok([]);
    assert [r] + [] == [r];
  }
}
