/** The in-block reducer (`_inst_reductions`, `_bblock_reduce`,
    tcldis.py:232-285) and the nodes it builds (tcldis.py:65-140).

    A block starts as a list of raw instructions. Each round scans it from
    the front for the first raw instruction that can be rewritten: a push
    becomes the literal it names, and an instruction with a reduction rule
    swallows the values just before it into one higher-level node (or into
    nothing, for `nop`). Rounds repeat until a scan finds nothing to do. */
module Reduction {
  import opened Wrappers
  import opened Slices
  import opened Instructions

  /** An entry of a block under reduction. The length assertions of the
      Python constructors are built into the shapes: a variable reference
      has one child, an array reference two, an ignored call and a jump one.
      Of the instruction a node came from (`inst`) only a jump's target is
      ever read again, so only that is kept. */
  datatype Node =
    | Raw(inst: Inst)                             // an `Inst` not reduced yet
    | Literal(text: string)                       // BCLiteral
    | VarRef(name: Node)                          // BCVarRef
    | ArrayRef(base: Node, key: Node)             // BCArrayRef
    | ProcCall(words: seq<Node>)                  // BCProcCall
    | IgnoredProcCall(call: Node)                 // BCIgnoredProcCall
    | Jump(on: bool, cond: Node, target: Target)  // BCJump

  /** `isinstance(n, BCValue)`: the node leaves a value on Tcl's stack. */
  predicate IsValue(n: Node) {
    n.Literal? || n.VarRef? || n.ArrayRef? || n.ProcCall?
  }

  /** Every child is a value, and an ignored call wraps a call: what the
      argument checks of the reducer guarantee of every node it builds. */
  predicate WellFormed(n: Node) {
    match n
    case Raw(_) => true
    case Literal(_) => true
    case VarRef(a) => IsValue(a) && WellFormed(a)
    case ArrayRef(a, k) => IsValue(a) && WellFormed(a) && IsValue(k) && WellFormed(k)
    case ProcCall(ws) => forall w :: w in ws ==> IsValue(w) && WellFormed(w)
    case IgnoredProcCall(c) => c.ProcCall? && WellFormed(c)
    case Jump(_, c, _) => IsValue(c) && WellFormed(c)
  }

  ghost predicate AllWellFormed(b: seq<Node>) {
    forall k :: 0 <= k < |b| ==> WellFormed(b[k])
  }

  // ---------------------------------------------------------------------
  // The rule table (tcldis.py:232-251)
  // ---------------------------------------------------------------------

  /** How many values a rule takes: a constant (`N(n)`) or the value of the
      instruction's first operand (`firstop`). */
  datatype Arity = Fixed(n: nat) | FirstOperand

  /** `checktype`: `BCValue` by default, `BCProcCall` for `pop`. */
  datatype ArgCheck = AnyValue | OnlyProcCall

  /** `redfn`: what a rule builds from the instruction and its arguments. */
  datatype Builder = MakeProcCall | MakeJump(on: bool) | MakeArrayRef | MakeVarRef
                   | MakeNothing | MakeIgnored | MakeSet

  datatype Rule = Rule(arity: Arity, check: ArgCheck, build: Builder)

  /** `INST_REDUCTIONS` */
  const InstReductions: map<string, Rule> := map[
    "invokeStk1" := Rule(FirstOperand, AnyValue, MakeProcCall),
    "invokeStk4" := Rule(FirstOperand, AnyValue, MakeProcCall),
    "jumpFalse1" := Rule(Fixed(1), AnyValue, MakeJump(false)),
    "jumpTrue1" := Rule(Fixed(1), AnyValue, MakeJump(true)),
    "loadArrayStk" := Rule(Fixed(2), AnyValue, MakeArrayRef),
    "loadStk" := Rule(Fixed(1), AnyValue, MakeVarRef),
    "nop" := Rule(Fixed(0), AnyValue, MakeNothing),
    "pop" := Rule(Fixed(1), OnlyProcCall, MakeIgnored),
    "storeStk" := Rule(Fixed(2), AnyValue, MakeSet)
  ]

  predicate IsPush(inst: Inst) {
    inst.name == "push1" || inst.name == "push4"
  }

  /** `isinstance(arg, checktype)` */
  predicate Admits(check: ArgCheck, n: Node) {
    match check
    case AnyValue => IsValue(n)
    case OnlyProcCall => n.ProcCall?
  }

  /** Every argument passes the check. */
  predicate AllAdmit(check: ArgCheck, args: seq<Node>) {
    forall k :: 0 <= k < |args| ==> Admits(check, args[k])
  }

  /** `IRED['nargs'](inst)`; `firstop` of an instruction without operands
      raises. */
  function Nargs(rule: Rule, inst: Inst): Result<int> {
    match rule.arity
    case Fixed(n) => Ok(n)
    case FirstOperand =>
      if |inst.ops| == 0 then Err(MissingOperand(inst.name)) else Ok(inst.ops[0].value)
  }

  /** The argument counts the constructor behind a builder accepts. */
  predicate Accepts(build: Builder, n: int) {
    match build
    case MakeProcCall => true
    case MakeJump(_) => n == 1
    case MakeArrayRef => n == 2
    case MakeVarRef => n == 1
    case MakeNothing => n == 0
    case MakeIgnored => n == 1
    case MakeSet => n == 2
  }

  /** `redfn(inst, arglist)`, with a single node wrapped into a list. */
  function Build(build: Builder, inst: Inst, args: seq<Node>): seq<Node>
    requires Accepts(build, |args|)
  {
    match build
    case MakeProcCall => [ProcCall(args)]
    case MakeJump(on) => [Jump(on, args[0], inst.target)]
    case MakeArrayRef => [ArrayRef(args[0], args[1])]
    case MakeVarRef => [VarRef(args[0])]
    case MakeNothing => []
    case MakeIgnored => [IgnoredProcCall(args[0])]
    case MakeSet => [ProcCall([Literal("set"), args[0], args[1]])]
  }

  /** A rule whose constructor always receives an argument list it accepts,
      and whose ignored call always wraps a call. */
  predicate RuleConsistent(rule: Rule) {
    && (rule.arity.Fixed? ==> Accepts(rule.build, rule.arity.n))
    && (rule.arity.FirstOperand? ==> rule.build == MakeProcCall)
    && (rule.build == MakeIgnored ==> rule.check == OnlyProcCall)
  }

  lemma RulesConsistent()
    ensures forall name :: name in InstReductions ==> RuleConsistent(InstReductions[name])
  {
  }

  // ---------------------------------------------------------------------
  // Tcl's stack effects, an independent account of what a rewrite keeps
  // ---------------------------------------------------------------------

  /** Net number of values an instruction leaves on Tcl's stack, as Tcl's
      instruction table gives it for the instructions the reducer knows:
      `invokeStk` pops its words and pushes the result, `storeStk` and
      `loadArrayStk` pop two and push one, and so on. Other instructions
      are never rewritten and count as 0. */
  function InstEffect(inst: Inst): int {
    if IsPush(inst) then 1
    else if inst.name == "invokeStk1" || inst.name == "invokeStk4" then
      (if |inst.ops| == 0 then 0 else 1 - inst.ops[0].value)
    else if inst.name == "loadArrayStk" || inst.name == "storeStk" || inst.name == "pop"
         || inst.name == "jumpTrue1" || inst.name == "jumpFalse1" then -1
    else 0
  }

  /** A value node stands for one value pushed; an ignored call and a
      conditional jump leave the stack as they found it. */
  function Effect(n: Node): int {
    match n
    case Raw(inst) => InstEffect(inst)
    case IgnoredProcCall(_) => 0
    case Jump(_, _, _) => 0
    case _ => 1
  }

  function Effects(b: seq<Node>): int {
    if |b| == 0 then 0 else Effect(b[0]) + Effects(b[1..])
  }

  /** The raw instructions still in a block, in order. */
  function Raws(b: seq<Node>): seq<Inst> {
    if |b| == 0 then [] else (if b[0].Raw? then [b[0].inst] else []) + Raws(b[1..])
  }

  lemma ConcatCounts(a: seq<Node>, c: seq<Node>)
    ensures Raws(a + c) == Raws(a) + Raws(c)
    ensures Effects(a + c) == Effects(a) + Effects(c)
  {
    ConcatRaws(a, c);
    ConcatEffects(a, c);
  }

  lemma {:induction false} ConcatRaws(a: seq<Node>, c: seq<Node>)
    ensures Raws(a + c) == Raws(a) + Raws(c)
  {
    if |a| == 0 {
      assert a + c == c;
    } else {
      var h: seq<Inst> := if a[0].Raw? then [a[0].inst] else [];
      assert (a + c)[1..] == a[1..] + c;
      assert (a + c)[0] == a[0];
      assert Raws(a + c) == h + Raws(a[1..] + c);
      ConcatRaws(a[1..], c);
      assert Raws(a) == h + Raws(a[1..]);
    }
  }

  lemma {:induction false} ConcatEffects(a: seq<Node>, c: seq<Node>)
    ensures Effects(a + c) == Effects(a) + Effects(c)
  {
    if |a| == 0 {
      assert a + c == c;
    } else {
      assert (a + c)[1..] == a[1..] + c;
      ConcatEffects(a[1..], c);
      assert (a + c)[0] == a[0];
    }
  }

  lemma {:induction false} NoRaws(w: seq<Node>)
    requires forall k :: 0 <= k < |w| ==> !w[k].Raw?
    ensures Raws(w) == []
  {
    if |w| > 0 {
      NoRaws(w[1..]);
    }
  }

  /** A run of values holds no raw instruction and pushes one value each. */
  lemma {:induction false} ValuesCounts(w: seq<Node>)
    requires forall k :: 0 <= k < |w| ==> IsValue(w[k])
    ensures Raws(w) == []
    ensures Effects(w) == |w|
  {
    if |w| > 0 {
      ValuesCounts(w[1..]);
    }
  }

  /** Each raw instruction of a block sits at some position of it, and
      every position's raw instruction is among them. */
  lemma {:induction false} RawsPositions(b: seq<Node>)
    ensures forall x :: x in Raws(b) ==> exists k :: 0 <= k < |b| && b[k] == Raw(x)
    ensures forall k :: 0 <= k < |b| && b[k].Raw? ==> b[k].inst in Raws(b)
  {
    if |b| > 0 {
      RawsPositions(b[1..]);
      forall x | x in Raws(b)
        ensures exists k :: 0 <= k < |b| && b[k] == Raw(x)
      {
        if !(b[0] == Raw(x)) {
          assert x in Raws(b[1..]);
          var k :| 0 <= k < |b[1..]| && b[1..][k] == Raw(x);
          assert b[k + 1] == Raw(x);
        }
      }
    }
  }

  // ---------------------------------------------------------------------
  // One position of the scan (tcldis.py:264-283)
  // ---------------------------------------------------------------------

  /** A rewrite found at position `i`: entries `lo` to `i` inclusive are
      replaced by `nodes`. */
  datatype Rewrite = Rewrite(lo: nat, nodes: seq<Node>)

  /** The loop body at position `i`: nothing to do, a rewrite, or the
      exception tcldis.py raises. The argument window is taken with
      Python's slicing, as tcldis.py does. */
  function StepAt(b: seq<Node>, i: nat, literals: seq<string>): Result<Option<Rewrite>>
    requires i < |b|
  {
    if !b[i].Raw? then Ok(None)
    else
      var inst := b[i].inst;
      if IsPush(inst) then
        if |inst.ops| == 0 then Err(MissingOperand(inst.name))
        else
          match Index(literals, inst.ops[0].value)
          case None => Err(LiteralIndex(inst.ops[0].value))
          case Some(text) => Ok(Some(Rewrite(i, [Literal(text)])))
      else if inst.name in InstReductions then
        RulesConsistent();
        RuleStep(b, i, InstReductions[inst.name])
      else Ok(None)
  }

  /** The loop body at an instruction that has a rule: the argument count,
      the window before `i`, and the rewrite when the window is full and
      every argument passes the rule's check. */
  function RuleStep(b: seq<Node>, i: nat, rule: Rule): Result<Option<Rewrite>>
    requires i < |b| && b[i].Raw? && RuleConsistent(rule)
  {
    var inst := b[i].inst;
    var nargs :- Nargs(rule, inst);
    var args := Slice(b, i - nargs, i);
    if |args| != nargs || !AllAdmit(rule.check, args) then
      Ok(None)
    else
      WindowBeforeIndex(b, i, nargs);
      Ok(Some(Rewrite(i - nargs, Build(rule.build, inst, args))))
  }

  /** The instruction makes the loop body raise wherever it stands: a push
      without an operand or naming no literal, or an `invokeStk` without
      its operand. */
  predicate Faulty(inst: Inst, literals: seq<string>) {
    if IsPush(inst) then
      |inst.ops| == 0 || !(-|literals| <= inst.ops[0].value < |literals|)
    else
      inst.name in InstReductions && InstReductions[inst.name].arity.FirstOperand?
      && |inst.ops| == 0
  }

  /** When position `i` is rewritten, stated without Python's slicing: a
      sound push always; otherwise an instruction with a rule whose
      argument count `n` satisfies `0 <= n <= i` and whose `n` preceding
      entries all pass the rule's check. */
  ghost predicate Fires(b: seq<Node>, i: nat, literals: seq<string>)
    requires i < |b|
  {
    && b[i].Raw?
    && !Faulty(b[i].inst, literals)
    && (|| IsPush(b[i].inst)
        || (&& b[i].inst.name in InstReductions
            && WindowFilled(b, i, InstReductions[b[i].inst.name])))
  }

  ghost predicate WindowFilled(b: seq<Node>, i: nat, rule: Rule)
    requires i < |b| && b[i].Raw?
  {
    && Nargs(rule, b[i].inst).Ok?
    && var n := Nargs(rule, b[i].inst).value;
    && 0 <= n <= i
    && forall k :: i - n <= k < i ==> Admits(rule.check, b[k])
  }

  /** What every rewrite keeps: it removes exactly the raw instruction at
      `i`, the entries it swallows before `i` are values, the nodes it puts
      in are at most one and are no raw instructions, the net stack effect
      of the replaced entries is unchanged, and well-formed arguments give
      well-formed nodes. */
  ghost predicate Rewrites(b: seq<Node>, i: nat, rw: Rewrite) {
    && i < |b|
    && rw.lo <= i
    && b[i].Raw?
    && (forall k :: rw.lo <= k < i ==> IsValue(b[k]))
    && |rw.nodes| <= 1
    && (forall k :: 0 <= k < |rw.nodes| ==> !rw.nodes[k].Raw?)
    && Effects(rw.nodes) == (i - rw.lo) + InstEffect(b[i].inst)
    && (AllWellFormed(b[rw.lo..i]) ==> AllWellFormed(rw.nodes))
  }

  /** The loop body raises exactly at a faulty raw instruction, rewrites
      exactly where `Fires` says, and every rewrite it makes is one of
      `Rewrites`. */
  lemma StepSpec(b: seq<Node>, i: nat, literals: seq<string>)
    requires i < |b|
    ensures StepAt(b, i, literals).Err? <==> b[i].Raw? && Faulty(b[i].inst, literals)
    ensures StepAt(b, i, literals).Ok? && StepAt(b, i, literals).value.Some? <==> Fires(b, i, literals)
    ensures StepAt(b, i, literals).Ok? && StepAt(b, i, literals).value.Some? ==>
              Rewrites(b, i, StepAt(b, i, literals).value.value)
    ensures b[i].Raw? && IsPush(b[i].inst) && !Faulty(b[i].inst, literals) ==>
              StepAt(b, i, literals) == Ok(Some(Rewrite(i, [Literal(Index(literals, b[i].inst.ops[0].value).value)])))
  {
    if b[i].Raw? && !IsPush(b[i].inst) && b[i].inst.name in InstReductions {
      var rule := InstReductions[b[i].inst.name];
      RulesConsistent();
      assert StepAt(b, i, literals) == RuleStep(b, i, rule);
      StepByRule(b, i, rule);
      var r := RuleStep(b, i, rule);
      if r.Ok? && r.value.Some? {
        RewriteByRule(b, i, rule, Nargs(rule, b[i].inst).value);
      }
    }
  }

  /** The rule step raises exactly when the argument count is missing, and
      rewrites exactly when the window is filled, with what the rule builds
      from the window. */
  lemma StepByRule(b: seq<Node>, i: nat, rule: Rule)
    requires i < |b| && b[i].Raw? && RuleConsistent(rule)
    ensures RuleStep(b, i, rule).Err? <==> Nargs(rule, b[i].inst).Err?
    ensures RuleStep(b, i, rule).Ok? && RuleStep(b, i, rule).value.Some? <==> WindowFilled(b, i, rule)
    ensures RuleStep(b, i, rule).Ok? && RuleStep(b, i, rule).value.Some? ==>
              var n := Nargs(rule, b[i].inst).value;
              && 0 <= n <= i
              && RuleStep(b, i, rule).value.value == Rewrite(i - n, Build(rule.build, b[i].inst, b[i - n..i]))
  {
    var inst := b[i].inst;
    if Nargs(rule, inst).Ok? {
      var n := Nargs(rule, inst).value;
      WindowBeforeIndex(b, i, n);
      if 0 <= n <= i {
        WindowAdmits(b, i, n, rule.check);
      }
    }
  }

  /** The window of `n` entries before `i`, read with Python's slicing,
      passes the check exactly when the entries `b[i - n..i]` do. */
  lemma WindowAdmits(b: seq<Node>, i: nat, n: int, check: ArgCheck)
    requires 0 <= n <= i < |b|
    ensures Slice(b, i - n, i) == b[i - n..i]
    ensures AllAdmit(check, Slice(b, i - n, i)) <==> (forall k :: i - n <= k < i ==> Admits(check, b[k]))
  {
    WindowBeforeIndex(b, i, n);
    var args := b[i - n..i];
    assert forall k :: i - n <= k < i ==> b[k] == args[k - (i - n)];
  }

  lemma RewriteByRule(b: seq<Node>, i: nat, rule: Rule, n: nat)
    requires i < |b| && b[i].Raw? && n <= i
    requires b[i].inst.name in InstReductions && rule == InstReductions[b[i].inst.name]
    requires Nargs(rule, b[i].inst) == Ok(n)
    requires forall k :: i - n <= k < i ==> Admits(rule.check, b[k])
    ensures RuleConsistent(rule)
    ensures Rewrites(b, i, Rewrite(i - n, Build(rule.build, b[i].inst, b[i - n..i])))
  {
    RulesConsistent();
    var args := b[i - n..i];
    assert forall k :: 0 <= k < |args| ==> args[k] == b[i - n + k];
    BuildShape(rule, b[i].inst, args);
    BuildEffects(rule, b[i].inst, args);
  }

  /** What a rule builds from arguments its check admits: at most one
      node, no raw instruction, and well formed when the arguments are. */
  lemma BuildShape(rule: Rule, inst: Inst, args: seq<Node>)
    requires RuleConsistent(rule) && Accepts(rule.build, |args|)
    requires forall k :: 0 <= k < |args| ==> Admits(rule.check, args[k])
    ensures var nodes := Build(rule.build, inst, args);
            && |nodes| <= 1
            && (forall k :: 0 <= k < |nodes| ==> !nodes[k].Raw?)
            && (AllWellFormed(args) ==> AllWellFormed(nodes))
  {
    assert forall k :: 0 <= k < |args| ==> IsValue(args[k]);
  }

  /** The node a rule builds pushes what its arguments and the instruction
      push together. */
  lemma BuildEffects(rule: Rule, inst: Inst, args: seq<Node>)
    requires inst.name in InstReductions && rule == InstReductions[inst.name]
    requires Nargs(rule, inst) == Ok(|args|) && Accepts(rule.build, |args|)
    requires forall k :: 0 <= k < |args| ==> Admits(rule.check, args[k])
    ensures Effects(Build(rule.build, inst, args)) == |args| + InstEffect(inst)
  {
    var nodes := Build(rule.build, inst, args);
    assert Effects(nodes) == (if |nodes| == 0 then 0 else Effect(nodes[0]));
    var name := inst.name;
    if name == "invokeStk1" || name == "invokeStk4" {
      assert rule.build == MakeProcCall;
    } else if name == "jumpFalse1" || name == "jumpTrue1" {
      assert rule.build.MakeJump?;
    } else if name == "loadArrayStk" || name == "storeStk" {
      assert rule.build == MakeArrayRef || rule.build == MakeSet;
    } else if name == "pop" {
      assert rule.build == MakeIgnored;
    } else {
      assert name == "loadStk" || name == "nop";
    }
  }

  // ---------------------------------------------------------------------
  // The scan and the rounds (tcldis.py:254-285)
  // ---------------------------------------------------------------------

  /** The block after a rewrite at `i`: `bblock.insts[lo:i+1] = nodes`. */
  function Apply(b: seq<Node>, i: nat, rw: Rewrite): seq<Node>
    requires rw.lo <= i < |b|
  {
    b[..rw.lo] + rw.nodes + b[i + 1..]
  }

  /** A rewrite takes the one raw instruction at `i` out of the block and
      leaves the others in order, and keeps the block's stack effect and
      its well-formedness. */
  lemma ApplyRewrite(b: seq<Node>, i: nat, rw: Rewrite)
    requires Rewrites(b, i, rw)
    ensures Raws(b) == Raws(b[..rw.lo]) + [b[i].inst] + Raws(b[i + 1..])
    ensures Raws(Apply(b, i, rw)) == Raws(b[..rw.lo]) + Raws(b[i + 1..])
    ensures Effects(Apply(b, i, rw)) == Effects(b)
    ensures AllWellFormed(b) ==> AllWellFormed(Apply(b, i, rw))
  {
    var pre, win, post := b[..rw.lo], b[rw.lo..i], b[i + 1..];
    assert b == pre + win + [b[i]] + post;
    ValuesCounts(win);
    NoRaws(rw.nodes);
    ApplyRaws(pre, win, b[i], post, rw.nodes);
    ApplyEffects(pre, win, b[i], post, rw.nodes);
    if AllWellFormed(b) {
      ApplyWellFormed(b, i, rw);
    }
  }

  lemma ApplyRaws(pre: seq<Node>, win: seq<Node>, x: Node, post: seq<Node>, nodes: seq<Node>)
    requires x.Raw? && Raws(win) == [] && Raws(nodes) == []
    ensures Raws(pre + win + [x] + post) == Raws(pre) + [x.inst] + Raws(post)
    ensures Raws(pre + nodes + post) == Raws(pre) + Raws(post)
  {
    var a := pre + win;
    ConcatRaws(pre, win);
    assert Raws(win) == [];
    assert Raws(a) == Raws(pre);
    var ax := a + [x];
    ConcatRaws(a, [x]);
    assert Raws([x]) == [x.inst];
    ConcatRaws(ax, post);
    var c := pre + nodes;
    ConcatRaws(pre, nodes);
    assert Raws(c) == Raws(pre);
    ConcatRaws(c, post);
  }

  lemma ApplyEffects(pre: seq<Node>, win: seq<Node>, x: Node, post: seq<Node>, nodes: seq<Node>)
    requires Effects(nodes) == Effects(win) + Effect(x)
    ensures Effects(pre + nodes + post) == Effects(pre + win + [x] + post)
  {
    var a := pre + win;
    ConcatEffects(pre, win);
    var ax := a + [x];
    ConcatEffects(a, [x]);
    assert Effects([x]) == Effect(x);
    ConcatEffects(ax, post);
    var c := pre + nodes;
    ConcatEffects(pre, nodes);
    ConcatEffects(c, post);
  }

  lemma ApplyWellFormed(b: seq<Node>, i: nat, rw: Rewrite)
    requires Rewrites(b, i, rw) && AllWellFormed(b)
    ensures AllWellFormed(Apply(b, i, rw))
  {
    var win := b[rw.lo..i];
    assert AllWellFormed(win) by {
      assert forall k :: 0 <= k < |win| ==> win[k] == b[rw.lo + k];
    }
    var a := Apply(b, i, rw);
    forall k | 0 <= k < |a|
      ensures WellFormed(a[k])
    {
      if k < rw.lo {
        assert a[k] == b[k];
      } else if k < rw.lo + |rw.nodes| {
        assert a[k] == rw.nodes[k - rw.lo];
      } else {
        assert a[k] == b[k - rw.lo - |rw.nodes| + i + 1];
      }
    }
  }

  /** The first position at or after `from` whose loop body does not leave
      the block alone: the `break` after the first change, and the
      exception the first faulty instruction raises. */
  function FindStep(b: seq<Node>, from: nat, literals: seq<string>): (r: Result<Option<(nat, Rewrite)>>)
    decreases |b| - from
    ensures r.Ok? && r.value.Some? ==>
              && from <= r.value.value.0 < |b|
              && StepAt(b, r.value.value.0, literals) == Ok(Some(r.value.value.1))
    ensures r.Ok? && r.value.Some? ==>
              forall k :: from <= k < r.value.value.0 ==> StepAt(b, k, literals) == Ok(None)
    ensures r == Ok(None) <==> forall k :: from <= k < |b| ==> StepAt(b, k, literals) == Ok(None)
    ensures r.Err? ==>
              exists k :: && from <= k < |b|
                          && StepAt(b, k, literals) == Err(r.error)
                          && forall j :: from <= j < k ==> StepAt(b, j, literals) == Ok(None)
  {
    if from >= |b| then Ok(None)
    else
      var step :- StepAt(b, from, literals);
      match step
      case Some(rw) => Ok(Some((from, rw)))
      case None => FindStep(b, from + 1, literals)
  }

  /** The scan stops at the first position with something to do, and
      either raises there or rewrites there. */
  lemma {:induction false} FindStepFirst(b: seq<Node>, from: nat, i: nat, literals: seq<string>)
    requires from <= i < |b|
    requires forall k :: from <= k < i ==> StepAt(b, k, literals) == Ok(None)
    requires StepAt(b, i, literals) != Ok(None)
    ensures StepAt(b, i, literals).Err? ==> FindStep(b, from, literals) == Err(StepAt(b, i, literals).error)
    ensures StepAt(b, i, literals).Ok? ==> FindStep(b, from, literals) == Ok(Some((i, StepAt(b, i, literals).value.value)))
    decreases i - from
  {
    if from < i {
      FindStepFirst(b, from + 1, i, literals);
    }
  }

  /** No position of the block rewrites or raises: the state in which the
      `while loopchange` loop stops. */
  ghost predicate Settled(b: seq<Node>, literals: seq<string>) {
    forall i :: 0 <= i < |b| ==> !Fires(b, i, literals) && !(b[i].Raw? && Faulty(b[i].inst, literals))
  }

  /** `a` is `b` with some entries deleted. */
  ghost predicate SubSeq<T>(a: seq<T>, b: seq<T>)
    decreases |b|
  {
    if |a| == 0 then true
    else if |b| == 0 then false
    else (a[0] == b[0] && SubSeq(a[1..], b[1..])) || SubSeq(a, b[1..])
  }

  /** `_bblock_reduce(bblock, literals)`: rewrite the block round after
      round until nothing changes.

      It succeeds exactly when no raw instruction of the block is faulty;
      then the block it leaves is settled, holds no push, keeps the raw
      instructions it did not rewrite in their order, keeps the block's net
      stack effect, and is well formed when the block was. */
  function Reduce(b: seq<Node>, literals: seq<string>): (r: Result<seq<Node>>)
    decreases |Raws(b)|
    ensures r.Ok? <==> forall x :: x in Raws(b) ==> !Faulty(x, literals)
    ensures r.Ok? ==> Settled(r.value, literals)
    ensures r.Ok? ==> forall k :: 0 <= k < |r.value| && r.value[k].Raw? ==> !IsPush(r.value[k].inst)
    ensures r.Ok? ==> SubSeq(Raws(r.value), Raws(b))
    ensures r.Ok? ==> Effects(r.value) == Effects(b)
    ensures r.Ok? && AllWellFormed(b) ==> AllWellFormed(r.value)
  {
    var found := FindStep(b, 0, literals);
    RawsPositions(b);
    if found.Err? then
      var k :| 0 <= k < |b| && StepAt(b, k, literals).Err?;
      StepSpec(b, k, literals);
      Err(found.error)
    else if found.value.None? then
      SettledWhenNoStep(b, literals);
      SubSeqRefl(Raws(b));
      Ok(b)
    else
      var (i, rw) := found.value.value;
      StepSpec(b, i, literals);
      ApplyRewrite(b, i, rw);
      var next := Apply(b, i, rw);
      RoundKeeps(b, i, rw, literals);
      var r := Reduce(next, literals);
      if r.Err? then r
      else
        SubSeqTrans(Raws(r.value), Raws(next), Raws(b));
        r
  }

  lemma SettledWhenNoStep(b: seq<Node>, literals: seq<string>)
    requires forall k :: 0 <= k < |b| ==> StepAt(b, k, literals) == Ok(None)
    ensures Settled(b, literals)
    ensures forall x :: x in Raws(b) ==> !Faulty(x, literals)
    ensures forall k :: 0 <= k < |b| && b[k].Raw? ==> !IsPush(b[k].inst)
  {
    RawsPositions(b);
    forall k | 0 <= k < |b|
      ensures !Fires(b, k, literals) && !(b[k].Raw? && Faulty(b[k].inst, literals))
    {
      StepSpec(b, k, literals);
    }
  }

  /** A round's rewrite removes a sound instruction and keeps every other
      raw instruction, in order. */
  lemma RoundKeeps(b: seq<Node>, i: nat, rw: Rewrite, literals: seq<string>)
    requires i < |b| && Fires(b, i, literals) && Rewrites(b, i, rw)
    ensures |Raws(Apply(b, i, rw))| < |Raws(b)|
    ensures SubSeq(Raws(Apply(b, i, rw)), Raws(b))
    ensures forall x :: x in Raws(b) && Faulty(x, literals) ==> x in Raws(Apply(b, i, rw))
    ensures forall x :: x in Raws(Apply(b, i, rw)) ==> x in Raws(b)
  {
    ApplyRewrite(b, i, rw);
    SubSeqDrop(Raws(b[..rw.lo]), b[i].inst, Raws(b[i + 1..]));
  }

  lemma {:induction false} SubSeqRefl<T>(a: seq<T>)
    ensures SubSeq(a, a)
  {
    if |a| > 0 {
      SubSeqRefl(a[1..]);
    }
  }

  /** Deleting one entry gives a subsequence. */
  lemma {:induction false} SubSeqDrop<T>(x: seq<T>, z: T, y: seq<T>)
    ensures SubSeq(x + y, x + [z] + y)
  {
    if |x| == 0 {
      assert x + y == y;
      assert x + [z] + y == [z] + y;
      assert ([z] + y)[1..] == y;
      SubSeqRefl(y);
      assert |y| > 0 ==> SubSeq(y, ([z] + y)[1..]);
    } else {
      assert (x + y)[1..] == x[1..] + y;
      assert (x + [z] + y)[1..] == x[1..] + [z] + y;
      SubSeqDrop(x[1..], z, y);
    }
  }

  lemma {:induction false} SubSeqTrans<T>(a: seq<T>, b: seq<T>, c: seq<T>)
    requires SubSeq(a, b) && SubSeq(b, c)
    ensures SubSeq(a, c)
    decreases |c|
  {
    if |a| > 0 {
      if |c| > 0 {
        if b[0] == c[0] && SubSeq(b[1..], c[1..]) {
          if a[0] == b[0] && SubSeq(a[1..], b[1..]) {
            SubSeqTrans(a[1..], b[1..], c[1..]);
          } else {
            SubSeqTail(a, b);
            SubSeqTrans(a, b[1..], c[1..]);
          }
        } else {
          SubSeqTrans(a, b, c[1..]);
        }
      }
    }
  }

  /** Dropping the head of the longer sequence keeps a subsequence that
      did not use it. */
  lemma SubSeqTail<T>(a: seq<T>, b: seq<T>)
    requires |a| > 0 && |b| > 0 && SubSeq(a, b) && !(a[0] == b[0] && SubSeq(a[1..], b[1..]))
    ensures SubSeq(a, b[1..])
  {
  }

  /** Putting entries in front of the longer sequence keeps a subsequence. */
  lemma {:induction false} SubSeqPrefix<T>(a: seq<T>, p: seq<T>, b: seq<T>)
    requires SubSeq(a, b)
    ensures SubSeq(a, p + b)
    decreases |p|
  {
    if |p| > 0 && |a| > 0 {
      assert (p + b)[1..] == p[1..] + b;
      SubSeqPrefix(a, p[1..], b);
    } else if |p| == 0 {
      assert p + b == b;
    }
  }

  /** Subsequences of two sequences, put side by side, are a subsequence
      of the two put side by side. */
  lemma {:induction false} SubSeqConcat<T>(a1: seq<T>, b1: seq<T>, a2: seq<T>, b2: seq<T>)
    requires SubSeq(a1, b1) && SubSeq(a2, b2)
    ensures SubSeq(a1 + a2, b1 + b2)
    decreases |b1|
  {
    if |a1| == 0 {
      assert a1 + a2 == a2;
      SubSeqPrefix(a2, b1, b2);
    } else {
      var a := a1 + a2;
      var b := b1 + b2;
      assert |b1| > 0;
      assert b[1..] == b1[1..] + b2;
      if a1[0] == b1[0] && SubSeq(a1[1..], b1[1..]) {
        assert a[0] == b[0] && a[1..] == a1[1..] + a2;
        SubSeqConcat(a1[1..], b1[1..], a2, b2);
      } else {
        SubSeqConcat(a1, b1[1..], a2, b2);
      }
    }
  }

  /** One round of the reducer: nothing to do before `i`, the rewrite `rw`
      at `i`, and the block `next` it leaves. */
  ghost predicate Round(b: seq<Node>, literals: seq<string>, i: nat, rw: Rewrite, next: seq<Node>) {
    && i < |b|
    && rw.lo <= i
    && (forall k :: 0 <= k < i ==> StepAt(b, k, literals) == Ok(None))
    && StepAt(b, i, literals) == Ok(Some(rw))
    && Apply(b, i, rw) == next
  }

  /** A round of the scan decides the outcome: reducing the block is
      reducing what the round leaves. This ties the result of `Reduce` to
      the rewrites `StepAt` makes, one round at a time. */
  lemma RoundStep(b: seq<Node>, literals: seq<string>, i: nat, rw: Rewrite, next: seq<Node>)
    requires Round(b, literals, i, rw, next)
    ensures Reduce(b, literals) == Reduce(next, literals)
  {
    FindStepFirst(b, 0, i, literals);
  }

  /** A settled block is left as it is. */
  lemma ReduceSettled(b: seq<Node>, literals: seq<string>)
    requires Settled(b, literals)
    ensures Reduce(b, literals) == Ok(b)
  {
    forall k | 0 <= k < |b|
      ensures StepAt(b, k, literals) == Ok(None)
    {
      StepSpec(b, k, literals);
    }
  }

  /** Reducing twice is reducing once. */
  lemma ReduceIdempotent(b: seq<Node>, literals: seq<string>)
    requires Reduce(b, literals).Ok?
    ensures Reduce(Reduce(b, literals).value, literals) == Reduce(b, literals)
  {
    ReduceSettled(Reduce(b, literals).value, literals);
  }
}
