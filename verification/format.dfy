/** Formatting (the `fmt` methods, tcldis.py:74-127, and `_bblock_format`,
    tcldis.py:287-295).

    A reduced node prints as the Tcl text it stands for: a literal as its
    text, a variable reference as `$name`, an array reference as
    `$name(key)`, a call as its words in brackets, and an ignored call as
    the call without its brackets. Raw instructions are left as they are. */
module Format {
  import opened Wrappers
  import opened Slices
  import opened Instructions
  import opened Reduction

  /** `sep.join(ws)` */
  function Join(ws: seq<string>, sep: string): (r: string)
    ensures |ws| == 0 ==> r == ""
  {
    if |ws| == 0 then ""
    else if |ws| == 1 then ws[0]
    else ws[0] + sep + Join(ws[1..], sep)
  }

  /** The nodes that have a `fmt` tcldis.py can call: values and
      ignored calls (a jump's `fmt` is its debugging representation). */
  predicate Printable(n: Node) {
    IsValue(n) || n.IgnoredProcCall?
  }

  /** `n.fmt()` */
  function Fmt(n: Node): string
    requires WellFormed(n) && Printable(n)
    decreases n
  {
    match n
    case Literal(t) => t
    case VarRef(a) => "$" + Fmt(a)
    case ArrayRef(a, k) => "$" + Fmt(a) + "(" + Fmt(k) + ")"
    case ProcCall(ws) => "[" + Join(FmtWords(n, ws), " ") + "]"
    case IgnoredProcCall(c) => Slice(Fmt(c), 1, -1)
  }

  /** The texts of a call's words. */
  function FmtWords(parent: Node, ws: seq<Node>): (r: seq<string>)
    requires parent.ProcCall? && WellFormed(parent)
    requires forall w :: w in ws ==> w in parent.words
    ensures |r| == |ws|
    decreases parent, |ws|
  {
    if |ws| == 0 then []
    else
      assert ws[0] in parent.words;
      assert forall w :: w in ws[1..] ==> w in ws;
      [Fmt(ws[0])] + FmtWords(parent, ws[1..])
  }

  /** Strip the brackets off a call's text: an ignored call prints as the
      words of its call. */
  lemma IgnoredCallText(n: Node)
    requires n.IgnoredProcCall? && WellFormed(n)
    ensures Fmt(n) == Join(FmtWords(n.call, n.call.words), " ")
  {
    var body := Join(FmtWords(n.call, n.call.words), " ");
    assert Fmt(n.call) == ['['] + body + [']'];
    StripEnds('[', body, ']');
  }

  // ---------------------------------------------------------------------
  // Reading the text back
  // ---------------------------------------------------------------------

  /** Characters a bare word may hold without being mistaken for a
      separator, a substitution or a bracket. */
  predicate PlainChar(c: char) {
    c != ' ' && c != '$' && c != '[' && c != ']' && c != '(' && c != ')'
  }

  predicate PlainWord(t: string) {
    |t| > 0 && forall k :: 0 <= k < |t| ==> PlainChar(t[k])
  }

  /** What can stand after `$`: a bare name or a bracketed call. */
  predicate IsName(n: Node) {
    n.Literal? || n.ProcCall?
  }

  /** The shape of node the printed text determines: literals are bare
      words and variables are named by a bare word or a call. */
  predicate Simple(n: Node) {
    match n
    case Raw(_) => false
    case Literal(t) => PlainWord(t)
    case VarRef(a) => IsName(a) && Simple(a)
    case ArrayRef(a, k) => IsName(a) && Simple(a) && Simple(k)
    case ProcCall(ws) => forall w :: w in ws ==> Simple(w)
    case IgnoredProcCall(c) => Simple(c)
    case Jump(_, _, _) => false
  }

  predicate Plain(n: Node) {
    WellFormed(n) && Simple(n)
  }

  /** Length of the longest run of plain characters at the front of `s`. */
  function TakePlain(s: string): (n: nat)
    ensures n <= |s|
  {
    if |s| == 0 || !PlainChar(s[0]) then 0 else 1 + TakePlain(s[1..])
  }

  function ParseLiteral(s: string): (r: Option<(Node, string)>)
    ensures r.Some? ==> |r.value.1| < |s|
  {
    var n := TakePlain(s);
    if n == 0 then None else Some((Literal(s[..n]), s[n..]))
  }

  /** Read one word off the front of `s`; give it back with what follows. */
  function ParseWord(s: string): (r: Option<(Node, string)>)
    decreases |s|, 1
    ensures r.Some? ==> |r.value.1| < |s|
  {
    if |s| == 0 then None
    else if s[0] == '[' then
      match ParseWords(s[1..])
      case None => None
      case Some((ws, rest)) =>
        if |rest| > 0 && rest[0] == ']' then Some((ProcCall(ws), rest[1..])) else None
    else if s[0] == '$' then
      match ParseName(s[1..])
      case None => None
      case Some((a, rest)) =>
        if |rest| > 0 && rest[0] == '(' then
          match ParseWord(rest[1..])
          case None => None
          case Some((k, rest2)) =>
            if |rest2| > 0 && rest2[0] == ')' then Some((ArrayRef(a, k), rest2[1..])) else None
        else Some((VarRef(a), rest))
    else ParseLiteral(s)
  }

  /** The name after a `$`. */
  function ParseName(s: string): (r: Option<(Node, string)>)
    decreases |s|, 2
    ensures r.Some? ==> |r.value.1| < |s|
  {
    if |s| > 0 && s[0] == '$' then None else ParseWord(s)
  }

  /** Read words separated by single spaces, up to the end of `s` or a
      closing bracket. */
  function ParseWords(s: string): (r: Option<(seq<Node>, string)>)
    decreases |s|, 2
    ensures r.Some? ==> |r.value.1| <= |s|
  {
    if |s| == 0 || s[0] == ']' then Some(([], s))
    else
      match ParseWord(s)
      case None => None
      case Some((w, rest)) =>
        if |rest| > 0 && rest[0] == ' ' then
          match ParseWords(rest[1..])
          case None => None
          case Some((ws, rest2)) => Some(([w] + ws, rest2))
        else Some(([w], rest))
  }

  /** The words of a whole line. */
  function ParseCommand(s: string): Option<seq<Node>> {
    match ParseWords(s)
    case Some((ws, rest)) => if |rest| == 0 then Some(ws) else None
    case None => None
  }

  /** What may follow a word's text without running into it. */
  predicate Ends(n: Node, rest: string) {
    |rest| == 0 || (!PlainChar(rest[0]) && (n.VarRef? ==> rest[0] != '('))
  }

  lemma {:induction false} TakePlainWord(t: string, rest: string)
    requires PlainWord(t) && (|rest| == 0 || !PlainChar(rest[0]))
    ensures TakePlain(t + rest) == |t|
    decreases |t|
  {
    var s := t + rest;
    if |t| > 1 {
      assert s[1..] == t[1..] + rest;
      TakePlainWord(t[1..], rest);
    } else {
      assert s[1..] == rest;
    }
  }

  /** A plain value's text is not empty and starts with `$`, `[` or a
      plain character. */
  lemma FmtStart(n: Node)
    requires Plain(n) && IsValue(n)
    ensures |Fmt(n)| > 0
    ensures Fmt(n)[0] == '$' || Fmt(n)[0] == '[' || PlainChar(Fmt(n)[0])
  {
  }

  /** Reading a plain value's text gives back the value and exactly the
      text that followed it. */
  lemma {:induction false} ParseFmt(n: Node, rest: string)
    requires Plain(n) && IsValue(n) && Ends(n, rest)
    ensures ParseWord(Fmt(n) + rest) == Some((n, rest))
    decreases n, 2
  {
    match n
    case Literal(t) =>
      TakePlainWord(t, rest);
      assert (t + rest)[..|t|] == t;
      assert (t + rest)[|t|..] == rest;
    case ProcCall(ws) => ParseCallFmt(n, rest);
    case VarRef(a) => ParseVarFmt(n, rest);
    case ArrayRef(a, k) => ParseArrayFmt(n, rest);
  }

  lemma {:induction false} ParseCallFmt(n: Node, rest: string)
    requires n.ProcCall? && Plain(n)
    ensures ParseWord(Fmt(n) + rest) == Some((n, rest))
    decreases n, 1
  {
    var body := Join(FmtWords(n, n.words), " ");
    assert Fmt(n) + rest == "[" + (body + ("]" + rest));
    assert ("[" + (body + ("]" + rest)))[1..] == body + ("]" + rest);
    ParseFmtWords(n, n.words, "]" + rest);
  }

  lemma {:induction false} ParseVarFmt(n: Node, rest: string)
    requires n.VarRef? && Plain(n) && Ends(n, rest)
    ensures ParseWord(Fmt(n) + rest) == Some((n, rest))
    decreases n, 1
  {
    var a := n.name;
    var s := "$" + (Fmt(a) + rest);
    assert Fmt(n) + rest == s;
    assert s[1..] == Fmt(a) + rest;
    FmtStart(a);
    assert (Fmt(a) + rest)[0] == Fmt(a)[0];
    ParseFmt(a, rest);
    ParseDollar(s, a, rest);
  }

  lemma {:induction false} ParseArrayFmt(n: Node, rest: string)
    requires n.ArrayRef? && Plain(n)
    ensures ParseWord(Fmt(n) + rest) == Some((n, rest))
    decreases n, 1
  {
    var a, k := n.base, n.key;
    var tail := ")" + rest;
    var after := "(" + (Fmt(k) + tail);
    var s := "$" + (Fmt(a) + after);
    assert Fmt(n) + rest == s;
    assert s[1..] == Fmt(a) + after;
    FmtStart(a);
    assert (Fmt(a) + after)[0] == Fmt(a)[0];
    ParseFmt(a, after);
    assert after[1..] == Fmt(k) + tail;
    ParseFmt(k, tail);
    ParseDollar(s, a, after);
  }

  /** A `$` and a name, and what follows the name. */
  lemma ParseDollar(s: string, a: Node, rest: string)
    requires |s| > 0 && s[0] == '$' && ParseName(s[1..]) == Some((a, rest))
    ensures |rest| > 0 && rest[0] == '(' ==>
              ParseWord(s) == match ParseWord(rest[1..])
                              case None => None
                              case Some((k, rest2)) =>
                                if |rest2| > 0 && rest2[0] == ')' then Some((ArrayRef(a, k), rest2[1..])) else None
    ensures !(|rest| > 0 && rest[0] == '(') ==> ParseWord(s) == Some((VarRef(a), rest))
  {
  }

  /** Reading the words of a plain call's text gives back its words. */
  lemma {:induction false} ParseFmtWords(parent: Node, ws: seq<Node>, rest: string)
    requires parent.ProcCall? && Plain(parent)
    requires forall w :: w in ws ==> w in parent.words
    requires |rest| == 0 || rest[0] == ']'
    ensures ParseWords(Join(FmtWords(parent, ws), " ") + rest) == Some((ws, rest))
    decreases parent, 0, |ws|
  {
    if |ws| == 0 {
      assert Join(FmtWords(parent, ws), " ") + rest == rest;
    } else if |ws| == 1 {
      ParseLastWord(parent, ws, rest);
    } else {
      ParseNextWord(parent, ws, rest);
    }
  }

  lemma {:induction false} ParseLastWord(parent: Node, ws: seq<Node>, rest: string)
    requires parent.ProcCall? && Plain(parent)
    requires |ws| == 1 && ws[0] in parent.words
    requires |rest| == 0 || rest[0] == ']'
    ensures ParseWords(Join(FmtWords(parent, ws), " ") + rest) == Some((ws, rest))
    decreases parent, 0, 0
  {
    var w := ws[0];
    FmtStart(w);
    var s := Fmt(w) + rest;
    assert FmtWords(parent, ws) == [Fmt(w)];
    assert Join(FmtWords(parent, ws), " ") + rest == s;
    assert s[0] == Fmt(w)[0];
    ParseFmt(w, rest);
    ParseWordsStep(s, w, rest);
    assert ws == [w];
  }

  lemma {:induction false} ParseNextWord(parent: Node, ws: seq<Node>, rest: string)
    requires parent.ProcCall? && Plain(parent)
    requires |ws| > 1 && forall w :: w in ws ==> w in parent.words
    requires |rest| == 0 || rest[0] == ']'
    ensures ParseWords(Join(FmtWords(parent, ws), " ") + rest) == Some((ws, rest))
    decreases parent, 0, |ws|, 0
  {
    var w := ws[0];
    assert w in parent.words;
    FmtStart(w);
    var texts := FmtWords(parent, ws);
    assert forall v :: v in ws[1..] ==> v in ws;
    var more := Join(FmtWords(parent, ws[1..]), " ");
    assert texts == [Fmt(w)] + FmtWords(parent, ws[1..]);
    var after := " " + (more + rest);
    var s := Fmt(w) + after;
    assert Join(texts, " ") + rest == s;
    assert s[0] == Fmt(w)[0];
    ParseFmt(w, after);
    assert after[1..] == more + rest;
    ParseFmtWords(parent, ws[1..], rest);
    ParseWordsStep(s, w, after);
    assert [w] + ws[1..] == ws;
  }

  /** One word of a list, and what comes after it. */
  lemma ParseWordsStep(s: string, w: Node, after: string)
    requires |s| > 0 && s[0] != ']' && ParseWord(s) == Some((w, after))
    ensures |after| > 0 && after[0] == ' ' ==>
              ParseWords(s) == match ParseWords(after[1..])
                               case None => None
                               case Some((ws, rest)) => Some(([w] + ws, rest))
    ensures !(|after| > 0 && after[0] == ' ') ==> ParseWords(s) == Some(([w], after))
  {
  }

  /** Plain values print differently. */
  lemma FmtInjective(n: Node, m: Node)
    requires Plain(n) && IsValue(n) && Plain(m) && IsValue(m)
    requires Fmt(n) == Fmt(m)
    ensures n == m
  {
    ParseFmt(n, "");
    ParseFmt(m, "");
    assert Fmt(n) + "" == Fmt(n);
    assert Fmt(m) + "" == Fmt(m);
  }

  /** An ignored plain call prints as a command line whose words read back
      as the call's words. */
  lemma ParseIgnoredCall(n: Node)
    requires n.IgnoredProcCall? && Plain(n)
    ensures ParseCommand(Fmt(n)) == Some(n.call.words)
  {
    IgnoredCallText(n);
    var body := Join(FmtWords(n.call, n.call.words), " ");
    ParseFmtWords(n.call, n.call.words, "");
    assert body + "" == body;
  }

  // ---------------------------------------------------------------------
  // Whole blocks (tcldis.py:287-295)
  // ---------------------------------------------------------------------

  /** An entry of a formatted block: the text of a node, a raw instruction
      left as it was, or a conditional jump, whose `fmt` is only its
      debugging representation and is kept as the structure it shows. */
  datatype Line = Text(text: string) | Unformatted(inst: Inst) | JumpLine(on: bool, cond: Node, target: Target)

  function FormatNode(n: Node): Line
    requires WellFormed(n)
  {
    match n
    case Raw(inst) => Unformatted(inst)
    case Jump(on, c, t) => JumpLine(on, c, t)
    case _ => Text(Fmt(n))
  }

  /** `_bblock_format(bblock)`: each node in place of its text; the block
      keeps its length and every raw instruction keeps its position. */
  function FormatBlock(b: seq<Node>): (r: seq<Line>)
    requires AllWellFormed(b)
    ensures |r| == |b|
    ensures forall k, inst :: 0 <= k < |b| ==> (r[k] == Unformatted(inst) <==> b[k] == Raw(inst))
    ensures forall k :: 0 <= k < |b| && Printable(b[k]) ==> r[k] == Text(Fmt(b[k]))
  {
    if |b| == 0 then []
    else [FormatNode(b[0])] + FormatBlock(b[1..])
  }

  /** The raw instructions a formatted block still shows, in order. */
  function Unformatteds(lines: seq<Line>): seq<Inst> {
    if |lines| == 0 then []
    else (if lines[0].Unformatted? then [lines[0].inst] else []) + Unformatteds(lines[1..])
  }

  /** Formatting shows exactly the raw instructions the block held. */
  lemma {:induction false} FormatKeepsRaws(b: seq<Node>)
    requires AllWellFormed(b)
    ensures Unformatteds(FormatBlock(b)) == Raws(b)
  {
    if |b| > 0 {
      var r := FormatBlock(b);
      assert r[1..] == FormatBlock(b[1..]);
      FormatKeepsRaws(b[1..]);
    }
  }
}
