/** Operand readers (`getop`, `OPERANDS`, tcldis.py:15-36).

    Each operand kind of Tcl's `InstOperandType` (tclCompile.h) is read as a
    big-endian integer of one or four bytes taken off the front of the
    instruction's bytes: two's complement for INT1, INT4 and IDX4, unsigned
    for the others. NONE has no reader. */
module Operands {
  import opened Wrappers

  type byte = x: int | 0 <= x < 256

  /** The operand kinds, in the order of `InstOperandType`. */
  datatype OperandType = NONE | INT1 | INT4 | UINT1 | UINT4 | IDX4 | LVT1 | LVT4 | AUX4

  /** A decoded operand: its kind and its integer value. */
  datatype Operand = Operand(kind: OperandType, value: int)

  /** Number of bytes the kind's reader takes. */
  function Width(t: OperandType): nat {
    match t
    case NONE => 0
    case INT1 => 1
    case UINT1 => 1
    case LVT1 => 1
    case _ => 4
  }

  predicate IsSigned(t: OperandType) {
    t == INT1 || t == INT4 || t == IDX4
  }

  /** Least value the kind can hold. */
  function Lower(t: OperandType): int {
    match t
    case INT1 => -0x80
    case INT4 => -0x8000_0000
    case IDX4 => -0x8000_0000
    case _ => 0
  }

  /** One past the greatest value the kind can hold. */
  function Upper(t: OperandType): int {
    match t
    case NONE => 0
    case INT1 => 0x80
    case INT4 => 0x8000_0000
    case IDX4 => 0x8000_0000
    case UINT1 => 0x100
    case LVT1 => 0x100
    case _ => 0x1_0000_0000
  }

  function Pow256(n: nat): (r: nat)
    ensures r >= 1
  {
    if n == 0 then 1 else 256 * Pow256(n - 1)
  }

  /** The modulus of a kind: every kind other than NONE holds exactly
      `Pow256(Width(t))` consecutive values. */
  lemma RangeSpan(t: OperandType)
    requires t != NONE
    ensures Upper(t) - Lower(t) == Pow256(Width(t))
    ensures IsSigned(t) ==> Upper(t) == -Lower(t) == Pow256(Width(t)) / 2
    ensures !IsSigned(t) ==> Lower(t) == 0
  {
    assert Pow256(1) == 0x100;
    assert Pow256(4) == 0x1_0000_0000;
  }

  /** The unsigned big-endian number the bytes spell. */
  function BigEndian(bs: seq<byte>): (v: nat)
    ensures v < Pow256(|bs|)
  {
    if |bs| == 0 then 0
    else
      var hi := BigEndian(bs[..|bs| - 1]);
      assert hi + 1 <= Pow256(|bs| - 1);
      assert (hi + 1) * 256 <= Pow256(|bs| - 1) * 256;
      hi * 256 + bs[|bs| - 1]
  }

  /** The bytes that spell `v` big-endian in `n` bytes. */
  function ToBigEndian(v: nat, n: nat): (bs: seq<byte>)
    requires v < Pow256(n)
    ensures |bs| == n
  {
    if n == 0 then []
    else ToBigEndian(v / 256, n - 1) + [v % 256]
  }

  lemma {:induction false} BigEndianOfToBigEndian(v: nat, n: nat)
    requires v < Pow256(n)
    ensures BigEndian(ToBigEndian(v, n)) == v
  {
    if n > 0 {
      var bs := ToBigEndian(v, n);
      assert bs[..n - 1] == ToBigEndian(v / 256, n - 1);
      BigEndianOfToBigEndian(v / 256, n - 1);
    }
  }

  lemma {:induction false} ToBigEndianOfBigEndian(bs: seq<byte>)
    ensures ToBigEndian(BigEndian(bs), |bs|) == bs
  {
    if |bs| > 0 {
      var n := |bs|;
      var hi := BigEndian(bs[..n - 1]);
      assert BigEndian(bs) / 256 == hi;
      assert BigEndian(bs) % 256 == bs[n - 1];
      ToBigEndianOfBigEndian(bs[..n - 1]);
      assert bs == bs[..n - 1] + [bs[n - 1]];
    }
  }

  /** The value of a kind whose raw unsigned reading is `raw`. */
  function Interpret(t: OperandType, raw: nat): int
    requires t != NONE && raw < Pow256(Width(t))
  {
    if IsSigned(t) && raw >= Pow256(Width(t)) / 2 then raw - Pow256(Width(t)) else raw
  }

  /** `OPERANDS[t][1](bc)`: take `Width(t)` bytes off the front of `bs` and
      return the value together with the bytes that remain. */
  function ReadOperand(t: OperandType, bs: seq<byte>): (r: Result<(int, seq<byte>)>)
    ensures r.Ok? <==> t != NONE && Width(t) <= |bs|
    ensures r.Ok? ==> r.value.1 == bs[Width(t)..]
    ensures r.Ok? ==> Lower(t) <= r.value.0 < Upper(t)
    ensures r.Ok? ==> r.value.0 % Pow256(Width(t)) == BigEndian(bs[..Width(t)])
  {
    if t == NONE then Err(NoneOperand)
    else if |bs| < Width(t) then Err(Truncated)
    else
      var raw := BigEndian(bs[..Width(t)]);
      InterpretRange(t, raw);
      Ok((Interpret(t, raw), bs[Width(t)..]))
  }

  /** The value read lies in the kind's range and has the raw bytes as its
      residue. */
  lemma InterpretRange(t: OperandType, raw: nat)
    requires t != NONE && raw < Pow256(Width(t))
    ensures Lower(t) <= Interpret(t, raw) < Upper(t)
    ensures Interpret(t, raw) % Pow256(Width(t)) == raw
  {
    RangeSpan(t);
    var m := Pow256(Width(t));
    if Interpret(t, raw) < 0 {
      assert Interpret(t, raw) + m == raw;
    }
  }

  /** The bytes an operand of kind `t` and value `v` occupies. */
  function Encode(t: OperandType, v: int): (bs: seq<byte>)
    requires t != NONE && Lower(t) <= v < Upper(t)
    ensures |bs| == Width(t)
  {
    RangeSpan(t);
    ToBigEndian(v % Pow256(Width(t)), Width(t))
  }

  /** Reading an encoded operand gives back its value and exactly the bytes
      that followed it. */
  lemma ReadEncode(t: OperandType, v: int, rest: seq<byte>)
    requires t != NONE && Lower(t) <= v < Upper(t)
    ensures ReadOperand(t, Encode(t, v) + rest) == Ok((v, rest))
  {
    var w := Width(t);
    var m := Pow256(w);
    var bs := Encode(t, v) + rest;
    RangeSpan(t);
    assert bs[..w] == Encode(t, v);
    assert bs[w..] == rest;
    BigEndianOfToBigEndian(v % m, w);
    assert BigEndian(bs[..w]) == v % m;
    InterpretResidue(t, v);
  }

  /** Reading back the residue of an in-range value gives the value. */
  lemma InterpretResidue(t: OperandType, v: int)
    requires t != NONE && Lower(t) <= v < Upper(t)
    ensures v % Pow256(Width(t)) < Pow256(Width(t))
    ensures Interpret(t, v % Pow256(Width(t))) == v
  {
    RangeSpan(t);
    var m := Pow256(Width(t));
    if v < 0 {
      assert v % m == v + m;
    } else {
      assert v % m == v;
    }
  }

  /** Encoding the value read gives back exactly the bytes consumed. */
  lemma EncodeRead(t: OperandType, bs: seq<byte>)
    requires ReadOperand(t, bs).Ok?
    ensures Encode(t, ReadOperand(t, bs).value.0) == bs[..Width(t)]
  {
    var w := Width(t);
    ToBigEndianOfBigEndian(bs[..w]);
  }
}
