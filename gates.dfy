/** The nine gate kinds of the simulator (`oper` 0..8 of `struct line`), the bit
    functions `myNot` .. `myXnor`, and the two multi-bit gates `myDecoder` and
    `myMultiplexer`. */
module Gates {
  import opened Bits
  import opened Gray

  /** `oper`: 0 NOT, 1 AND, 2 OR, 3 NAND, 4 NOR, 5 XOR, 6 XNOR, 7 DECODER, 8 MULTIPLEXER. */
  datatype Op = Not | And | Or | Nand | Nor | Xor | Xnor | Decoder | Multiplexer
  {
    predicate IsBinary() { !(Not? || Decoder? || Multiplexer?) }
  }

  /** One `struct line`: the gate kind and the names it reads and writes.
      For a multiplexer `inputs` are the selects and `multi` the encoding
      signals; every other gate has no `multi`. */
  datatype Gate = Gate(op: Op, inputs: seq<string>, outputs: seq<string>, multi: seq<string>)

  /** The operand counts each gate kind is built with. */
  predicate WellFormed(g: Gate)
  {
    match g.op
    case Not => |g.inputs| == 1 && |g.outputs| == 1 && g.multi == []
    case Decoder => |g.outputs| == Pow2(|g.inputs|) && g.multi == []
    case Multiplexer => |g.outputs| == 1 && |g.multi| == Pow2(|g.inputs|)
    case _ => |g.inputs| == 2 && |g.outputs| == 1 && g.multi == []
  }

  /** The names whose values a gate reads: its inputs and, for a multiplexer,
      the `1 << num_inputs` encoding signals. */
  function Reads(g: Gate): seq<string>
  {
    g.inputs + (if g.op == Multiplexer then g.multi else [])
  }

  function MyNot(x: Bit): Bit
  {
    if x == 0 then 1 else 0
  }

  function MyAnd(x: Bit, y: Bit): Bit
  {
    Bits.And(x, y)
  }

  function MyOr(x: Bit, y: Bit): Bit
  {
    Bits.Or(x, y)
  }

  function MyNand(x: Bit, y: Bit): Bit
  {
    MyNot(MyAnd(x, y))
  }

  function MyNor(x: Bit, y: Bit): Bit
  {
    MyNot(MyOr(x, y))
  }

  function MyXor(x: Bit, y: Bit): Bit
  {
    Bits.Xor(x, y)
  }

  function MyXnor(x: Bit, y: Bit): Bit
  {
    MyNot(MyXor(x, y))
  }

  /** The function of a two-input gate (opcodes 1 to 6). */
  function Binary(op: Op, x: Bit, y: Bit): Bit
    requires op.IsBinary()
  {
    match op
    case And => MyAnd(x, y)
    case Or => MyOr(x, y)
    case Nand => MyNand(x, y)
    case Nor => MyNor(x, y)
    case Xor => MyXor(x, y)
    case Xnor => MyXnor(x, y)
  }

  /** On 0/1 values each gate function is its Boolean connective. */
  lemma TruthTables(x: Bit, y: Bit)
    ensures MyNot(x) == 1 <==> x == 0
    ensures MyNot(MyNot(x)) == x
    ensures MyAnd(x, y) == 1 <==> x == 1 && y == 1
    ensures MyOr(x, y) == 1 <==> x == 1 || y == 1
    ensures MyXor(x, y) == 1 <==> x != y
    ensures MyNand(x, y) == 1 <==> !(x == 1 && y == 1)
    ensures MyNor(x, y) == 1 <==> !(x == 1 || y == 1)
    ensures MyXnor(x, y) == 1 <==> x == y
  {
  }

  /** `myDecoder`: builds the select word, the first input most significant,
      and converts it from Gray code; the result indexes one of the 2^n outputs. */
  method MyDecoder(ins: seq<Bit>) returns (idx: nat)
    ensures idx == GrayToBinary(SelectCode(ins))
    ensures idx < Pow2(|ins|)
  {
    var code: nat := 0;
    for i := 0 to |ins|
      invariant code == SelectCode(ins[..i])
    {
      assert ins[..i + 1][..i] == ins[..i];
      code := code * 2;
      code := code + ins[i];
    }
    assert ins[..|ins|] == ins;
    idx := GrayToBinaryLoop(code);
    GrayToBinaryBound(code, |ins|);
  }

  /** `myMultiplexer`: the encoding value at the converted select word. */
  method MyMultiplexer(encoding: seq<Bit>, ins: seq<Bit>) returns (r: Bit)
    requires |encoding| == Pow2(|ins|)
    ensures GrayToBinary(SelectCode(ins)) < |encoding|
    ensures r == encoding[GrayToBinary(SelectCode(ins))]
  {
    var code: nat := 0;
    for i := 0 to |ins|
      invariant code == SelectCode(ins[..i])
    {
      assert ins[..i + 1][..i] == ins[..i];
      code := code * 2;
      code := code + ins[i];
    }
    assert ins[..|ins|] == ins;
    var idx := GrayToBinaryLoop(code);
    GrayToBinaryBound(code, |ins|);
    r := encoding[idx];
  }

  /** A two-select decoder fed 1, 1 (Gray word 3) selects output 2. */
  lemma DecoderSelectsGrayIndex()
    ensures GrayToBinary(SelectCode([1, 1])) == 2
  {
    var s: seq<Bit> := [1, 1];
    assert s[..1] == [1];
    assert [1][..0] == [];
    assert SelectCode(s) == 3;
    assert GrayToBinary(3) == Bits.Xor(3, GrayToBinary(1));
  }

  /** With one select, 0 picks the first encoding signal and 1 the second. */
  lemma OneSelectMultiplexer()
    ensures GrayToBinary(SelectCode([0])) == 0
    ensures GrayToBinary(SelectCode([1])) == 1
  {
    assert [0][..0] == [] && [1][..0] == [];
  }
}
