/** The gates and the operation record (`OperationBC` and the partials AND, OR, NOT,
    NAND, NOR, XOR, XNOR of src/truth_table.py). */
module Gates {
  import opened Common

  datatype Gate = And | Or | Not | Nand | Nor | Xor | Xnor

  /** The `gate_name` each partial fixes. */
  function GateName(g: Gate): string
  {
    match g
    case And => "AND"
    case Or => "OR"
    case Not => "NOT"
    case Nand => "NAND"
    case Nor => "NOR"
    case Xor => "XOR"
    case Xnor => "XNOR"
  }

  /** NOT's one-argument callable, `int(not x)`. */
  function Negate(x: Bit): (r: Bit)
    ensures r == 1 - x
  {
    if x == 0 then 1 else 0
  }

  /** The two-argument callables of the six binary gates, each compared with its
      arithmetic form on 0/1. */
  function Apply(g: Gate, x: Bit, y: Bit): (r: Bit)
    requires g != Not
    ensures g == And ==> r == x * y
    ensures g == Or ==> r == x + y - x * y
    ensures g == Nand ==> r == 1 - x * y
    ensures g == Nor ==> r == 1 - (x + y - x * y)
    ensures g == Xor ==> r == (x + y) % 2
    ensures g == Xnor ==> r == (x + y + 1) % 2
  {
    match g
    case And => if x == 1 && y == 1 then 1 else 0
    case Or => if x == 1 || y == 1 then 1 else 0
    case Nand => if !(x == 1 && y == 1) then 1 else 0
    case Nor => if !(x == 1 || y == 1) then 1 else 0
    case Xor => if x != y then 1 else 0
    case Xnor => if x == y then 1 else 0
  }

  /** The loop of `do`: `temp := op(temp, val)` for each remaining value. */
  function Fold(g: Gate, acc: Bit, rest: seq<Bit>): Bit
    requires g != Not
    decreases |rest|
  {
    if |rest| == 0 then acc else Fold(g, Apply(g, acc, rest[0]), rest[1..])
  }

  /** `OperationBC.do`: start from the first value and fold the gate over the rest.
      An empty list fails at `values[0]`; NOT's callable takes one argument, so NOT
      only succeeds when the loop body never runs, returning the value unchanged. */
  function Do(g: Gate, values: seq<Bit>): (r: Result<Bit, Error>)
    ensures r.Failure? <==> |values| == 0 || (g == Not && |values| >= 2)
    ensures |values| == 0 ==> r == Failure(EmptyOperands)
    ensures g == Not && |values| >= 2 ==> r == Failure(NotArity(|values|))
    ensures |values| == 1 ==> r == Success(values[0])
  {
    if |values| == 0 then Failure(EmptyOperands)
    else if g == Not then
      (if |values| == 1 then Success(values[0]) else Failure(NotArity(|values|)))
    else Success(Fold(g, values[0], values[1..]))
  }

  /** Number of ones in a 0/1 sequence. */
  function Sum(s: seq<Bit>): nat
  {
    if |s| == 0 then 0 else s[0] + Sum(s[1..])
  }

  /** Folding over one more value applies the gate once more at the end. */
  lemma {:induction false} FoldSnoc(g: Gate, acc: Bit, rest: seq<Bit>, v: Bit)
    requires g != Not
    ensures Fold(g, acc, rest + [v]) == Apply(g, Fold(g, acc, rest), v)
    decreases |rest|
  {
    if |rest| == 0 {
      assert Fold(g, Apply(g, acc, v), []) == Apply(g, acc, v);
    } else {
      assert (rest + [v])[1..] == rest[1..] + [v];
      FoldSnoc(g, Apply(g, acc, rest[0]), rest[1..], v);
    }
  }

  /** `do` is a left fold: AND(a, b, c) = AND(AND(a, b), c), and so on. */
  lemma DoIsLeftFold(g: Gate, values: seq<Bit>, v: Bit)
    requires g != Not && |values| >= 1
    ensures Do(g, values + [v]) == Success(Apply(g, Do(g, values).value, v))
  {
    assert (values + [v])[1..] == values[1..] + [v];
    FoldSnoc(g, values[0], values[1..], v);
  }

  lemma {:induction false} FoldAnd(acc: Bit, rest: seq<Bit>)
    ensures Fold(And, acc, rest) == 1 <==> acc == 1 && forall i :: 0 <= i < |rest| ==> rest[i] == 1
    decreases |rest|
  {
    if |rest| > 0 {
      FoldAnd(Apply(And, acc, rest[0]), rest[1..]);
      assert forall i :: 1 <= i < |rest| ==> rest[i] == rest[1..][i - 1];
    }
  }

  lemma {:induction false} FoldOr(acc: Bit, rest: seq<Bit>)
    ensures Fold(Or, acc, rest) == 0 <==> acc == 0 && forall i :: 0 <= i < |rest| ==> rest[i] == 0
    decreases |rest|
  {
    if |rest| > 0 {
      FoldOr(Apply(Or, acc, rest[0]), rest[1..]);
      assert forall i :: 1 <= i < |rest| ==> rest[i] == rest[1..][i - 1];
    }
  }

  lemma {:induction false} FoldXor(acc: Bit, rest: seq<Bit>)
    ensures Fold(Xor, acc, rest) == (acc + Sum(rest)) % 2
    decreases |rest|
  {
    if |rest| > 0 {
      FoldXor(Apply(Xor, acc, rest[0]), rest[1..]);
    }
  }

  lemma {:induction false} FoldXnor(acc: Bit, rest: seq<Bit>)
    ensures Fold(Xnor, acc, rest) == (acc + Sum(rest) + |rest|) % 2
    decreases |rest|
  {
    if |rest| > 0 {
      FoldXnor(Apply(Xnor, acc, rest[0]), rest[1..]);
    }
  }

  /** n-ary AND is 1 exactly when every value is 1. */
  lemma DoAnd(values: seq<Bit>)
    requires |values| >= 1
    ensures Do(And, values) == Success(1) <==> forall i :: 0 <= i < |values| ==> values[i] == 1
  {
    FoldAnd(values[0], values[1..]);
    assert forall i :: 1 <= i < |values| ==> values[i] == values[1..][i - 1];
  }

  /** n-ary OR is 0 exactly when every value is 0. */
  lemma DoOr(values: seq<Bit>)
    requires |values| >= 1
    ensures Do(Or, values) == Success(0) <==> forall i :: 0 <= i < |values| ==> values[i] == 0
  {
    FoldOr(values[0], values[1..]);
    assert forall i :: 1 <= i < |values| ==> values[i] == values[1..][i - 1];
  }

  /** n-ary XOR is the parity of the number of ones. */
  lemma {:induction false} DoXor(values: seq<Bit>)
    requires |values| >= 1
    ensures Do(Xor, values) == Success(Sum(values) % 2)
  {
    FoldXor(values[0], values[1..]);
    assert Sum(values) == values[0] + Sum(values[1..]);
  }

  /** n-ary XNOR by left fold is the parity of (ones + values - 1): it is not the
      complement of n-ary XOR when the number of values is odd. */
  lemma {:induction false} DoXnor(values: seq<Bit>)
    requires |values| >= 1
    ensures Do(Xnor, values) == Success((Sum(values) + |values| - 1) % 2)
  {
    assert Do(Xnor, values) == Success(Fold(Xnor, values[0], values[1..]));
    FoldXnor(values[0], values[1..]);
    assert Sum(values) + |values| - 1 == values[0] + Sum(values[1..]) + |values[1..]|;
  }

  /** On two 0/1 values the inverted gates are complements of their partners
      and every result is 0 or 1. */
  lemma ComplementGates(x: Bit, y: Bit)
    ensures Apply(Nand, x, y) == 1 - Apply(And, x, y)
    ensures Apply(Nor, x, y) == 1 - Apply(Or, x, y)
    ensures Apply(Xnor, x, y) == 1 - Apply(Xor, x, y)
    ensures Apply(And, x, y) == 1 <==> x == 1 && y == 1
    ensures Apply(Or, x, y) == 0 <==> x == 0 && y == 0
    ensures Apply(Xor, x, y) == 1 <==> x != y
  {
  }

  /** Left-folded NAND over three values is not the complement of three-way AND. */
  lemma NandFoldIsNotNegatedAnd()
    ensures Do(Nand, [1, 1, 1]) == Success(1)
    ensures Do(And, [1, 1, 1]) == Success(1)
    ensures Do(Nand, [1, 1, 1]).value != 1 - Do(And, [1, 1, 1]).value
  {
    assert Fold(Nand, 1, [1, 1]) == Fold(Nand, 0, [1]) == 1;
    assert Fold(And, 1, [1, 1]) == Fold(And, 1, [1]) == 1;
  }

  /** An operation: its referenced column names (already split on "|"), its gate,
      and its optional `header`. */
  datatype Operation = Operation(inputs: seq<string>, gate: Gate, header: Option<string>)

  /** `''.join(inputs)`. */
  function Concat(names: seq<string>): (s: string)
    ensures s == "" <==> forall j :: 0 <= j < |names| ==> names[j] == ""
  {
    if |names| == 0 then "" else names[0] + Concat(names[1..])
  }

  /** `__str__`: the gate name followed by the input names run together. */
  function Label(op: Operation): (s: string)
    ensures |s| >= |GateName(op.gate)| > 0
    ensures s[..|GateName(op.gate)|] == GateName(op.gate)
    ensures s[|GateName(op.gate)|..] == Concat(op.inputs)
  {
    GateName(op.gate) + Concat(op.inputs)
  }

  /** `header_name`: `header or str(self)`, so a missing or empty header falls back
      to the generated label. */
  function HeaderName(op: Operation): (s: string)
    ensures |s| > 0
    ensures op.header.Some? && op.header.value != "" ==> s == op.header.value
    ensures op.header.None? || op.header.value == "" ==> s == Label(op)
  {
    if op.header.Some? && op.header.value != "" then op.header.value else Label(op)
  }

  /** The generated label does not separate input names, so different operations
      can share it. */
  lemma GeneratedLabelsCollide()
    ensures Label(Operation(["A", "BC"], And, None)) == Label(Operation(["AB", "C"], And, None))
  {
    assert Concat(["A", "BC"]) == "ABC";
    assert Concat(["AB", "C"]) == "ABC";
  }
}
