/** `Table` of src/truth_table.py: the stored (input) columns, the derived columns
    evaluated in declaration order against a growing name -> column index, and the
    header list. */
module TruthTable {
  import opened Common
  import opened Binary
  import opened Gates
  import opened Columns

  /** Index keys: inputs are registered under Some(name), derived columns under
      their `header`, which may be None. */
  type Key = Option<string>
  type Column = seq<Bit>
  type Index = map<Key, Column>

  /** The state the constructor threads through its loops: `columns`,
      `columns_index`, and the key each column was registered under. */
  datatype Build = Build(columns: seq<Column>, index: Index, names: seq<Key>)

  /** A constructed table: `inputs`, `derived`, `columns`, `columns_index`, `names`. */
  datatype Table = Table(
    inputs: seq<string>,
    derived: seq<Operation>,
    columns: seq<Column>,
    index: Index,
    names: seq<Key>)

  // ----- the index as a sequence of registrations -----

  /** The index a run of registrations leaves behind, one assignment
      `columns_index[name] = column` after another. */
  function Registered(names: seq<Key>, columns: seq<Column>): Index
    requires |names| == |columns|
    decreases |names|
  {
    if |names| == 0 then map[]
    else Registered(names[..|names| - 1], columns[..|columns| - 1])[names[|names| - 1] := columns[|columns| - 1]]
  }

  function KeySet(names: seq<Key>): set<Key>
  {
    set key | key in names
  }

  /** Exactly the registered names are keys of the index. */
  lemma {:induction false} RegisteredKeys(names: seq<Key>, columns: seq<Column>)
    requires |names| == |columns|
    ensures Registered(names, columns).Keys == KeySet(names)
    decreases |names|
  {
    if |names| > 0 {
      var last := |names| - 1;
      RegisteredKeys(names[..last], columns[..last]);
      assert names == names[..last] + [names[last]];
    }
  }

  /** A name maps to the column of its last registration: a duplicate name
      overwrites the earlier entry. */
  lemma {:induction false} RegisteredLast(names: seq<Key>, columns: seq<Column>, p: nat)
    requires |names| == |columns| && p < |names|
    requires forall q :: p < q < |names| ==> names[q] != names[p]
    ensures names[p] in Registered(names, columns)
    ensures Registered(names, columns)[names[p]] == columns[p]
    decreases |names|
  {
    var last := |names| - 1;
    if p < last {
      RegisteredLast(names[..last], columns[..last], p);
    }
  }

  predicate Uniform(index: Index, rows: nat)
  {
    forall key :: key in index ==> |index[key]| == rows
  }

  predicate AllRows(columns: seq<Column>, rows: nat)
  {
    forall i :: 0 <= i < |columns| ==> |columns[i]| == rows
  }

  lemma {:induction false} RegisteredUniform(names: seq<Key>, columns: seq<Column>, rows: nat)
    requires |names| == |columns| && AllRows(columns, rows)
    ensures Uniform(Registered(names, columns), rows)
    decreases |names|
  {
    if |names| > 0 {
      RegisteredUniform(names[..|names| - 1], columns[..|columns| - 1], rows);
    }
  }

  /** The index of a build is the one its registrations produce. */
  predicate Consistent(b: Build)
  {
    |b.names| == |b.columns| && b.index == Registered(b.names, b.columns)
  }

  /** `self.columns.append(column)` followed by `self.columns_index[name] = self.columns[-1]`. */
  function Register(b: Build, key: Key, column: Column): (b': Build)
    ensures Consistent(b) ==> Consistent(b')
    ensures key in b'.index && b'.index[key] == column
    ensures forall other :: other != key ==> (other in b'.index <==> other in b.index)
    ensures forall other :: other != key && other in b.index ==> b'.index[other] == b.index[other]
    ensures b'.names == b.names + [key]
    ensures b'.columns == b.columns + [column]
    ensures |b'.columns| == |b.columns| + 1 && b'.columns[..|b.columns|] == b.columns
  {
    var b' := Build(b.columns + [column], b.index[key := column], b.names + [key]);
    assert b'.names[..|b.names|] == b.names;
    assert b'.columns[..|b.columns|] == b.columns;
    b'
  }

  lemma RegisterUniform(b: Build, key: Key, column: Column, rows: nat)
    requires Uniform(b.index, rows) && |column| == rows
    ensures Uniform(Register(b, key, column).index, rows)
  {
  }

  // ----- stored columns -----

  /** The keys the inputs are registered under, in declaration order. */
  function InputKeys(inputs: seq<string>): (keys: seq<Key>)
    ensures |keys| == |inputs|
    ensures forall i :: 0 <= i < |inputs| ==> keys[i] == Some(inputs[i])
  {
    seq(|inputs|, i requires 0 <= i < |inputs| => Some(inputs[i]))
  }

  /** `_construct_stored_columns` from input k on: column k+1 of n is appended and
      registered under input k's name. */
  function StoreInputs(inputs: seq<string>, k: nat, b: Build): (b': Build)
    requires k <= |inputs|
    ensures Consistent(b) ==> Consistent(b')
    ensures |b'.columns| == |b.columns| + |inputs| - k
    decreases |inputs| - k
  {
    if k == |inputs| then b
    else StoreInputs(inputs, k + 1, Register(b, Some(inputs[k]), InputColumn(k + 1, |inputs|)))
  }

  /** The stored loop keeps what was there and appends input columns k+1 .. n in order. */
  lemma {:induction false} StoreInputsColumns(inputs: seq<string>, k: nat, b: Build)
    requires k <= |inputs|
    ensures var b' := StoreInputs(inputs, k, b);
      && b'.columns[..|b.columns|] == b.columns
      && forall j :: |b.columns| <= j < |b'.columns| ==> b'.columns[j] == InputColumn(k + j - |b.columns| + 1, |inputs|)
    decreases |inputs| - k
  {
    if k < |inputs| {
      var b1 := Register(b, Some(inputs[k]), InputColumn(k + 1, |inputs|));
      StoreInputsColumns(inputs, k + 1, b1);
      var b' := StoreInputs(inputs, k + 1, b1);
      assert b'.columns[..|b1.columns|][..|b.columns|] == b'.columns[..|b.columns|];
      assert b'.columns[|b.columns|] == b'.columns[..|b1.columns|][|b.columns|];
    }
  }

  /** Every column the stored loop appends has 2^n values. */
  lemma {:induction false} StoreInputsRows(inputs: seq<string>, k: nat, b: Build, rows: nat)
    requires k <= |inputs| && rows == Pow2(|inputs|)
    requires AllRows(b.columns, rows)
    ensures AllRows(StoreInputs(inputs, k, b).columns, rows)
    decreases |inputs| - k
  {
    if k < |inputs| {
      var column := InputColumn(k + 1, |inputs|);
      var b1 := Register(b, Some(inputs[k]), column);
      assert AllRows(b1.columns, rows);
      StoreInputsRows(inputs, k + 1, b1, rows);
    }
  }

  /** The stored loop registers input k, input k+1, ... by name, in order. */
  lemma {:induction false} StoreInputsNames(inputs: seq<string>, k: nat, b: Build)
    requires k <= |inputs|
    ensures StoreInputs(inputs, k, b).names == b.names + InputKeys(inputs)[k..]
    decreases |inputs| - k
  {
    if k < |inputs| {
      var b1 := Register(b, Some(inputs[k]), InputColumn(k + 1, |inputs|));
      assert StoreInputs(inputs, k, b) == StoreInputs(inputs, k + 1, b1);
      StoreInputsNames(inputs, k + 1, b1);
      assert InputKeys(inputs)[k..] == [Some(inputs[k])] + InputKeys(inputs)[k + 1..];
      assert b1.names == b.names + [Some(inputs[k])];
    }
  }

  // ----- derived columns -----

  /** Every referenced name is in the index. */
  predicate AllPresent(refs: seq<string>, index: Index)
  {
    forall x :: x in refs ==> Some(x) in index
  }

  /** Position of the first reference that is not available, or |refs| when all
      are: a row is formed by looking the references up left to right, so the
      lookup that raises `KeyError` is the one at this position. */
  function FirstMissing(refs: seq<string>, available: set<Key>): (j: nat)
    ensures j <= |refs|
    decreases |refs|
  {
    if |refs| == 0 || Some(refs[0]) !in available then 0
    else 1 + FirstMissing(refs[1..], available)
  }

  /** Every reference before that position is available and the one at it is not;
      the position is past the end exactly when every reference is available. */
  lemma {:induction false} FirstMissingIsFirst(refs: seq<string>, available: set<Key>)
    ensures forall i :: 0 <= i < FirstMissing(refs, available) ==> Some(refs[i]) in available
    ensures FirstMissing(refs, available) < |refs| ==> Some(refs[FirstMissing(refs, available)]) !in available
    ensures FirstMissing(refs, available) == |refs| <==> forall x :: x in refs ==> Some(x) in available
    decreases |refs|
  {
    if |refs| > 0 && Some(refs[0]) in available {
      FirstMissingIsFirst(refs[1..], available);
      assert forall i :: 1 <= i < |refs| ==> refs[i] == refs[1..][i - 1];
      assert forall x :: x in refs ==> x == refs[0] || x in refs[1..];
    }
  }

  /** `formed_row`: the value at `row` of each referenced column, in reference order. */
  function Operands(refs: seq<string>, index: Index, row: nat): (values: seq<Bit>)
    requires AllPresent(refs, index)
    requires forall x :: x in refs ==> row < |index[Some(x)]|
    ensures |values| == |refs|
    ensures forall j :: 0 <= j < |refs| ==> values[j] == index[Some(refs[j])][row]
  {
    seq(|refs|, j requires 0 <= j < |refs| => index[Some(refs[j])][row])
  }

  /** Whether an operation can be evaluated against the given keys: it must have an
      input; NOT needs only its first input, every other gate needs all of them. */
  predicate Resolvable(op: Operation, available: set<Key>)
  {
    && |op.inputs| > 0
    && if op.gate == Not then Some(op.inputs[0]) in available
       else forall x :: x in op.inputs ==> Some(x) in available
  }

  /** The error a failed evaluation raises: `EmptyOperands` when there is no input;
      for NOT, its first reference; for any other gate, the first reference in
      order that is not available. */
  predicate Explains(op: Operation, available: set<Key>, e: Error)
  {
    if |op.inputs| == 0 then e == EmptyOperands
    else if op.gate == Not then e == UnresolvedReference(op.inputs[0])
    else
      var j := FirstMissing(op.inputs, available);
      j < |op.inputs| && e == UnresolvedReference(op.inputs[j])
  }

  /** The NOT branch of one pass: `int(not column[row])` for every row. */
  function NegatedColumn(column: Column, rows: nat): (r: Column)
    requires |column| == rows
    ensures |r| == rows
    ensures forall row :: 0 <= row < rows ==> r[row] == 1 - column[row]
  {
    seq(rows, row requires 0 <= row < rows => Negate(column[row]))
  }

  /** The other branch of one pass: `do(formed_row)` for every row. */
  function FoldedColumn(g: Gate, refs: seq<string>, index: Index, rows: nat): (r: Column)
    requires g != Not && |refs| > 0
    requires AllPresent(refs, index) && Uniform(index, rows)
    ensures |r| == rows
    ensures forall row :: 0 <= row < rows ==> Do(g, Operands(refs, index, row)) == Success(r[row])
  {
    seq(rows, row requires 0 <= row < rows =>
      var values := Operands(refs, index, row);
      Fold(g, values[0], values[1..]))
  }

  /** One pass of `_construct_derived_columns`: the new column, one value per row.
      NOT negates its first reference and ignores the rest; every other gate applies
      `do` to the row formed from all references in order. */
  function DerivedColumn(op: Operation, index: Index, rows: nat): (r: Result<Column, Error>)
    requires Uniform(index, rows)
    ensures r.Success? <==> Resolvable(op, index.Keys)
    ensures r.Success? ==> |r.value| == rows
  {
    if |op.inputs| == 0 then Failure(EmptyOperands)
    else if op.gate == Not then
      var ref := Some(op.inputs[0]);
      if ref !in index then Failure(UnresolvedReference(op.inputs[0]))
      else Success(NegatedColumn(index[ref], rows))
    else
      FirstMissingIsFirst(op.inputs, index.Keys);
      var j := FirstMissing(op.inputs, index.Keys);
      if j < |op.inputs| then Failure(UnresolvedReference(op.inputs[j]))
      else Success(FoldedColumn(op.gate, op.inputs, index, rows))
  }

  /** A failed evaluation names its cause: no inputs, or the reference whose lookup
      raises first (for NOT: the first input, the only one it reads). */
  lemma DerivedColumnFailure(op: Operation, index: Index, rows: nat)
    requires Uniform(index, rows)
    requires DerivedColumn(op, index, rows).Failure?
    ensures Explains(op, index.Keys, DerivedColumn(op, index, rows).error)
    ensures op.gate == Not && |op.inputs| > 0 ==>
      DerivedColumn(op, index, rows).error == UnresolvedReference(op.inputs[0])
  {
  }

  /** The value a pass writes at one row, worked out from that row alone: for NOT,
      the negation of the first reference's value, whatever follows it; for any
      other gate, `do` of the row formed from every reference in order. `None`
      when the operation has no input or a reference it needs is missing. */
  function RowValue(op: Operation, index: Index, row: nat): Option<Bit>
  {
    if |op.inputs| == 0 then None
    else if op.gate == Not then
      var ref := Some(op.inputs[0]);
      if ref in index && row < |index[ref]| then Some(1 - index[ref][row]) else None
    else if AllPresent(op.inputs, index) && forall x :: x in op.inputs ==> row < |index[Some(x)]| then
      match Do(op.gate, Operands(op.inputs, index, row))
      case Success(v) => Some(v)
      case Failure(_) => None
    else None
  }

  /** Every row of a successful pass is the row-by-row value of its operation. */
  lemma DerivedColumnRows(op: Operation, index: Index, rows: nat, row: nat)
    requires Uniform(index, rows) && row < rows
    requires DerivedColumn(op, index, rows).Success?
    ensures RowValue(op, index, row) == Some(DerivedColumn(op, index, rows).value[row])
  {
  }

  /** `_construct_derived_columns` from operation k on; the first failure aborts. */
  function DeriveColumns(ops: seq<Operation>, k: nat, rows: nat, b: Build): (r: Result<Build, Error>)
    requires k <= |ops| && Uniform(b.index, rows)
    ensures r.Failure? ==> r.error.UnresolvedReference? || r.error == EmptyOperands
    decreases |ops| - k
  {
    if k == |ops| then Success(b)
    else
      match DerivedColumn(ops[k], b.index, rows)
      case Failure(e) => Failure(e)
      case Success(column) => DeriveColumns(ops, k + 1, rows, Register(b, ops[k].header, column))
  }

  /** One turn of the loop: a successful evaluation of operation k registers its
      column, and the loop goes on from operation k + 1. */
  lemma DeriveTurn(ops: seq<Operation>, k: nat, rows: nat, b: Build, column: Column)
    requires k < |ops| && Uniform(b.index, rows)
    requires DerivedColumn(ops[k], b.index, rows) == Success(column)
    ensures Uniform(Register(b, ops[k].header, column).index, rows)
    ensures DeriveColumns(ops, k, rows, b) == DeriveColumns(ops, k + 1, rows, Register(b, ops[k].header, column))
  {
    RegisterUniform(b, ops[k].header, column, rows);
  }

  /** The keys the derived columns are registered under (`derived_op.header`). */
  function Headers(ops: seq<Operation>): (keys: seq<Key>)
    ensures |keys| == |ops|
    ensures forall k :: 0 <= k < |ops| ==> keys[k] == ops[k].header
  {
    seq(|ops|, k requires 0 <= k < |ops| => ops[k].header)
  }

  /** Column m was produced by evaluating op against the index the first m
      registrations left behind. */
  predicate StepMatches(op: Operation, names: seq<Key>, columns: seq<Column>, m: nat, rows: nat)
  {
    && m < |columns| && |names| == |columns|
    && Uniform(Registered(names[..m], columns[..m]), rows)
    && DerivedColumn(op, Registered(names[..m], columns[..m]), rows) == Success(columns[m])
  }

  /** The keys available to operation j when the loop started from operation k
      with `base` already registered. */
  function Available(base: seq<Key>, ops: seq<Operation>, k: nat, j: nat): set<Key>
    requires k <= j <= |ops|
  {
    KeySet(base + Headers(ops)[k..j])
  }

  /** Operations k .. j-1 all resolve. */
  predicate ResolvesFrom(base: seq<Key>, ops: seq<Operation>, k: nat, j: nat)
    requires k <= j <= |ops|
  {
    forall i {:trigger Available(base, ops, k, i)} :: k <= i < j ==> Resolvable(ops[i], Available(base, ops, k, i))
  }

  /** Operation j is the first that does not resolve, and e reports why. */
  predicate FirstFailure(base: seq<Key>, ops: seq<Operation>, k: nat, j: nat, e: Error)
    requires k <= |ops|
  {
    && k <= j < |ops|
    && ResolvesFrom(base, ops, k, j)
    && !Resolvable(ops[j], Available(base, ops, k, j))
    && Explains(ops[j], Available(base, ops, k, j), e)
  }

  /** Registering operation k's column moves its header from the operations into the base. */
  lemma AvailableShift(base: seq<Key>, ops: seq<Operation>, k: nat, j: nat)
    requires k < j <= |ops|
    ensures Available(base + [ops[k].header], ops, k + 1, j) == Available(base, ops, k, j)
  {
    assert Headers(ops)[k..j] == [ops[k].header] + Headers(ops)[k + 1..j];
    assert base + [ops[k].header] + Headers(ops)[k + 1..j] == base + Headers(ops)[k..j];
  }

  /** The loop from operation k succeeds exactly when every remaining operation resolves. */
  lemma {:induction false} DeriveSucceedsIff(ops: seq<Operation>, k: nat, rows: nat, b: Build)
    requires k <= |ops| && Consistent(b) && AllRows(b.columns, rows) && Uniform(b.index, rows)
    ensures DeriveColumns(ops, k, rows, b).Success? <==> ResolvesFrom(b.names, ops, k, |ops|)
    decreases |ops| - k
  {
    if k < |ops| {
      RegisteredKeys(b.names, b.columns);
      assert b.names + Headers(ops)[k..k] == b.names;
      assert Available(b.names, ops, k, k) == b.index.Keys;
      var d := DerivedColumn(ops[k], b.index, rows);
      if d.Success? {
        var b1 := Register(b, ops[k].header, d.value);
        assert AllRows(b1.columns, rows);
        RegisterUniform(b, ops[k].header, d.value, rows);
        DeriveSucceedsIff(ops, k + 1, rows, b1);
        forall j | k + 1 <= j <= |ops|
          ensures Available(b1.names, ops, k + 1, j) == Available(b.names, ops, k, j)
        {
          AvailableShift(b.names, ops, k, j);
        }
        if ResolvesFrom(b1.names, ops, k + 1, |ops|) {
          forall i | k <= i < |ops|
            ensures Resolvable(ops[i], Available(b.names, ops, k, i))
          {
            if i > k {
              assert Resolvable(ops[i], Available(b1.names, ops, k + 1, i));
            }
          }
        }
        if ResolvesFrom(b.names, ops, k, |ops|) {
          forall i | k + 1 <= i < |ops|
            ensures Resolvable(ops[i], Available(b1.names, ops, k + 1, i))
          {
            assert Resolvable(ops[i], Available(b.names, ops, k, i));
          }
        }
      }
    }
  }

  /** When the loop from operation k fails, the first unresolvable operation is to blame. */
  lemma {:induction false} DeriveFailure(ops: seq<Operation>, k: nat, rows: nat, b: Build)
    requires k <= |ops| && Consistent(b) && AllRows(b.columns, rows) && Uniform(b.index, rows)
    requires DeriveColumns(ops, k, rows, b).Failure?
    ensures exists j :: FirstFailure(b.names, ops, k, j, DeriveColumns(ops, k, rows, b).error)
    decreases |ops| - k
  {
    RegisteredKeys(b.names, b.columns);
    assert b.names + Headers(ops)[k..k] == b.names;
    var d := DerivedColumn(ops[k], b.index, rows);
    if d.Success? {
      var b1 := Register(b, ops[k].header, d.value);
      assert AllRows(b1.columns, rows);
      RegisterUniform(b, ops[k].header, d.value, rows);
      DeriveFailure(ops, k + 1, rows, b1);
      var j :| FirstFailure(b1.names, ops, k + 1, j, DeriveColumns(ops, k + 1, rows, b1).error);
      forall i | k + 1 <= i <= j
        ensures Available(b1.names, ops, k + 1, i) == Available(b.names, ops, k, i)
      {
        AvailableShift(b.names, ops, k, i);
      }
      assert FirstFailure(b.names, ops, k, j, DeriveColumns(ops, k, rows, b).error);
    } else {
      DerivedColumnFailure(ops[k], b.index, rows);
      assert FirstFailure(b.names, ops, k, k, DeriveColumns(ops, k, rows, b).error);
    }
  }

  /** When the loop from operation k succeeds, its build stays consistent and every
      column it holds has one value per row. */
  lemma {:induction false} DeriveShape(ops: seq<Operation>, k: nat, rows: nat, b: Build)
    requires k <= |ops| && Consistent(b) && AllRows(b.columns, rows) && Uniform(b.index, rows)
    requires DeriveColumns(ops, k, rows, b).Success?
    ensures Consistent(DeriveColumns(ops, k, rows, b).value)
    ensures AllRows(DeriveColumns(ops, k, rows, b).value.columns, rows)
    decreases |ops| - k
  {
    if k < |ops| {
      var d := DerivedColumn(ops[k], b.index, rows);
      var b1 := Register(b, ops[k].header, d.value);
      assert AllRows(b1.columns, rows);
      assert DeriveColumns(ops, k, rows, b) == DeriveColumns(ops, k + 1, rows, b1);
      DeriveShape(ops, k + 1, rows, b1);
    }
  }

  /** When the loop from operation k succeeds, it registers one column per operation,
      under the operation's header. */
  lemma {:induction false} DeriveNames(ops: seq<Operation>, k: nat, rows: nat, b: Build)
    requires k <= |ops| && Uniform(b.index, rows)
    requires DeriveColumns(ops, k, rows, b).Success?
    ensures DeriveColumns(ops, k, rows, b).value.names == b.names + Headers(ops)[k..]
    decreases |ops| - k
  {
    if k < |ops| {
      var d := DerivedColumn(ops[k], b.index, rows);
      var b1 := Register(b, ops[k].header, d.value);
      DeriveTurn(ops, k, rows, b, d.value);
      DeriveNames(ops, k + 1, rows, b1);
      assert Headers(ops)[k..] == [ops[k].header] + Headers(ops)[k + 1..];
    }
  }

  /** The loop only appends: the columns present before it are kept. */
  lemma {:induction false} DerivePrefix(ops: seq<Operation>, k: nat, rows: nat, b: Build)
    requires k <= |ops| && Consistent(b) && Uniform(b.index, rows)
    requires DeriveColumns(ops, k, rows, b).Success?
    ensures var out := DeriveColumns(ops, k, rows, b).value;
      |b.columns| <= |out.columns| && out.columns[..|b.columns|] == b.columns
    decreases |ops| - k
  {
    if k < |ops| {
      var d := DerivedColumn(ops[k], b.index, rows);
      var b1 := Register(b, ops[k].header, d.value);
      assert DeriveColumns(ops, k, rows, b) == DeriveColumns(ops, k + 1, rows, b1);
      DerivePrefix(ops, k + 1, rows, b1);
      var out := DeriveColumns(ops, k + 1, rows, b1).value;
      assert out.columns[..|b.columns|] == out.columns[..|b1.columns|][..|b.columns|];
    }
  }

  /** Each column the loop appends is its operation evaluated against the index as
      it stood when that operation's turn came: operation j of a loop started at
      operation k on build b fills column m = |b.columns| + j - k. */
  lemma {:induction false} DeriveStep(ops: seq<Operation>, k: nat, rows: nat, b: Build, j: nat, m: nat, out: Build)
    requires k <= j < |ops| && Consistent(b) && AllRows(b.columns, rows) && Uniform(b.index, rows)
    requires DeriveColumns(ops, k, rows, b) == Success(out) && m == |b.columns| + j - k
    ensures StepMatches(ops[j], out.names, out.columns, m, rows)
    decreases |ops| - k
  {
    if j == k {
      DeriveFirstStep(ops, k, rows, b, out);
    } else {
      var b1 := Register(b, ops[k].header, DerivedColumn(ops[k], b.index, rows).value);
      assert AllRows(b1.columns, rows);
      RegisterUniform(b, ops[k].header, DerivedColumn(ops[k], b.index, rows).value, rows);
      DeriveStep(ops, k + 1, rows, b1, j, m, out);
    }
  }

  /** The first column the loop appends is its first operation evaluated against b's index. */
  lemma DeriveFirstStep(ops: seq<Operation>, k: nat, rows: nat, b: Build, out: Build)
    requires k < |ops| && Consistent(b) && AllRows(b.columns, rows) && Uniform(b.index, rows)
    requires DeriveColumns(ops, k, rows, b) == Success(out)
    ensures StepMatches(ops[k], out.names, out.columns, |b.columns|, rows)
  {
    var b1 := Register(b, ops[k].header, DerivedColumn(ops[k], b.index, rows).value);
    assert AllRows(b1.columns, rows);
    assert DeriveColumns(ops, k + 1, rows, b1) == Success(out);
    DeriveShape(ops, k + 1, rows, b1);
    DeriveNames(ops, k + 1, rows, b1);
    DerivePrefix(ops, k + 1, rows, b1);
    StepAtPrefix(ops[k], b, b1, out, rows);
  }

  /** The operation registered right after state b matches its column in any
      build extending that registration. */
  lemma StepAtPrefix(op: Operation, b: Build, b1: Build, out: Build, rows: nat)
    requires Consistent(b) && Uniform(b.index, rows)
    requires DerivedColumn(op, b.index, rows).Success?
    requires b1 == Register(b, op.header, DerivedColumn(op, b.index, rows).value)
    requires |out.names| == |out.columns| && |b1.columns| <= |out.columns|
    requires out.columns[..|b1.columns|] == b1.columns
    requires out.names[..|b1.names|] == b1.names
    ensures StepMatches(op, out.names, out.columns, |b.columns|, rows)
  {
    var m := |b.columns|;
    assert out.columns[..m] == b.columns by {
      assert out.columns[..m] == out.columns[..m + 1][..m];
    }
    assert out.names[..m] == b.names by {
      assert out.names[..m] == out.names[..m + 1][..m];
    }
    assert out.columns[m] == b1.columns[m];
  }

  /** Starting from the inputs, "every remaining operation resolves" is `WellFormed`. */
  lemma ResolvesFromInputs(inputs: seq<string>, ops: seq<Operation>)
    ensures ResolvesFrom(InputKeys(inputs), ops, 0, |ops|) <==> WellFormed(inputs, ops)
  {
    forall k | 0 <= k <= |ops|
      ensures Available(InputKeys(inputs), ops, 0, k) == KeySet(NamesBefore(inputs, ops, k))
    {
      assert Headers(ops)[0..k] == Headers(ops)[..k];
    }
    if WellFormed(inputs, ops) {
      forall i | 0 <= i < |ops|
        ensures Resolvable(ops[i], Available(InputKeys(inputs), ops, 0, i))
      {
        assert Resolvable(ops[i], KeySet(NamesBefore(inputs, ops, i)));
      }
    }
    if ResolvesFrom(InputKeys(inputs), ops, 0, |ops|) {
      forall i | 0 <= i < |ops|
        ensures Resolvable(ops[i], KeySet(NamesBefore(inputs, ops, i)))
      {
        assert Resolvable(ops[i], Available(InputKeys(inputs), ops, 0, i));
      }
    }
  }

  // ----- the table -----

  /** Every operation resolves against the inputs and the headers declared before it. */
  predicate WellFormed(inputs: seq<string>, ops: seq<Operation>)
  {
    forall k {:trigger NamesBefore(inputs, ops, k)} :: 0 <= k < |ops| ==>
      Resolvable(ops[k], KeySet(NamesBefore(inputs, ops, k)))
  }

  /** The keys registered before operation k runs: the inputs, then the headers of
      the operations before it. */
  function NamesBefore(inputs: seq<string>, ops: seq<Operation>, k: nat): seq<Key>
    requires k <= |ops|
  {
    InputKeys(inputs) + Headers(ops)[..k]
  }

  /** The build after `_construct_stored_columns`. */
  function Stored(inputs: seq<string>): (b: Build)
    ensures Consistent(b) && AllRows(b.columns, Pow2(|inputs|)) && Uniform(b.index, Pow2(|inputs|))
    ensures b.names == InputKeys(inputs)
    ensures |b.columns| == |inputs|
  {
    StoredNames(inputs);
    StoredRows(inputs, Pow2(|inputs|));
    StoreInputs(inputs, 0, Build([], map[], []))
  }

  /** Stored column i (0-based) is input column i + 1 of n. */
  lemma StoredColumns(inputs: seq<string>)
    ensures forall i :: 0 <= i < |inputs| ==> Stored(inputs).columns[i] == InputColumn(i + 1, |inputs|)
  {
    StoreInputsColumns(inputs, 0, Build([], map[], []));
  }

  /** The stored build registers every input, by name, in declaration order. */
  lemma {:induction false} StoredNames(inputs: seq<string>)
    ensures var b := StoreInputs(inputs, 0, Build([], map[], []));
      Consistent(b) && b.names == InputKeys(inputs) && |b.columns| == |inputs|
  {
    StoreInputsNames(inputs, 0, Build([], map[], []));
    assert [] + InputKeys(inputs)[0..] == InputKeys(inputs);
  }

  /** Every stored column has `rows` = 2^n values. */
  lemma {:induction false} StoredRows(inputs: seq<string>, rows: nat)
    requires rows == Pow2(|inputs|)
    ensures var b := StoreInputs(inputs, 0, Build([], map[], []));
      AllRows(b.columns, rows) && Uniform(b.index, rows)
  {
    var b := StoreInputs(inputs, 0, Build([], map[], []));
    StoreInputsRows(inputs, 0, Build([], map[], []), rows);
    StoredNames(inputs);
    RegisteredUniform(b.names, b.columns, rows);
  }

  /** `Table(inputs, *derived)`: build the stored columns, then the derived ones;
      every column has one value per input assignment. */
  function NewTable(inputs: seq<string>, ops: seq<Operation>): (r: Result<Table, Error>)
    ensures r.Success? ==>
      && r.value.inputs == inputs && r.value.derived == ops
      && |r.value.columns| == |r.value.names| == |inputs| + |ops|
      && AllRows(r.value.columns, Pow2(|inputs|))
  {
    match DeriveColumns(ops, 0, Pow2(|inputs|), Stored(inputs))
    case Failure(e) => Failure(e)
    case Success(b) =>
      DeriveShape(ops, 0, Pow2(|inputs|), Stored(inputs));
      DeriveNames(ops, 0, Pow2(|inputs|), Stored(inputs));
      Success(Table(inputs, ops, b.columns, b.index, b.names))
  }

  /** A table is the state its construction loop finished in. */
  lemma TableIsBuild(inputs: seq<string>, ops: seq<Operation>, t: Table)
    requires NewTable(inputs, ops).Success? && NewTable(inputs, ops).value == t
    ensures DeriveColumns(ops, 0, Pow2(|inputs|), Stored(inputs)) == Success(Build(t.columns, t.index, t.names))
  {
  }

  /** A table starts with the stored columns; `names` lists the inputs and then
      every operation's `header`, and `columns_index` is what registering them in
      that order leaves. */
  lemma {:induction false} TableShape(inputs: seq<string>, ops: seq<Operation>, t: Table)
    requires NewTable(inputs, ops).Success? && NewTable(inputs, ops).value == t
    ensures t.names == InputKeys(inputs) + Headers(ops)
    ensures t.index == Registered(t.names, t.columns)
    ensures t.columns[..|inputs|] == Stored(inputs).columns
  {
    TableIsBuild(inputs, ops, t);
    DeriveShape(ops, 0, Pow2(|inputs|), Stored(inputs));
    DeriveNames(ops, 0, Pow2(|inputs|), Stored(inputs));
    DerivePrefix(ops, 0, Pow2(|inputs|), Stored(inputs));
    assert Headers(ops)[0..] == Headers(ops);
  }

  /** Construction succeeds exactly when every operation resolves against the
      inputs and the headers declared before it. */
  lemma TableSucceedsIff(inputs: seq<string>, ops: seq<Operation>)
    ensures NewTable(inputs, ops).Success? <==> WellFormed(inputs, ops)
  {
    DeriveSucceedsIff(ops, 0, Pow2(|inputs|), Stored(inputs));
    ResolvesFromInputs(inputs, ops);
  }

  /** A failed construction reports the first operation that does not resolve:
      it has no inputs, or it references a name not yet registered. */
  lemma TableFailure(inputs: seq<string>, ops: seq<Operation>)
    requires NewTable(inputs, ops).Failure?
    ensures exists k :: FirstFailure(InputKeys(inputs), ops, 0, k, NewTable(inputs, ops).error)
  {
    DeriveFailure(ops, 0, Pow2(|inputs|), Stored(inputs));
  }

  /** Columns whose first n are the stored columns of n inputs start with input
      columns 1 .. n. */
  lemma StoredPrefix(inputs: seq<string>, columns: seq<Column>)
    requires |inputs| <= |columns| && columns[..|inputs|] == Stored(inputs).columns
    ensures forall i :: 0 <= i < |inputs| ==> columns[i] == InputColumn(i + 1, |inputs|)
  {
    StoredColumns(inputs);
    forall i | 0 <= i < |inputs|
      ensures columns[i] == InputColumn(i + 1, |inputs|)
    {
      assert columns[i] == columns[..|inputs|][i];
    }
  }

  /** The first |inputs| columns are the stored columns, in input order. */
  lemma TableStoredColumns(inputs: seq<string>, ops: seq<Operation>, t: Table)
    requires NewTable(inputs, ops).Success? && NewTable(inputs, ops).value == t
    ensures forall i :: 0 <= i < |inputs| ==> t.columns[i] == InputColumn(i + 1, |inputs|)
  {
    TableShape(inputs, ops, t);
    StoredPrefix(inputs, t.columns);
  }
}
