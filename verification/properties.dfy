/** What a constructed `Table` promises: the stored columns count through every
    input assignment in binary order, each derived column is its gate applied row
    by row to the columns its references named when its turn came, and a name that
    is registered twice is looked up as its last registration. */
module TableFacts {
  import opened Common
  import opened Binary
  import opened Gates
  import opened Columns
  import opened TruthTable

  /** The values of the first `count` columns at one row, left to right. */
  function RowOf(columns: seq<Column>, count: nat, row: nat): (values: seq<Bit>)
    requires count <= |columns|
    requires forall i :: 0 <= i < count ==> row < |columns[i]|
    ensures |values| == count
    ensures forall i :: 0 <= i < count ==> values[i] == columns[i][row]
  {
    seq(count, i requires 0 <= i < count => columns[i][row])
  }

  // ----- stored columns: the binary counter -----

  /** Columns that are input columns 1 .. n of n read, at any row, as that row in
      n-bit binary, most significant bit first. */
  lemma InputColumnsCount(columns: seq<Column>, n: nat, row: nat)
    requires n <= |columns| && row < Pow2(n) && AllRows(columns, Pow2(n))
    requires forall i :: 0 <= i < n ==> columns[i] == InputColumn(i + 1, n)
    ensures RowOf(columns, n, row) == Bits(n, row)
    ensures Value(RowOf(columns, n, row)) == row
  {
    forall i | 0 <= i < n
      ensures RowOf(columns, n, row)[i] == Bits(n, row)[i]
    {
      InputColumnAt(i + 1, n, row);
      BitsAt(n, row, i);
    }
    ValueOfBits(n, row);
  }

  /** Over input columns 1 .. n, every n-bit assignment is the row whose number
      it spells, and no other row. */
  lemma {:induction false} InputColumnsEnumerate(columns: seq<Column>, n: nat, bits: seq<Bit>, row: nat)
    requires n <= |columns| && AllRows(columns, Pow2(n))
    requires forall i :: 0 <= i < n ==> columns[i] == InputColumn(i + 1, n)
    requires |bits| == n && row < Pow2(n)
    ensures Value(bits) < Pow2(n)
    ensures RowOf(columns, n, Value(bits)) == bits
    ensures RowOf(columns, n, row) == bits <==> row == Value(bits)
  {
    ValueBound(bits);
    BitsOfValue(bits);
    InputColumnsCount(columns, n, Value(bits));
    InputColumnsCount(columns, n, row);
  }

  /** Over input columns 1 .. n, row 0 is all zeros and the last row, 2^n - 1, all ones. */
  lemma InputColumnsEnds(columns: seq<Column>, n: nat, last: nat)
    requires n <= |columns| && AllRows(columns, Pow2(n)) && last == Pow2(n) - 1
    requires forall i :: 0 <= i < n ==> columns[i] == InputColumn(i + 1, n)
    ensures Constant(RowOf(columns, n, 0), 0)
    ensures Constant(RowOf(columns, n, last), 1)
  {
    InputColumnsCount(columns, n, 0);
    BitsOfZero(n);
    InputColumnsCount(columns, n, last);
    BitsOfAllOnes(n);
    assert RowOf(columns, n, last) == Bits(n, Pow2(n) - 1);
  }

  /** Row `row` of a table's stored columns is `row` written in binary: the rows
      enumerate the input assignments in counting order. */
  lemma {:induction false} StoredRowIsBinary(inputs: seq<string>, ops: seq<Operation>, t: Table, row: nat)
    requires NewTable(inputs, ops).Success? && NewTable(inputs, ops).value == t
    requires row < Pow2(|inputs|)
    ensures RowOf(t.columns, |inputs|, row) == Bits(|inputs|, row)
    ensures Value(RowOf(t.columns, |inputs|, row)) == row
  {
    TableStoredColumns(inputs, ops, t);
    InputColumnsCount(t.columns, |inputs|, row);
  }

  /** Every assignment of 0/1 values to the inputs is the stored part of exactly
      one row: the row whose number it spells in binary. */
  lemma {:induction false} EveryAssignmentOnce(inputs: seq<string>, ops: seq<Operation>, t: Table, bits: seq<Bit>, row: nat)
    requires NewTable(inputs, ops).Success? && NewTable(inputs, ops).value == t
    requires |bits| == |inputs| && row < Pow2(|inputs|)
    ensures Value(bits) < Pow2(|inputs|)
    ensures RowOf(t.columns, |inputs|, Value(bits)) == bits
    ensures RowOf(t.columns, |inputs|, row) == bits <==> row == Value(bits)
  {
    TableStoredColumns(inputs, ops, t);
    InputColumnsEnumerate(t.columns, |inputs|, bits, row);
  }

  /** The first row sets every input to 0 and the last, row 2^n - 1, sets every input to 1. */
  lemma {:induction false} FirstAndLastRows(inputs: seq<string>, ops: seq<Operation>, t: Table, last: nat)
    requires NewTable(inputs, ops).Success? && NewTable(inputs, ops).value == t
    requires last == Pow2(|inputs|) - 1
    ensures Constant(RowOf(t.columns, |inputs|, 0), 0)
    ensures Constant(RowOf(t.columns, |inputs|, last), 1)
  {
    TableStoredColumns(inputs, ops, t);
    InputColumnsEnds(t.columns, |inputs|, last);
  }

  // ----- derived columns -----

  /** A column that matches its operation at position m holds, at every row, the
      gate applied to that row's references in the first m registrations. */
  lemma StepRow(op: Operation, names: seq<Key>, columns: seq<Column>, m: nat, rows: nat, row: nat)
    requires StepMatches(op, names, columns, m, rows) && row < rows
    ensures RowValue(op, Registered(names[..m], columns[..m]), row) == Some(columns[m][row])
  {
    DerivedColumnRows(op, Registered(names[..m], columns[..m]), rows, row);
  }

  /** The same at build level: operation k of a successful loop started on b fills
      column m = |b.columns| + k, evaluated against the first m registrations. */
  lemma BuildRow(ops: seq<Operation>, rows: nat, b: Build, columns: seq<Column>, index: Index, names: seq<Key>, k: nat, m: nat, row: nat)
    requires Consistent(b) && AllRows(b.columns, rows) && Uniform(b.index, rows)
    requires DeriveColumns(ops, 0, rows, b) == Success(Build(columns, index, names))
    requires k < |ops| && m == |b.columns| + k && row < rows
    ensures m < |columns| == |names| && row < |columns[m]|
    ensures RowValue(ops[k], Registered(names[..m], columns[..m]), row) == Some(columns[m][row])
  {
    DeriveShape(ops, 0, rows, b);
    DeriveStep(ops, 0, rows, b, k, m, Build(columns, index, names));
    StepRow(ops[k], names, columns, m, rows, row);
  }

  /** And at table level, from the state the construction loop finished in. */
  lemma StoredBuildRow(inputs: seq<string>, ops: seq<Operation>, columns: seq<Column>, index: Index, names: seq<Key>, k: nat, row: nat)
    requires DeriveColumns(ops, 0, Pow2(|inputs|), Stored(inputs)) == Success(Build(columns, index, names))
    requires k < |ops| && row < Pow2(|inputs|)
    ensures |inputs| + k < |columns| == |names| && row < |columns[|inputs| + k]|
    ensures RowValue(ops[k], Registered(names[..|inputs| + k], columns[..|inputs| + k]), row) == Some(columns[|inputs| + k][row])
  {
    var b := Stored(inputs);
    assert |b.columns| == |inputs|;
    BuildRow(ops, Pow2(|inputs|), b, columns, index, names, k, |inputs| + k, row);
  }

  /** Derived column n + k at row `row`: NOT negates its first reference and
      ignores the rest; every other gate gives `do` of the referenced values of
      that row, in reference order. References are looked up in the index as it
      stood before operation k, so they may name earlier operations' headers. */
  lemma {:induction false} DerivedRow(inputs: seq<string>, ops: seq<Operation>, t: Table, k: nat, row: nat)
    requires NewTable(inputs, ops).Success? && NewTable(inputs, ops).value == t
    requires k < |ops| && row < Pow2(|inputs|)
    ensures RowValue(ops[k], Registered(t.names[..|inputs| + k], t.columns[..|inputs| + k]), row) == Some(t.columns[|inputs| + k][row])
  {
    TableIsBuild(inputs, ops, t);
    StoredBuildRow(inputs, ops, t.columns, t.index, t.names, k, row);
  }

  // ----- the name -> column index -----

  /** A name is looked up as its last registration before m: a later registration
      under the same key (a duplicate input, or a header equal to an earlier name)
      overwrites the entry, while the earlier column stays in `columns`. */
  lemma LookupLatest(inputs: seq<string>, ops: seq<Operation>, t: Table, m: nat, p: nat)
    requires NewTable(inputs, ops).Success? && NewTable(inputs, ops).value == t
    requires p < m <= |inputs| + |ops|
    requires forall q :: p < q < m ==> t.names[q] != t.names[p]
    ensures |t.names| == |t.columns| == |inputs| + |ops|
    ensures t.names[p] in Registered(t.names[..m], t.columns[..m])
    ensures Registered(t.names[..m], t.columns[..m])[t.names[p]] == t.columns[p]
  {
    TableShape(inputs, ops, t);
    RegisteredLast(t.names[..m], t.columns[..m], p);
  }

  /** The final `columns_index` holds exactly the registered names, each mapped to
      the column of its last registration. */
  lemma FinalIndex(inputs: seq<string>, ops: seq<Operation>, t: Table, p: nat)
    requires NewTable(inputs, ops).Success? && NewTable(inputs, ops).value == t
    requires p < |inputs| + |ops|
    requires forall q :: p < q < |t.names| ==> t.names[q] != t.names[p]
    ensures t.index.Keys == KeySet(t.names)
    ensures t.index[t.names[p]] == t.columns[p]
  {
    TableShape(inputs, ops, t);
    RegisteredKeys(t.names, t.columns);
    RegisteredLast(t.names, t.columns, p);
  }

  // ----- resolution examples -----

  /** A name is an available input key exactly when it is one of the inputs. */
  lemma InputKeySet(inputs: seq<string>, x: string)
    ensures Some(x) in KeySet(InputKeys(inputs)) <==> x in inputs
  {
    if x in inputs {
      var i :| 0 <= i < |inputs| && inputs[i] == x;
      assert InputKeys(inputs)[i] == Some(x);
    }
  }

  /** A one-operation table over the inputs: NOT needs only its first reference
      to be an input, whatever follows it; any other gate needs all of them. */
  lemma SingleOperation(inputs: seq<string>, refs: seq<string>, g: Gate, header: Option<string>)
    requires |refs| > 0
    ensures g == Not ==> (NewTable(inputs, [Operation(refs, g, header)]).Success? <==> refs[0] in inputs)
    ensures g != Not ==> (NewTable(inputs, [Operation(refs, g, header)]).Success? <==> forall x :: x in refs ==> x in inputs)
  {
    var ops := [Operation(refs, g, header)];
    TableSucceedsIff(inputs, ops);
    assert NamesBefore(inputs, ops, 0) == InputKeys(inputs);
    forall x | x in refs
      ensures Some(x) in KeySet(InputKeys(inputs)) <==> x in inputs
    {
      InputKeySet(inputs, x);
    }
  }

  /** An operation without a header is registered under None, not under the label
      `header_name` generates for it, so a following operation whose first
      reference is that label fails unless an input carries the same name. */
  lemma GeneratedLabelIsNotRegistered(inputs: seq<string>, first: Operation, second: Operation)
    requires first.header.None? && HeaderName(first) !in inputs
    requires |second.inputs| > 0 && second.inputs[0] == HeaderName(first)
    ensures NewTable(inputs, [first, second]).Failure?
  {
    assert !WellFormed(inputs, [first, second]) by {
      assert NamesBefore(inputs, [first, second], 1) == InputKeys(inputs) + [None];
      InputKeySet(inputs, HeaderName(first));
      assert !Resolvable(second, KeySet(NamesBefore(inputs, [first, second], 1)));
    }
    TableSucceedsIff(inputs, [first, second]);
  }
}
