# Truth-table construction, modelled in Dafny

A model of the table-building core of `src/truth_table.py`. That code:

- defines seven gates (AND, OR, NOT, NAND, NOR, XOR, XNOR) and the `OperationBC` record that applies a gate to a list of 0/1 values by left fold (`do`);
- builds one *stored* column per input, laid out as a binary counter (`_construct_column`, `_construct_stored_columns`);
- evaluates every *derived* operation in declaration order, row by row, against a growing name → column index (`_construct_derived_columns`);
- assembles `columns`, `columns_index` and `names` in `Table.__init__`.

The model is pure. The constructor's in-place appends and dictionary writes become a `Build` state threaded through two recursive loops. Python's exceptions become a `Result` with an `Error`:

| Python exception | `Error` |
|---|---|
| the guard's `Exception` | `InvalidColumnIndex` |
| `KeyError` | `UnresolvedReference` |
| `IndexError` on `values[0]` | `EmptyOperands` |
| the `TypeError` of NOT's one-argument callable | `NotArity` |

Files:

- `common.dfy` (module `Common`): `Bit`, `Option`, `Result`, `Error`.
- `binary.dfy` (module `Binary`): powers of two, and the big-endian binary form of a row number with its round trip.
- `gates.dfy` (module `Gates`): gate callables, `do`, the operation record, `__str__` and `header_name`.
- `columns.dfy` (module `Columns`): `_construct_column`, both as written and with a guard that refuses every index below 1.
- `table.dfy` (module `TruthTable`): the index as a run of registrations, the stored and derived loops, and `Table(...)`.
- `properties.dfy` (module `TableFacts`): what a constructed table promises, row by row.

The model follows the code, including where its behaviour may surprise a reader:

- Derived columns are registered under `header`, which may be `None`. `header_name` exists (src/truth_table.py:18-20), but the index write at line 114 uses `header`, not the generated label.
- A NOT operation reads only its first reference (line 100) and ignores the rest. It does not fail for having more than one.
- A duplicate name silently overwrites its index entry (lines 88 and 114) while `columns` keeps growing. No uniqueness check exists.
- `names` lists `header` (possibly `None`) for every operation (line 54), not `header_name`.
- `_construct_column` refuses only index 0 and indices past the last column. This is listed under Findings.

## Model

| member | source | states |
|---|---|---|
| `Gates.Apply` | src/truth_table.py:32-40 | Each two-argument gate callable on 0/1 equals its arithmetic form. AND is x·y and OR is x+y−x·y. NAND and NOR are their complements. XOR is (x+y) mod 2 and XNOR is (x+y+1) mod 2. |
| `Gates.Negate` | src/truth_table.py:34 | NOT's callable `int(not x)` is 1 − x on 0/1. |
| `Gates.ComplementGates` | src/truth_table.py:32-40 | On two 0/1 values: NAND = 1 − AND, NOR = 1 − OR, XNOR = 1 − XOR. AND is 1 iff both are 1, OR is 0 iff both are 0, XOR is 1 iff they differ. |
| `Gates.Do` | src/truth_table.py:22-26 | `do` fails exactly on an empty list, or on NOT given two or more values. A one-element list comes back unchanged. |
| `Gates.FoldSnoc` | src/truth_table.py:24-25 | The loop `temp = op(temp, val)` over one more value applies the gate once more, to the running result and that value. |
| `Gates.DoIsLeftFold` | src/truth_table.py:22-26 | `do` over values followed by v is the gate applied to `do(values)` and v: a left fold. |
| `Gates.DoAnd` | src/truth_table.py:22-32 | n-ary AND by fold is 1 exactly when every value is 1. |
| `Gates.DoOr` | src/truth_table.py:22-33 | n-ary OR by fold is 0 exactly when every value is 0. |
| `Gates.DoXor` | src/truth_table.py:22-39 | n-ary XOR by fold is the parity of the number of ones. |
| `Gates.DoXnor` | src/truth_table.py:22-40 | n-ary XNOR by fold is the parity of (ones + count − 1). So it is the complement of n-ary XOR only for an even count. |
| `Gates.NandFoldIsNotNegatedAnd` | src/truth_table.py:22-36 | NAND folded over 1, 1, 1 gives 1, and so does AND. So folded NAND differs from 1 − folded AND there: n-ary NAND is not NOT of n-ary AND. |
| `Gates.Concat` | src/truth_table.py:29 | `''.join(inputs)` is empty exactly when every input name is empty. |
| `Gates.Label` | src/truth_table.py:28-29 | `__str__` is the gate name followed by the input names run together. |
| `Gates.HeaderName` | src/truth_table.py:18-20 | `header_name` is the header when it is present and non-empty, else the generated label. It is never empty. |
| `Gates.GeneratedLabelsCollide` | src/truth_table.py:28-29 | The label does not separate names: AND of A, BC and AND of AB, C share the label "ANDABC". |
| `Columns.Repeat` | src/truth_table.py:67-71 | Each inner `for _ in range(combinations)` loop appends exactly `combinations` copies of one value. |
| `Columns.Blocks` | src/truth_table.py:66-71 | The `while` loop stops only once the column holds at least `total_entries` values. |
| `Columns.BlocksAppends` | src/truth_table.py:66-71 | The `while` loop only appends: the entries already in the column are kept as they were. |
| `Columns.InputColumn` | src/truth_table.py:62-73 | Input column i of n, as the loop builds it, holds exactly 2^n values. |
| `Columns.BlocksFill` | src/truth_table.py:66-71 | From d complete zero/one block pairs, the fill loop stops with exactly k pairs. Entry r stays (r / width) mod 2. |
| `Columns.InputColumnLayout` | src/truth_table.py:62-73 | For 1 ≤ i ≤ n, the loop yields exactly 2^n entries, entry r being (r / 2^(n−i)) mod 2. |
| `Columns.InputColumnAt` | src/truth_table.py:62-73 | Entry `row` of input column i of n is bit n − i of the row number. |
| `Columns.ConstructColumnAsWritten` | src/truth_table.py:57-59 | The guard as written: the call fails with `InvalidColumnIndex` exactly when the index is 0 or greater than the column count. |
| `Columns.ConstructColumn` | src/truth_table.py:57-73 | With the corrected guard: succeeds iff 1 ≤ i ≤ n. The column then has 2^n entries with entry r = (r / 2^(n−i)) mod 2. The message reads "column_index must be greater than 0 and less than total_columns". The guard refuses i < 1, as "greater than 0" says. "less than total_columns" cannot be meant literally, because the stored loop asks for index n. |
| `Columns.AsWrittenAgreesOnNaturals` | src/truth_table.py:58-59 | On every non-negative index the written guard and the intended one give the same result. |
| `Columns.AsWrittenAcceptsNegativeIndex` | src/truth_table.py:58-73 | A negative index passes the written guard. It yields 2·2^(n−i) entries instead of 2^n. |
| `Columns.AsWrittenMinusOneOfOne` | src/truth_table.py:58-73 | Index −1 of one input gives 0,0,0,0,1,1,1,1: eight rows where two are expected. |
| `TruthTable.Register` | src/truth_table.py:85-88 | Appending a column makes `columns` the old columns followed by exactly that column. Writing `columns_index[name] = columns[-1]` maps the name to that column. Every other key keeps its presence and its column. The name is appended to the registrations, and `columns` only grows. |
| `TruthTable.RegisteredKeys` | src/truth_table.py:84-114 | The index holds exactly the names ever registered. |
| `TruthTable.RegisteredLast` | src/truth_table.py:84-114 | A name maps to the column of its last registration. An earlier duplicate is overwritten. |
| `TruthTable.InputKeys` | src/truth_table.py:87-88 | The inputs become keys in declaration order: key i is input i. These keys are written to `columns_index`, and they also open `names` (line 54). |
| `TruthTable.StoreInputs` | src/truth_table.py:84-88 | The stored loop appends one column per remaining input and keeps the index consistent with the registrations. |
| `TruthTable.StoreInputsColumns` | src/truth_table.py:84-85 | The stored loop keeps the columns already present and appends input columns k+1 … n in order. |
| `TruthTable.StoreInputsRows` | src/truth_table.py:82-85 | Every column the stored loop appends has 2^n values. |
| `TruthTable.StoreInputsNames` | src/truth_table.py:87-88 | The stored loop registers the inputs by name, in declaration order. |
| `TruthTable.Stored` | src/truth_table.py:76-88 | After the stored loop: n columns of 2^n rows, registered under the input names in order, with the index matching. |
| `TruthTable.StoredColumns` | src/truth_table.py:84-85 | Stored column i (0-based) is input column i+1 of n. |
| `TruthTable.FirstMissingIsFirst` | src/truth_table.py:104-107 | `FirstMissing` gives the position j of the first reference that is not available. All references before j are available and the one at j is not. j is the number of references exactly when all are available. Forming a row raises `KeyError` at that lookup. |
| `TruthTable.Operands` | src/truth_table.py:104-107 | `formed_row` holds, in reference order, each referenced column's value at the row. |
| `TruthTable.NegatedColumn` | src/truth_table.py:99-101 | The NOT pass writes 1 − v for every row's value v of the first reference. |
| `TruthTable.FoldedColumn` | src/truth_table.py:103-109 | The other pass writes, at every row, the value `do` returns on that row's `formed_row`. |
| `TruthTable.DerivedColumn` | src/truth_table.py:96-111 | One pass succeeds iff the operation resolves. NOT needs its first reference in the index, any other gate needs all of them. On success the column has 2^n rows. |
| `TruthTable.DerivedColumnFailure` | src/truth_table.py:99-107 | A failed pass with no references reports `EmptyOperands`. For NOT it reports the first reference. For any other gate it reports the first reference in order that is missing from the index, the lookup that raises `KeyError` first. |
| `TruthTable.DerivedColumnRows` | src/truth_table.py:96-109 | Every row of a successful pass equals `RowValue`, the value worked out from that row alone. |
| `TruthTable.Headers` | src/truth_table.py:54 | `map(lambda x: x.header, self.derived)`: one key per operation, in order, each the operation's `header`. |
| `TruthTable.DeriveColumns` | src/truth_table.py:96-114 | The derived loop fails only with an unresolved reference or with no operands. NOT's arity `TypeError` never arises, because the loop never hands NOT to `do`. |
| `TruthTable.DeriveSucceedsIff` | src/truth_table.py:96-114 | The derived loop succeeds iff every operation resolves against the names registered before it. Those are the base names plus the earlier operations' headers. |
| `TruthTable.DeriveFailure` | src/truth_table.py:96-114 | A failed loop is blamed on an operation j that does not resolve, after all operations before j resolved. The error is the one j's pass raises first: its first missing reference in reference order (for NOT, its first reference). |
| `TruthTable.DeriveShape` | src/truth_table.py:96-114 | A successful derived loop keeps the index equal to what its registrations leave. Every column has 2^n rows. |
| `TruthTable.DeriveNames` | src/truth_table.py:111-114 | The derived loop registers one key per operation, its `header`, in declaration order. |
| `TruthTable.DerivePrefix` | src/truth_table.py:111 | The derived loop only appends: the columns present before it are unchanged. |
| `TruthTable.DeriveStep` | src/truth_table.py:96-114 | Operation j fills column n + j. It is evaluated against the index that the first n + j registrations leave, inputs and earlier headers alike. |
| `TruthTable.NewTable` | src/truth_table.py:44-54 | A built table keeps its inputs and operations and has one column and one name per input and per operation. Every column has 2^n rows. |
| `TruthTable.TableShape` | src/truth_table.py:48-54 | `names` is the inputs followed by every operation's `header`. `columns_index` is what registering them in that order leaves. The first n columns are the stored ones. |
| `TruthTable.TableSucceedsIff` | src/truth_table.py:44-114 | Construction succeeds iff every operation resolves against the inputs and the headers declared before it. |
| `TruthTable.TableFailure` | src/truth_table.py:96-114 | A failed construction is blamed on the first operation that does not resolve. The error is that operation's first missing reference in reference order (for NOT, its first reference). |
| `TruthTable.TableStoredColumns` | src/truth_table.py:82-88 | Table column i < n is input column i+1. |
| `TableFacts.InputColumnsCount` | src/truth_table.py:82-88 | Read left to right at row r, input columns 1 … n spell r in n-bit binary. Reading that back gives r. |
| `TableFacts.InputColumnsEnumerate` | src/truth_table.py:82-88 | Every n-bit assignment appears in exactly one row: the row whose number it spells. |
| `TableFacts.InputColumnsEnds` | src/truth_table.py:82-88 | Row 0 of the input columns is all zeros and row 2^n − 1 is all ones. |
| `TableFacts.StoredRowIsBinary` | src/truth_table.py:44-88 | In a built table, row r of the stored columns is r in binary. |
| `TableFacts.EveryAssignmentOnce` | src/truth_table.py:44-88 | In a built table, every input assignment is the stored part of exactly one row. |
| `TableFacts.FirstAndLastRows` | src/truth_table.py:44-88 | In a built table, the first row sets every input to 0 and row 2^n − 1 sets every input to 1. |
| `TableFacts.DerivedRow` | src/truth_table.py:96-114 | Derived column n + k at row r holds the row value of operation k against the index as it stood before k. NOT gives 1 − its first reference's value. Any other gate gives `do` of all referenced values in order, earlier headers included. |
| `TableFacts.LookupLatest` | src/truth_table.py:111-114 | Before position m, a name resolves to its last registration before m. |
| `TableFacts.FinalIndex` | src/truth_table.py:84-114 | The final `columns_index` has exactly the registered names as keys. Each maps to the column of its last registration. |
| `TableFacts.SingleOperation` | src/truth_table.py:96-109 | A one-operation table: under NOT it succeeds iff the first reference is an input, whatever follows it. Under any other gate it succeeds iff every reference is an input. |
| `TableFacts.GeneratedLabelIsNotRegistered` | src/truth_table.py:113-114 | An operation without a header is registered under `None`, not its generated label. A following operation whose first reference is that label fails unless an input has that name. The lemma fixes the label as the first reference because NOT reads only that one (line 100). |

## Left out

- `Table.to_docx_table` (src/truth_table.py:116-129): a wrapper over python-docx, which is not part of this model. Its data loop `range(1, 2 ** n)` writes only rows 1 … 2^n − 1 of the grid, so the last truth-table row is never exported. Nothing here models or claims a complete export.
- `make_document` (src/truth_table.py:132-136): document creation and file save are I/O.
- `bak.py`: an example script with module-level side effects and no logic of its own.
- `str.split("|")` (src/truth_table.py:16, 45): names are given already split. Because of this the model also admits an empty input list, or an operation with no references, which `split` never produces. The second yields `EmptyOperands`.
- `OperationBC` built with a gate name or callable other than the seven partials: the model's `Gate` covers exactly those seven. The table's comparison `gate_name == "NOT"` becomes `gate == Not`.
- Exception messages, and the distinction between `Exception`, `KeyError`, `IndexError` and `TypeError` beyond the four `Error` cases.
- Object identity: `columns_index` entries are the same list objects as the entries of `columns`. Nothing mutates them afterwards, so they are modelled as equal values.
- `TableFacts.SingleOperation`: covers tables with one operation. Longer chains are covered in general by `TruthTable.TableSucceedsIff`.

## Findings

| source | as written | input that shows it | evidently intended | confidence | as-written member | corrected member |
|---|---|---|---|---|---|---|
| src/truth_table.py:58-59 | the guard is `column_index == 0 or column_index > total_columns`, so a negative index passes | `_construct_column(-1, 1)` returns eight entries `[0,0,0,0,1,1,1,1]` instead of two | refuse every index below 1, as the message "column_index must be greater than 0 and less than total_columns" says with "greater than 0"; its "less than total_columns" cannot be meant literally, since the stored loop asks for index n, so the upper bound stays at n | not executed | `Columns.AsWrittenAcceptsNegativeIndex` | `Columns.ConstructColumn` |

The table itself only asks for indexes 1 … n, where the two guards agree (`Columns.AsWrittenAgreesOnNaturals`). The stored loop uses `InputColumn`, which is the corrected function's success value.
