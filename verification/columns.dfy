/** `Table._construct_column`: one stored (input) column, built by appending
    alternating blocks of zeros and ones until the column holds 2^n entries. */
module Columns {
  import opened Common
  import opened Binary

  /** `count` copies of v. */
  function Repeat(v: Bit, count: nat): (s: seq<Bit>)
    ensures |s| == count && forall j :: 0 <= j < count ==> s[j] == v
  {
    seq(count, _ => v)
  }

  /** The `while len(column) < total_entries` loop: each pass appends `width` zeros
      and then `width` ones (the `for ... else` branch always runs). */
  function Blocks(width: nat, total: nat, column: seq<Bit>): (r: seq<Bit>)
    requires width >= 1
    ensures |r| >= total
    decreases total - |column|
  {
    if |column| >= total then column
    else Blocks(width, total, column + Repeat(0, width) + Repeat(1, width))
  }

  /** The loop only appends: the entries already in the column are kept. */
  lemma {:induction false} BlocksAppends(width: nat, total: nat, column: seq<Bit>)
    requires width >= 1
    ensures |column| <= |Blocks(width, total, column)|
    ensures Blocks(width, total, column)[..|column|] == column
    decreases total - |column|
  {
    if |column| < total {
      var next := column + Repeat(0, width) + Repeat(1, width);
      BlocksAppends(width, total, next);
      assert Blocks(width, total, column)[..|next|][..|column|] == Blocks(width, total, column)[..|column|];
    }
  }

  /** Entry r of the column is r / width mod 2: the block of r alternates 0, 1, 0, ... */
  ghost predicate Alternating(column: seq<Bit>, width: nat)
    requires width >= 1
  {
    forall r :: 0 <= r < |column| ==> column[r] == (r / width) % 2
  }

  /** One pass of the loop keeps the alternating layout. */
  lemma {:induction false} AppendPair(width: nat, done: nat, column: seq<Bit>)
    requires width >= 1
    requires |column| == 2 * width * done
    requires Alternating(column, width)
    ensures |column + Repeat(0, width) + Repeat(1, width)| == 2 * width * (done + 1)
    ensures Alternating(column + Repeat(0, width) + Repeat(1, width), width)
  {
    var next := column + Repeat(0, width) + Repeat(1, width);
    var start := |column|;
    assert start == width * (2 * done);
    forall r | start <= r < |next|
      ensures next[r] == (r / width) % 2
    {
      if r < start + width {
        DivUnique(r, width, 2 * done, r - start);
      } else {
        DivUnique(r, width, 2 * done + 1, r - start - width);
      }
    }
  }

  /** Starting from `done` complete pairs, the loop stops with exactly k pairs. */
  lemma {:induction false} BlocksFill(width: nat, k: nat, done: nat, column: seq<Bit>)
    requires width >= 1 && done <= k
    requires |column| == 2 * width * done
    requires Alternating(column, width)
    ensures |Blocks(width, 2 * width * k, column)| == 2 * width * k
    ensures Alternating(Blocks(width, 2 * width * k, column), width)
    decreases k - done
  {
    if done < k {
      assert 2 * width * k == 2 * width * done + 2 * width * (k - done);
      MulAtLeast(2 * width, k - done);
      AppendPair(width, done, column);
      BlocksFill(width, k, done + 1, column + Repeat(0, width) + Repeat(1, width));
    }
  }

  /** Input column i of n (1-based), as the loop builds it. */
  function InputColumn(i: nat, n: nat): (column: seq<Bit>)
    requires 1 <= i <= n
    ensures |column| == Pow2(n)
  {
    InputColumnLayout(i, n);
    Blocks(Pow2(n - i), Pow2(n), [])
  }

  /** Input column i of n holds 2^n entries in blocks of 2^(n-i) zeros then ones:
      entry r is bit (n - i) of r. */
  lemma InputColumnLayout(i: nat, n: nat)
    requires 1 <= i <= n
    ensures |Blocks(Pow2(n - i), Pow2(n), [])| == Pow2(n)
    ensures Alternating(Blocks(Pow2(n - i), Pow2(n), []), Pow2(n - i))
  {
    Pow2Add(n - i + 1, i - 1);
    assert Pow2(n) == 2 * Pow2(n - i) * Pow2(i - 1);
    BlocksFill(Pow2(n - i), Pow2(i - 1), 0, []);
  }

  /** Entry `row` of input column i of n is bit n - i of the row number. */
  lemma InputColumnAt(i: nat, n: nat, row: nat)
    requires 1 <= i <= n && row < Pow2(n)
    ensures InputColumn(i, n)[row] == (row / Pow2(n - i)) % 2
  {
    InputColumnLayout(i, n);
  }

  /** `_construct_column` with the guard as written: only index 0 and indices past
      the last column are refused. */
  function ConstructColumnAsWritten(i: int, n: nat): (r: Result<seq<Bit>, Error>)
    ensures r.Failure? <==> i == 0 || i > n
    ensures r.Failure? ==> r.error == InvalidColumnIndex(i)
  {
    if i == 0 || i > n then Failure(InvalidColumnIndex(i))
    else Success(Blocks(Pow2(n - i), Pow2(n), []))
  }

  /** `_construct_column` refusing every index below 1, as the message's "greater
      than 0" says. The message's "less than total_columns" is not meant literally:
      the stored loop asks for index n, so the upper bound stays at n. */
  function ConstructColumn(i: int, n: nat): (r: Result<seq<Bit>, Error>)
    ensures r.Success? <==> 1 <= i <= n
    ensures r.Failure? ==> r.error == InvalidColumnIndex(i)
    ensures r.Success? ==> |r.value| == Pow2(n)
    ensures r.Success? ==> forall row :: 0 <= row < Pow2(n) ==> r.value[row] == (row / Pow2(n - i)) % 2
  {
    if i < 1 || i > n then Failure(InvalidColumnIndex(i))
    else
      InputColumnLayout(i, n);
      Success(InputColumn(i, n))
  }

  /** The two guards agree on every index the table itself asks for (and on 0). */
  lemma AsWrittenAgreesOnNaturals(i: int, n: nat)
    requires i >= 0
    ensures ConstructColumnAsWritten(i, n) == ConstructColumn(i, n)
  {
  }

  /** A negative index passes the written guard and yields a column of the wrong
      length: 2 * 2^(n-i) entries instead of 2^n. */
  lemma AsWrittenAcceptsNegativeIndex(i: int, n: nat)
    requires i < 0
    ensures ConstructColumnAsWritten(i, n).Success?
    ensures |ConstructColumnAsWritten(i, n).value| == 2 * Pow2(n - i) != Pow2(n)
    ensures ConstructColumn(i, n).Failure?
  {
    var width := Pow2(n - i);
    Pow2Add(n, -i);
    MulAtLeast(Pow2(n), Pow2(-i));
    var once := [] + Repeat(0, width) + Repeat(1, width);
    assert Blocks(width, Pow2(n), []) == Blocks(width, Pow2(n), once);
    assert Blocks(width, Pow2(n), once) == once;
  }

  /** The concrete case: index -1 of a one-input table gives 8 rows, not 2. */
  lemma AsWrittenMinusOneOfOne()
    ensures ConstructColumnAsWritten(-1, 1) == Success([0, 0, 0, 0, 1, 1, 1, 1])
  {
    AsWrittenAcceptsNegativeIndex(-1, 1);
    assert Pow2(2) == 4;
    var once := [] + Repeat(0, 4) + Repeat(1, 4);
    assert Blocks(4, 2, once) == once;
    assert once == [0, 0, 0, 0, 1, 1, 1, 1];
  }
}
