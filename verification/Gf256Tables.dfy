/**
 * The construction of the lookup tables: EXP and LOG by repeated doubling, MUL and DIV row by row
 * from them, INV from DIV. Each table is proved to hold the field operation it stands for.
 */
module Gf256Tables {
  import opened Bytes
  import Doubling
  import Gf256

  /** The products of every byte with y, in order. */
  ghost function MulRow(y: nat): (row: seq<bv8>)
    requires y < 256
    ensures |row| == 256 && forall x: nat | x < 256 :: row[x] == Gf256.Mul(Byte(x), Byte(y))
  {
    seq(256, x requires 0 <= x < 256 => Gf256.Mul(Byte(x), Byte(y)))
  }

  ghost function DivRow(y: nat): (row: seq<bv8>)
    requires y < 256
    ensures |row| == 256 && forall x: nat | x < 256 :: row[x] == Gf256.Div(Byte(x), Byte(y))
  {
    seq(256, x requires 0 <= x < 256 => Gf256.Div(Byte(x), Byte(y)))
  }

  /** LOG holds the exponents of the powers of 2 up to the n-th. */
  ghost predicate LogsUpTo(log: seq<nat>, n: nat) {
    |log| == 256 && forall i | 1 <= i <= n :: log[Value(Gf256.Exp(i))] == i
  }

  ghost predicate ExpsUpTo(exp: seq<bv8>, n: nat)
    requires n <= |exp|
  {
    forall i | 0 <= i < n :: exp[i] == Gf256.Exp(i)
  }

  /** LOG inverts EXP on non-zero bytes, and EXP is right as far as sums of logarithms reach. */
  ghost predicate Inverse(exp: seq<bv8>, log: seq<nat>)
    requires |exp| == 512 * 2 + 1 && |log| == 256
  {
    && ExpsUpTo(exp, 511)
    && forall a: bv8 | a != 0 :: log[Value(a)] == Gf256.Log(a)
  }

  lemma LogsInvert(exp: seq<bv8>, log: seq<nat>)
    requires |exp| == 512 * 2 + 1 && ExpsUpTo(exp, 511) && LogsUpTo(log, 255)
    ensures Inverse(exp, log)
  {
  }

  ghost const MUL_ROWS: seq<seq<bv8>> := seq(256, y requires 0 <= y < 256 => MulRow(y))
  ghost const DIV_ROWS: seq<seq<bv8>> := seq(256, y requires 0 <= y < 256 => DivRow(y))

  /** The table starts with the first n of the rows, end to end. */
  ghost predicate StartsWith(table: seq<bv8>, rows: seq<seq<bv8>>, n: nat)
    requires |table| == 256 * 256 && |rows| == 256 && n <= 256
  {
    forall y | 0 <= y < n :: table[y * 256..y * 256 + 256] == rows[y]
  }

  lemma OneMoreRow(before: seq<bv8>, after: seq<bv8>, rows: seq<seq<bv8>>, n: nat)
    requires |before| == |after| == 256 * 256 && |rows| == 256 && n < 256
    requires StartsWith(before, rows, n)
    requires after[..n * 256] == before[..n * 256]
    requires after[n * 256..n * 256 + 256] == rows[n]
    ensures StartsWith(after, rows, n + 1)
  {
    forall y | 0 <= y < n
      ensures after[y * 256..y * 256 + 256] == rows[y]
    {
      assert after[y * 256..y * 256 + 256] == after[..n * 256][y * 256..y * 256 + 256];
      assert before[y * 256..y * 256 + 256] == before[..n * 256][y * 256..y * 256 + 256];
    }
  }

  lemma InverseEntry(table: seq<bv8>, x: nat)
    requires |table| == 256 * 256 && x < 256 && StartsWith(table, DIV_ROWS, 256)
    ensures table[x * 256 + 1] == Gf256.Div(1, Byte(x))
  {
    assert table[x * 256..x * 256 + 256][1] == DIV_ROWS[x][1];
    assert Byte(1) == 1;
  }

  /** A row of MUL or DIV as it is looked up: zero, then EXP at the logarithm moved by a shift. */
  ghost predicate IsShifted(row: seq<bv8>, exp: seq<bv8>, log: seq<nat>, shift: nat)
    requires |exp| == 512 * 2 + 1 && |log| == 256
  {
    && |row| == 256 && row[0] == 0
    && forall x: nat | 1 <= x < 256 :: log[x] + shift < |exp| && row[x] == exp[log[x] + shift]
  }

  lemma LogEntry(exp: seq<bv8>, log: seq<nat>, x: nat)
    requires |exp| == 512 * 2 + 1 && |log| == 256 && Inverse(exp, log) && 1 <= x < 256
    ensures Byte(x) != 0 && log[x] == Gf256.Log(Byte(x))
  {
    SameByte(x, 0);
    ValueByte(x);
  }

  lemma Lookup(exp: seq<bv8>, a: bv8, b: bv8)
    requires |exp| == 512 * 2 + 1 && ExpsUpTo(exp, 511) && a != 0 && b != 0
    ensures Gf256.Mul(a, b) == exp[Gf256.Log(a) + Gf256.Log(b)]
    ensures Gf256.Div(a, b) == exp[Gf256.Log(a) + (255 - Gf256.Log(b))]
  {
  }

  lemma Entry(exp: seq<bv8>, log: seq<nat>, x: nat, y: nat)
    requires |exp| == 512 * 2 + 1 && |log| == 256 && Inverse(exp, log)
    requires 1 <= x < 256 && 1 <= y < 256
    ensures 1 <= log[x] <= 255 && 1 <= log[y] <= 255
    ensures Gf256.Mul(Byte(x), Byte(y)) == exp[log[x] + log[y]]
    ensures Gf256.Div(Byte(x), Byte(y)) == exp[log[x] + (255 - log[y])]
  {
    LogEntry(exp, log, x);
    LogEntry(exp, log, y);
    Lookup(exp, Byte(x), Byte(y));
  }

  lemma Rows(exp: seq<bv8>, log: seq<nat>, y: nat)
    requires |exp| == 512 * 2 + 1 && |log| == 256 && Inverse(exp, log)
    requires 1 <= y < 256
    ensures 1 <= log[y] <= 255
    ensures IsShifted(MulRow(y), exp, log, log[y])
    ensures IsShifted(DivRow(y), exp, log, 255 - log[y])
  {
    Entry(exp, log, y, y);
    forall x: nat | 1 <= x < 256
      ensures 1 <= log[x] <= 255
      ensures MulRow(y)[x] == exp[log[x] + log[y]]
      ensures DivRow(y)[x] == exp[log[x] + (255 - log[y])]
    {
      Entry(exp, log, x, y);
    }
  }

  lemma LogStep(before: seq<nat>, n: nat)
    requires LogsUpTo(before, n) && n < 255
    ensures LogsUpTo(before[Value(Gf256.Exp(n + 1)) := n + 1], n + 1)
  {
    forall i | 1 <= i <= n
      ensures Value(Gf256.Exp(i)) != Value(Gf256.Exp(n + 1))
    {
      Gf256.ExpIsInjective(i, n + 1);
      ByteValue(Gf256.Exp(i));
      ByteValue(Gf256.Exp(n + 1));
    }
  }

  lemma ExpWraps(n: nat)
    ensures Gf256.Exp(n + 255) == Gf256.Exp(n)
  {
    Gf256.PoweredAdds(n, 255, 1);
    Gf256.OrderOfTwo();
  }

  class Context {
    const LogTable: array<nat>
    const ExpTable: array<bv8>
    const MulTable: array<bv8>
    const DivTable: array<bv8>
    const InvTable: array<bv8>

    ghost predicate Shaped() {
      && LogTable.Length == 256 && ExpTable.Length == 512 * 2 + 1
      && MulTable.Length == DivTable.Length == 256 * 256 && InvTable.Length == 256
    }

    ghost predicate ExpLogReady()
      requires Shaped()
      reads LogTable, ExpTable
    {
      Inverse(ExpTable[..], LogTable[..])
    }

    constructor ()
      ensures Shaped()
      ensures fresh(LogTable) && fresh(ExpTable) && fresh(MulTable) && fresh(DivTable) && fresh(InvTable)
      ensures MulTable != DivTable && MulTable != ExpTable && MulTable != InvTable
      ensures DivTable != ExpTable && DivTable != InvTable && ExpTable != InvTable
    {
      LogTable := new nat[256];
      ExpTable := new bv8[512 * 2 + 1];
      MulTable := new bv8[256 * 256];
      DivTable := new bv8[256 * 256];
      InvTable := new bv8[256];
    }

    method InitExpLog()
      requires Shaped()
      modifies LogTable, ExpTable
      ensures ExpLogReady()
    {
      LogTable[0] := 512;
      ExpTable[0] := 1;
      for jj := 1 to 255
        invariant ExpsUpTo(ExpTable[..], jj) && LogsUpTo(LogTable[..], jj - 1)
      {
        var next := Doubling.Doubled(ExpTable[jj - 1]);
        ExpTable[jj] := next;
        LogStep(LogTable[..], jj - 1);
        LogTable[Value(ExpTable[jj])] := jj;
      }
      ExpWraps(0);
      ExpTable[255] := ExpTable[0];
      LogStep(LogTable[..], 254);
      LogTable[Value(ExpTable[255])] := 255;
      RepeatPowers();
      LogsInvert(ExpTable[..], LogTable[..]);
    }

    /** The part of EXP that sums of two logarithms reach. */
    method RepeatPowers()
      requires Shaped() && ExpsUpTo(ExpTable[..], 256)
      modifies ExpTable
      ensures ExpsUpTo(ExpTable[..], 511)
    {
      for jj := 256 to 2 * 255
        invariant ExpsUpTo(ExpTable[..], jj)
      {
        ExpWraps(jj - 255);
        ExpTable[jj] := ExpTable[jj % 255];
      }
      ExpWraps(255);
      ExpWraps(0);
      ExpTable[2 * 255] := 1;
      for jj := 2 * 255 + 1 to 4 * 255
        invariant ExpsUpTo(ExpTable[..], 511)
      {
        ExpTable[jj] := 0;
      }
    }

    /** MUL and DIV, one row for each right operand, through two moving row pointers. */
    method InitMulDiv()
      requires Shaped() && ExpLogReady()
      requires MulTable != DivTable && MulTable != ExpTable && DivTable != ExpTable
      modifies MulTable, DivTable
      ensures StartsWith(MulTable[..], MUL_ROWS, 256) && StartsWith(DivTable[..], DIV_ROWS, 256)
    {
      var m, d := 0, 0;
      for x := 0 to 256
        invariant forall k | 0 <= k < x :: MulTable[k] == 0 && DivTable[k] == 0
      {
        MulTable[m + x], DivTable[d + x] := 0, 0;
      }
      assert MulTable[..256] == MulRow(0) && DivTable[..256] == DivRow(0);
      for y := 1 to 256
        invariant m == d == (y - 1) * 256
        invariant StartsWith(MulTable[..], MUL_ROWS, y) && StartsWith(DivTable[..], DIV_ROWS, y)
      {
        m, d := m + 256, d + 256;
        Rows(ExpTable[..], LogTable[..], y);
        var logY := LogTable[y];
        var logYn := 255 - logY;
        ghost var mulBefore, divBefore := MulTable[..], DivTable[..];
        FillRow(m, d, logY, logYn, MUL_ROWS[y], DIV_ROWS[y]);
        OneMoreRow(mulBefore, MulTable[..], MUL_ROWS, y);
        OneMoreRow(divBefore, DivTable[..], DIV_ROWS, y);
      }
    }

    method FillRow(m: nat, d: nat, logY: nat, logYn: nat, ghost mulRow: seq<bv8>, ghost divRow: seq<bv8>)
      requires Shaped() && m == d && m + 256 <= MulTable.Length
      requires MulTable != DivTable && MulTable != ExpTable && DivTable != ExpTable
      requires IsShifted(mulRow, ExpTable[..], LogTable[..], logY)
      requires IsShifted(divRow, ExpTable[..], LogTable[..], logYn)
      modifies MulTable, DivTable
      ensures MulTable[..m] == old(MulTable[..m]) && DivTable[..m] == old(DivTable[..m])
      ensures MulTable[m..m + 256] == mulRow && DivTable[m..m + 256] == divRow
    {
      MulTable[m], DivTable[d] := 0, 0;
      for x := 1 to 256
        invariant MulTable[..m] == old(MulTable[..m]) && DivTable[..m] == old(DivTable[..m])
        invariant MulTable[m..m + x] == mulRow[..x] && DivTable[m..m + x] == divRow[..x]
      {
        var logX := LogTable[x];
        assert LogTable[..][x] == logX;
        MulTable[m + x] := ExpTable[logX + logY];
        DivTable[d + x] := ExpTable[logX + logYn];
      }
    }

    method InitInv()
      requires Shaped()
      requires MulTable != InvTable && DivTable != InvTable
      requires StartsWith(DivTable[..], DIV_ROWS, 256)
      modifies InvTable
      ensures forall x | 0 <= x < 256 :: InvTable[x] == Gf256.Div(1, Byte(x))
    {
      ghost var div := DivTable[..];
      for x := 0 to 256
        invariant forall k | 0 <= k < x :: InvTable[k] == Gf256.Div(1, Byte(k))
      {
        InvTable[x] := DivTable[x * 256 + 1];
        InverseEntry(div, x);
      }
    }
  }
}
