/** `src/tools/calc_index.py`: a table of how many keywords a name of each
    length yields with a maximum keyword length of 8, and the memory those
    keywords take with 8-byte and with 4-byte pointers. Python 2 `/` on the
    non-negative operands here is floor division, like Dafny's. */
module CalcIndex {
  import opened Common
  import FsIndex

  /** `mil`, the maximum index length. */
  const MIL: nat := 8

  /** `index_count` for a name of `i` characters. */
  function IndexCount(i: nat): (r: nat)
    ensures 2 * r <= Tri(i)
    ensures i > 0 ==> i <= r
  {
    if i <= MIL then Tri(i) / 2 else MIL * (2 * i - MIL + 1) / 2
  }

  /** `i(i+1)`. */
  function Tri(i: int): int
  {
    i * (i + 1)
  }

  /** The two memory columns share one shape: below the cut
      `i(i+1)(i+3ptr+5)/6` (`i+29` for 8-byte pointers, `i+17` for 4-byte
      ones), above it `index_count*(ptr+1)` plus the characters of the
      keywords. */
  function MemFormula(i: nat, ptr: nat): nat
  {
    if i <= MIL then Cubic(i, ptr) / 6
    else IndexCount(i) * (ptr + 1) + MIL * (MIL + 1) * (3 * i - 2 * MIL + 2) / 6
  }

  /** The `Mem-(p8)` column. */
  function MemP8(i: nat): nat
  {
    MemFormula(i, 8)
  }

  /** The `Mem-(p4)` column. */
  function MemP4(i: nat): nat
  {
    MemFormula(i, 4)
  }

  /** Reference definition: the bytes of every keyword of an `n`-character
      name, each keyword costing its characters, its NUL and one pointer. */
  function KwBytes(n: nat, ptr: nat): nat
  {
    if n == 0 then 0 else RunBytes(FsIndex.Min(MIL, n), ptr) + KwBytes(n - 1, ptr)
  }

  /** The keywords of lengths 1..m starting at one position. */
  function RunBytes(m: nat, ptr: nat): nat
  {
    if m == 0 then 0 else m + 1 + ptr + RunBytes(m - 1, ptr)
  }

  /** `m(m+3+2ptr)`: twice the bytes of one run of `m` keywords. */
  function Quad(m: int, ptr: int): int
  {
    m * (m + 3 + 2 * ptr)
  }

  /** `n(n+1)(n+3ptr+5)`: six times the bytes of all keywords of a short name. */
  function Cubic(n: int, ptr: int): int
  {
    n * (n + 1) * (n + 3 * ptr + 5)
  }

  lemma {:induction false} RunBytesClosed(m: nat, ptr: nat)
    ensures 2 * RunBytes(m, ptr) == Quad(m, ptr)
  {
    if m > 0 {
      RunBytesClosed(m - 1, ptr);
      QuadraticStep(m, ptr);
    }
  }

  lemma QuadraticStep(m: int, p: int)
    ensures Quad(m, p) == Quad(m - 1, p) + 2 * (m + 1 + p)
  {
  }

  /** `index_count` counts the keywords `add_index` emits. */
  lemma {:induction false} IndexCountIsKwCount(n: nat)
    ensures IndexCount(n) == FsIndex.KwCount(n)
  {
    if n > 0 {
      IndexCountIsKwCount(n - 1);
      if n <= MIL {
        TriangleExact(n - 1);
        TriStep(n);
      } else if n == MIL + 1 {
      } else {
        Step(n - 1);
      }
    }
  }

  /** The count for the name lengths `add_index` sees, stated on names. */
  lemma IndexCountOfName(w: seq<int>)
    ensures |FsIndex.Windows(w)| == IndexCount(|w|)
  {
    FsIndex.WindowsCount(w);
    IndexCountIsKwCount(|w|);
  }

  /** The first branch's division is exact. */
  lemma {:induction false} TriangleExact(i: nat)
    ensures Tri(i) % 2 == 0
  {
    if i > 0 {
      TriangleExact(i - 1);
      TriStep(i);
    }
  }

  lemma TriStep(i: int)
    ensures Tri(i) == Tri(i - 1) + 2 * i
  {
  }

  /** Past the cut each extra character adds MIL keywords; both branches give
      36 at the cut. */
  lemma Step(i: nat)
    requires i >= MIL
    ensures IndexCount(i + 1) == IndexCount(i) + MIL
    ensures IndexCount(MIL) == MIL * (2 * MIL - MIL + 1) / 2 == 36
  {
  }

  /** Both branches are exact: `IndexCount(i)` is `i(i+1)/2` or `4(2i-7)`
      with no remainder dropped. */
  lemma IndexCountExact(i: nat)
    ensures i <= MIL ==> 2 * IndexCount(i) == Tri(i)
    ensures i > MIL ==> 2 * IndexCount(i) == MIL * (2 * i - MIL + 1) && IndexCount(i) == 4 * (2 * i - 7)
  {
    TriangleExact(i);
  }

  /** `i(i+1)(i+3ptr+5)` is six times the bytes of the keywords of a name no
      longer than the cut. */
  lemma {:induction false} SmallMemory(n: nat, ptr: nat)
    requires n <= MIL
    ensures 6 * KwBytes(n, ptr) == Cubic(n, ptr)
  {
    if n > 0 {
      SmallMemory(n - 1, ptr);
      RunBytesClosed(n, ptr);
      CubicStep(n, ptr);
    }
  }

  lemma CubicStep(n: int, p: int)
    ensures Cubic(n, p) == Cubic(n - 1, p) + 3 * Quad(n, p)
  {
  }

  /** Each memory column is the bytes of the keywords it counts, and its
      divisions are exact. */
  lemma MemFormulaIsKwBytes(n: nat, ptr: nat)
    ensures MemFormula(n, ptr) == KwBytes(n, ptr)
    ensures n <= MIL ==> Cubic(n, ptr) % 6 == 0
    ensures n > MIL ==> MIL * (MIL + 1) * (3 * n - 2 * MIL + 2) % 6 == 0
  {
    if n <= MIL {
      SmallMemory(n, ptr);
    } else {
      LargeMemory(n, ptr);
    }
  }

  /** Past the cut every extra character adds one full run of MIL keywords. */
  lemma {:induction false} LargeMemory(n: nat, ptr: nat)
    requires n > MIL
    ensures IndexCount(n) * (ptr + 1) + 12 * (3 * n - 14) == KwBytes(n, ptr)
  {
    RunBytesClosed(MIL, ptr);
    Step(n - 1);
    if n == MIL + 1 {
      SmallMemory(MIL, ptr);
    } else {
      LargeMemory(n - 1, ptr);
    }
  }

  /** The p8 and p4 columns: 444 and 300 at the cut from both branches. */
  lemma MemColumns(i: nat)
    ensures MemP8(i) == KwBytes(i, 8) && MemP4(i) == KwBytes(i, 4)
    ensures MemP8(MIL) == IndexCount(MIL) * 9 + MIL * (MIL + 1) * (3 * MIL - 2 * MIL + 2) / 6 == 444
    ensures MemP4(MIL) == IndexCount(MIL) * 5 + MIL * (MIL + 1) * (3 * MIL - 2 * MIL + 2) / 6 == 300
  {
    MemFormulaIsKwBytes(i, 8);
    MemFormulaIsKwBytes(i, 4);
    MemFormulaIsKwBytes(MIL, 8);
    MemFormulaIsKwBytes(MIL, 4);
  }

  /** One printed data row: name length, count and the two memory figures. */
  function RowLine(i: nat): string
  {
    "\t" + Decimal(i) + "\t\t" + Decimal(IndexCount(i)) + "\t\t" + Decimal(MemP8(i)) + "\t\t" + Decimal(MemP4(i))
  }

  /** The lines the script prints, one per `print` statement. */
  function Output(): (lines: seq<string>)
    ensures |lines| == 103
    ensures lines[2] == seq(80, _ => '=')
    ensures forall k :: 3 <= k < 103 ==> lines[k] == RowLine(k - 2)
  {
    ["Max Index Length: " + Decimal(MIL), "\tName-Len\tIndex-Count\tMem-(p8)\tMem-(p4)\n", seq(80, _ => '=')]
      + seq(100, k requires 0 <= k < 100 => RowLine(k + 1))
  }
}
