/** Reflected binary Gray code as the simulator uses it: `grayToBinary`,
    the `i ^ (i >> 1)` table of `genGrayCode`, the select word that the decoder
    and the multiplexer build from their select bits, `validPowerTwo` and
    `log_2`, and the input rows the enumeration driver writes. */
module Gray {
  import opened Bits

  /** `i ^ (i >> 1)`: entry i of the table `genGrayCode` fills. */
  function Gray(i: nat): nat
  {
    Xor(i, i / 2)
  }

  /** `grayToBinary`: g ^ (g >> 1) ^ (g >> 2) ^ ... until the shifted value is 0. */
  function GrayToBinary(g: nat): nat
  {
    if g == 0 then 0 else Xor(g, GrayToBinary(g / 2))
  }

  /** The folding equation also holds at 0. */
  lemma GrayToBinaryUnfold(g: nat)
    ensures GrayToBinary(g) == Xor(g, GrayToBinary(g / 2))
  {
    if g == 0 { XorZero(0); }
  }

  /** `grayToBinary` as the C code computes it: `while (in >>= 1) temp ^= in;`. */
  method GrayToBinaryLoop(g: nat) returns (temp: nat)
    ensures temp == GrayToBinary(g)
  {
    temp := g;
    var x: nat := g / 2;
    GrayToBinaryUnfold(g);
    while x != 0
      invariant GrayToBinary(g) == Xor(temp, GrayToBinary(x))
      decreases x
    {
      GrayToBinaryUnfold(x);
      XorAssoc(temp, x, GrayToBinary(x / 2));
      temp := Xor(temp, x);
      x := x / 2;
    }
    XorZero(temp);
  }

  lemma GrayHalf(i: nat)
    ensures Gray(i) / 2 == Gray(i / 2)
  {
    XorHalf(i, i / 2);
  }

  /** Shifting the binary value right by one is converting the shifted Gray word. */
  lemma {:induction false} GrayToBinaryHalf(g: nat)
    ensures GrayToBinary(g) / 2 == GrayToBinary(g / 2)
    decreases g
  {
    if g != 0 {
      GrayToBinaryHalf(g / 2);
      XorHalf(g, GrayToBinary(g / 2));
      GrayToBinaryUnfold(g / 2);
    }
  }

  /** grayToBinary undoes `i ^ (i >> 1)`: the enumeration index comes back. */
  lemma {:induction false} GrayToBinaryOfGray(i: nat)
    ensures GrayToBinary(Gray(i)) == i
    decreases i
  {
    if i != 0 {
      GrayToBinaryOfGray(i / 2);
      GrayToBinaryUnfold(Gray(i));
      GrayHalf(i);
      XorCancel(i, i / 2);
    } else {
      XorZero(0);
    }
  }

  /** ... and `i ^ (i >> 1)` undoes grayToBinary: the two are inverse bijections. */
  lemma GrayOfGrayToBinary(g: nat)
    ensures Gray(GrayToBinary(g)) == g
  {
    GrayToBinaryUnfold(g);
    GrayToBinaryHalf(g);
    XorCancel(g, GrayToBinary(g / 2));
  }

  /** A Gray word of n bits converts to an index below 2^n. */
  lemma {:induction false} GrayToBinaryBound(g: nat, n: nat)
    requires g < Pow2(n)
    ensures GrayToBinary(g) < Pow2(n)
    decreases n
  {
    if n > 0 {
      GrayToBinaryBound(g / 2, n - 1);
      GrayToBinaryUnfold(g);
      assert GrayToBinary(g / 2) < Pow2(n);
      XorBound(g, GrayToBinary(g / 2), n);
    } else {
      assert g == 0;
    }
  }

  lemma GrayBound(i: nat, n: nat)
    requires i < Pow2(n)
    ensures Gray(i) < Pow2(n)
  {
    XorBound(i, i / 2, n);
  }

  lemma GrayInjective(i: nat, j: nat)
    requires Gray(i) == Gray(j)
    ensures i == j
  {
    GrayToBinaryOfGray(i);
    GrayToBinaryOfGray(j);
  }

  /** Number of trailing zero bits of a positive number. */
  function TrailingZeros(x: nat): nat
    requires x > 0
  {
    if x % 2 == 1 then 0 else 1 + TrailingZeros(x / 2)
  }

  /** Consecutive Gray words differ in exactly one bit: the one at the
      position of the lowest set bit of i + 1. */
  lemma {:induction false} GrayStep(i: nat)
    ensures Xor(Gray(i), Gray(i + 1)) == Pow2(TrailingZeros(i + 1))
    decreases i
  {
    XorUnfold(Gray(i), Gray(i + 1));
    GrayHalf(i);
    GrayHalf(i + 1);
    XorHalf(i, i / 2);
    XorHalf(i + 1, (i + 1) / 2);
    if i % 2 == 0 {
      assert (i + 1) / 2 == i / 2;
      XorSelf(Gray(i / 2));
    } else {
      GrayStep(i / 2);
      assert (i + 1) / 2 == i / 2 + 1;
    }
  }

  /** `genGrayCode(bits)`: an array of `2 << (bits - 1)` entries, entry i being
      `i ^ (i >> 1)`. The shift is undefined in C for bits == 0. */
  method GenGrayCode(bits: nat) returns (codes: array<nat>)
    requires bits >= 1
    ensures fresh(codes) && codes.Length == Pow2(bits)
    ensures forall i :: 0 <= i < codes.Length ==> codes[i] == Gray(i)
  {
    var n := 2 * Pow2(bits - 1);
    codes := new nat[n];
    for i := 0 to n
      invariant forall k :: 0 <= k < i ==> codes[k] == Gray(k)
    {
      codes[i] := Xor(i, i / 2);
    }
  }

  /** `consecutive entries of genGrayCode differ in exactly one bit`. */
  lemma GrayAdjacent(i: nat)
    ensures exists k: nat :: Xor(Gray(i), Gray(i + 1)) == Pow2(k)
  {
    GrayStep(i);
  }

  /** The word a decoder or multiplexer builds from its select bits:
      `code = (code << 1) + in[i]` over the selects, the first one most significant. */
  function SelectCode(sel: seq<Bit>): (code: nat)
    ensures code < Pow2(|sel|)
  {
    if sel == [] then 0 else 2 * SelectCode(sel[..|sel| - 1]) + sel[|sel| - 1]
  }

  /** The m low bits of x, the most significant first. */
  function MsbFirst(x: nat, m: nat): (bits: seq<Bit>)
    ensures |bits| == m
  {
    seq(m, p requires 0 <= p < m => BitAt(x, m - 1 - p))
  }

  /** Reading back the bits of an m-bit number gives the number. */
  lemma {:induction false} SelectCodeMsbFirst(x: nat, m: nat)
    requires x < Pow2(m)
    ensures SelectCode(MsbFirst(x, m)) == x
    decreases m
  {
    if m == 0 {
      assert x == 0;
    } else {
      var bits := MsbFirst(x, m);
      forall p | 0 <= p < m - 1 ensures bits[p] == MsbFirst(x / 2, m - 1)[p] {
        assert BitAt(x, m - 1 - p) == BitAt(x / 2, m - 2 - p);
      }
      assert bits[..m - 1] == MsbFirst(x / 2, m - 1);
      SelectCodeMsbFirst(x / 2, m - 1);
      assert bits[m - 1] == BitAt(x, 0) == x % 2;
      assert SelectCode(bits) == 2 * SelectCode(bits[..m - 1]) + bits[m - 1];
    }
  }

  /** The input values the driver writes in row i of an m-input circuit:
      the input at position m-1-j gets bit j of `i ^ (i >> 1)`. */
  function InputRow(m: nat, i: nat): (row: seq<Bit>)
    ensures |row| == m
  {
    MsbFirst(Gray(i), m)
  }

  /** Row 0 sets every input to 0. */
  lemma FirstRowZero(m: nat)
    ensures forall p :: 0 <= p < m ==> InputRow(m, 0)[p] == 0
  {
    XorZero(0);
    forall p | 0 <= p < m ensures InputRow(m, 0)[p] == 0 {
      BitAtZero(m - 1 - p);
    }
  }

  /** Consecutive rows differ in exactly one input. */
  lemma AdjacentRowsDifferOnce(m: nat, i: nat)
    requires i + 1 < Pow2(m)
    ensures exists p :: (0 <= p < m && InputRow(m, i)[p] != InputRow(m, i + 1)[p] &&
                         forall q :: 0 <= q < m && q != p ==> InputRow(m, i)[q] == InputRow(m, i + 1)[q])
  {
    var t := TrailingZeros(i + 1);
    var a, b := Gray(i), Gray(i + 1);
    GrayStep(i);
    GrayBound(i, m);
    GrayBound(i + 1, m);
    XorBound(a, b, m);
    assert Pow2(t) < Pow2(m);
    if t >= m {
      if t > m { Pow2Monotone(m, t); }
      assert false;
    }
    var p := m - 1 - t;
    var r, s := InputRow(m, i), InputRow(m, i + 1);
    forall q | 0 <= q < m
      ensures r[q] != s[q] <==> q == p
    {
      assert r[q] == BitAt(a, m - 1 - q) && s[q] == BitAt(b, m - 1 - q);
      BitAtXor(a, b, m - 1 - q);
      BitAtPow2(t, m - 1 - q);
    }
    assert r[p] != s[p];
  }

  /** The rows of an m-input circuit read as select words are the Gray words,
      so grayToBinary maps row i back to i. */
  lemma InputRowCode(m: nat, i: nat)
    requires i < Pow2(m)
    ensures SelectCode(InputRow(m, i)) == Gray(i)
    ensures GrayToBinary(SelectCode(InputRow(m, i))) == i
  {
    GrayBound(i, m);
    SelectCodeMsbFirst(Gray(i), m);
    GrayToBinaryOfGray(i);
  }

  /** The 2^m rows are pairwise different: every assignment of the inputs occurs once. */
  lemma InputRowsDistinct(m: nat, i: nat, j: nat)
    requires i < Pow2(m) && j < Pow2(m) && i != j
    ensures InputRow(m, i) != InputRow(m, j)
  {
    InputRowCode(m, i);
    InputRowCode(m, j);
  }

  /** `validPowerTwo(num)`: `(num & (num - 1)) == 0`; for num == 0 this is
      `0 & -1`, which is 0 in two's complement. */
  function ValidPowerTwo(num: nat): bool
  {
    if num == 0 then true else And(num, num - 1) == 0
  }

  lemma {:induction false} AndSelf(a: nat)
    ensures And(a, a) == a
    decreases a
  {
    if a != 0 { AndSelf(a / 2); }
  }

  lemma {:induction false} PowerOfTwoExponent(n: nat) returns (k: nat)
    requires n >= 1 && And(n, n - 1) == 0
    ensures n == Pow2(k)
    decreases n
  {
    if n == 1 {
      k := 0;
    } else if n % 2 == 1 {
      AndSelf(n / 2);
      assert false;
    } else {
      assert And(n, n - 1) == 2 * And(n / 2, n / 2 - 1);
      var k' := PowerOfTwoExponent(n / 2);
      k := k' + 1;
    }
  }

  lemma {:induction false} PowerOfTwoAnd(k: nat)
    ensures And(Pow2(k), Pow2(k) - 1) == 0
    decreases k
  {
    if k > 0 {
      PowerOfTwoAnd(k - 1);
      var m := Pow2(k - 1);
      assert Pow2(k) - 1 == 2 * (m - 1) + 1;
      assert And(2 * m, 2 * (m - 1) + 1) == 2 * And(m, m - 1);
    }
  }

  /** `validPowerTwo` holds exactly of 0 and the powers of two. */
  lemma ValidPowerTwoIff(num: nat)
    ensures ValidPowerTwo(num) <==> num == 0 || exists k: nat :: num == Pow2(k)
  {
    if num != 0 {
      if ValidPowerTwo(num) {
        var k := PowerOfTwoExponent(num);
      }
      if exists k: nat :: num == Pow2(k) {
        var k: nat :| num == Pow2(k);
        PowerOfTwoAnd(k);
      }
    }
  }

  lemma Pow2Injective(j: nat, k: nat)
    requires Pow2(j) == Pow2(k)
    ensures j == k
  {
    if j < k { Pow2Monotone(j, k); }
    if k < j { Pow2Monotone(k, j); }
  }

  /** `log_2`: -1 for 0, -2 for a number that is not a power of two, else the
      exponent, found by shifting right until 1 is left. */
  method Log2(num: nat) returns (r: int)
    ensures num == 0 ==> r == -1
    ensures num != 0 && !ValidPowerTwo(num) ==> r == -2
    ensures num != 0 && ValidPowerTwo(num) ==> r >= 0 && num == Pow2(r)
    ensures forall k: nat :: num == Pow2(k) ==> r == k
  {
    if num == 0 {
      return -1;
    }
    ValidPowerTwoIff(num);
    if !ValidPowerTwo(num) {
      return -2;
    }
    ghost var e := PowerOfTwoExponent(num);
    var n := num;
    r := 0;
    while n != 1
      invariant 0 <= r <= e && n == Pow2(e - r)
      decreases n
    {
      n := n / 2;
      r := r + 1;
    }
    forall k: nat | num == Pow2(k) ensures r == k {
      Pow2Injective(r, k);
    }
  }

}
