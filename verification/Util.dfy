/** Machine integers, alignment (src/util.c) and a few sequence facts used everywhere. */
module Util {

  const U32_LIMIT: int := 0x1_0000_0000
  const U64_LIMIT: int := 0x1_0000_0000_0000_0000

  type byte = x: int | 0 <= x < 256
  type u32 = x: int | 0 <= x < U32_LIMIT
  type u64 = x: int | 0 <= x < U64_LIMIT

  datatype Option<+T> = None | Some(value: T)

  /** A value or the return code of what failed. */
  datatype Result<+T> = Ok(value: T) | Err(code: int)

  /** C's `+` on uint64_t. */
  function Add64(a: u64, b: u64): u64 {
    if a + b < U64_LIMIT then a + b else a + b - U64_LIMIT
  }

  /** C's `-` on uint64_t. */
  function Sub64(a: u64, b: u64): u64 {
    if a >= b then a - b else a - b + U64_LIMIT
  }

  function Min(a: int, b: int): int {
    if a < b then a else b
  }

  function Max(a: int, b: int): int {
    if a > b then a else b
  }

  /** util_nearest_upper_bound_ulong: the least multiple of `bound` that is at least `value`. */
  function AlignUp(value: nat, bound: nat): (r: nat)
    requires bound > 0
    ensures r % bound == 0
    ensures value <= r < value + bound
  {
    if value % bound != 0 then
      LemmaMultiple(value / bound + 1, bound);
      assert value / bound * bound + bound == (value / bound + 1) * bound;
      value / bound * bound + bound
    else
      value
  }

  lemma LemmaMultiple(k: nat, d: nat)
    requires d > 0
    ensures (k * d) % d == 0
    ensures (k * d) / d == k
  {
    LemmaDivUnique(k * d, d, k, 0);
  }

  lemma LemmaDivUnique(x: int, d: int, q: int, r: int)
    requires d > 0 && 0 <= r < d && x == q * d + r
    ensures x / d == q && x % d == r
  {
    var k := x / d - q;
    assert k * d == r - x % d by {
      assert x == (x / d) * d + x % d;
      assert k * d == (x / d) * d - q * d;
    }
    if k >= 1 {
      LemmaMulMono(1, k, d);
    } else if k <= -1 {
      LemmaMulMono(k, -1, d);
    }
  }

  lemma LemmaMulMono(a: int, b: int, d: int)
    requires a <= b && d >= 0
    ensures a * d <= b * d
  {
    assert (b - a) * d >= 0;
    assert b * d == a * d + (b - a) * d;
  }

  // ---- Products, quotients and divisibility by repeated addition, which keeps proofs about blocks linear ----

  function Times(i: nat, b: nat): nat {
    if i == 0 then 0 else Times(i - 1, b) + b
  }

  function Quot(x: nat, b: nat): nat
    requires b > 0
  {
    if x < b then 0 else 1 + Quot(x - b, b)
  }

  predicate Divides(b: nat, x: nat)
    requires b > 0
  {
    if x < b then x == 0 else Divides(b, x - b)
  }

  lemma TimesIsProduct(i: nat, b: nat)
    ensures Times(i, b) == i * b
  {
    if i > 0 {
      assert i * b == (i - 1) * b + b;
    }
  }

  lemma QuotIsDivision(x: nat, b: nat)
    requires b > 0
    ensures Quot(x, b) == x / b
    ensures Divides(b, x) <==> x % b == 0
  {
    if x < b {
      LemmaDivUnique(x, b, 0, x);
    } else {
      QuotIsDivision(x - b, b);
      assert x == ((x - b) / b + 1) * b + (x - b) % b;
      LemmaDivUnique(x, b, (x - b) / b + 1, (x - b) % b);
    }
  }

  lemma TimesMono(i: nat, j: nat, b: nat)
    requires i <= j
    ensures Times(i, b) <= Times(j, b)
    ensures i < j ==> Times(i, b) + b <= Times(j, b)
  {
  }

  lemma TimesAdd(i: nat, j: nat, b: nat)
    ensures Times(i + j, b) == Times(i, b) + Times(j, b)
  {
    if j > 0 {
      TimesAdd(i, j - 1, b);
      assert i + j - 1 == i + (j - 1);
    }
  }

  lemma TimesQuot(x: nat, b: nat)
    requires b > 0
    ensures Times(Quot(x, b), b) <= x < Times(Quot(x, b), b) + b
    ensures Divides(b, x) <==> x == Times(Quot(x, b), b)
  {
  }

  lemma QuotMono(x: nat, y: nat, b: nat)
    requires b > 0 && x <= y
    ensures Quot(x, b) <= Quot(y, b)
  {
  }

  lemma QuotAdd(x: nat, y: nat, b: nat)
    requires b > 0 && Divides(b, x)
    ensures Quot(x + y, b) == Quot(x, b) + Quot(y, b)
    ensures Divides(b, x + y) <==> Divides(b, y)
  {
    if x >= b {
      QuotAdd(x - b, y, b);
      assert x + y - b == x - b + y;
    }
  }

  /** Among multiples, quotients compare as the numbers do. */
  lemma QuotOrder(x: nat, y: nat, b: nat)
    requires b > 0 && Divides(b, x) && Divides(b, y)
    ensures Quot(x, b) <= Quot(y, b) <==> x <= y
  {
    if x > y && Quot(x, b) <= Quot(y, b) {
      TimesQuot(x, b);
      TimesQuot(y, b);
      TimesMono(Quot(x, b), Quot(y, b), b);
    } else if x <= y {
      QuotMono(x, y, b);
    }
  }

  lemma DividesTrans(a: nat, b: nat, x: nat)
    requires a > 0 && b > 0 && Divides(a, b) && Divides(b, x)
    ensures Divides(a, x)
  {
    if x >= b {
      DividesTrans(a, b, x - b);
      QuotAdd(b, x - b, a);
    }
  }

  /** C's `/` and `%` on unsigned integers. */
  method DivMod(x: nat, b: nat) returns (q: nat, r: nat)
    requires b > 0
    ensures q == Quot(x, b) && (r == 0 <==> Divides(b, x))
  {
    QuotIsDivision(x, b);
    q, r := x / b, x % b;
  }
}
