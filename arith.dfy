/** Two's-complement words of width `w`, as the integers `0 .. 2^w - 1`:
    LLVM's `iN` arithmetic wraps modulo `2^w`, and its bitwise operators act
    on the `w` binary digits. */
module Arith {

  function Pow2(w: nat): (p: nat)
    ensures p >= 1
  {
    if w == 0 then 1 else 2 * Pow2(w - 1)
  }

  /** Bitwise `xor` of the low `w` digits of `x` and `y`. */
  function BitXor(x: nat, y: nat, w: nat): (r: nat)
    ensures r < Pow2(w)
  {
    if w == 0 then 0
    else (if x % 2 != y % 2 then 1 else 0) + 2 * BitXor(x / 2, y / 2, w - 1)
  }

  /** Bitwise `and` of the low `w` digits of `x` and `y`. */
  function BitAnd(x: nat, y: nat, w: nat): (r: nat)
    ensures r < Pow2(w)
  {
    if w == 0 then 0
    else (if x % 2 == 1 && y % 2 == 1 then 1 else 0) + 2 * BitAnd(x / 2, y / 2, w - 1)
  }

  /** Bitwise `or` of the low `w` digits of `x` and `y`. */
  function BitOr(x: nat, y: nat, w: nat): (r: nat)
    ensures r < Pow2(w)
  {
    if w == 0 then 0
    else (if x % 2 == 1 || y % 2 == 1 then 1 else 0) + 2 * BitOr(x / 2, y / 2, w - 1)
  }

  /** Adding without carries (`xor`) and adding the carries back, each one
      digit up (`2 * and`), is adding: `(a ^ b) + 2 * (a & b) == a + b`,
      exactly, for words of any width. */
  lemma {:induction false} XorAndSum(x: nat, y: nat, w: nat)
    requires x < Pow2(w) && y < Pow2(w)
    ensures BitXor(x, y, w) + 2 * BitAnd(x, y, w) == x + y
  {
    if w > 0 {
      XorAndSum(x / 2, y / 2, w - 1);
    }
  }

  /** `xor` with the all-ones word is the complement: `~b == 2^w - 1 - b`. */
  lemma {:induction false} XorAllOnes(y: nat, w: nat)
    requires y < Pow2(w)
    ensures BitXor(y, Pow2(w) - 1, w) == Pow2(w) - 1 - y
  {
    if w > 0 {
      var ones := Pow2(w) - 1;
      assert ones % 2 == 1 && ones / 2 == Pow2(w - 1) - 1;
      XorAllOnes(y / 2, w - 1);
    }
  }

  /** A number that differs from `t` by a multiple of `m` leaves the
      remainder of `t`. */
  lemma ModShift(k: int, t: int, m: int)
    requires m > 0
    ensures (m * k + t) % m == t % m
  {
    var a := m * k + t;
    var d := a / m - k - t / m;
    assert m * d == t % m - a % m;
  }

  lemma ModAddLeft(a: int, b: int, m: int)
    requires m > 0
    ensures (a % m + b) % m == (a + b) % m
  {
    ModShift(a / m, a % m + b, m);
  }

  lemma ModMulLeft(a: int, b: int, m: int)
    requires m > 0
    ensures (a % m * b) % m == (a * b) % m
  {
    assert a * b == m * (a / m * b) + a % m * b;
    ModShift(a / m * b, a % m * b, m);
  }

  lemma ModSmall(a: int, m: int)
    requires 0 <= a < m
    ensures a % m == a
  {
    ModShift(0, a, m);
  }
}
