/** 32-bit words as their bits, least significant first, with C's bitwise operators on them. */
module Word32 {

  type Word = w: seq<bool> | |w| == 32 witness seq(32, _ => false)

  const Zero: Word := seq(32, _ => false)

  function And(a: Word, b: Word): Word { seq(32, i requires 0 <= i < 32 => a[i] && b[i]) }
  function Or(a: Word, b: Word): Word { seq(32, i requires 0 <= i < 32 => a[i] || b[i]) }
  function Not(a: Word): Word { seq(32, i requires 0 <= i < 32 => !a[i]) }

  function Shl(a: Word, n: nat): Word { seq(32, i requires 0 <= i < 32 => n <= i && a[i - n]) }
  function Shr(a: Word, n: nat): Word { seq(32, i requires 0 <= i < 32 => i + n < 32 && a[i + n]) }

  function Pow2(n: nat): (p: nat)
    ensures p >= 1
  {
    if n == 0 then 1 else 2 * Pow2(n - 1)
  }

  /** The low `n` bits of a number. */
  function Bits(x: nat, n: nat): (b: seq<bool>)
    ensures |b| == n
  {
    if n == 0 then [] else [x % 2 == 1] + Bits(x / 2, n - 1)
  }

  /** The value of uint32_t arithmetic is taken modulo 2^32. */
  function FromNat(x: nat): Word { Bits(x, 32) }

  function ToNat(b: seq<bool>): nat {
    if b == [] then 0 else (if b[0] then 1 else 0) + 2 * ToNat(b[1..])
  }

  lemma ModStep(x: nat, m: nat)
    requires m >= 1
    ensures x % (2 * m) == x % 2 + 2 * ((x / 2) % m)
  {
    var q, r := x / 2, x % 2;
    var a, b := q / m, q % m;
    assert x == (2 * m) * a + (2 * b + r);
    ModUnique(x, 2 * m, a, 2 * b + r);
  }

  lemma ModUnique(x: nat, m: nat, a: nat, c: nat)
    requires m >= 1 && x == m * a + c && c < m
    ensures x % m == c
  {
    var k := x / m;
    assert x == m * k + x % m;
    assert k < a ==> m * (k + 1) <= m * a;
    assert a < k ==> m * (a + 1) <= m * k;
  }

  /** Taking the low bits of a number is taking it modulo a power of two. */
  lemma {:induction false} BitsValue(x: nat, n: nat)
    ensures ToNat(Bits(x, n)) == x % Pow2(n)
    decreases n
  {
    if n > 0 {
      BitsValue(x / 2, n - 1);
      assert Bits(x, n)[1..] == Bits(x / 2, n - 1);
      ModStep(x, Pow2(n - 1));
    }
  }

  lemma {:induction false} ToNatBound(b: seq<bool>)
    ensures ToNat(b) < Pow2(|b|)
    decreases |b|
  {
    if b != [] {
      ToNatBound(b[1..]);
    }
  }

  lemma {:induction false} ToNatPadded(b: seq<bool>, z: seq<bool>)
    requires forall i :: 0 <= i < |z| ==> !z[i]
    ensures ToNat(b + z) == ToNat(b)
    decreases |b| + |z|
  {
    if b == [] {
      assert b + z == z;
      if z != [] {
        assert [] + z[1..] == z[1..];
        ToNatPadded([], z[1..]);
      }
    } else {
      ToNatPadded(b[1..], z);
      assert (b + z)[1..] == b[1..] + z;
    }
  }

  lemma {:induction false} BitsPrefix(x: nat, n: nat, m: nat)
    requires m <= n
    ensures Bits(x, n)[..m] == Bits(x, m)
    decreases m
  {
    if m > 0 {
      BitsPrefix(x / 2, n - 1, m - 1);
      assert Bits(x, n)[..m] == [Bits(x, n)[0]] + Bits(x, n)[1..][..m - 1];
    }
  }

  /** The low `n` bits of a word, on their own. */
  function Low(w: Word, n: nat): Word { seq(32, i requires 0 <= i < 32 => i < n && w[i]) }

  lemma LowValue(x: nat, n: nat)
    requires n <= 32
    ensures ToNat(Low(FromNat(x), n)) == x % Pow2(n)
  {
    var w := Low(FromNat(x), n);
    BitsPrefix(x, 32, n);
    assert w[..n] == FromNat(x)[..n];
    assert w == w[..n] + w[n..];
    ToNatPadded(w[..n], w[n..]);
    BitsValue(x, n);
  }
}
