/**
 RabinKarpRollingHasher: a polynomial hash of a window, carried along as the window moves.
 */
module RollingHash {
  import opened Bits

  // ----- Arithmetic modulo the size of the hash word

  lemma Multiple(v: int, q: int, m: nat)
    requires m > 0
    ensures (v + q * m) % m == v % m
  {
    assert v + q * m == (v / m + q) * m + v % m;
    DivModUnique(v + q * m, m, v / m + q, v % m);
  }

  lemma ReduceProduct(a: int, b: int, m: nat)
    requires m > 0
    ensures ((a % m) * b) % m == (a * b) % m
  {
    var q, r := a / m, a % m;
    assert a * b == r * b + (q * b) * m by {
      assert a == q * m + r;
      assert (q * m + r) * b == q * m * b + r * b;
      assert q * m * b == (q * b) * m;
    }
    Multiple(r * b, q * b, m);
  }

  lemma ReduceSum(a: int, b: int, m: nat)
    requires m > 0
    ensures ((a % m) + b) % m == (a + b) % m
  {
    assert a + b == (a % m + b) + (a / m) * m;
    Multiple(a % m + b, a / m, m);
  }

  lemma ReduceDifference(a: int, b: int, m: nat)
    requires m > 0
    ensures (a % m - b % m) % m == (a - b) % m
  {
    var q := a / m - b / m;
    assert a - b == (a % m - b % m) + q * m by {
      assert (a / m - b / m) * m == a / m * m - b / m * m;
    }
    Multiple(a % m - b % m, q, m);
  }

  // ----- Powers

  function Pow(x: int, n: nat): int {
    if n == 0 then 1 else x * Pow(x, n - 1)
  }

  lemma {:induction false} PowOfSquare(x: int, n: nat)
    ensures Pow(x, 2 * n) == Pow(x * x, n)
  {
    if n > 0 {
      PowOfSquare(x, n - 1);
      assert 2 * n - 2 == 2 * (n - 1);
      assert Pow(x, 2 * n) == x * (x * Pow(x, 2 * n - 2));
      assert x * (x * Pow(x, 2 * n - 2)) == (x * x) * Pow(x * x, n - 1);
    }
  }

  lemma {:induction false} PowOfReduced(x: int, n: nat, m: nat)
    requires m > 0
    ensures Pow(x % m, n) % m == Pow(x, n) % m
  {
    if n > 0 {
      PowOfReduced(x, n - 1, m);
      var p, p' := Pow(x, n - 1), Pow(x % m, n - 1);
      ReduceProduct(x, p', m);
      ReduceProduct(p, x, m);
      ReduceProduct(p', x, m);
      assert p' * x == x * p' && p * x == x * p;
    }
  }

  // One round of squaring: n is halved, and an odd factor moves into the result.
  lemma PowStep(res: int, t: int, n: nat, m: nat)
    requires m > 0 && n > 0
    ensures var res' := if n % 2 == 1 then (res * t) % m else res;
            (res' * Pow((t * t) % m, n / 2)) % m == (res * Pow(t, n)) % m
  {
    hide Pow;
    var h := n / 2;
    PowOfSquare(t, h);
    var p := Pow(t * t, h);
    if n % 2 == 1 {
      PowNext(t, n);
      assert n - 1 == 2 * h;
      assert res * (t * p) == (res * t) * p;
      Reassociate(res * t, t * t, h, m);
      ReduceProduct(res * t, Pow((t * t) % m, h), m);
    } else {
      assert n == 2 * h;
      Reassociate(res, t * t, h, m);
    }
  }

  lemma PowNext(t: int, n: nat)
    requires n > 0
    ensures Pow(t, n) == t * Pow(t, n - 1)
  {
  }

  lemma Reassociate(a: int, x: int, n: nat, m: nat)
    requires m > 0
    ensures (a * Pow(x % m, n)) % m == (a * Pow(x, n)) % m
  {
    hide Pow;
    var p, p' := Pow(x, n), Pow(x % m, n);
    PowOfReduced(x, n, m);
    ReduceProduct(p, a, m);
    ReduceProduct(p', a, m);
    assert p * a == a * p && p' * a == a * p';
  }

  // x to the power of n in words of the given size, by repeated squaring.
  method PowUint(x: nat, n: nat, m: nat) returns (res: nat)
    requires m > 1 && x < m
    ensures res == Pow(x, n) % m
  {
    hide Pow;
    res := 1;
    var t, k := x, n;
    assert 1 * Pow(x, n) == Pow(x, n);
    while k > 0
      invariant res < m && (res * Pow(t, k)) % m == Pow(x, n) % m
    {
      PowStep(res, t, k, m);
      if k % 2 == 1 {
        res := (res * t) % m;
      }
      t := (t * t) % m;
      k := k / 2;
    }
    assert Pow(t, 0) == 1 by { PowZero(t); }
    assert res * 1 == res;
    DivModUnique(res, m, 0, res);
  }

  lemma PowZero(x: int)
    ensures Pow(x, 0) == 1
  {
  }

  // ----- The hash of a window

  // The window as the coefficients of a polynomial, taken at the multiplier.
  function Polynomial(window: seq<nat>, multiplier: nat): nat {
    if window == [] then 0
    else Polynomial(window[..|window| - 1], multiplier) * multiplier + window[|window| - 1]
  }

  lemma PolynomialPush(window: seq<nat>, x: nat, c: nat)
    ensures Polynomial(window + [x], c) == Polynomial(window, c) * c + x
  {
    assert (window + [x])[..|window|] == window;
  }

  // The first element counts with the highest power.
  lemma {:induction false} DropFirst(window: seq<nat>, c: nat)
    requires window != []
    ensures Polynomial(window, c) - Pow(c, |window| - 1) * window[0] == Polynomial(window[1..], c)
  {
    var n := |window| - 1;
    if n == 0 {
      assert window[..0] == [] && window[1..] == [];
    } else {
      var front := window[..n];
      DropFirst(front, c);
      assert front[1..] == window[1..][..n - 1] && window[1..][n - 1] == window[n];
      Distribute(Polynomial(front, c), Pow(c, n - 1), window[0], c);
    }
  }

  lemma Distribute(p: int, q: int, w: int, c: int)
    ensures (p - q * w) * c == p * c - (c * q) * w
  {
  }

  class RabinKarpRollingHasher {
    const multiplier: nat
    // The number of values of the unsigned type used for hashes.
    const modulus: nat
    var hash: nat
    var removeMultiplier: nat
    var windowSize: nat
    ghost var window: seq<nat>

    // The hash is that of the current window.
    ghost predicate Valid()
      reads this
    {
      && 1 < modulus && multiplier < modulus && window != [] && windowSize == |window|
      && removeMultiplier == Pow(multiplier, windowSize - 1) % modulus
      && hash == Polynomial(window, multiplier) % modulus
    }

    constructor (multiplier: nat, modulus: nat)
      requires multiplier < modulus
      ensures this.multiplier == multiplier && this.modulus == modulus
    {
      this.multiplier, this.modulus := multiplier, modulus;
      hash, removeMultiplier, windowSize, window := 0, 1, 1, [];
    }

    method Init(values: seq<nat>) returns (h: nat)
      requires values != [] && multiplier < modulus && 1 < modulus
      modifies this
      ensures Valid() && window == values && h == hash
    {
      hide Polynomial, Pow;
      windowSize := |values|;
      removeMultiplier := PowUint(multiplier, windowSize - 1, modulus);
      hash := 0;
      NoWindow(multiplier);
      DivModUnique(0, modulus, 0, 0);
      for i := 0 to windowSize
        invariant windowSize == |values| && removeMultiplier == Pow(multiplier, windowSize - 1) % modulus
        invariant hash == Polynomial(values[..i], multiplier) % modulus
      {
        assert values[..i + 1] == values[..i] + [values[i]];
        PolynomialPush(values[..i], values[i], multiplier);
        PushReduced(Polynomial(values[..i], multiplier), multiplier, values[i], modulus);
        hash := (hash * multiplier + values[i]) % modulus;
      }
      assert values[..windowSize] == values;
      window := values;
      h := hash;
    }

    // Moves the window by one element.
    method Scroll(remove: nat, add: nat) returns (h: nat)
      requires Valid() && remove == window[0]
      modifies this
      ensures Valid() && window == old(window)[1..] + [add] && h == hash
    {
      hide Polynomial, Pow;
      ghost var p, q := Polynomial(window, multiplier), Pow(multiplier, windowSize - 1) * remove;
      DropFirst(window, multiplier);
      PolynomialPush(window[1..], add, multiplier);
      ReduceProduct(Pow(multiplier, windowSize - 1), remove, modulus);
      ReduceDifference(p, q, modulus);
      hash := (hash - (removeMultiplier * remove) % modulus) % modulus;
      PushReduced(p - q, multiplier, add, modulus);
      hash := (hash * multiplier + add) % modulus;
      window := window[1..] + [add];
      h := hash;
    }
  }

  lemma NoWindow(c: nat)
    ensures Polynomial([], c) == 0
  {
  }

  lemma PushReduced(p: int, c: nat, x: nat, m: nat)
    requires m > 0
    ensures ((p % m) * c + x) % m == (p * c + x) % m
  {
    ReduceProduct(p, c, m);
    ReduceSum((p % m) * c, x, m);
    ReduceSum(p * c, x, m);
  }

  // With an odd multiplier the weight of the element that leaves never becomes zero in a binary word.
  lemma {:induction false} RemoveMultiplierIsOdd(c: nat, n: nat, m: nat)
    requires c % 2 == 1 && m > 0 && m % 2 == 0
    ensures (Pow(c, n) % m) % 2 == 1
  {
    OddPower(c, n);
    var p, q := Pow(c, n), Pow(c, n) / m;
    assert p == 2 * (q * (m / 2)) + p % m by {
      assert m == 2 * (m / 2);
      assert q * m == 2 * (q * (m / 2));
    }
  }

  lemma {:induction false} OddPower(c: nat, n: nat)
    requires c % 2 == 1
    ensures Pow(c, n) % 2 == 1
  {
    if n > 0 {
      OddPower(c, n - 1);
      var p := Pow(c, n - 1);
      assert c * p == 2 * ((c / 2) * p) + p by {
        assert c == 2 * (c / 2) + 1;
      }
    }
  }
}
