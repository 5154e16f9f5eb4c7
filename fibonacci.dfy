/** The `fibonacci` function of the test fixture
    tests/minimal_project/src/fibonacci.cpp, on C++ `int`s (32 bits, where
    a signed overflow is undefined behaviour, so the contracts rule it out).

    As written, the loop adds `prev1` to `acc` and then copies `acc` into
    `prev1`, so both double on every round and `prev2` is written but never
    read: the result is 2^(n-2) for n >= 2, which is the Fibonacci number
    only up to n = 3. `FibonacciAsWritten` models that loop;
    `Fibonacci` is the loop as its name intends, adding the two previous
    numbers. */
module Fibonacci {
  newtype int32 = x: int | -0x8000_0000 <= x < 0x8000_0000

  const INT_MAX: int := 0x7fff_ffff

  function Pow2(k: nat): nat {
    if k == 0 then 1 else 2 * Pow2(k - 1)
  }

  /** What the loop as written returns: 0 for n <= 0, 1 for n == 1 and
      2^(n-2) from then on. */
  function Doubling(n: int): nat {
    if n <= 0 then 0 else if n == 1 then 1 else Pow2(n - 2)
  }

  /** The Fibonacci numbers, 0 for n <= 0 as the fixture returns. */
  function Fib(n: int): nat {
    if n <= 0 then 0 else if n == 1 then 1 else Fib(n - 1) + Fib(n - 2)
  }

  /** `fibonacci(n)` as written. Beyond n = 32 the result 2^(n-2) no longer
      fits in an `int` (`DoublingFitsUpTo32`). */
  method FibonacciAsWritten(n: int32) returns (acc: int32)
    requires n <= 32
    ensures acc as int == Doubling(n as int)
  {
    var prev2: int32 := 0;
    var prev1: int32 := 1;
    acc := if n == 1 then 1 else 0;
    var i: int32 := 2;
    while i <= n
      invariant n >= 2 ==> 2 <= i <= n + 1
      invariant n < 2 ==> i == 2
      invariant i == 2 ==> prev1 == 1 && acc == (if n == 1 then 1 else 0)
      invariant i > 2 ==> acc == prev1 && prev1 as int == Pow2(i as int - 3)
    {
      Pow2Monotone(i as int - 2, 30);
      Pow2At30();
      prev2 := prev1;
      acc := acc + prev1;
      prev1 := acc;
      i := i + 1;
    }
  }

  /** `fibonacci(n)` adding the two previous numbers, as its name intends. */
  method Fibonacci(n: int32) returns (acc: int32)
    requires n <= 46
    ensures acc as int == Fib(n as int)
  {
    var prev2: int32 := 0;
    var prev1: int32 := 1;
    acc := if n == 1 then 1 else 0;
    var i: int32 := 2;
    while i <= n
      invariant n >= 2 ==> 2 <= i <= n + 1
      invariant n < 2 ==> i == 2
      invariant prev2 as int == Fib(i as int - 2) && prev1 as int == Fib(i as int - 1)
      invariant i == 2 ==> acc == (if n == 1 then 1 else 0)
      invariant i > 2 ==> acc == prev1
    {
      FibMonotone(i as int, 46);
      FibAt46();
      acc := prev1 + prev2;
      prev2 := prev1;
      prev1 := acc;
      i := i + 1;
    }
  }

  lemma {:induction false} Pow2Monotone(a: nat, b: nat)
    requires a <= b
    ensures Pow2(a) <= Pow2(b)
    decreases b
  {
    if a < b {
      Pow2Monotone(a, b - 1);
    }
  }

  lemma Pow2At30()
    ensures Pow2(30) == 0x4000_0000 && Pow2(31) == 0x8000_0000
  {
    assert Pow2(10) == 1024;
    assert Pow2(20) == 1048576;
  }

  lemma {:induction false} FibMonotone(a: int, b: int)
    requires a <= b
    ensures Fib(a) <= Fib(b)
    decreases b - a
  {
    if a < b {
      FibMonotone(a + 1, b);
    }
  }

  lemma FibAt46()
    ensures Fib(46) == 1836311903 && Fib(47) == 2971215073
  {
    assert Fib(6) == 8 && Fib(7) == 13;
    assert Fib(12) == 144 && Fib(13) == 233;
    assert Fib(18) == 2584 && Fib(19) == 4181;
    assert Fib(24) == 46368 && Fib(25) == 75025;
    assert Fib(30) == 832040 && Fib(31) == 1346269;
    assert Fib(36) == 14930352 && Fib(37) == 24157817;
    assert Fib(42) == 267914296 && Fib(43) == 433494437;
  }

  /** The result as written fits in an `int` exactly up to n = 32. */
  lemma DoublingFitsUpTo32(n: int)
    ensures Doubling(n) <= INT_MAX <==> n <= 32
  {
    Pow2At30();
    if 2 <= n <= 32 {
      Pow2Monotone(n - 2, 30);
    } else if n > 32 {
      Pow2Monotone(31, n - 2);
    }
  }

  /** Fibonacci numbers fit in an `int` exactly up to n = 46. */
  lemma FibFitsUpTo46(n: int)
    ensures Fib(n) <= INT_MAX <==> n <= 46
  {
    FibAt46();
    if n <= 46 {
      FibMonotone(n, 46);
    } else {
      FibMonotone(47, n);
    }
  }

  /** From n = 4 on, the loop as written overshoots the Fibonacci number. */
  lemma {:induction false} DoublingExceedsFib(n: int)
    requires n >= 4
    ensures Doubling(n) > Fib(n)
    decreases n
  {
    if n >= 6 {
      DoublingExceedsFib(n - 1);
      DoublingExceedsFib(n - 2);
      assert Pow2(n - 2) == 2 * Pow2(n - 3) && Pow2(n - 3) == 2 * Pow2(n - 4);
    } else {
      assert Fib(4) == 3 && Fib(5) == 5;
      assert Pow2(2) == 4 && Pow2(3) == 8;
    }
  }

  /** The loop as written computes the Fibonacci number exactly when
      n <= 3; n = 4 is the first input that shows the difference. */
  lemma DoublingIsFibOnlyUpTo3(n: int)
    ensures Doubling(n) == Fib(n) <==> n <= 3
    ensures Doubling(4) == 4 && Fib(4) == 3
  {
    if n >= 4 {
      DoublingExceedsFib(n);
    }
    assert Pow2(2) == 4;
  }
}
