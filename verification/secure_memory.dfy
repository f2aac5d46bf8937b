/** The guard-page allocator: one mmap per block, [guard page | header, user block, slack | guard page]. */
module SecureMemory {

  const PAGE := 4096
  const HEADER := 40  // sizeof(allocation_header_t): u32, pad, size_t, enum, pad, u64, u32, pad
  const MAGIC := 0xDEADBEEF
  const CANARY := 0xCAFEBABE
  const SIZE_MAX := 0xFFFF_FFFF_FFFF_FFFF
  const LEVEL_HIGH := 3
  const LEVEL_MAXIMUM := 4

  // ---------------------------------------------------------------- size arithmetic on 64 bits

  /** Bitwise and, bit by bit. */
  function And(a: nat, b: nat): nat {
    if a == 0 || b == 0 then 0 else 2 * And(a / 2, b / 2) + (if a % 2 == 1 && b % 2 == 1 then 1 else 0)
  }

  function Pow2(n: nat): (p: nat)
    ensures p > 0
  {
    if n == 0 then 1 else 2 * Pow2(n - 1)
  }

  /** `~(PAGE_SIZE - 1)` converted to size_t. */
  const PAGE_MASK: nat := SIZE_MAX - (PAGE - 1)

  function Wrap(n: nat): nat {
    n % (SIZE_MAX + 1)
  }

  function TotalSize(size: nat): nat {
    And(Wrap(Wrap(HEADER + size + PAGE * 2) + PAGE - 1), PAGE_MASK)
  }

  lemma MultipleBound(m: nat, e: int)
    ensures e >= 1 ==> m * e >= m
    ensures e <= -1 ==> m * e + m <= 0
  {
  }

  lemma RemainderIs(x: nat, m: nat, d: nat, r: nat)
    requires m > 0 && r < m && x == m * d + r
    ensures x % m == r
  {
    var e := d - x / m;
    assert m * e == x % m - r by {
      assert m * e == m * d - m * (x / m);
    }
    MultipleBound(m, e);
  }

  lemma HalvedRemainder(x: nat, q: nat)
    requires q > 0
    ensures x % (2 * q) == 2 * ((x / 2) % q) + x % 2
  {
    var d := (x / 2) / q;
    assert x / 2 == q * d + (x / 2) % q;
    RemainderIs(x, 2 * q, d, 2 * ((x / 2) % q) + x % 2);
  }

  lemma AndEven(x: nat, half: nat)
    ensures And(x, 2 * half) == 2 * And(x / 2, half)
  {
    assert (2 * half) / 2 == half && (2 * half) % 2 == 0;
  }

  lemma AndOdd(x: nat, half: nat)
    ensures And(x, 2 * half + 1) == 2 * And(x / 2, half) + x % 2
  {
    assert (2 * half + 1) / 2 == half && (2 * half + 1) % 2 == 1;
  }

  lemma {:induction false} AndAllOnes(x: nat, n: nat)
    requires x < Pow2(n)
    ensures And(x, Pow2(n) - 1) == x
  {
    if n > 0 {
      AndAllOnes(x / 2, n - 1);
      AndOdd(x, Pow2(n - 1) - 1);
    }
  }

  lemma OneMoreBit(x: nat, half: nat, q: nat)
    requires q > 0 && And(x / 2, half) == x / 2 - (x / 2) % q
    ensures And(x, 2 * half) == x - x % (2 * q)
  {
    var r := (x / 2) % q;
    HalvedRemainder(x, q);
    AndEven(x, half);
    assert And(x, 2 * half) == 2 * (x / 2) - 2 * r;
  }

  /** n bits, the low k of them clear. */
  function HighMask(k: nat, n: nat): nat
    requires k <= n
  {
    if k == 0 then Pow2(n) - 1 else 2 * HighMask(k - 1, n - 1)
  }

  lemma {:induction false} HighMaskIs(k: nat, n: nat)
    requires k <= n
    ensures HighMask(k, n) == Pow2(n) - Pow2(k)
  {
    if k > 0 {
      HighMaskIs(k - 1, n - 1);
    }
  }

  /** Masking off the low k of n bits subtracts the remainder. */
  lemma {:induction false} AndHighMask(x: nat, k: nat, n: nat)
    requires k <= n && x < Pow2(n)
    ensures And(x, HighMask(k, n)) == x - x % Pow2(k)
  {
    if k == 0 {
      AndAllOnes(x, n);
    } else {
      AndHighMask(x / 2, k - 1, n - 1);
      OneMoreBit(x, HighMask(k - 1, n - 1), Pow2(k - 1));
    }
  }

  lemma EightMoreBits(n: nat)
    ensures Pow2(n + 8) == 256 * Pow2(n)
  {
    assert Pow2(n + 2) == 4 * Pow2(n);
    assert Pow2(n + 4) == 4 * Pow2(n + 2);
    assert Pow2(n + 6) == 4 * Pow2(n + 4);
  }

  lemma Powers()
    ensures Pow2(12) == PAGE && Pow2(64) == SIZE_MAX + 1
  {
    EightMoreBits(0);
    EightMoreBits(4);
    EightMoreBits(8);
    EightMoreBits(16);
    EightMoreBits(24);
    EightMoreBits(32);
    EightMoreBits(40);
    EightMoreBits(48);
    EightMoreBits(56);
  }

  /** The sums do not wrap. */
  predicate Fits(size: nat) {
    HEADER + size + PAGE * 2 + PAGE - 1 <= SIZE_MAX
  }

  function RoundUp(n: nat): (r: nat)
    ensures r % PAGE == 0 && n <= r < n + PAGE
  {
    (n + PAGE - 1) / PAGE * PAGE
  }

  lemma MaskIsRemainder(x: nat)
    requires x <= SIZE_MAX
    ensures And(x, PAGE_MASK) == x - x % PAGE
  {
    Powers();
    HighMaskIs(12, 64);
    AndHighMask(x, 12, 64);
  }

  lemma NoWrap(n: nat)
    requires n <= SIZE_MAX
    ensures Wrap(n) == n
  {
  }

  /** The mask computes the arithmetic round-up. */
  lemma {:induction false} TotalIsRoundedUp(size: nat)
    requires Fits(size)
    ensures TotalSize(size) == RoundUp(HEADER + size + PAGE * 2)
  {
    var n := HEADER + size + PAGE * 2;
    NoWrap(n);
    NoWrap(n + PAGE - 1);
    MaskIsRemainder(n + PAGE - 1);
    assert TotalSize(size) == (n + PAGE - 1) - (n + PAGE - 1) % PAGE;
  }

  /** The user block stays below the upper guard page exactly when the sums do not wrap. */
  lemma {:induction false} BlockBetweenGuardsExactly(size: nat)
    requires size <= SIZE_MAX
    ensures PAGE + HEADER + size <= TotalSize(size) - PAGE <==> Fits(size)
  {
    MaskIsRemainder(Wrap(Wrap(HEADER + size + PAGE * 2) + PAGE - 1));
  }

  /** When they do wrap, at most three pages are asked for. */
  lemma {:induction false} WrappedAsksForLittle(size: nat)
    requires size <= SIZE_MAX && !Fits(size)
    ensures TotalSize(size) <= 3 * PAGE
  {
    MaskIsRemainder(Wrap(Wrap(HEADER + size + PAGE * 2) + PAGE - 1));
  }
}
