/** The arithmetic of growing the hash table: rounding a capacity up to whole blocks of bytes in 64-bit
    arithmetic, choosing a bucket count, and the two limits. */
module HashGrowth {

  const WORD: nat := 0x1_0000_0000_0000_0000

  function Wrap(n: nat): nat { n % WORD }

  /** Clearing the low bits of `n` below `unit`. */
  function Masked(n: nat, unit: nat): nat
    requires unit > 0
  {
    n - n % unit
  }

  /** The capacity that a request for `size` slots of 8 bytes is rounded to. */
  function Rounded(size: nat): nat {
    var b := Wrap(size * 8);
    if b > 0x1000 then Masked(Wrap(b + 0xFFF), 0x1000) / 8
    else if b > 0x100 then Masked(Wrap(b + 0xFF), 0x100) / 8
    else Masked(Wrap(b + 0xF), 0x10) / 8
  }

  /** Rounding gives at least what was asked for exactly if the byte count does not wrap around. */
  lemma RoundedEnough(size: nat)
    ensures Rounded(size) >= size <==> size * 8 + 0xFFF < WORD
  {
    var b := Wrap(size * 8);
    if size * 8 < WORD {
      assert b == size * 8;
      if b > 0x1000 {
        RoundedBlocks(b, 0x1000, size);
      } else if b > 0x100 {
        RoundedBlocks(b, 0x100, size);
      } else {
        RoundedBlocks(b, 0x10, size);
      }
    } else {
      assert Rounded(size) <= (WORD - 1) / 8;
    }
  }

  lemma MaskedBounds(n: nat, unit: nat)
    requires unit > 0
    ensures n - unit < Masked(n, unit) <= n && (n < unit ==> Masked(n, unit) == 0)
  {
  }

  lemma RoundedBlocks(b: nat, unit: nat, size: nat)
    requires b == size * 8 < WORD && 0 < unit < WORD
    ensures b + unit - 1 < WORD ==> Masked(Wrap(b + unit - 1), unit) / 8 >= size
    ensures b + unit - 1 >= WORD ==> Masked(Wrap(b + unit - 1), unit) / 8 < size || size == 0
  {
    var n := b + unit - 1;
    assert Wrap(n) == if n < WORD then n else n - WORD;
    MaskedBounds(Wrap(n), unit);
  }

  /** A request that does not wrap around is rounded to the next whole block: of 16 bytes up to 256, of 256 up to 4096
      and of 4096 above. */
  lemma RoundedNext(size: nat)
    requires size * 8 + 0xFFF < WORD
    ensures
      var unit := if size <= 0x20 then 0x10 else if size <= 0x200 then 0x100 else 0x1000;
      Rounded(size) * 8 % unit == 0 && size * 8 <= Rounded(size) * 8 < size * 8 + unit
  {
    var b := size * 8;
    assert Wrap(b) == b;
    if size <= 0x20 {
      assert Wrap(b + 0xF) == b + 0xF;
      SmallBlocks(size);
    } else if size <= 0x200 {
      assert Wrap(b + 0xFF) == b + 0xFF;
      MiddleBlocks(size);
    } else {
      assert Wrap(b + 0xFFF) == b + 0xFFF;
      LargeBlocks(size);
    }
  }

  lemma SmallBlocks(size: nat)
    ensures var n := Masked(size * 8 + 0xF, 0x10) / 8 * 8; n % 0x10 == 0 && size * 8 <= n < size * 8 + 0x10
  {
    var q := (size * 8 + 0xF) / 0x10;
    assert Masked(size * 8 + 0xF, 0x10) == 8 * (2 * q);
  }

  lemma MiddleBlocks(size: nat)
    ensures var n := Masked(size * 8 + 0xFF, 0x100) / 8 * 8; n % 0x100 == 0 && size * 8 <= n < size * 8 + 0x100
  {
    var q := (size * 8 + 0xFF) / 0x100;
    assert Masked(size * 8 + 0xFF, 0x100) == 8 * (0x20 * q);
  }

  lemma LargeBlocks(size: nat)
    ensures var n := Masked(size * 8 + 0xFFF, 0x1000) / 8 * 8; n % 0x1000 == 0 && size * 8 <= n < size * 8 + 0x1000
  {
    var q := (size * 8 + 0xFFF) / 0x1000;
    assert Masked(size * 8 + 0xFFF, 0x1000) == 8 * (0x200 * q);
  }

  /** The request at the edge, for 2^61 slots: it is rounded to none. */
  lemma RoundedWraps(size: nat)
    requires size * 8 == WORD
    ensures Rounded(size) == 0
  {
    assert Wrap(size * 8) == 0;
    assert Masked(Wrap(0xF), 0x10) == 0;
  }

  function Ceil(r: real): int { -((-r).Floor) }

  /** The first table entry that is large enough, or else the last. */
  function NextPrime(primes: seq<nat>, size: nat): (n: nat)
    requires primes != []
    ensures n in primes
    ensures (exists i :: 0 <= i < |primes| && primes[i] >= size) ==> n >= size
    ensures n >= size || n == primes[|primes| - 1]
  {
    if primes[0] >= size || |primes| == 1 then primes[0] else NextPrime(primes[1..], size)
  }

  /** No smaller entry would do: in an ascending table the chosen one is the least that is large enough. */
  lemma {:induction false} NextPrimeLeast(primes: seq<nat>, size: nat, k: nat)
    requires k < |primes| && primes[k] >= size && forall i, j :: 0 <= i < j < |primes| ==> primes[i] < primes[j]
    ensures size <= NextPrime(primes, size) <= primes[k]
  {
    if primes[0] >= size || |primes| == 1 {
    } else {
      NextPrimeLeast(primes[1..], size, k - 1);
    }
  }

  method GetPrime(primes: seq<nat>, size: nat) returns (n: nat)
    requires primes != []
    ensures n == NextPrime(primes, size)
  {
    for i := 0 to |primes|
      invariant i < |primes| ==> NextPrime(primes, size) == NextPrime(primes[i..], size)
      invariant i == |primes| ==> NextPrime(primes, size) == primes[i - 1]
    {
      if primes[i] >= size {
        return primes[i];
      }
      assert i + 1 < |primes| ==> primes[i..][1..] == primes[i + 1..];
    }
    n := primes[|primes| - 1];
  }

  // ---- What an insertion asks for.

  /** The fixed parameters: the most slots there can be, the length of a path stack and the bucket counts. */
  datatype Limits = Limits(maxSize: nat, depth: nat, primes: seq<nat>)

  ghost predicate LimitsOk(lim: Limits) {
    lim.maxSize > 0 && lim.primes != [] && forall i :: 0 <= i < |lim.primes| ==> lim.primes[i] > 0
  }

  function Least(a: nat, b: nat): nat { if a < b then a else b }

  function BucketsFor(lim: Limits, size: nat): (n: nat)
    requires LimitsOk(lim)
    ensures 0 < n <= lim.maxSize
  {
    Least(NextPrime(lim.primes, size), lim.maxSize)
  }

  /** No more buckets are to be had: their number is the greatest there may be or the last of the table. */
  ghost predicate Capped(lim: Limits, n: nat)
    requires LimitsOk(lim)
  {
    n == lim.maxSize || n == lim.primes[|lim.primes| - 1]
  }

  lemma BucketsReach(lim: Limits, size: nat)
    requires LimitsOk(lim)
    ensures BucketsFor(lim, size) >= size || Capped(lim, BucketsFor(lim, size))
  {
  }

  /** With so many buckets, `size` elements do not exceed the load factor. */
  lemma LoadMet(size: nat, load: real, n: nat)
    requires load > 0.0 && n >= Ceil(size as real / load)
    ensures size as real <= n as real * load
  {
    var q := size as real / load;
    assert n as real >= q;
    assert (n as real - q) * load >= 0.0;
  }

  /** The number of elements that buckets may hold, `load` for each of them. */
  ghost function Room(buckets: nat, load: real): real {
    if buckets == 0 then 0.0 else Room(buckets - 1, load) + load
  }

  lemma {:induction false} RoomIs(buckets: nat, load: real)
    ensures Room(buckets, load) == buckets as real * load
  {
    if buckets == 0 {
    } else {
      RoomIs(buckets - 1, load);
      assert buckets as real == (buckets - 1) as real + 1.0;
    }
  }

  lemma BucketsServe(lim: Limits, size: nat, load: real, n: nat, buckets: nat)
    requires LimitsOk(lim) && load > 0.0 && n >= Ceil(size as real / load) && buckets == BucketsFor(lim, n)
    ensures (buckets >= n && size as real <= Room(buckets, load)) || Capped(lim, buckets)
  {
    RoomIs(buckets, load);
    BucketsReach(lim, n);
    if !Capped(lim, buckets) { LoadMet(size, load, buckets); }
  }

  lemma Doubled(newSize: nat, filled: real, more: real)
    requires newSize > 0 && (newSize - 1) as real <= filled && more >= 2.0 * filled
    ensures newSize as real <= more || (newSize == 1 && more < 1.0)
  {
    if filled >= 1.0 {
      assert newSize as real <= 2.0 * filled;
    } else {
      assert newSize - 1 < 1;
    }
  }

  predicate Crowded(newSize: int, buckets: nat, load: real) { newSize as real > buckets as real * load }

  /** The slots a full table asks for. */
  function Request(capacity: nat, buckets: nat, load: real): nat {
    var twice, filled := capacity as real * 2.0, buckets as real * load;
    Ceil(if twice < filled then filled else twice)
  }

  lemma Positive(a: real, b: real)
    requires a > 0.0 && b > 0.0
    ensures a * b > 0.0
  {
  }

  lemma RequestMore(capacity: nat, buckets: nat, load: real)
    requires load > 0.0
    ensures Request(capacity, buckets, load) >= 2 * capacity
    ensures capacity == 0 < buckets ==> Request(capacity, buckets, load) > 0
  {
    var twice, filled := capacity as real * 2.0, buckets as real * load;
    var r := if twice < filled then filled else twice;
    assert twice == (2 * capacity) as real;
    assert Ceil(r) as real >= r;
    if capacity == 0 < buckets {
      Positive(buckets as real, load);
    }
  }

  /** A full table asks for no more slots than it takes to double, and to fill its buckets. */
  lemma RequestLeast(capacity: nat, buckets: nat, load: real)
    requires load > 0.0
    ensures
      var n := Request(capacity, buckets, load);
      && n >= 2 * capacity && n as real >= buckets as real * load
      && (n <= 2 * capacity || (n - 1) as real < buckets as real * load)
  {
    var twice, filled := capacity as real * 2.0, buckets as real * load;
    var r := if twice < filled then filled else twice;
    assert twice == (2 * capacity) as real;
    assert Ceil(r) as real >= r > (Ceil(r) - 1) as real;
  }

  lemma RequestBelow(capacity: nat, buckets: nat, load: real, bound: nat)
    requires 2 * capacity <= bound && buckets as real * load <= bound as real
    ensures Request(capacity, buckets, load) <= bound
  {
    assert capacity as real * 2.0 == (2 * capacity) as real;
  }

  lemma RequestExact(buckets: nat, load: real, n: nat)
    requires buckets as real * load == n as real
    ensures Request(0, buckets, load) == n
  {
  }

  /** As long as the byte count does not wrap around, the request gives more slots. */
  lemma MoreSlots(capacity: nat, buckets: nat, load: real)
    requires load > 0.0 && buckets > 0
    requires capacity <= 0x0FFF_FFFF_FFFF_FF00 && buckets as real * load <= 0x1FFF_FFFF_FFFF_FE00 as real
    ensures Rounded(Request(capacity, buckets, load)) > capacity
  {
    RequestMore(capacity, buckets, load);
    RequestBelow(capacity, buckets, load, 0x1FFF_FFFF_FFFF_FE00);
    RoundedEnough(Request(capacity, buckets, load));
  }
}
