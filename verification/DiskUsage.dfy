/** Block counts of a file system turned into bytes, in 64-bit unsigned arithmetic. */
module DiskUsage {
  import opened Common

  const U64: int := 0x1_0000_0000_0000_0000

  type Word = x: int | 0 <= x < 0x1_0000_0000_0000_0000

  /** `statfs`: `bsize` is the int64 block size after its conversion to uint64. */
  datatype Statfs = Statfs(blocks: Word, bfree: Word, bsize: Word)

  /** The percentage is undefined (NaN or infinity) for an empty file system. */
  datatype Usage = Usage(total: Word, used: Word, free: Word, percentage: Option<real>)

  function Wrap(x: int): Word {
    x % U64
  }

  function UsageOf(st: Statfs): Usage {
    var total := Wrap(st.blocks * st.bsize);
    var free := Wrap(st.bfree * st.bsize);
    var used := Wrap(Wrap(st.blocks - st.bfree) * st.bsize);
    Usage(total, used, free, if total == 0 then None else Some(used as real / total as real * 100.0))
  }

  lemma WrapShift(x: int, k: int)
    ensures Wrap(x + k * U64) == Wrap(x)
  {
    var q, r := x / U64, x % U64;
    assert x + k * U64 == (q + k) * U64 + r;
    DivisionIsUnique(x + k * U64, q + k, r);
  }

  lemma DivisionIsUnique(x: int, q: int, r: int)
    requires x == q * U64 + r && 0 <= r < U64
    ensures x / U64 == q && x % U64 == r
  {
  }

  lemma WrapSum(a: int, b: int)
    ensures Wrap(Wrap(a) + Wrap(b)) == Wrap(a + b)
  {
    var i, j := -(a / U64), -(b / U64);
    assert Wrap(a) + Wrap(b) == a + b + (i + j) * U64;
    WrapShift(a + b, i + j);
  }

  lemma WrapProduct(a: int, b: int)
    ensures Wrap(Wrap(a) * b) == Wrap(a * b)
  {
    var i := -(a / U64);
    assert Wrap(a) == a + i * U64;
    Distribute(a, i, b);
    WrapShift(a * b, i * b);
  }

  lemma Distribute(a: int, i: int, b: int)
    ensures (a + i * U64) * b == a * b + i * b * U64
  {
  }

  lemma Split(blocks: int, free: int, size: int)
    ensures (blocks - free) * size + free * size == blocks * size
  {
  }

  /** The three figures are the true byte counts modulo 2^64. */
  lemma FiguresModulo(st: Statfs) returns (i: int, j: int, k: int)
    ensures st.blocks * st.bsize == UsageOf(st).total + i * 0x1_0000_0000_0000_0000
    ensures st.bfree * st.bsize == UsageOf(st).free + j * 0x1_0000_0000_0000_0000
    ensures (st.blocks - st.bfree) * st.bsize == UsageOf(st).used + k * 0x1_0000_0000_0000_0000
    ensures UsageOf(st).percentage.None? <==> UsageOf(st).total == 0
  {
    var blocks: int, bfree: int, bsize: int := st.blocks, st.bfree, st.bsize;
    WrapProduct(blocks - bfree, bsize);
    i, j, k := blocks * bsize / U64, bfree * bsize / U64, (blocks - bfree) * bsize / U64;
  }

  /** Whatever the counters say, used and free add up to the total modulo 2^64. */
  lemma UsedPlusFree(st: Statfs)
    ensures Wrap(UsageOf(st).used + UsageOf(st).free) == UsageOf(st).total
    ensures var sum := UsageOf(st).used + UsageOf(st).free;
      sum == UsageOf(st).total || sum == UsageOf(st).total + 0x1_0000_0000_0000_0000
  {
    var blocks: int, bfree: int, bsize: int := st.blocks, st.bfree, st.bsize;
    WrapProduct(blocks - bfree, bsize);
    WrapSum((blocks - bfree) * bsize, bfree * bsize);
    Split(blocks, bfree, bsize);
    WrapOfSum(UsageOf(st).used, UsageOf(st).free);
  }

  lemma WrapOfSum(a: Word, b: Word)
    ensures a + b == Wrap(a + b) || a + b == Wrap(a + b) + U64
  {
  }

  /**
   Where the byte counts fit and the disk is not empty, the three figures balance exactly, and the
   percentage is a percentage, if and only if no more blocks are free than there are.
   */
  lemma UsageIsExact(st: Statfs)
    requires 0 < st.blocks * st.bsize < U64 && st.bfree * st.bsize < U64
    ensures UsageOf(st).total == st.blocks * st.bsize && UsageOf(st).free == st.bfree * st.bsize
    ensures UsageOf(st).percentage.Some?
    ensures UsageOf(st).percentage.value * UsageOf(st).total as real == 100.0 * UsageOf(st).used as real
    ensures st.bfree <= st.blocks <==> UsageOf(st).used + UsageOf(st).free == UsageOf(st).total
    ensures st.bfree <= st.blocks <==> 0.0 <= UsageOf(st).percentage.value <= 100.0
  {
    ProductSigns(st.blocks, st.bsize);
    ProductSigns(st.bfree, st.bsize);
    UsedWhenFits(st);
    var u := UsageOf(st);
    assert u.total == st.blocks * st.bsize;
    assert u.free == st.bfree * st.bsize;
    PercentageBound(u.used as real, u.total as real);
    PercentageTimesTotal(u.used as real, u.total as real);
  }

  lemma PercentageTimesTotal(used: real, total: real)
    requires total > 0.0
    ensures used / total * 100.0 * total == 100.0 * used
  {
    var q := used / total;
    assert q * total == used;
    assert q * 100.0 * total == q * total * 100.0;
  }

  lemma ProductSigns(a: int, b: int)
    requires a >= 0 && b >= 0
    ensures a * b >= 0 && (a * b > 0 ==> a > 0 && b > 0)
  {
  }

  lemma UsedWhenFits(st: Statfs)
    requires 0 < st.blocks * st.bsize < U64 && 0 <= st.bfree * st.bsize < U64 && st.bsize > 0
    ensures st.bfree <= st.blocks ==> UsageOf(st).used == st.blocks * st.bsize - st.bfree * st.bsize
    ensures st.bfree > st.blocks ==> UsageOf(st).used > st.blocks * st.bsize
    ensures UsageOf(st).total == st.blocks * st.bsize && UsageOf(st).free == st.bfree * st.bsize
  {
    DivisionIsUnique(st.blocks * st.bsize, 0, st.blocks * st.bsize);
    DivisionIsUnique(st.bfree * st.bsize, 0, st.bfree * st.bsize);
    var d := st.blocks - st.bfree;
    assert d * st.bsize == st.blocks * st.bsize - st.bfree * st.bsize;
    if d >= 0 {
      DivisionIsUnique(d, 0, d);
      assert 0 <= d * st.bsize;
      DivisionIsUnique(d * st.bsize, 0, d * st.bsize);
    } else {
      DivisionIsUnique(d, -1, d + U64);
      assert Wrap(d) == d + U64;
      assert (d + U64) * st.bsize == (d * st.bsize + U64) + (st.bsize - 1) * U64;
      assert d * st.bsize < 0;
      DivisionIsUnique((d + U64) * st.bsize, st.bsize - 1, d * st.bsize + U64);
    }
  }

  lemma PercentageBound(used: real, total: real)
    requires total > 0.0 && used >= 0.0
    ensures 0.0 <= used / total * 100.0
    ensures used <= total <==> used / total * 100.0 <= 100.0
  {
    assert used / total >= 0.0;
    if used <= total {
      assert used / total <= total / total == 1.0;
    } else {
      assert used / total * total == used;
    }
  }
}
