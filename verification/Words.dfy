/** Machine words. Addresses and counters are integers below 2^64. On such a word `x >> k` is
    `x / 2^k`, `x & (2^k - 1)` is `x % 2^k`, and `|` of words with no common bit is `+`. */
module Words {
  const TWO64: int := 0x1_0000_0000_0000_0000
  const PAGE: int := 4096

  datatype Option<T> = None | Some(value: T)

  type u64 = x: int | 0 <= x < 0x1_0000_0000_0000_0000

  function Wrap64(x: int): u64 {
    x % TWO64
  }

  function Inc64(x: u64): u64 {
    if x == TWO64 - 1 then 0 else x + 1
  }

  function Min(a: int, b: int): int {
    if a < b then a else b
  }

  function AlignDown(v: u64): u64 {
    v - v % PAGE
  }

  /** The C code adds `align - 1` in 64 bits, so the last page of the address space wraps to 0. */
  function AlignUp(v: u64): u64 {
    AlignDown(Wrap64(v + PAGE - 1))
  }

  lemma TimesMore(c: int, a: int, b: int)
    requires c >= 0 && a <= b
    ensures c * a <= c * b
  {
  }

  lemma QuotientBounds(max: int, count: int)
    requires count > 0 && max >= 0
    ensures count * (max / count) <= max < count * (max / count + 1)
  {
    assert max == count * (max / count) + max % count;
  }

  lemma AlignUpWraps(v: u64)
    requires v > TWO64 - PAGE
    ensures AlignUp(v) == 0 && AlignDown(v) == TWO64 - PAGE
  {
    assert Wrap64(v + PAGE - 1) == v + PAGE - 1 - TWO64;
  }

  lemma Rounded(v: u64)
    ensures AlignDown(v) % PAGE == 0 && AlignUp(v) % PAGE == 0
  {
  }

  /** Rounding down to a page boundary keeps exactly the boundaries below. */
  lemma AlignDownBound(v: u64, f: nat)
    ensures f * PAGE <= AlignDown(v) <==> f * PAGE <= v
    ensures AlignDown(v) <= f * PAGE <==> v < (f + 1) * PAGE
  {
  }

  lemma AlignUpBound(v: u64, f: nat)
    requires v <= TWO64 - PAGE
    ensures AlignUp(v) <= f * PAGE <==> v <= f * PAGE
    ensures f * PAGE < AlignUp(v) <==> f * PAGE < v
  {
    AlignDownBound(v + PAGE - 1, f);
  }
}
