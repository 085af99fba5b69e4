/** Signed 64-bit bounds, saturating sums and sizes of finite sets. */
module Arithmetic {

  const I64_MAX: nat := 0x7FFF_FFFF_FFFF_FFFF

  function Min(a: int, b: int): int {
    if a <= b then a else b
  }

  function Max(a: int, b: int): int {
    if a >= b then a else b
  }

  /** Saturates at the upper end; no caller adds two negative numbers. */
  function SaturatingAdd(a: int, b: int): int {
    Min(a + b, I64_MAX)
  }

  function SaturatingNext(t: int): int {
    SaturatingAdd(t, 1)
  }

  lemma {:induction false} SubsetSize(a: set<string>, b: set<string>)
    requires a <= b
    ensures |a| <= |b| && (a != b ==> |a| < |b|)
  {
    var rest := b - a;
    assert b == a + rest && (a != b ==> rest != {});
  }
}
