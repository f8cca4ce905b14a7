/** Numbers and bytes the components share. */
module Numbers {
  type Byte = n: nat | n < 256
  type Bytes = seq<Byte>

  const U32: nat := 0x1_0000_0000

  function Min(a: nat, b: nat): nat { if a < b then a else b }

  function Pow2(k: nat): (p: nat)
    ensures p > 0
  {
    if k == 0 then 1 else 2 * Pow2(k - 1)
  }

  /** The only multiple of `d` closer to zero than `d` is zero. */
  lemma SmallMultiple(d: nat, z: int)
    requires 0 - d < d * z < d
    ensures z == 0
  {
    assert z >= 1 ==> d * z >= d;
    assert z <= -1 ==> d * z <= 0 - d;
  }
}
