// The one-byte key fingerprint of the fingerprinting Circle-Tree variant.
module Hash {
  import opened Entries

  /** `(unsigned long) k` for an `int64_t` k: the two's-complement bit pattern. */
  function ToU64(k: Key): bv64
  {
    if k >= 0 then (k as int) as bv64 else 0 - ((-(k as int)) as bv64)
  }

  /** The mixing of keys above UINT_MAX: two xor-shift-multiply rounds by 0x45d9f3b. */
  function MixWide(x: bv64): bv64
  {
    var a := ((x >> 16) ^ x) * 0x45d9f3b;
    var b := ((a >> 16) ^ a) * 0x45d9f3b;
    (b >> 16) ^ b
  }

  /** The mixing of keys up to UINT_MAX: the splitmix64 finaliser. */
  function MixNarrow(x: bv64): bv64
  {
    var a := (x ^ (x >> 30)) * 0xbf58476d1ce4e5b9;
    var b := (a ^ (a >> 27)) * 0x94d049bb133111eb;
    b ^ (b >> 31)
  }

  /** `cal_hash`: the low byte of the mixed key. */
  function CalHash(k: Key): bv8
  {
    var x := ToU64(k);
    var y := if x > 0xffff_ffff then MixWide(x) else MixNarrow(x);
    (y & 0xff) as bv8
  }

  /** Two small keys whose fingerprints differ. */
  lemma DistinctFingerprints()
    ensures CalHash(2) == 138 && CalHash(3) == 240
  {
    assert ToU64(2) == 2 && ToU64(3) == 3;
    assert (2 as bv64 ^ (2 >> 30)) * 0xbf58476d1ce4e5b9 == 0x7eb08eda39c9cb72;
    assert MixNarrow(2) == 0xdbd238973a2b148a;
    assert (3 as bv64 ^ (3 >> 30)) * 0xbf58476d1ce4e5b9 == 0x3e08d64756aeb12b;
    assert MixNarrow(3) == 0x1e535eede31428f0;
  }
}
