/**
 * The 64-bit key mixer of hashcode.h (Thomas Wang's `twang_mix64`): three
 * shift-add steps and a final one, interleaved with xor-shifts by 24, 14
 * and 28. Each shift-add step is, as the source's comments say, a
 * multiplication modulo 2^64; the lemmas below prove those identities.
 */
module HashCode {

  /** `HashCode(uint64_t)`: the straight-line mixer, all arithmetic modulo 2^64. */
  function HashCode(key: bv64): bv64
  {
    Mix4(XorShift28(Mix3(XorShift14(Mix2(XorShift24(Mix1(key)))))))
  }

  // The four shift-add steps, as written in the source.
  function Mix1(key: bv64): bv64 { (!key) + (key << 21) }
  function Mix2(key: bv64): bv64 { key + (key << 3) + (key << 8) }
  function Mix3(key: bv64): bv64 { key + (key << 2) + (key << 4) }
  function Mix4(key: bv64): bv64 { key + (key << 31) }

  // The three xor-shifts between them.
  function XorShift24(key: bv64): bv64 { key ^ (key >> 24) }
  function XorShift14(key: bv64): bv64 { key ^ (key >> 14) }
  function XorShift28(key: bv64): bv64 { key ^ (key >> 28) }

  /**
   * The same mixer written the way the source's comments describe it: each
   * shift-add step replaced by the multiplication it stands for.
   */
  function HashCodeByProducts(key: bv64): bv64
  {
    Times4(XorShift28(Times3(XorShift14(Times2(XorShift24(Times1(key)))))))
  }

  // The multiplications the source's comments give for each shift-add step.
  function Times1(key: bv64): bv64 { key * 0x1F_FFFF - 1 }
  function Times2(key: bv64): bv64 { key * 265 }
  function Times3(key: bv64): bv64 { key * 21 }
  function Times4(key: bv64): bv64 { key * 0x8000_0001 }

  // `key << n` is `key * 2^n` modulo 2^64, one lemma per shift amount.
  lemma Shift2(key: bv64) ensures key << 2 == key * 4 {}
  lemma Shift3(key: bv64) ensures key << 3 == key * 8 {}
  lemma Shift4(key: bv64) ensures key << 4 == key * 16 {}
  lemma Shift8(key: bv64) ensures key << 8 == key * 256 {}
  lemma Shift21(key: bv64) ensures key << 21 == key * 0x20_0000 {}
  lemma Shift31(key: bv64) ensures key << 31 == key * 0x8000_0000 {}

  /** `~key` is `-key - 1` modulo 2^64. */
  lemma ComplementIsNegation(key: bv64)
    ensures !key == 0 - key - 1
  {
  }

  /** `(~key) + (key << 21)` is `key * ((1 << 21) - 1) - 1` modulo 2^64. */
  lemma ComplementShift21(key: bv64)
    ensures Mix1(key) == Times1(key)
  {
    calc {
      Mix1(key);
      (!key) + (key << 21);
      { ComplementIsNegation(key); }
      (0 - key - 1) + (key << 21);
      { Shift21(key); }
      (0 - key - 1) + key * 0x20_0000;
      { Distribute21(key); }
      key * 0x1F_FFFF - 1;
    }
  }

  lemma Distribute21(key: bv64)
    ensures (0 - key - 1) + key * 0x20_0000 == key * 0x1F_FFFF - 1
  {
  }

  /** `key + (key << 3) + (key << 8)` is `key * (1 + 8 + 256)` modulo 2^64. */
  lemma ShiftAdd3And8(key: bv64)
    ensures Mix2(key) == Times2(key)
  {
    calc {
      Mix2(key);
      key + (key << 3) + (key << 8);
      { Shift3(key); }
      key + key * 8 + (key << 8);
      { Shift8(key); }
      key + key * 8 + key * 256;
      { Distribute265(key); }
      key * 265;
    }
  }

  lemma Distribute265(key: bv64)
    ensures key + key * 8 + key * 256 == key * 265
  {
  }

  /** `key + (key << 2) + (key << 4)` is `key * (1 + 4 + 16)` modulo 2^64. */
  lemma ShiftAdd2And4(key: bv64)
    ensures Mix3(key) == Times3(key)
  {
    calc {
      Mix3(key);
      key + (key << 2) + (key << 4);
      { Shift2(key); Shift4(key); }
      key + key * 4 + key * 16;
      { Distribute21Small(key); }
      Times3(key);
    }
  }

  lemma Distribute21Small(key: bv64)
    ensures key + key * 4 + key * 16 == key * 21
  {
  }

  /** `key + (key << 31)` is `key * (1 + 2^31)` modulo 2^64. */
  lemma ShiftAdd31(key: bv64)
    ensures Mix4(key) == Times4(key)
  {
    calc {
      Mix4(key);
      key + (key << 31);
      { Shift31(key); }
      key + key * 0x8000_0000;
      { Distribute31(key); }
      Times4(key);
    }
  }

  lemma Distribute31(key: bv64)
    ensures key + key * 0x8000_0000 == key * 0x8000_0001
  {
  }

  /** The mixer computes exactly the product form its comments describe. */
  lemma HashCodeIsProducts(key: bv64)
    ensures HashCode(key) == HashCodeByProducts(key)
  {
    ComplementShift21(key);
    var a := XorShift24(Mix1(key));
    ShiftAdd3And8(a);
    var b := XorShift14(Mix2(a));
    ShiftAdd2And4(b);
    var c := XorShift28(Mix3(b));
    ShiftAdd31(c);
  }

  /** `HashCode(__int128)`: an unimplemented overload that always yields 0. */
  function HashCode128(key: int): bv64
  {
    0
  }

  /** `HashCode(const Slice&)`: an unimplemented overload that always yields 0. */
  function HashCodeBytes(key: seq<bv8>): bv64
  {
    0
  }

  /**
   * Because both unimplemented overloads are constant, every 128-bit key and
   * every byte-string key hashes alike: all such keys share one probe sequence.
   */
  lemma StubOverloadsCollide(a: int, b: int, s: seq<bv8>, t: seq<bv8>)
    ensures HashCode128(a) == HashCode128(b) == HashCodeBytes(s) == HashCodeBytes(t) == 0
  {
  }
}
