/** The masked-word CIDR tests and their bit-by-bit meaning. */
module Cidr {
  import opened Common

  // ---------------------------------------------------------------------
  // The tests, as the data path computes them
  // ---------------------------------------------------------------------

  function Be32(b: Addr): bv32 {
    (b[0] as bv32 << 24) | (b[1] as bv32 << 16) | (b[2] as bv32 << 8) | b[3] as bv32
  }

  function Be64(b: Addr, lo: nat): bv64
    requires lo <= 8
  {
    (b[lo] as bv64 << 56) | (b[lo + 1] as bv64 << 48) | (b[lo + 2] as bv64 << 40) | (b[lo + 3] as bv64 << 32) |
    (b[lo + 4] as bv64 << 24) | (b[lo + 5] as bv64 << 16) | (b[lo + 6] as bv64 << 8) | b[lo + 7] as bv64
  }

  function Mask32(prefix: bv8): bv32
    requires prefix <= 32
  {
    if prefix >= 32 then 0xFFFF_FFFF else 0xFFFF_FFFF << (32 - prefix)
  }

  function Mask64(prefix: bv8): bv64
    requires prefix <= 64
  {
    if prefix >= 64 then 0xFFFF_FFFF_FFFF_FFFF else 0xFFFF_FFFF_FFFF_FFFF << (64 - prefix)
  }

  function Masked32(w: bv32, p: bv8): bv32
    requires p <= 32
  {
    w & Mask32(p)
  }

  function Masked(w: bv64, p: bv8): bv64
    requires p <= 64
  {
    w & Mask64(p)
  }

  predicate ContainsV4(cidr: IpCidr, addr: Addr) {
    if cidr.prefix == 0 then true
    else if cidr.prefix > 32 then false
    else Masked32(Be32(cidr.addr), cidr.prefix) == Masked32(Be32(addr), cidr.prefix)
  }

  predicate ContainsV6(cidr: IpCidr, addr: Addr) {
    if cidr.prefix == 0 then true
    else if cidr.prefix > 128 then false
    else if cidr.prefix <= 64 then
      Masked(Be64(cidr.addr, 0), cidr.prefix) == Masked(Be64(addr, 0), cidr.prefix)
    else if Be64(cidr.addr, 0) != Be64(addr, 0) then false
    else Masked(Be64(cidr.addr, 8), cidr.prefix - 64) == Masked(Be64(addr, 8), cidr.prefix - 64)
  }

  predicate Contains(cidr: IpCidr, addr: Addr, family: bv8) {
    if cidr.prefix == 0 then true
    else if cidr.family != family then false
    else if family == FAMILY_V4 then ContainsV4(cidr, addr)
    else ContainsV6(cidr, addr)
  }

  // ---------------------------------------------------------------------
  // The meaning: agreement of leading bits, most significant first
  // ---------------------------------------------------------------------

  predicate ByteBit(b: bv8, j: bv8)
    requires j < 8
  {
    (b >> (7 - j)) & 1 == 1
  }

  predicate Bit(a: Addr, k: bv8)
    requires k < 128
  {
    var i := (k >> 3) as int;
    assert i < 16;
    ByteBit(a[i], k & 7)
  }

  ghost predicate SameBits(a: Addr, b: Addr, n: bv8)
    requires n <= 128
  {
    forall k: bv8 | k < n :: Bit(a, k) == Bit(b, k)
  }

  /** The longest prefix a family admits. */
  function Width(family: bv8): bv8 {
    if family == FAMILY_V4 then 32 else 128
  }

  /** The declarative meaning of a CIDR: every family for prefix 0, else leading-bit agreement. */
  ghost predicate Covers(cidr: IpCidr, addr: Addr, family: bv8) {
    || cidr.prefix == 0
    || (cidr.family == family && cidr.prefix <= Width(family) && SameBits(cidr.addr, addr, cidr.prefix))
  }

  // ---------------------------------------------------------------------
  // Words and their bits
  // ---------------------------------------------------------------------

  predicate WordBit(w: bv64, k: bv8)
    requires k < 64
  {
    (w >> (63 - k)) & 1 == 1
  }

  /** The single bit that distinguishes the masks of lengths p and p + 1. */
  function Select(p: bv8): bv64
    requires p < 64
  {
    0x8000_0000_0000_0000 >> p
  }

  function Picked(w: bv64, p: bv8): bv64
    requires p < 64
  {
    w & Select(p)
  }

  ghost predicate SameWordBits(c: bv64, a: bv64, p: bv8)
    requires p <= 64
  {
    forall k: bv8 | k < p :: WordBit(c, k) == WordBit(a, k)
  }

  lemma PickedBit(c: bv64, a: bv64, p: bv8)
    requires p < 64
    ensures Picked(c, p) == Picked(a, p) <==> WordBit(c, p) == WordBit(a, p)
  {}

  lemma NarrowMask(c: bv64, a: bv64, p: bv8)
    requires p < 64 && Masked(c, p + 1) == Masked(a, p + 1)
    ensures Masked(c, p) == Masked(a, p) && Picked(c, p) == Picked(a, p)
  {}

  lemma WidenMask(c: bv64, a: bv64, p: bv8)
    requires p < 64 && Masked(c, p) == Masked(a, p) && Picked(c, p) == Picked(a, p)
    ensures Masked(c, p + 1) == Masked(a, p + 1)
  {}

  /** Growing the mask by one bit asks for one more bit of agreement. */
  lemma MaskStep(c: bv64, a: bv64, p: bv8)
    requires p < 64
    ensures Masked(c, p + 1) == Masked(a, p + 1) <==>
            Masked(c, p) == Masked(a, p) && WordBit(c, p) == WordBit(a, p)
  {
    hide *;
    PickedBit(c, a, p);
    if Masked(c, p + 1) == Masked(a, p + 1) {
      NarrowMask(c, a, p);
    } else if Masked(c, p) == Masked(a, p) && Picked(c, p) == Picked(a, p) {
      WidenMask(c, a, p);
    }
  }

  lemma EmptyMask(c: bv64, a: bv64)
    ensures Masked(c, 0) == Masked(a, 0)
  {}

  /** One masked 64-bit compare is agreement of the first p bits of the word. */
  lemma {:induction false} MaskedWord(c: bv64, a: bv64, p: bv8)
    requires p <= 64
    ensures Masked(c, p) == Masked(a, p) <==> SameWordBits(c, a, p)
    decreases p
  {
    hide Masked, WordBit;
    if p == 0 {
      EmptyMask(c, a);
    } else {
      MaskedWord(c, a, p - 1);
      MaskStep(c, a, p - 1);
    }
  }

  // ---------------------------------------------------------------------
  // Words and the address bytes they were read from
  // ---------------------------------------------------------------------

  /** Bit k of the high word is bit k of the address. */
  lemma BitOfHighWord(a: Addr, k: bv8)
    requires k < 64
    ensures WordBit(Be64(a, 0), k) == Bit(a, k)
  {}

  /** Bit k of the low word is bit k + 64 of the address. */
  lemma BitOfLowWord(a: Addr, k: bv8)
    requires k < 64
    ensures WordBit(Be64(a, 8), k) == Bit(a, k + 64)
  {}

  lemma HighWord(a: Addr, b: Addr, n: bv8)
    requires n <= 64
    ensures SameWordBits(Be64(a, 0), Be64(b, 0), n) <==> SameBits(a, b, n)
  {
    hide WordBit, Be64, Bit;
    forall k: bv8 | k < n
      ensures WordBit(Be64(a, 0), k) == Bit(a, k) && WordBit(Be64(b, 0), k) == Bit(b, k)
    {
      BitOfHighWord(a, k);
      BitOfHighWord(b, k);
    }
  }

  lemma LowWord(a: Addr, b: Addr, n: bv8)
    requires n <= 64
    ensures SameWordBits(Be64(a, 8), Be64(b, 8), n) <==>
            forall k: bv8 | 64 <= k < 64 + n :: Bit(a, k) == Bit(b, k)
  {
    hide WordBit, Be64, Bit;
    forall k: bv8 | k < n
      ensures WordBit(Be64(a, 8), k) == Bit(a, k + 64) && WordBit(Be64(b, 8), k) == Bit(b, k + 64)
    {
      BitOfLowWord(a, k);
      BitOfLowWord(b, k);
    }
    if SameWordBits(Be64(a, 8), Be64(b, 8), n) {
      forall k: bv8 | 64 <= k < 64 + n
        ensures Bit(a, k) == Bit(b, k)
      {
        assert WordBit(Be64(a, 8), k - 64) == WordBit(Be64(b, 8), k - 64);
      }
    }
  }

  lemma FullMask(c: bv64, a: bv64)
    ensures Masked(c, 64) == Masked(a, 64) <==> c == a
  {}

  /** A 32-bit word as the upper half of a 64-bit one. */
  function Up(w: bv32): bv64 {
    (w as bv64) << 32
  }

  lemma UpperHalf(w: bv32)
    ensures (Up(w) >> 32) as bv32 == w
  {}

  lemma UpInjective(c: bv32, a: bv32)
    ensures Up(c) == Up(a) <==> c == a
  {
    hide Up;
    UpperHalf(c);
    UpperHalf(a);
  }

  /** The one-word IPv4 test sees exactly what the high-word test sees of the first four bytes. */
  lemma EmbedMasked(a: Addr, p: bv8)
    requires p <= 32
    ensures Masked(Be64(a, 0), p) == Up(Masked32(Be32(a), p))
  {}

  lemma OneWordIsHighWord(c: Addr, a: Addr, p: bv8)
    requires p <= 32
    ensures Masked32(Be32(c), p) == Masked32(Be32(a), p) <==> Masked(Be64(c, 0), p) == Masked(Be64(a, 0), p)
  {
    hide *;
    EmbedMasked(c, p);
    EmbedMasked(a, p);
    UpInjective(Masked32(Be32(c), p), Masked32(Be32(a), p));
  }

  lemma MaskedV4(c: Addr, a: Addr, p: bv8)
    requires p <= 32
    ensures Masked32(Be32(c), p) == Masked32(Be32(a), p) <==> SameBits(c, a, p)
  {
    hide *;
    OneWordIsHighWord(c, a, p);
    MaskedV6High(c, a, p);
  }

  lemma MaskedV6High(c: Addr, a: Addr, p: bv8)
    requires p <= 64
    ensures Masked(Be64(c, 0), p) == Masked(Be64(a, 0), p) <==> SameBits(c, a, p)
  {
    hide *;
    MaskedWord(Be64(c, 0), Be64(a, 0), p);
    HighWord(c, a, p);
  }

  lemma MaskedV6Low(c: Addr, a: Addr, p: bv8)
    requires 64 <= p <= 128
    ensures Be64(c, 0) == Be64(a, 0) && Masked(Be64(c, 8), p - 64) == Masked(Be64(a, 8), p - 64) <==>
            SameBits(c, a, p)
  {
    hide Be64, Masked, SameWordBits, Bit;
    FullMask(Be64(c, 0), Be64(a, 0));
    MaskedV6High(c, a, 64);
    MaskedWord(Be64(c, 8), Be64(a, 8), p - 64);
    LowWord(c, a, p - 64);
  }

  // ---------------------------------------------------------------------
  // Main results
  // ---------------------------------------------------------------------

  /** The word compares decide exactly leading-bit agreement, for every CIDR, address and family. */
  lemma ContainsIsCovers(cidr: IpCidr, addr: Addr, family: bv8)
    ensures Contains(cidr, addr, family) <==> Covers(cidr, addr, family)
  {
    hide Be32, Be64, Masked, Masked32, SameBits;
    var p := cidr.prefix;
    if family == FAMILY_V4 {
      if p <= 32 {
        MaskedV4(cidr.addr, addr, p);
      }
    } else if p <= 64 {
      MaskedV6High(cidr.addr, addr, p);
    } else if p <= 128 {
      MaskedV6Low(cidr.addr, addr, p);
    }
  }

  /** Host bits never matter: CIDRs that agree on the network bits accept the same addresses. */
  lemma HostBitsIrrelevant(c: IpCidr, d: IpCidr, addr: Addr, family: bv8)
    requires c.family == d.family && c.prefix == d.prefix <= 128
    requires SameBits(c.addr, d.addr, c.prefix)
    ensures Contains(c, addr, family) <==> Contains(d, addr, family)
  {
    hide Contains, Bit;
    ContainsIsCovers(c, addr, family);
    ContainsIsCovers(d, addr, family);
  }

  lemma CoversNested(c: IpCidr, d: IpCidr, addr: Addr, family: bv8)
    requires c.family == d.family && c.prefix <= d.prefix <= Width(c.family) && SameBits(c.addr, d.addr, c.prefix)
    ensures Covers(d, addr, family) ==> Covers(c, addr, family)
  {
    hide Bit;
  }

  /** An address in both networks ties their leading bits together. */
  lemma CoversMeet(c: IpCidr, d: IpCidr, addr: Addr, family: bv8)
    requires c.family == d.family && c.prefix <= d.prefix <= Width(c.family)
    requires Covers(c, addr, family) && Covers(d, addr, family)
    ensures SameBits(c.addr, d.addr, c.prefix)
  {
    hide Bit;
  }

  lemma ContainsSelf(d: IpCidr)
    requires d.prefix <= Width(d.family)
    ensures Contains(d, d.addr, d.family)
  {
    hide Contains, Bit;
    ContainsIsCovers(d, d.addr, d.family);
  }

  /** Two CIDRs of one family never partly overlap: the longer lies inside the shorter, or they are disjoint. */
  lemma NestedOrDisjoint(c: IpCidr, d: IpCidr)
    requires c.family == d.family && c.prefix <= d.prefix <= Width(c.family)
    ensures (forall addr: Addr, f: bv8 :: Contains(d, addr, f) ==> Contains(c, addr, f)) <==>
            SameBits(c.addr, d.addr, c.prefix)
    ensures (forall addr: Addr, f: bv8 :: !(Contains(c, addr, f) && Contains(d, addr, f))) <==>
            !SameBits(c.addr, d.addr, c.prefix)
  {
    hide Contains, Covers, SameBits;
    forall addr: Addr, f: bv8
      ensures SameBits(c.addr, d.addr, c.prefix) && Contains(d, addr, f) ==> Contains(c, addr, f)
      ensures Contains(c, addr, f) && Contains(d, addr, f) ==> SameBits(c.addr, d.addr, c.prefix)
    {
      ContainsIsCovers(c, addr, f);
      ContainsIsCovers(d, addr, f);
      if SameBits(c.addr, d.addr, c.prefix) {
        CoversNested(c, d, addr, f);
      } else if Contains(c, addr, f) && Contains(d, addr, f) {
        CoversMeet(c, d, addr, f);
      }
    }
    ContainsSelf(d);
  }
}
