/** Sv39 words and addresses as `kernel/include/vmm.h` takes them apart:
    section 4.4 of the RISC-V Privileged Architecture, version 20211203. */
module Pte {
  import opened Bits
  import opened Pages

  const PTE_NUM: nat := 512
  const VPNS: nat := 0x800_0000           // 2^27 pages in an Sv39 space
  const MAX_VA: nat := 0x40_0000_0000     // 1 << 38
  const FRAME_LIMIT: nat := 0x80_0000_0000_0000  // 2^55: the 43 bits kept by PTE_PNN_MASK

  /** PTE_INDEX(va, level). */
  function PteIndex(va: nat, level: nat): (i: nat)
    requires level < 3
    ensures i < PTE_NUM
  {
    (va / (if level == 0 then 0x1000 else if level == 1 then 0x20_0000 else 0x4000_0000)) % PTE_NUM
  }

  /** The page number the three indices together stand for. */
  function Vpn(va: nat): (v: nat)
    ensures v < VPNS
  {
    (va / PG_SIZE) % VPNS
  }

  function Index(v: nat, level: nat): (i: nat)
    requires level < 3 && v < VPNS
    ensures i < PTE_NUM
  {
    if level == 0 then v % 512 else if level == 1 then (v / 512) % 512 else v / 0x4_0000
  }

  lemma Mod512(y: nat, m: nat)
    ensures (512 * m + y) % 512 == y % 512 && (512 * m + y) / 512 == m + y / 512
  {
  }

  lemma SplitVpn(x: nat)
    ensures (x % VPNS) % 512 == x % 512
    ensures ((x % VPNS) / 512) % 512 == (x / 512) % 512
    ensures (x % VPNS) / 0x4_0000 == (x / 0x4_0000) % 512
  {
    var q, y := x / VPNS, x % VPNS;
    assert x == 512 * (0x4_0000 * q) + y;
    Mod512(y, 0x4_0000 * q);
    var q1, y1 := 512 * q, y / 512;
    assert x / 512 == 512 * q1 + y1;
    Mod512(y1, q1);
    assert x / 0x4_0000 == (x / 512) / 512 == 512 * q + y1 / 512;
    assert y / 0x4_0000 == y1 / 512 < 512;
    Mod512(y1 / 512, q);
  }

  lemma IndexOfVa(va: nat, level: nat)
    requires level < 3
    ensures PteIndex(va, level) == Index(Vpn(va), level)
  {
    SplitVpn(va / 0x1000);
    assert va / 0x20_0000 == (va / 0x1000) / 512;
    assert va / 0x4000_0000 == (va / 0x1000) / 0x4_0000;
  }

  /** The indices determine the page. */
  lemma SameIndices(v: nat, w: nat)
    requires v < VPNS && w < VPNS
    requires Index(v, 0) == Index(w, 0) && Index(v, 1) == Index(w, 1) && Index(v, 2) == Index(w, 2)
    ensures v == w
  {
    assert v == 512 * (v / 512) + v % 512;
    assert v / 512 == 512 * ((v / 512) / 512) + (v / 512) % 512;
    assert w == 512 * (w / 512) + w % 512;
    assert w / 512 == 512 * ((w / 512) / 512) + (w / 512) % 512;
    assert v / 0x4_0000 == (v / 512) / 512 && w / 0x4_0000 == (w / 512) / 512;
  }

  /* ---- entries ---- */

  predicate IsValid(pte: nat) { pte % 2 == 1 }  // PTE_V

  function PaToPte(pa: nat): nat { (pa / 4096) * 1024 }

  function PteToPa(pte: nat): nat { ((pte / 1024) % 0x800_0000_0000) * 4096 }

  lemma ZeroPte()
    ensures PteToPa(0) == 0
  {
  }

  /** PA2PTE(pa) | perm | PTE_V. */
  function MakePte(pa: nat, perm: nat): nat {
    Or(Or(PaToPte(pa), perm), 1)
  }

  lemma {:induction false} OrLow(a: nat, b: nat, k: nat)
    requires b < Pow2(k)
    ensures Or(a * Pow2(k), b) == a * Pow2(k) + b
    decreases k
  {
    if k == 0 {
      OrZero(a);
      assert a * Pow2(0) == a;
    } else {
      var p := Pow2(k - 1);
      assert a * Pow2(k) == 2 * (a * p);
      OrLow(a, b / 2, k - 1);
    }
  }

  lemma {:induction false} OrZero(a: nat)
    ensures Or(a, 0) == a
  {
    if a > 0 { OrZero(a / 2); }
  }

  lemma OrOne(a: nat)
    ensures Or(a, 1) == if a % 2 == 1 then a else a + 1
  {
    OrZero(a / 2);
    assert Or(a, 1) == 2 * Or(a / 2, 0) + 1;
  }

  lemma PteSum(pa: nat, perm: nat)
    requires perm < 1024
    ensures MakePte(pa, perm) == (pa / 4096) * 1024 + (if perm % 2 == 1 then perm else perm + 1)
  {
    TenBits();
    hide Or, Pow2;
    var f := pa / 4096;
    OrLow(f, perm, 10);
    OrOne(f * 1024 + perm);
    Split(f, perm);
  }

  lemma TenBits()
    ensures Pow2(10) == 1024
  {
  }

  lemma PteFields(f: nat, low: nat)
    requires low < 1024 && low % 2 == 1
    ensures IsValid(f * 1024 + low) && (f * 1024 + low) % 1024 == low
    ensures PteToPa(f * 1024 + low) == (f % 0x800_0000_0000) * 4096
  {
    Split(f, low);
  }

  lemma Split(f: nat, low: nat)
    requires low < 1024
    ensures (f * 1024 + low) / 1024 == f && (f * 1024 + low) % 1024 == low && (f * 1024 + low) % 2 == low % 2
  {
  }

  /** With the flags below bit 10, frame number and flags do not disturb each
      other; the frame comes back exactly when it fits the 43 bits of the mask
      (the standard's field has 44). */
  lemma PteRoundTrip(pa: nat, perm: nat)
    requires perm < 1024
    ensures IsValid(MakePte(pa, perm))
    ensures MakePte(pa, perm) % 1024 == if perm % 2 == 1 then perm else perm + 1
    ensures PteToPa(MakePte(pa, perm)) == Floor(pa) <==> pa < FRAME_LIMIT
  {
    hide MakePte, PteToPa, IsValid, Floor;
    var f, low := pa / 4096, if perm % 2 == 1 then perm else perm + 1;
    PteSum(pa, perm);
    PteFields(f, low);
    FrameFits(pa);
  }

  lemma FrameFits(pa: nat)
    ensures ((pa / 4096) % 0x800_0000_0000) * 4096 == Floor(pa) <==> pa < FRAME_LIMIT
  {
  }
}
