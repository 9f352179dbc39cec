/** Bitwise `&` on naturals and the two bit helpers of the in-kernel unwinder: `remove_pac`,
    which strips an arm64 pointer-authentication code from a return address, and `in_kernel`,
    which tells kernel addresses by their top bit. */
module Bits {
  import opened Machine

  /** Bitwise `&`, built from the lowest bit up. */
  function BitAnd(a: nat, b: nat): (r: nat)
    ensures r <= a && r <= b
    decreases a
  {
    if a == 0 || b == 0 then 0 else 2 * BitAnd(a / 2, b / 2) + (a % 2) * (b % 2)
  }

  /** Splitting off the lowest bit before dividing by an even divisor. */
  lemma HalveRemainder(x: nat, p: nat)
    requires p >= 1
    ensures x % (2 * p) == 2 * ((x / 2) % p) + x % 2
    ensures x / (2 * p) == (x / 2) / p
  {
    var q := (x / 2) / p;
    var r := (x / 2) % p;
    assert x / 2 == q * p + r;
    assert x == q * (2 * p) + (2 * r + x % 2);
    DivModUnique(x, 2 * p, q, 2 * r + x % 2);
  }

  /** Masking with `2^k - 1` keeps the `k` low bits. */
  lemma {:induction false} LowBits(x: nat, k: nat)
    ensures BitAnd(x, Pow2(k) - 1) == x % Pow2(k)
  {
    if k == 0 {
      assert Pow2(k) == 1;
    } else if x == 0 {
      assert BitAnd(x, Pow2(k) - 1) == 0;
    } else {
      LowBits(x / 2, k - 1);
      LowBitsStep(x, Pow2(k - 1));
    }
  }

  lemma LowBitsStep(x: nat, p: nat)
    requires x > 0 && p >= 1
    requires BitAnd(x / 2, p - 1) == (x / 2) % p
    ensures BitAnd(x, 2 * p - 1) == x % (2 * p)
  {
    DivModUnique(2 * p - 1, 2, p - 1, 1);
    assert BitAnd(x, 2 * p - 1) == 2 * BitAnd(x / 2, p - 1) + x % 2;
    HalveRemainder(x, p);
  }

  /** Masking with `2^k` keeps bit `k` alone. */
  lemma {:induction false} SingleBit(x: nat, k: nat)
    ensures BitAnd(x, Pow2(k)) == (x / Pow2(k)) % 2 * Pow2(k)
  {
    if k == 0 {
      assert Pow2(k) == 1;
    } else if x == 0 {
      assert BitAnd(x, Pow2(k)) == 0;
    } else {
      SingleBit(x / 2, k - 1);
      SingleBitStep(x, Pow2(k - 1));
    }
  }

  lemma SingleBitStep(x: nat, p: nat)
    requires x > 0 && p >= 1
    requires BitAnd(x / 2, p) == ((x / 2) / p) % 2 * p
    ensures BitAnd(x, 2 * p) == (x / (2 * p)) % 2 * (2 * p)
  {
    DivModUnique(2 * p, 2, p, 0);
    assert BitAnd(x, 2 * p) == 2 * BitAnd(x / 2, p);
    HalveRemainder(x, p);
  }

  /** The target architecture, chosen at build time in the unwinder. */
  datatype Arch = X86_64 | Arm64

  /** The 48 addressable bits of a user-space arm64 pointer. */
  const ADDRESS_MASK: uint64 := 0x0000_FFFF_FFFF_FFFF
  const TWO_48: int := 0x1_0000_0000_0000

  /** The top bit, set in every kernel address. */
  const KERNEL_BIT: uint64 := 0x8000_0000_0000_0000

  lemma MaskConstants()
    ensures Pow2(48) == TWO_48 && ADDRESS_MASK == TWO_48 - 1
    ensures Pow2(63) == KERNEL_BIT
  {
    Pow2Constants();
    PowerSplit(16, 32);
  }

  /** `remove_pac`: the identity on x86-64, a mask of the 48 address bits on arm64. */
  function RemovePac(arch: Arch, addr: uint64): (r: uint64)
    ensures r <= addr
  {
    match arch
    case X86_64 => addr
    case Arm64 => BitAnd(addr, ADDRESS_MASK)
  }

  /** On arm64 the result is the address modulo 2^48: it fits in 48 bits, keeps the low 48
      bits of the input and is a fixed point; on x86-64 nothing changes. */
  lemma RemovePacKeepsAddressBits(arch: Arch, addr: uint64)
    ensures arch == Arm64 ==> RemovePac(arch, addr) == addr % TWO_48
    ensures arch == Arm64 ==> RemovePac(arch, addr) < TWO_48
    ensures arch == Arm64 ==> (addr - RemovePac(arch, addr)) % TWO_48 == 0
    ensures arch == X86_64 ==> RemovePac(arch, addr) == addr
    ensures RemovePac(arch, RemovePac(arch, addr)) == RemovePac(arch, addr)
  {
    MaskConstants();
    LowBits(addr, 48);
    var r := addr % TWO_48;
    LowBits(r, 48);
    DivModUnique(r, TWO_48, 0, r);
    DivModUnique(addr - r, TWO_48, addr / TWO_48, 0);
  }

  /** `in_kernel`: the top bit of the instruction pointer is set. */
  predicate InKernel(ip: uint64) {
    BitAnd(ip, KERNEL_BIT) != 0
  }

  /** Kernel addresses are exactly the upper half of the address space. */
  lemma InKernelIsUpperHalf(ip: uint64)
    ensures InKernel(ip) <==> ip >= TWO_64 / 2
  {
    MaskConstants();
    Pow2Constants();
    SingleBit(ip, 63);
    if ip >= TWO_64 / 2 {
      DivModUnique(ip, KERNEL_BIT, 1, ip - KERNEL_BIT);
    } else {
      DivModUnique(ip, KERNEL_BIT, 0, ip);
    }
  }
}
