/**
 * IPv4 addresses as 32-bit words: the bit operations of the program, and what they mean in terms
 * of blocks of addresses (section 3.1 of RFC 4632).
 */
module Ipv4 {
  import opened Wrappers

  const WORDS: nat := 0x1_0000_0000

  type Word = n: nat | n < 0x1_0000_0000

  function Pow2(k: nat): (p: nat)
    ensures p >= 1
  {
    if k == 0 then 1 else 2 * Pow2(k - 1)
  }

  // ----- bit by bit

  function And(a: nat, b: nat): nat
    decreases a
  {
    if a == 0 || b == 0 then 0
    else (if a % 2 == 1 && b % 2 == 1 then 1 else 0) + 2 * And(a / 2, b / 2)
  }

  function Or(a: nat, b: nat): (r: nat)
    ensures r <= a + b
    decreases a
  {
    if a == 0 then b
    else if b == 0 then a
    else (if a % 2 == 1 || b % 2 == 1 then 1 else 0) + 2 * Or(a / 2, b / 2)
  }

  /** The complement within a number of bits. */
  function Not(a: nat, bits: nat): (r: nat)
    ensures r < Pow2(bits)
  {
    if bits == 0 then 0 else 1 - a % 2 + 2 * Not(a / 2, bits - 1)
  }

  /** The value that a 32-bit sum or difference of two words wraps to. */
  function Wrap(n: int): Word
    requires -0x1_0000_0000 <= n < 0x2_0000_0000
  {
    if n < 0 then n + 0x1_0000_0000 else if n < 0x1_0000_0000 then n else n - 0x1_0000_0000
  }

  // ----- the masks of the CIDR table

  /** The mask with this many leading ones. */
  function Mask(prefix: nat): nat
    requires prefix <= 32
  {
    Pow2Monotone(32 - prefix, 32);
    Pow2(32) - Pow2(32 - prefix)
  }

  /** How many addresses share a network of this prefix. */
  function BlockSize(prefix: nat): nat
    requires prefix <= 32
  {
    Pow2(32 - prefix)
  }

  lemma {:induction false} Pow2Monotone(a: nat, b: nat)
    requires a <= b
    ensures Pow2(a) <= Pow2(b)
    decreases b
  {
    if a < b {
      Pow2Monotone(a, b - 1);
    }
  }

  lemma Pow2Of32()
    ensures Pow2(32) == WORDS
  {
    assert Pow2(8) == 256;
    Pow2Add(8, 8);
    Pow2Add(16, 16);
  }

  lemma {:induction false} Pow2Add(a: nat, b: nat)
    ensures Pow2(a + b) == Pow2(a) * Pow2(b)
    decreases a
  {
    if a > 0 {
      Pow2Add(a - 1, b);
      assert Pow2(a + b) == 2 * (Pow2(a - 1) * Pow2(b));
    }
  }

  lemma MulMonotone(x: nat, y: nat, z: nat)
    requires x <= y
    ensures x * z <= y * z
  {
  }

  lemma Remainder(a: nat, m: nat, q: nat, r: nat)
    requires m > 0 && a == m * q + r && r < m
    ensures a % m == r && a / m == q
  {
    var p := a / m;
    assert p * m <= a < (p + 1) * m;
    if p < q {
      MulMonotone(p + 1, q, m);
      assert false;
    }
    if q < p {
      MulMonotone(q + 1, p, m);
      assert false;
    }
  }

  lemma HalfRemainder(a: nat, m: nat)
    requires m > 0
    ensures a % (2 * m) == a % 2 + 2 * (a / 2 % m)
  {
    var q, r := a / 2 / m, a / 2 % m;
    assert a / 2 == m * q + r;
    assert a == 2 * (m * q) + (2 * r + a % 2);
    Remainder(a, 2 * m, q, 2 * r + a % 2);
  }

  /** Rounding down to a multiple of the block size. */
  lemma RoundDown(a: nat, size: nat)
    requires size > 0
    ensures a / size * size == a - a % size <= a < a / size * size + size
    ensures a / size * size % size == 0 && a / size * size / size == a / size
  {
    Remainder(a / size * size, size, a / size, 0);
  }

  lemma LastBlockFits(a: nat, size: nat, blocks: nat)
    requires size > 0 && a < blocks * size
    ensures a / size * size + size <= blocks * size
  {
    var block := a / size;
    RoundDown(a, size);
    if blocks <= block {
      MulMonotone(blocks, block, size);
      assert false;
    }
    MulMonotone(block + 1, blocks, size);
  }

  lemma {:induction false} AndOnes(a: nat, bits: nat)
    requires a < Pow2(bits)
    ensures And(a, Pow2(bits) - 1) == a
    decreases bits
  {
    if a > 0 && bits > 0 {
      assert (Pow2(bits) - 1) / 2 == Pow2(bits - 1) - 1;
      AndOnes(a / 2, bits - 1);
    }
  }

  /** The number that the low bits spell. */
  function Low(a: nat, bits: nat): nat {
    if bits == 0 then 0 else a % 2 + 2 * Low(a / 2, bits - 1)
  }

  lemma {:induction false} LowIsRemainder(a: nat, bits: nat)
    ensures Low(a, bits) == a % Pow2(bits)
  {
    if bits > 0 {
      LowIsRemainder(a / 2, bits - 1);
      HalfRemainder(a, Pow2(bits - 1));
    }
  }

  lemma AndEven(a: nat, half: nat)
    ensures And(a, 2 * half) == 2 * And(a / 2, half)
  {
    if a > 0 && half > 0 {
      var mask := 2 * half;
      assert mask / 2 == half && mask % 2 == 0;
      AndUnfolds(a, mask);
    }
  }

  lemma AndUnfolds(a: nat, b: nat)
    requires a > 0 && b > 0 && b % 2 == 0
    ensures And(a, b) == 2 * And(a / 2, b / 2)
  {
  }

  /** A mask of leading ones clears the low bits. */
  lemma {:induction false} AndMask(a: nat, bits: nat, low: nat)
    requires a < Pow2(bits) && low <= bits
    ensures Pow2(low) <= Pow2(bits) && And(a, Pow2(bits) - Pow2(low)) == a - Low(a, low)
    decreases low
  {
    Pow2Monotone(low, bits);
    if low == 0 {
      AndOnes(a, bits);
    } else {
      hide And, Pow2;
      Doubles(bits);
      Doubles(low);
      AndMask(a / 2, bits - 1, low - 1);
      AndEven(a, Pow2(bits - 1) - Pow2(low - 1));
      HalfAndBit(a);
    }
  }

  lemma Doubles(n: nat)
    requires n > 0
    ensures Pow2(n) == 2 * Pow2(n - 1)
  {
  }

  lemma HalfAndBit(a: nat)
    ensures a == 2 * (a / 2) + a % 2
  {
  }

  /** A mask of trailing ones sets the low bits. */
  lemma {:induction false} OrOnes(a: nat, low: nat)
    ensures Or(a, Pow2(low) - 1) == a - Low(a, low) + Pow2(low) - 1
    decreases low
  {
    if low > 0 {
      hide Pow2;
      Doubles(low);
      OrOnes(a / 2, low - 1);
      OrOdd(a, Pow2(low - 1) - 1);
      HalfAndBit(a);
    }
  }

  lemma OrOdd(a: nat, half: nat)
    ensures Or(a, 2 * half + 1) == 2 * Or(a / 2, half) + 1
  {
    var mask := 2 * half + 1;
    assert mask / 2 == half && mask % 2 == 1;
  }

  lemma {:induction false} NotIsDifference(a: nat, bits: nat)
    requires a < Pow2(bits)
    ensures Not(a, bits) == Pow2(bits) - 1 - a
    decreases bits
  {
    if bits > 0 {
      NotIsDifference(a / 2, bits - 1);
    }
  }

  /** The last block ends where the address space ends. */
  lemma BlocksTile(address: Word, prefix: nat)
    requires prefix <= 32
    ensures address / BlockSize(prefix) * BlockSize(prefix) + BlockSize(prefix) <= WORDS
  {
    hide Pow2;
    Pow2Of32();
    Pow2Add(prefix, 32 - prefix);
    LastBlockFits(address, BlockSize(prefix), Pow2(prefix));
  }

  /** The network, host part and broadcast of an address under a mask of the CIDR table. */
  lemma MaskArithmetic(address: Word, prefix: nat)
    requires prefix <= 32
    ensures
      var size := BlockSize(prefix);
      && Mask(prefix) == WORDS - size
      && And(address, Mask(prefix)) == address / size * size
      && Not(Mask(prefix), 32) == size - 1
      && Or(address, Not(Mask(prefix), 32)) == address / size * size + size - 1
      && And(address, Mask(prefix)) <= address <= Or(address, Not(Mask(prefix), 32)) < WORDS
  {
    hide Pow2, And, Or, Not, Low;
    Pow2Of32();
    Pow2Monotone(32 - prefix, 32);
    LowIsRemainder(address, 32 - prefix);
    AndMask(address, 32, 32 - prefix);
    NotIsDifference(Mask(prefix), 32);
    OrOnes(address, 32 - prefix);
    RoundDown(address, BlockSize(prefix));
    BlocksTile(address, prefix);
  }

  /** Masking a network address again changes nothing. */
  lemma NetworkOfNetwork(address: Word, prefix: nat)
    requires prefix <= 32
    ensures And(address, Mask(prefix)) < WORDS
    ensures And(And(address, Mask(prefix)), Mask(prefix)) == And(address, Mask(prefix))
  {
    hide Pow2, And, Or, Not, BlockSize, Mask;
    MaskArithmetic(address, prefix);
    MaskArithmetic(And(address, Mask(prefix)), prefix);
    RoundDown(address, BlockSize(prefix));
  }

  // ----- the operations of the program

  predicate Unspecified(address: Word) {
    address == 0
  }

  /** The address of the network a connection belongs to; the mask must have been set. */
  function CalculateAddress(connection: Word, mask: Word): Option<nat> {
    if Unspecified(mask) then None else Some(And(connection, mask))
  }

  /** It fails exactly for the mask of prefix 0, and otherwise rounds the address down to its block. */
  lemma CalculatedAddress(connection: Word, prefix: nat)
    requires prefix <= 32
    ensures Mask(prefix) < WORDS
    ensures CalculateAddress(connection, Mask(prefix))
         == if prefix == 0 then None else Some(connection / BlockSize(prefix) * BlockSize(prefix))
  {
    hide Pow2, And, Or, Not, Mask;
    MaskArithmetic(connection, prefix);
    if prefix == 0 {
      Pow2Of32();
    } else {
      HalfTheWords();
      Pow2Monotone(32 - prefix, 31);
    }
  }

  lemma HalfTheWords()
    ensures Pow2(31) < WORDS
  {
    Pow2Of32();
    assert Pow2(32) == 2 * Pow2(31);
  }

  predicate SameBlock(a: Word, b: Word, prefix: nat)
    requires prefix <= 32
  {
    a / BlockSize(prefix) == b / BlockSize(prefix)
  }

  lemma SameNetworkIsSameBlock(a: Word, b: Word, prefix: nat)
    requires prefix <= 32
    ensures And(a, Mask(prefix)) == And(b, Mask(prefix)) <==> SameBlock(a, b, prefix)
  {
    hide Pow2, And, Or, Not, BlockSize, Mask;
    MaskArithmetic(a, prefix);
    MaskArithmetic(b, prefix);
    RoundDown(a, BlockSize(prefix));
    RoundDown(b, BlockSize(prefix));
  }

  /** A gateway may be left unspecified; otherwise it must be in the network of the host. */
  predicate ValidateGatewayInSubnet(host: Word, mask: Word, gateway: Word) {
    Unspecified(gateway) || And(host, mask) == And(gateway, mask)
  }

  /** The gateway check accepts exactly the unspecified gateway and those of the host's own block. */
  lemma GatewayCheckIsExact(host: Word, prefix: nat, gateway: Word)
    requires prefix <= 32
    ensures Mask(prefix) < WORDS
    ensures ValidateGatewayInSubnet(host, Mask(prefix), gateway) <==>
      gateway == 0 || SameBlock(host, gateway, prefix)
  {
    hide Pow2, And, Or, Not, BlockSize, Mask;
    MaskArithmetic(host, prefix);
    SameNetworkIsSameBlock(host, gateway, prefix);
  }

  datatype SharedServiceNetworkStatus = Valid | SharedIP | SharedSubnet

  function ValidateSharedServiceNetwork(service: Word, serviceMask: Word, shared: Word, sharedMask: Word): SharedServiceNetworkStatus {
    if service == shared then SharedIP
    else if And(service, serviceMask) == And(shared, sharedMask) then SharedSubnet
    else Valid
  }

  /** Two networks share an address. */
  ghost predicate Overlap(a: Word, prefixA: nat, b: Word, prefixB: nat)
    requires prefixA <= 32 && prefixB <= 32
  {
    exists x: Word :: SameBlock(x, a, prefixA) && SameBlock(x, b, prefixB)
  }

  lemma CoarserBlock(x: nat, fine: nat, factor: nat)
    requires fine > 0 && factor > 0
    ensures fine * factor > 0 && x / (fine * factor) == x / fine / factor
  {
    var block, rest := x / fine, x % fine;
    var q, r := block / factor, block % factor;
    Distribute(fine, block, factor, q, r);
    BelowProduct(fine, factor, r, rest);
    Remainder(x, fine * factor, q, fine * r + rest);
  }

  lemma Distribute(fine: nat, block: nat, factor: nat, q: nat, r: nat)
    requires block == factor * q + r
    ensures fine * block == fine * factor * q + fine * r
  {
  }

  lemma BelowProduct(fine: nat, factor: nat, r: nat, rest: nat)
    requires r < factor && rest < fine
    ensures fine * r + rest < fine * factor
  {
    MulMonotone(r + 1, factor, fine);
  }

  lemma BlocksNest(a: Word, b: Word, coarse: nat, fine: nat)
    requires coarse <= fine <= 32 && SameBlock(a, b, fine)
    ensures SameBlock(a, b, coarse)
  {
    hide Pow2;
    Pow2Add(32 - fine, fine - coarse);
    CoarserBlock(a, BlockSize(fine), Pow2(fine - coarse));
    CoarserBlock(b, BlockSize(fine), Pow2(fine - coarse));
  }

  /** Networks overlap exactly when the wider of the two holds both addresses. */
  lemma OverlapIsNesting(a: Word, prefixA: nat, b: Word, prefixB: nat)
    requires prefixA <= 32 && prefixB <= 32
    ensures Overlap(a, prefixA, b, prefixB) <==> SameBlock(a, b, if prefixA <= prefixB then prefixA else prefixB)
  {
    var coarse := if prefixA <= prefixB then prefixA else prefixB;
    if Overlap(a, prefixA, b, prefixB) {
      var x: Word :| SameBlock(x, a, prefixA) && SameBlock(x, b, prefixB);
      BlocksNest(x, a, coarse, prefixA);
      BlocksNest(x, b, coarse, prefixB);
    }
    if SameBlock(a, b, coarse) {
      assert SameBlock(if prefixA <= prefixB then b else a, a, prefixA);
      assert SameBlock(if prefixA <= prefixB then b else a, b, prefixB);
    }
  }

  /**
   * Between networks of one size an accepted service network never overlaps the management network;
   * between different sizes it does exactly when the two are nested but begin differently.
   */
  lemma AcceptedServiceNetwork(service: Word, prefixS: nat, shared: Word, prefixM: nat)
    requires prefixS <= 32 && prefixM <= 32
    ensures Mask(prefixS) < WORDS && Mask(prefixM) < WORDS
    ensures
      var accepted := ValidateSharedServiceNetwork(service, Mask(prefixS), shared, Mask(prefixM)).Valid?;
      var coarse := if prefixS <= prefixM then prefixS else prefixM;
      && (prefixS == prefixM ==> (accepted <==> !Overlap(service, prefixS, shared, prefixM)))
      && (accepted && Overlap(service, prefixS, shared, prefixM) <==>
            && SameBlock(service, shared, coarse) && service != shared
            && And(service, Mask(prefixS)) != And(shared, Mask(prefixM)))
  {
    hide Pow2, And, Or, Not, BlockSize, Mask;
    MaskArithmetic(service, prefixS);
    MaskArithmetic(shared, prefixM);
    OverlapIsNesting(service, prefixS, shared, prefixM);
    SameNetworkIsSameBlock(service, shared, prefixS);
  }

  lemma NetworkInBlock(address: Word, prefix: nat)
    requires prefix <= 32
    ensures And(address, Mask(prefix)) < WORDS && SameBlock(And(address, Mask(prefix)), address, prefix)
  {
    hide Pow2, And, Or, Not, BlockSize, Mask;
    MaskArithmetic(address, prefix);
    RoundDown(address, BlockSize(prefix));
  }

  /** For any prefixes, what the check refuses does overlap. */
  lemma RejectionIsRight(service: Word, prefixS: nat, shared: Word, prefixM: nat)
    requires prefixS <= 32 && prefixM <= 32
    ensures Mask(prefixS) < WORDS && Mask(prefixM) < WORDS
    ensures !ValidateSharedServiceNetwork(service, Mask(prefixS), shared, Mask(prefixM)).Valid? ==>
              Overlap(service, prefixS, shared, prefixM)
  {
    hide And, BlockSize, Mask, SameBlock;
    MaskFits(service, prefixS);
    MaskFits(shared, prefixM);
    NetworkInBlock(service, prefixS);
    NetworkInBlock(shared, prefixM);
    SameBlockAsItself(service, prefixS);
    SameBlockAsItself(shared, prefixM);
  }

  lemma SameBlockAsItself(address: Word, prefix: nat)
    requires prefix <= 32
    ensures SameBlock(address, address, prefix)
  {
  }

  lemma MaskFits(address: Word, prefix: nat)
    requires prefix <= 32
    ensures Mask(prefix) < WORDS
  {
    hide Pow2, And, Or, Not, Mask;
    MaskArithmetic(address, prefix);
  }

  /** 10.0.1.5/24 is accepted as a service network next to the management network of 10.0.0.5/16, which contains it. */
  lemma NestedServiceNetwork()
    ensures
      var service, management := 0x0A00_0105, 0x0A00_0005;
      && Mask(24) < WORDS && Mask(16) < WORDS
      && ValidateSharedServiceNetwork(service, Mask(24), management, Mask(16)).Valid?
      && Overlap(service, 24, management, 16)
  {
    hide And, Mask, Overlap, SameBlock, BlockSize, Pow2;
    NetworkBytes(0x0A00_0105, 0x0A00_0005);
    OverlapIsNesting(0x0A00_0105, 24, 0x0A00_0005, 16);
  }

  /** The networks of the two addresses, as /24 and as /16. */
  lemma NetworkBytes(service: Word, management: Word)
    requires service == 0x0A00_0105 && management == 0x0A00_0005
    ensures Mask(24) < WORDS && Mask(16) < WORDS
    ensures And(service, Mask(24)) == 0x0A00_0100 && And(management, Mask(16)) == 0x0A00_0000
    ensures SameBlock(service, management, 16)
  {
    hide And, Or, Not, Mask, Pow2;
    SmallPowers();
    MaskArithmetic(service, 24);
    MaskArithmetic(management, 16);
  }

  lemma SmallPowers()
    ensures Pow2(8) == 0x100 && Pow2(16) == 0x1_0000
  {
    assert Pow2(8) == 0x100;
    Pow2Add(8, 8);
  }
}
