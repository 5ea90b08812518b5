/** model/restricted.go: which addresses count as internal, and the dialler that
    asks before it connects. */
module Restricted {
  import opened Base

  type u32 = n: int | 0 <= n < 0x1_0000_0000
  type u128 = n: int | 0 <= n < 0x1_0000_0000_0000_0000_0000_0000_0000_0000

  /** netip.Addr; `zoned` is whether an IPv6 address carries a zone. */
  datatype Addr = Invalid | V4(v4: u32) | V6(v6: u128, zoned: bool)

  /** An aligned block of `size` = 2^(width - bits) addresses from `base`. */
  datatype Block = Block(base: int, size: int)

  predicate In(n: int, b: Block) {
    b.base <= n < b.base + b.size
  }

  // ----- netip's own predicates, byte by byte -----

  /** Byte i of an IPv4 address, the first being 0. */
  function B0(n: u32): int { n / 0x100_0000 }
  function B1(n: u32): int { n / 0x1_0000 % 256 }
  function B2(n: u32): int { n / 0x100 % 256 }

  /** The first 16 bits of an IPv6 address. */
  function Head16(n: u128): int { n / 0x1_0000_0000_0000_0000_0000_0000_0000 }

  const MAPPED_BASE: int := 0xffff_0000_0000

  /** ::ffff:a.b.c.d becomes a.b.c.d, its zone dropped. */
  function Unmap(a: Addr): Addr {
    if a.V6? && a.v6 / 0x1_0000_0000 == 0xffff then V4(a.v6 % 0x1_0000_0000) else a
  }

  predicate IsLoopback(a: Addr) {
    (a.V4? && B0(a.v4) == 127) || (a.V6? && a.v6 == 1)
  }

  predicate IsPrivate(a: Addr) {
    || (a.V4? && (B0(a.v4) == 10 || (B0(a.v4) == 172 && B1(a.v4) / 16 == 1) || (B0(a.v4) == 192 && B1(a.v4) == 168)))
    || (a.V6? && Head16(a.v6) / 256 / 2 == 0xfc / 2)
  }

  predicate IsLinkLocalUnicast(a: Addr) {
    || (a.V4? && B0(a.v4) == 169 && B1(a.v4) == 254)
    || (a.V6? && Head16(a.v6) / 64 == 0xfe80 / 64)
  }

  predicate IsLinkLocalMulticast(a: Addr) {
    || (a.V4? && B0(a.v4) == 224 && B1(a.v4) == 0 && B2(a.v4) == 0)
    || (a.V6? && Head16(a.v6) / 256 == 0xff && Head16(a.v6) % 16 == 2)
  }

  predicate IsMulticast(a: Addr) {
    (a.V4? && B0(a.v4) / 16 == 0xe) || (a.V6? && Head16(a.v6) / 256 == 0xff)
  }

  predicate IsInterfaceLocalMulticast(a: Addr) {
    a.V6? && Head16(a.v6) / 256 == 0xff && Head16(a.v6) % 16 == 1
  }

  predicate IsUnspecified(a: Addr) {
    a == V4(0) || a == V6(0, false)
  }

  // ----- RestrictedAddr -----

  datatype Reason = Unparseable | Loopback | Private | LinkLocal | Multicast | Unspecified | Reserved(range: Block)

  const RESERVED_V4: seq<Block> := [
    Block(0x6440_0000, 0x40_0000),  // 100.64.0.0/10
    Block(0xC000_0000, 0x100),      // 192.0.0.0/24
    Block(0xC000_0200, 0x100),      // 192.0.2.0/24
    Block(0xC612_0000, 0x2_0000),   // 198.18.0.0/15
    Block(0xC633_6400, 0x100),      // 198.51.100.0/24
    Block(0xCB00_7100, 0x100),      // 203.0.113.0/24
    Block(0xF000_0000, 0x1000_0000) // 240.0.0.0/4
  ]

  const NAT64 := Block(0x0064_ff9b_0000_0000_0000_0000_0000_0000, 0x1_0000_0000)
  const SIX_TO_FOUR := Block(0x2002_0000_0000_0000_0000_0000_0000_0000, 0x1_0000_0000_0000_0000_0000_0000_0000)
  const RESERVED_V6: seq<Block> := [NAT64, SIX_TO_FOUR]

  /** netip.Prefix.Contains: the leading bits agree. */
  predicate Contains(b: Block, n: int)
    requires b.size > 0
  {
    n / b.size == b.base / b.size
  }

  function FirstContaining(ranges: seq<Block>, n: int): Option<Block> {
    if ranges == [] then None
    else if ranges[0].size > 0 && Contains(ranges[0], n) then Some(ranges[0])
    else FirstContaining(ranges[1..], n)
  }

  /** A prefix holds no zoned address, and none of the other family. */
  function ReservedRange(a: Addr): Option<Block> {
    match a
    case Invalid => None
    case V4(n) => FirstContaining(RESERVED_V4, n)
    case V6(n, zoned) => if zoned then None else FirstContaining(RESERVED_V6, n)
  }

  function RestrictedAddr(addr: Addr): Option<Reason> {
    var a := Unmap(addr);
    if a.Invalid? then Some(Unparseable)
    else if IsLoopback(a) then Some(Loopback)
    else if IsPrivate(a) then Some(Private)
    else if IsLinkLocalUnicast(a) then Some(LinkLocal)
    else if IsLinkLocalMulticast(a) || IsMulticast(a) || IsInterfaceLocalMulticast(a) then Some(Multicast)
    else if IsUnspecified(a) then Some(Unspecified)
    else
      match ReservedRange(a)
      case Some(r) => Some(Reserved(r))
      case None => None
  }

  // ----- The rule as sets of addresses -----

  /** Every refused IPv4 block, ascending. */
  const REFUSED_V4: seq<Block> := [
    Block(0x0000_0000, 1),            // 0.0.0.0/32
    Block(0x0A00_0000, 0x100_0000),   // 10.0.0.0/8
    Block(0x6440_0000, 0x40_0000),    // 100.64.0.0/10
    Block(0x7F00_0000, 0x100_0000),   // 127.0.0.0/8
    Block(0xA9FE_0000, 0x1_0000),     // 169.254.0.0/16
    Block(0xAC10_0000, 0x10_0000),    // 172.16.0.0/12
    Block(0xC000_0000, 0x100),        // 192.0.0.0/24
    Block(0xC000_0200, 0x100),        // 192.0.2.0/24
    Block(0xC0A8_0000, 0x1_0000),     // 192.168.0.0/16
    Block(0xC612_0000, 0x2_0000),     // 198.18.0.0/15
    Block(0xC633_6400, 0x100),        // 198.51.100.0/24
    Block(0xCB00_7100, 0x100),        // 203.0.113.0/24
    Block(0xE000_0000, 0x1000_0000),  // 224.0.0.0/4
    Block(0xF000_0000, 0x1000_0000)   // 240.0.0.0/4
  ]

  /** Every refused IPv6 block of unzoned addresses outside the mapped ones,
      ascending. */
  const REFUSED_V6: seq<Block> := [
    Block(0, 1),                                                    // ::/128
    Block(1, 1),                                                    // ::1/128
    Block(0x0064_ff9b_0000_0000_0000_0000_0000_0000,
          0x1_0000_0000),                                           // 64:ff9b::/96
    Block(0x2002_0000_0000_0000_0000_0000_0000_0000,
          0x1_0000_0000_0000_0000_0000_0000_0000),                  // 2002::/16
    Block(0xfc00_0000_0000_0000_0000_0000_0000_0000,
          0x200_0000_0000_0000_0000_0000_0000_0000),                // fc00::/7
    Block(0xfe80_0000_0000_0000_0000_0000_0000_0000,
          0x40_0000_0000_0000_0000_0000_0000_0000),                 // fe80::/10
    Block(0xff00_0000_0000_0000_0000_0000_0000_0000,
          0x100_0000_0000_0000_0000_0000_0000_0000)                 // ff00::/8
  ]

  const MAPPED := Block(MAPPED_BASE, 0x1_0000_0000)

  predicate InSome(n: int, blocks: seq<Block>) {
    exists i :: 0 <= i < |blocks| && In(n, blocks[i])
  }

  /** Each block ends before the next begins. */
  predicate Ascending(blocks: seq<Block>) {
    && (forall i :: 0 <= i < |blocks| ==> blocks[i].size > 0)
    && (forall i {:trigger blocks[i]} :: 0 < i < |blocks| ==> blocks[i - 1].base + blocks[i - 1].size <= blocks[i].base)
  }

  /** No address lies in two of the blocks. */
  lemma {:induction false} AscendingDisjoint(blocks: seq<Block>, i: nat, j: nat, n: int)
    requires Ascending(blocks) && i < j < |blocks|
    ensures blocks[i].base + blocks[i].size <= blocks[j].base
    ensures !(In(n, blocks[i]) && In(n, blocks[j]))
    decreases j
  {
    if i < j - 1 {
      AscendingDisjoint(blocks, i, j - 1, n);
      assert blocks[j - 1].size > 0;
    }
  }

  lemma PairwiseDisjoint(blocks: seq<Block>, n: int)
    requires Ascending(blocks)
    ensures forall i, j :: 0 <= i < j < |blocks| ==> !(In(n, blocks[i]) && In(n, blocks[j]))
  {
    forall i, j | 0 <= i < j < |blocks| ensures !(In(n, blocks[i]) && In(n, blocks[j])) {
      AscendingDisjoint(blocks, i, j, n);
    }
  }

  lemma AscendingV4()
    ensures Ascending(REFUSED_V4)
  {
  }

  lemma AscendingV6()
    ensures Ascending(REFUSED_V6)
  {
  }

  /** Agreeing in the leading bits is lying in the aligned block. */
  lemma ContainsIsIn(b: Block, n: int)
    requires b.size > 0 && b.base % b.size == 0
    ensures Contains(b, n) <==> In(n, b)
  {
    var q := b.base / b.size;
    assert b.base == q * b.size;
    if In(n, b) {
      DivModUnique(n, b.size, q, n - b.base);
    }
  }

  /** The address as its bytes. */
  lemma Bytes4(n: u32) returns (rest: int)
    ensures n == B0(n) * 0x100_0000 + B1(n) * 0x1_0000 + B2(n) * 0x100 + rest
    ensures 0 <= rest < 0x100 && 0 <= B0(n) < 256 && 0 <= B1(n) < 256 && 0 <= B2(n) < 256
  {
    rest := n % 0x100;
    var high := n / 0x1_0000;
    assert n / 0x100 == high * 256 + B2(n) by {
      DivModUnique(n / 0x100, 256, high, n / 0x100 - high * 256);
    }
    DivModUnique(n, 0x100_0000, high / 256, n - high / 256 * 0x100_0000);
  }

  lemma ReservedV4Exact(n: u32)
    ensures FirstContaining(RESERVED_V4, n).Some? <==> InSome(n, RESERVED_V4)
  {
    FirstContainingExact(RESERVED_V4, n);
  }

  lemma {:induction false} FirstContainingExact(ranges: seq<Block>, n: int)
    requires forall i :: 0 <= i < |ranges| ==> ranges[i].size > 0 && ranges[i].base % ranges[i].size == 0
    ensures FirstContaining(ranges, n).Some? <==> InSome(n, ranges)
  {
    if ranges != [] {
      ContainsIsIn(ranges[0], n);
      FirstContainingExact(ranges[1..], n);
      if InSome(n, ranges[1..]) {
        var i :| 0 <= i < |ranges[1..]| && In(n, ranges[1..][i]);
        assert In(n, ranges[i + 1]);
      }
      if InSome(n, ranges) {
        var i :| 0 <= i < |ranges| && In(n, ranges[i]);
        if i > 0 {
          assert In(n, ranges[1..][i - 1]);
        }
      }
    }
  }

  /** The reason is the block's own. */
  const REASONS_V4: seq<Reason> := [
    Unspecified, Private, Reserved(REFUSED_V4[2]), Loopback, LinkLocal, Private, Reserved(REFUSED_V4[6]),
    Reserved(REFUSED_V4[7]), Private, Reserved(REFUSED_V4[9]), Reserved(REFUSED_V4[10]), Reserved(REFUSED_V4[11]),
    Multicast, Reserved(REFUSED_V4[13])]

  const REASONS_V6: seq<Reason> := [
    Unspecified, Loopback, Reserved(REFUSED_V6[2]), Reserved(REFUSED_V6[3]), Private, LinkLocal, Multicast]

  /** In disjoint ranges the first that contains an address is the one it lies in. */
  lemma {:induction false} FirstIs(ranges: seq<Block>, n: int, k: nat)
    requires Ascending(ranges) && k < |ranges| && In(n, ranges[k])
    requires forall i :: 0 <= i < |ranges| ==> ranges[i].base % ranges[i].size == 0
    ensures FirstContaining(ranges, n) == Some(ranges[k])
  {
    ContainsIsIn(ranges[0], n);
    if k > 0 {
      AscendingDisjoint(ranges, 0, k, n);
      FirstIs(ranges[1..], n, k - 1);
    }
  }

  /** None of netip's own predicates holds in a reserved range. */
  lemma ReservedIsUnnamed(n: u32, k: nat)
    requires k < |RESERVED_V4| && In(n, RESERVED_V4[k])
    ensures
      var a := V4(n);
      !IsLoopback(a) && !IsPrivate(a) && !IsLinkLocalUnicast(a) && !IsMulticast(a) && !IsUnspecified(a)
  {
    var rest := Bytes4(n);
  }

  lemma MulticastHolds(a: Addr)
    requires IsLinkLocalMulticast(a) || IsInterfaceLocalMulticast(a)
    ensures IsMulticast(a)
  {
  }

  lemma ReservedReason4(n: u32, k: nat)
    requires k < |RESERVED_V4| && In(n, RESERVED_V4[k])
    ensures RestrictedAddr(V4(n)) == Some(Reserved(RESERVED_V4[k]))
  {
    var a := V4(n);
    ReservedIsUnnamed(n, k);
    if IsLinkLocalMulticast(a) {
      MulticastHolds(a);
    }
    AscendingReserved4();
    FirstIs(RESERVED_V4, n, k);
  }

  lemma AscendingReserved4()
    ensures Ascending(RESERVED_V4)
    ensures forall i :: 0 <= i < |RESERVED_V4| ==> RESERVED_V4[i].base % RESERVED_V4[i].size == 0
  {
  }

  lemma ReasonV4(n: u32, i: nat)
    requires i < |REFUSED_V4| && In(n, REFUSED_V4[i])
    ensures RestrictedAddr(V4(n)) == Some(REASONS_V4[i])
  {
    if REASONS_V4[i].Reserved? {
      ReservedReason4(n, [0, 0, 0, 0, 0, 0, 1, 2, 0, 3, 4, 5, 0, 6][i]);
    } else {
      var rest := Bytes4(n);
    }
  }

  lemma Accounted4(n: u32)
    requires RestrictedAddr(V4(n)).Some?
    ensures InSome(n, REFUSED_V4)
  {
    var rest := Bytes4(n);
    ReservedV4Exact(n);
    var a := V4(n);
    if IsLoopback(a) { assert In(n, REFUSED_V4[3]); }
    else if IsPrivate(a) {
      assert In(n, REFUSED_V4[1]) || In(n, REFUSED_V4[5]) || In(n, REFUSED_V4[8]);
    }
    else if IsLinkLocalUnicast(a) { assert In(n, REFUSED_V4[4]); }
    else if IsMulticast(a) || IsLinkLocalMulticast(a) { assert In(n, REFUSED_V4[12]); }
    else if IsUnspecified(a) { assert In(n, REFUSED_V4[0]); }
    else {
      var i :| 0 <= i < |RESERVED_V4| && In(n, RESERVED_V4[i]);
      if i == 0 { assert In(n, REFUSED_V4[2]); }
      else if i == 1 { assert In(n, REFUSED_V4[6]); }
      else if i == 2 { assert In(n, REFUSED_V4[7]); }
      else if i == 3 { assert In(n, REFUSED_V4[9]); }
      else if i == 4 { assert In(n, REFUSED_V4[10]); }
      else if i == 5 { assert In(n, REFUSED_V4[11]); }
      else { assert In(n, REFUSED_V4[13]); }
    }
  }

  /** The IPv4 refusals are exactly the union of fourteen CIDR blocks. */
  lemma RefusalsV4(n: u32)
    ensures RestrictedAddr(V4(n)).Some? <==> InSome(n, REFUSED_V4)
  {
    if RestrictedAddr(V4(n)).Some? {
      Accounted4(n);
    }
    if InSome(n, REFUSED_V4) {
      var i: nat :| i < |REFUSED_V4| && In(n, REFUSED_V4[i]);
      ReasonV4(n, i);
    }
  }

  /** No address is in two of the refused blocks of its family. */
  lemma RefusedBlocksDisjoint(n: int)
    ensures forall i, j :: 0 <= i < j < |REFUSED_V4| ==> !(In(n, REFUSED_V4[i]) && In(n, REFUSED_V4[j]))
    ensures forall i, j :: 0 <= i < j < |REFUSED_V6| ==> !(In(n, REFUSED_V6[i]) && In(n, REFUSED_V6[j]))
  {
    AscendingV4();
    AscendingV6();
    PairwiseDisjoint(REFUSED_V4, n);
    PairwiseDisjoint(REFUSED_V6, n);
  }

  /** An IPv4 address and its IPv4-mapped form, zoned or not, get one verdict. */
  lemma MappedSameVerdict(n: u32, zoned: bool)
    ensures RestrictedAddr(V6(MAPPED_BASE + n, zoned)) == RestrictedAddr(V4(n))
  {
    var m := MAPPED_BASE + n;
    DivModUnique(m, 0x1_0000_0000, 0xffff, n);
  }

  lemma HeadBlock(n: u128, base: int, size: int)
    requires size > 0
    ensures Head16(n) / size == base <==>
      In(n, Block(base * size * 0x1_0000_0000_0000_0000_0000_0000_0000, size * 0x1_0000_0000_0000_0000_0000_0000_0000))
  {
    var w := 0x1_0000_0000_0000_0000_0000_0000_0000;
    var h := Head16(n);
    var q := h / size;
    assert n == h * w + n % w;
    assert h == q * size + h % size;
    var block := size * w;
    assert n == q * block + ((h % size) * w + n % w);
    assert (h % size) * w + n % w < block by {
      assert (h % size + 1) * w <= size * w;
    }
    if q == base {
      assert q * block == base * size * w;
    }
    if In(n, Block(base * size * w, block)) {
      assert base * size * w == base * block;
      DivModUnique(n, block, base, n - base * block);
      DivModUnique(n, block, q, (h % size) * w + n % w);
    }
  }

  /** The unzoned IPv6 refusals are exactly seven disjoint blocks, and inside the
      mapped block whatever is refused of IPv4. */
  lemma RefusalsV6(n: u128)
    ensures RestrictedAddr(V6(n, false)).Some? <==>
      if In(n, MAPPED) then RestrictedAddr(V4(n - MAPPED_BASE)).Some? else InSome(n, REFUSED_V6)
  {
    if In(n, MAPPED) {
      MappedSameVerdict(n - MAPPED_BASE, false);
    } else {
      ContainsIsIn(MAPPED, n);
      assert Unmap(V6(n, false)) == V6(n, false);
      FirstContainingExact(RESERVED_V6, n);
      HeadBlock(n, 0x7e, 0x200);
      HeadBlock(n, 0x3fa, 0x40);
      HeadBlock(n, 0xff, 0x100);
      assert Head16(n) / 256 / 2 == Head16(n) / 0x200;
      var a := V6(n, false);
      assert IsUnspecified(a) <==> In(n, REFUSED_V6[0]);
      assert IsLoopback(a) <==> In(n, REFUSED_V6[1]);
      assert IsPrivate(a) <==> In(n, REFUSED_V6[4]);
      assert IsLinkLocalUnicast(a) <==> In(n, REFUSED_V6[5]);
      assert IsMulticast(a) <==> In(n, REFUSED_V6[6]);
      assert ReservedRange(a).Some? <==> In(n, NAT64) || In(n, SIX_TO_FOUR) by {
        assert RESERVED_V6[0] == NAT64 && RESERVED_V6[1] == SIX_TO_FOUR;
      }
      assert REFUSED_V6[2] == NAT64 && REFUSED_V6[3] == SIX_TO_FOUR;
    }
  }

  /** A zone takes an address out of every prefix and apart from ::, so it changes
      the verdict exactly there. */
  lemma ZoneChangesVerdictIff(n: u128)
    ensures RestrictedAddr(V6(n, true)).Some? != RestrictedAddr(V6(n, false)).Some?
            <==> In(n, NAT64) || In(n, SIX_TO_FOUR) || n == 0
  {
    if In(n, MAPPED) {
      MappedSameVerdict(n - MAPPED_BASE, false);
      MappedSameVerdict(n - MAPPED_BASE, true);
    } else {
      ContainsIsIn(MAPPED, n);
      FirstContainingExact(RESERVED_V6, n);
      HeadBlock(n, 0x7e, 0x200);
      HeadBlock(n, 0x3fa, 0x40);
      HeadBlock(n, 0xff, 0x100);
      assert Head16(n) / 256 / 2 == Head16(n) / 0x200;
      assert RESERVED_V6[0] == NAT64 && RESERVED_V6[1] == SIX_TO_FOUR;
    }
  }

  lemma ReasonV6(n: u128, i: nat)
    requires i < |REFUSED_V6| && In(n, REFUSED_V6[i])
    ensures RestrictedAddr(V6(n, false)) == Some(REASONS_V6[i])
  {
    ContainsIsIn(MAPPED, n);
    HeadBlock(n, 0x7e, 0x200);
    HeadBlock(n, 0x3fa, 0x40);
    HeadBlock(n, 0xff, 0x100);
    assert Head16(n) / 256 / 2 == Head16(n) / 0x200;
    if i == 2 { FirstIs(RESERVED_V6, n, 0); }
    if i == 3 { FirstIs(RESERVED_V6, n, 1); }
  }

  /** Each refused address is refused for the one reason of its block, and what is no
      address at all is refused too. */
  lemma ReasonOfBlock(n: int)
    ensures RestrictedAddr(Invalid).Some?
    ensures forall i :: 0 <= i < |REFUSED_V4| && In(n, REFUSED_V4[i]) ==> RestrictedAddr(V4(n)) == Some(REASONS_V4[i])
    ensures forall i :: 0 <= i < |REFUSED_V6| && In(n, REFUSED_V6[i]) ==>
              RestrictedAddr(V6(n, false)) == Some(REASONS_V6[i])
  {
    forall i | 0 <= i < |REFUSED_V4| && In(n, REFUSED_V4[i])
      ensures RestrictedAddr(V4(n)) == Some(REASONS_V4[i])
    {
      ReasonV4(n, i);
    }
    forall i | 0 <= i < |REFUSED_V6| && In(n, REFUSED_V6[i])
      ensures RestrictedAddr(V6(n, false)) == Some(REASONS_V6[i])
    {
      ReasonV6(n, i);
    }
  }

  // ----- PinnedDialContext -----

  /** What the host of a dial turns out to be. */
  datatype Host = BadHostPort | Literal(addr: Addr) | LookupFails | Resolved(addrs: seq<Addr>)

  datatype Dial = Refused | LookupError | Connected(addr: Addr) | DialError

  function Candidates(host: Host): seq<Addr> {
    match host
    case Literal(a) => [a]
    case Resolved(addrs) => addrs
    case _ => []
  }

  predicate AllPublic(addrs: seq<Addr>) {
    forall a :: a in addrs ==> RestrictedAddr(a).None?
  }

  predicate Refusable(addrs: seq<Addr>) {
    addrs == [] || exists a :: a in addrs && RestrictedAddr(a).Some?
  }

  /** `connects(i)` is whether dialling the i-th address succeeds; `dialed` lists the
      addresses actually dialled, in order. A host that does not split, resolves to
      nothing or has one address refused is dialled nowhere; a literal address is
      dialled itself; a name's addresses are dialled in order up to the first that
      connects. */
  method PinnedDialContext(host: Host, connects: nat -> bool) returns (r: Dial, dialed: seq<Addr>)
    ensures host.BadHostPort? ==> r == Refused && dialed == []
    ensures host.LookupFails? ==> r == LookupError && dialed == []
    ensures host.Literal? && RestrictedAddr(host.addr).Some? ==> r == Refused && dialed == []
    ensures host.Literal? && RestrictedAddr(host.addr).None? ==>
      dialed == [host.addr] && r == if connects(0) then Connected(host.addr) else DialError
    ensures host.Resolved? && Refusable(host.addrs) ==> r == Refused && dialed == []
    ensures host.Resolved? && !Refusable(host.addrs) ==>
      && dialed <= host.addrs && dialed != []
      && (forall i: nat :: i < |dialed| - 1 ==> !connects(i))
      && (r == DialError ==> dialed == host.addrs && !connects(|dialed| - 1))
      && (r != DialError ==> connects(|dialed| - 1) && r == Connected(dialed[|dialed| - 1]))
  {
    if host.LookupFails? {
      return LookupError, [];
    }
    var addrs := Candidates(host);
    if |addrs| == 0 {
      return Refused, [];
    }
    var i := 0;
    while i < |addrs|
      invariant 0 <= i <= |addrs| && AllPublic(addrs[..i])
    {
      if RestrictedAddr(addrs[i]).Some? {
        return Refused, [];
      }
      i := i + 1;
    }
    assert addrs[..i] == addrs;
    dialed := [];
    i := 0;
    while i < |addrs|
      invariant 0 <= i <= |addrs| && dialed == addrs[..i]
      invariant forall k: nat :: k < i ==> !connects(k)
    {
      dialed := dialed + [addrs[i]];
      if connects(i) {
        return Connected(addrs[i]), dialed;
      }
      i := i + 1;
    }
    return DialError, dialed;
  }
}
