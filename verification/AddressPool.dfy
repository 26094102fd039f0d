/** The overlay address allocator: `AllocateIP` and `lastAddr`. Addresses are 32-bit numbers. */
module AddressPool {
  import opened Basics
  import opened Binary
  import opened Decimal
  import opened Separators

  const MAX_SCAN := 0x10_0000

  // ---------------------------------------------------------------------------
  // Prefixes

  /** An address with its low `h` bits cleared. */
  function Masked(a: nat, h: nat): (r: nat)
    ensures r <= a < r + Pow2(h)
  {
    if h == 0 then a else 2 * Masked(a / 2, h - 1)
  }

  /** The low `h` bits are clear. */
  predicate LowClear(a: nat, h: nat) {
    Masked(a, h) == a
  }

  lemma {:induction false} MaskedLowClear(a: nat, h: nat)
    ensures LowClear(Masked(a, h), h)
  {
    if h > 0 {
      var m := Masked(a / 2, h - 1);
      MaskedLowClear(a / 2, h - 1);
      assert Masked(2 * m, h) == 2 * Masked((2 * m) / 2, h - 1);
    }
  }

  /** A prefix covers the `Pow2(h)` addresses from its network address on. */
  lemma {:induction false} CoverIsRange(a: nat, x: nat, h: nat)
    ensures Masked(x, h) == Masked(a, h) <==> Masked(a, h) <= x < Masked(a, h) + Pow2(h)
  {
    if h > 0 {
      CoverIsRange(a / 2, x / 2, h - 1);
    }
  }

  lemma {:induction false} MaskedFits(a: nat, h: nat, w: nat)
    requires h <= w && a < Pow2(w)
    ensures Masked(a, h) + Pow2(h) <= Pow2(w)
  {
    if h > 0 {
      MaskedFits(a / 2, h - 1, w - 1);
    }
  }

  /** Above `i` low ones in a cleared stretch, bit `i` is still clear. */
  lemma {:induction false} NextBitClear(network: nat, h: nat, i: nat)
    requires LowClear(network, h) && i < h
    ensures !Bit(network + Pow2(i) - 1, i)
  {
    if i > 0 {
      NextBitClear(network / 2, h - 1, i - 1);
      assert (network + Pow2(i) - 1) / 2 == network / 2 + Pow2(i - 1) - 1;
    }
  }

  /** `netip.Prefix`: the address need not be the network address. */
  datatype Prefix = Invalid | V6(addr: nat, bits: nat) | V4(addr: nat, bits: nat)

  ghost predicate WellFormed(p: Prefix) {
    p.V4? ==> p.addr < Pow2(32) && p.bits <= 32
  }

  function HostBits(p: Prefix): (h: nat)
    requires p.V4? && p.bits <= 32
  {
    32 - p.bits
  }

  function Network(p: Prefix): nat
    requires p.V4? && p.bits <= 32
  {
    Masked(p.addr, HostBits(p))
  }

  /** `Prefix.Contains`. */
  predicate Contains(p: Prefix, a: nat)
    requires p.V4? && p.bits <= 32
  {
    Masked(a, HostBits(p)) == Network(p)
  }

  /** `lastAddr`: the broadcast address. */
  method LastAddr(p: Prefix) returns (last: nat)
    requires WellFormed(p) && p.V4?
    ensures last == Network(p) + Pow2(HostBits(p)) - 1
  {
    var h, network := HostBits(p), Network(p);
    MaskedLowClear(p.addr, h);
    MaskedFits(p.addr, h, 32);
    BigEndianValue(network, 4);
    var b := AsFour(network);
    SetHostBits(b, network, h);
    last := Binary.Value(b[..]);
  }

  /** The loop of `lastAddr`: one host bit at a time. */
  method SetHostBits(b: array<Byte>, network: nat, h: nat)
    requires b.Length == 4 && Binary.Value(b[..]) == network && LowClear(network, h) && h <= 32
    modifies b
    ensures Binary.Value(b[..]) == network + Pow2(h) - 1
  {
    var i := 0;
    while i < h && i < 32
      invariant 0 <= i <= h && Binary.Value(b[..]) == network + Pow2(i) - 1
    {
      NextBitClear(network, h, i);
      SetOneBit(b, i);
      i := i + 1;
    }
  }

  /** The body of the loop of `lastAddr`. */
  method SetOneBit(b: array<Byte>, i: nat)
    requires b.Length == 4 && i < 32 && !Bit(Binary.Value(b[..]), i)
    modifies b
    ensures Binary.Value(b[..]) == old(Binary.Value(b[..])) + Pow2(i)
  {
    SetBitInBytes(b[..], i);
    ghost var before := b[..];
    var j := 3 - i / 8;
    b[j] := SetByteBit(b[j], i % 8);
    assert b[..] == before[j := b[j]];
  }

  /** `As4`. */
  method AsFour(a: nat) returns (b: array<Byte>)
    ensures fresh(b) && b.Length == 4 && b[..] == BigEndian(a, 4)
  {
    var bytes := BigEndian(a, 4);
    b := new Byte[4](i requires 0 <= i < 4 => bytes[i]);
  }

  // ---------------------------------------------------------------------------
  // Dotted notation

  function Dotted(a: nat): string {
    var b := BigEndian(a, 4);
    Itoa(b[0] as int) + ['.'] + (Itoa(b[1] as int) + ['.'] + (Itoa(b[2] as int) + ['.'] + Itoa(b[3] as int)))
  }

  lemma FourBytes(b: seq<Byte>)
    requires |b| == 4
    ensures Binary.Value(b) == 0x100_0000 * b[0] as nat + 0x1_0000 * b[1] as nat + 0x100 * b[2] as nat + b[3] as nat
  {
    assert b[..3][..2] == b[..2] && b[..2][..1] == b[..1] && b[..1][..0] == [];
    assert Binary.Value(b[..1]) == b[0] as nat;
    assert Binary.Value(b[..2]) == 0x100 * b[0] as nat + b[1] as nat;
    assert Binary.Value(b[..3]) == 0x1_0000 * b[0] as nat + 0x100 * b[1] as nat + b[2] as nat;
  }

  /** Four numbers, the highest first, with dots between them. */
  lemma DottedIs(b: seq<Byte>)
    requires |b| == 4
    ensures Dotted(0x100_0000 * b[0] as nat + 0x1_0000 * b[1] as nat + 0x100 * b[2] as nat + b[3] as nat) ==
      Itoa(b[0] as int) + "." + (Itoa(b[1] as int) + "." + (Itoa(b[2] as int) + "." + Itoa(b[3] as int)))
  {
    FourBytes(b);
    ValueBigEndian(b);
  }

  /** Four texts without dots, joined by dots, come apart again. */
  lemma DotsSplit(p: seq<string>, q: seq<string>)
    requires |p| == 4 && |q| == 4 && forall i :: 0 <= i < 4 ==> '.' !in p[i] && '.' !in q[i]
    requires p[0] + ['.'] + (p[1] + ['.'] + (p[2] + ['.'] + p[3])) ==
             q[0] + ['.'] + (q[1] + ['.'] + (q[2] + ['.'] + q[3]))
    ensures p == q
  {
    SplitAt('.', p[0], p[1] + ['.'] + (p[2] + ['.'] + p[3]), q[0], q[1] + ['.'] + (q[2] + ['.'] + q[3]));
    SplitAt('.', p[1], p[2] + ['.'] + p[3], q[1], q[2] + ['.'] + q[3]);
    SplitAt('.', p[2], p[3], q[2], q[3]);
  }

  /** Different addresses are written differently. */
  lemma DottedInjective(a: nat, c: nat)
    requires a < Pow2(32) && c < Pow2(32) && Dotted(a) == Dotted(c)
    ensures a == c
  {
    var p, q := BigEndian(a, 4), BigEndian(c, 4);
    var ps := seq(4, i requires 0 <= i < 4 => Itoa(p[i] as int));
    var qs := seq(4, i requires 0 <= i < 4 => Itoa(q[i] as int));
    forall i | 0 <= i < 4 ensures '.' !in ps[i] && '.' !in qs[i] {
      ItoaAlphabet(p[i] as int, '.');
      ItoaAlphabet(q[i] as int, '.');
    }
    DotsSplit(ps, qs);
    forall i | 0 <= i < 4 ensures p[i] == q[i] {
      assert ps[i] == qs[i];
      ItoaInjective(p[i] as int, q[i] as int);
    }
    assert p == q;
    BigEndianValue(a, 4);
    BigEndianValue(c, 4);
  }

  // ---------------------------------------------------------------------------
  // Allocation

  datatype Outcome = Allocated(addr: nat, bits: nat) | NotIPv4 | TooSmall | Exhausted | TooLarge

  /** The host addresses, without the network and the broadcast address. */
  function Hosts(p: Prefix): nat
    requires p.V4? && p.bits <= 30
  {
    assert Pow2(HostBits(p)) >= 2;
    Pow2(HostBits(p)) - 2
  }

  /** How many hosts a call looks at. */
  function Scanned(hosts: nat): nat {
    if hosts < MAX_SCAN then hosts else MAX_SCAN
  }

  /** The first `n` addresses behind the network address are in use; `name` is how addresses are written. */
  ghost predicate AllTaken(name: nat -> string, network: nat, used: set<string>, n: nat) {
    forall a :: network < a <= network + n ==> name(a) in used
  }

  /** The lowest unused host address, if the scan reaches it. */
  ghost predicate Lowest(name: nat -> string, network: nat, hosts: nat, bits: nat, used: set<string>, r: Outcome) {
    if AllTaken(name, network, used, Scanned(hosts)) then r == if hosts < MAX_SCAN then Exhausted else TooLarge
    else
      && r.Allocated? && r.bits == bits && network < r.addr <= network + Scanned(hosts)
      && name(r.addr) !in used && AllTaken(name, network, used, r.addr - network - 1)
  }

  /** What the allocator promises. */
  ghost predicate Allocates(p: Prefix, used: set<string>, r: Outcome) {
    if !p.V4? then r == NotIPv4
    else if p.bits > 30 then r == TooSmall
    else Lowest(Dotted, Network(p), Hosts(p), p.bits, used, r)
  }

  /** Only IPv4 prefixes of a /30 or larger are served. */
  lemma AllocationErrors(p: Prefix, used: set<string>, r: Outcome)
    requires Allocates(p, used, r)
    ensures r == NotIPv4 <==> !p.V4?
    ensures r == TooSmall <==> p.V4? && p.bits > 30
  {
  }

  /** `Addr.Next`: nothing follows the highest address. */
  function Next(a: nat): Option<nat> {
    if a + 1 < 0x1_0000_0000 then Some(a + 1) else None
  }

  lemma AddressSpace()
    ensures Pow2(32) == 0x1_0000_0000
  {
    Pow2Step(0);
    Pow2Step(8);
    Pow2Step(16);
    Pow2Step(24);
  }

  /** `AllocateIP`. */
  method AllocateIP(p: Prefix, used: set<string>) returns (r: Outcome)
    requires WellFormed(p)
    ensures Allocates(p, used, r)
  {
    if !p.V4? { return NotIPv4; }
    if p.bits > 30 { return TooSmall; }
    var last := LastAddr(p);
    r := Scan(Dotted, p, last, used);
  }

  lemma PoolFits(p: Prefix)
    requires WellFormed(p) && p.V4? && p.bits <= 30
    ensures Network(p) + Hosts(p) + 2 <= 0x1_0000_0000
  {
    AddressSpace();
    MaskedFits(p.addr, HostBits(p), 32);
  }

  lemma Covers(p: Prefix, a: nat)
    requires p.V4? && p.bits <= 30
    ensures Contains(p, a) <==> Network(p) <= a <= Network(p) + Hosts(p) + 1
  {
    CoverIsRange(p.addr, a, HostBits(p));
  }

  /** The loop of `AllocateIP`. */
  method Scan(name: nat -> string, p: Prefix, last: nat, used: set<string>) returns (r: Outcome)
    requires WellFormed(p) && p.V4? && p.bits <= 30 && last == Network(p) + Hosts(p) + 1
    ensures Lowest(name, Network(p), Hosts(p), p.bits, used, r)
  {
    var network := Network(p);
    ghost var hosts := Hosts(p);
    PoolFits(p);
    var addr := Next(network);
    for t := 0 to MAX_SCAN
      invariant t <= hosts && addr == Some(network + t + 1) && AllTaken(name, network, used, t)
    {
      Covers(p, addr.value);
      if addr.None? || addr.value == last || !Contains(p, addr.value) { return Exhausted; }
      if name(addr.value) !in used { return Allocated(addr.value, p.bits); }
      addr := Next(addr.value);
    }
    return TooLarge;
  }

  // ---------------------------------------------------------------------------
  // Repeated allocation

  function Marks(name: nat -> string, addrs: seq<nat>): set<string> {
    set i | 0 <= i < |addrs| :: name(addrs[i])
  }

  /** Addresses allocated one after the other, from an empty pool, each marked as used before the next call. */
  ghost predicate Series(name: nat -> string, network: nat, hosts: nat, bits: nat, addrs: seq<nat>) {
    addrs == [] || (
      var n := |addrs| - 1;
      && Series(name, network, hosts, bits, addrs[..n])
      && Lowest(name, network, hosts, bits, Marks(name, addrs[..n]), Allocated(addrs[n], bits))
    )
  }

  /** No two addresses of the pool are written alike. */
  ghost predicate Distinguishes(name: nat -> string, network: nat, hosts: nat) {
    forall a, c :: network < a <= network + hosts && network < c <= network + hosts && name(a) == name(c) ==> a == c
  }

  ghost predicate InOrder(network: nat, addrs: seq<nat>) {
    forall i :: 0 <= i < |addrs| ==> addrs[i] == network + i + 1
  }

  /** When the first hosts are marked, exactly these are taken. */
  lemma TakenInOrder(name: nat -> string, network: nat, hosts: nat, addrs: seq<nat>, a: nat)
    requires Distinguishes(name, network, hosts) && |addrs| <= hosts && InOrder(network, addrs)
    requires network < a <= network + hosts
    ensures name(a) in Marks(name, addrs) <==> a <= network + |addrs|
  {
    if a <= network + |addrs| {
      assert addrs[a - network - 1] == a;
    }
  }

  /** What the next call answers when the first hosts are taken in order. */
  lemma NextInOrder(name: nat -> string, network: nat, hosts: nat, bits: nat, addrs: seq<nat>, r: Outcome)
    requires Distinguishes(name, network, hosts) && |addrs| <= Scanned(hosts) && InOrder(network, addrs)
    requires Lowest(name, network, hosts, bits, Marks(name, addrs), r)
    ensures |addrs| < Scanned(hosts) ==> r == Allocated(network + |addrs| + 1, bits)
    ensures |addrs| == Scanned(hosts) ==> r == if hosts < MAX_SCAN then Exhausted else TooLarge
  {
    forall a | network < a <= network + hosts ensures name(a) in Marks(name, addrs) <==> a <= network + |addrs| {
      TakenInOrder(name, network, hosts, addrs, a);
    }
    if |addrs| < Scanned(hosts) {
      assert name(network + |addrs| + 1) !in Marks(name, addrs);
    }
  }

  lemma {:induction false} SeriesInOrder(name: nat -> string, network: nat, hosts: nat, bits: nat, addrs: seq<nat>)
    requires Distinguishes(name, network, hosts) && Series(name, network, hosts, bits, addrs)
    ensures |addrs| <= Scanned(hosts) && InOrder(network, addrs)
    decreases |addrs|
  {
    if addrs != [] {
      var n := |addrs| - 1;
      SeriesInOrder(name, network, hosts, bits, addrs[..n]);
      NextInOrder(name, network, hosts, bits, addrs[..n], Allocated(addrs[n], bits));
    }
  }

  /** For any notation that tells addresses apart: in order, without gaps, until every host has been handed out. */
  lemma SeriesExact(name: nat -> string, network: nat, hosts: nat, bits: nat, addrs: seq<nat>, r: Outcome)
    requires Distinguishes(name, network, hosts) && Series(name, network, hosts, bits, addrs)
    requires Lowest(name, network, hosts, bits, Marks(name, addrs), r)
    ensures InOrder(network, addrs)
    ensures r.Allocated? <==> |addrs| < Scanned(hosts)
    ensures !r.Allocated? ==> |addrs| == Scanned(hosts) && r == if hosts < MAX_SCAN then Exhausted else TooLarge
  {
    SeriesInOrder(name, network, hosts, bits, addrs);
    NextInOrder(name, network, hosts, bits, addrs, r);
  }

  lemma DottedDistinguishes(p: Prefix)
    requires WellFormed(p) && p.V4? && p.bits <= 30
    ensures Distinguishes(Dotted, Network(p), Hosts(p))
  {
    MaskedFits(p.addr, HostBits(p), 32);
    var network, hosts := Network(p), Hosts(p);
    forall a, c | network < a <= network + hosts && network < c <= network + hosts && Dotted(a) == Dotted(c)
      ensures a == c
    {
      DottedInjective(a, c);
    }
  }

  /** Repeated allocation hands out the hosts in order, and succeeds exactly as often as there are hosts to scan. */
  lemma AllocatesEachOnce(p: Prefix, addrs: seq<nat>, r: Outcome)
    requires WellFormed(p) && p.V4? && p.bits <= 30 && Series(Dotted, Network(p), Hosts(p), p.bits, addrs)
    requires Allocates(p, Marks(Dotted, addrs), r)
    ensures InOrder(Network(p), addrs) && |addrs| <= Scanned(Hosts(p))
    ensures r.Allocated? <==> |addrs| < Scanned(Hosts(p))
    ensures HostBits(p) <= 20 ==> Scanned(Hosts(p)) == Pow2(HostBits(p)) - 2 && (!r.Allocated? ==> r == Exhausted)
    ensures HostBits(p) > 20 ==> Scanned(Hosts(p)) == Pow2(20) && (!r.Allocated? ==> r == TooLarge)
  {
    DottedDistinguishes(p);
    SeriesExact(Dotted, Network(p), Hosts(p), p.bits, addrs, r);
    if HostBits(p) <= 20 {
      SmallPoolScanned(HostBits(p));
    } else {
      LargePoolScanned(HostBits(p));
    }
  }

  lemma LargePoolScanned(h: nat)
    requires h > 20
    ensures Pow2(20) == MAX_SCAN && Pow2(h) - 2 >= MAX_SCAN
  {
    Pow2Step(0);
    Pow2Step(8);
    assert Pow2(18) == 4 * Pow2(16);
    Pow2Monotone(21, h);
  }

  lemma NextSeries(name: nat -> string, network: nat, hosts: nat, bits: nat, addrs: seq<nat>, used: set<string>, a: nat)
    requires Series(name, network, hosts, bits, addrs) && used == Marks(name, addrs)
    requires Lowest(name, network, hosts, bits, used, Allocated(a, bits))
    ensures Series(name, network, hosts, bits, addrs + [a]) && used + {name(a)} == Marks(name, addrs + [a])
  {
    var more := addrs + [a];
    assert more[..|addrs|] == addrs;
    forall x ensures x in Marks(name, more) <==> x in used + {name(a)} {
      if x in used {
        var i :| 0 <= i < |addrs| && x == name(addrs[i]);
        assert x == name(more[i]);
      }
      assert name(a) == name(more[|addrs|]);
    }
  }

  /** `addrs` have been allocated and are in use, and the last answer was `r`. */
  ghost predicate Allocating(p: Prefix, addrs: seq<nat>, used: set<string>, r: Outcome)
    requires p.V4? && p.bits <= 30
  {
    && Series(Dotted, Network(p), Hosts(p), p.bits, addrs) && used == Marks(Dotted, addrs)
    && Allocates(p, used, r)
  }

  /** The first call. */
  method AllocateFirst(p: Prefix) returns (r: Outcome)
    requires WellFormed(p) && p.V4? && p.bits <= 30
    ensures Allocating(p, [], {}, r)
  {
    r := AllocateIP(p, {});
    assert Marks(Dotted, []) == {};
  }

  /** Marking what was allocated, and the next call. */
  method AllocateNext(p: Prefix, addrs: seq<nat>, used: set<string>, last: Outcome)
    returns (used': set<string>, r: Outcome)
    requires WellFormed(p) && p.V4? && p.bits <= 30 && last.Allocated? && Allocating(p, addrs, used, last)
    ensures Allocating(p, addrs + [last.addr], used', r)
  {
    NextSeries(Dotted, Network(p), Hosts(p), p.bits, addrs, used, last.addr);
    used' := used + {Dotted(last.addr)};
    r := AllocateIP(p, used');
  }

  /** Allocating until the pool gives no more. */
  method AllocateAll(p: Prefix) returns (addrs: seq<nat>, r: Outcome)
    requires WellFormed(p) && p.V4? && p.bits <= 30
    ensures InOrder(Network(p), addrs) && |addrs| == Scanned(Hosts(p)) && !r.Allocated?
    ensures 32 - p.bits <= 20 ==> |addrs| == Pow2(32 - p.bits) - 2 && r == Exhausted
    ensures 32 - p.bits > 20 ==> |addrs| == Pow2(20) && r == TooLarge
  {
    var used: set<string> := {};
    addrs := [];
    r := AllocateFirst(p);
    AllocatesEachOnce(p, addrs, r);
    while r.Allocated?
      invariant Allocating(p, addrs, used, r) && (r.Allocated? <==> |addrs| < Scanned(Hosts(p)))
      decreases Scanned(Hosts(p)) - |addrs|
    {
      var a := r.addr;
      used, r := AllocateNext(p, addrs, used, r);
      addrs := addrs + [a];
      AllocatesEachOnce(p, addrs, r);
    }
    AllocatesEachOnce(p, addrs, r);
  }

  lemma SmallPoolScanned(h: nat)
    requires h <= 20
    ensures Pow2(h) <= MAX_SCAN
  {
    Pow2Monotone(h, 20);
    Pow2Step(0);
    Pow2Step(8);
    assert Pow2(18) == 4 * Pow2(16);
  }
}
