/** Addresses and networks as the standard library's `ipaddress` sees them: an address is a family
and a number, a network an aligned interval of numbers. */
module Ip {
  datatype Family = V4 | V6 {
    function Bits(): nat {
      if V4? then 32 else 128
    }
  }

  datatype Addr = Addr(family: Family, value: nat)

  function Pow2(n: nat): (p: nat)
    ensures p >= 1
  {
    if n == 0 then 1 else 2 * Pow2(n - 1)
  }

  /** A network in CIDR form.  `base` is a multiple of the network's size. */
  datatype Net = Net(family: Family, base: nat, plen: nat) {
    function Size(): nat {
      if plen <= family.Bits() then Pow2(family.Bits() - plen) else 1
    }

    predicate Contains(a: Addr) {
      a.family == family && base <= a.value < base + Size()
    }
  }

  datatype RawIface = Iface(ip: Addr, plen: nat)

  /** An interface address such as 10.0.0.1/30. */
  type Iface = i: RawIface | i.plen <= i.ip.family.Bits() witness Iface(Addr(V4, 0), 0)

  /** The greatest multiple of `size` that is at most `v`. */
  function AlignDown(v: nat, size: nat): (b: nat)
    requires size >= 1
    ensures b <= v < b + size
  {
    var q := v / size;
    assert q * size + v % size == v;
    q * size
  }

  function Network(i: Iface): (n: Net)
    ensures n.plen == i.plen && n.family == i.ip.family
  {
    Net(i.ip.family, AlignDown(i.ip.value, Pow2(i.ip.family.Bits() - i.plen)), i.plen)
  }

  /** An interface lies in its own network. */
  lemma OwnNetwork(i: Iface)
    ensures Network(i).Contains(i.ip)
  {}

  /** Text that should be an address but may not parse. */
  datatype Text = Junk(s: string) | Host(ip: Addr)

  /** 169.254.0.0/16 and fe80::/10. */
  predicate LinkLocal(a: Addr) {
    if a.family.V4? then a.value / 0x1_0000 == 0xA9FE
    else a.value / 0x40_0000_0000_0000_0000_0000_0000_0000 == 0x3FA
  }

  predicate LinkLocalText(t: Text) {
    t.Host? && LinkLocal(t.ip)
  }
}
