/** The target address of the action commands (`g_ActionCommandTargetIp`) and the
    dotted-quad form in which `main` displays it. */
module ActionTarget {
  import opened Types

  /** Conversion of an integer constant to a 32-bit `int`, wrapping modulo 2^32. */
  function ToInt32(v: int): (r: int)
    ensures IsInt32(r) && (r - v) % TwoTo32 == 0
  {
    var m := v % TwoTo32;
    if m > MaxInt32 then m - TwoTo32 else m
  }

  /** `int g_ActionCommandTargetIp = 0xFFFFFFFF`, the broadcast address 255.255.255.255,
      which as a 32-bit `int` holds -1. */
  const ActionCommandTargetIp: int := ToInt32(0xFFFF_FFFF)

  datatype Octets = Octets(a: int, b: int, c: int, d: int)

  predicate IsOctet(x: int) { 0 <= x <= 0xFF }

  /** `(ip >> 24 & 0xFF) . (ip >> 16 & 0xFF) . (ip >> 8 & 0xFF) . (ip & 0xFF)` on a
      signed 32-bit `ip`. `>>` of a negative `int` is an arithmetic shift, which is
      division by a power of two rounded down (Dafny's `/`), and `& 0xFF` keeps the
      low byte of the two's complement representation, which is Dafny's `% 0x100`. */
  function DisplayOctets(ip: int): (o: Octets)
    requires IsInt32(ip)
    ensures IsOctet(o.a) && IsOctet(o.b) && IsOctet(o.c) && IsOctet(o.d)
  {
    Octets((ip / 0x100_0000) % 0x100, (ip / 0x1_0000) % 0x100, (ip / 0x100) % 0x100, ip % 0x100)
  }

  /** The 32-bit value whose bytes, most significant first, are `o`. */
  function Assemble(o: Octets): (v: int)
  {
    o.a * 0x100_0000 + o.b * 0x1_0000 + o.c * 0x100 + o.d
  }

  /** The displayed octets are bytes, and read most significant first they spell
      the low 32 bits of the address: the display loses nothing and invents nothing. */
  lemma DisplayOctetsReassemble(ip: int)
    requires IsInt32(ip)
    ensures var o := DisplayOctets(ip);
            IsOctet(o.a) && IsOctet(o.b) && IsOctet(o.c) && IsOctet(o.d) &&
            Assemble(o) == ip % TwoTo32
  {
    var q1 := ip / 0x100;
    var q2 := q1 / 0x100;
    var q3 := q2 / 0x100;
    assert ip / 0x1_0000 == q2;
    assert ip / 0x100_0000 == q3;
    assert ip == q3 * 0x100_0000 + (q2 % 0x100) * 0x1_0000 + (q1 % 0x100) * 0x100 + ip % 0x100;
    assert -0x80 <= q3 < 0x80;
  }

  /** Conversely, any four bytes stored as a 32-bit `int` are displayed as those bytes. */
  lemma DisplayOctetsOfAssembled(o: Octets)
    requires IsOctet(o.a) && IsOctet(o.b) && IsOctet(o.c) && IsOctet(o.d)
    ensures DisplayOctets(ToInt32(Assemble(o))) == o
  {
    var v := Assemble(o);
    assert 0 <= v < TwoTo32;
    var ip := ToInt32(v);
    assert ip == v || ip == v - TwoTo32;
    assert ip % TwoTo32 == v;
    DisplayOctetsReassemble(ip);
    var p := DisplayOctets(ip);
    assert Assemble(p) == v;
    AssembleInjective(p, o);
  }

  lemma AssembleInjective(p: Octets, o: Octets)
    requires IsOctet(p.a) && IsOctet(p.b) && IsOctet(p.c) && IsOctet(p.d)
    requires IsOctet(o.a) && IsOctet(o.b) && IsOctet(o.c) && IsOctet(o.d)
    requires Assemble(p) == Assemble(o)
    ensures p == o
  {
  }

  /** The shipped target, the broadcast address, is shown as 255.255.255.255. */
  lemma BroadcastDisplayed()
    ensures ActionCommandTargetIp == -1
    ensures DisplayOctets(ActionCommandTargetIp) == Octets(0xFF, 0xFF, 0xFF, 0xFF)
  {
  }
}
