/** Where the bits and bytes of a STUN packet stand, in the terms of sections 5, 14 and 14.2 of RFC 8489, with the
    numbers written out. */
module StunVectors {
  import opened Bytes
  import opened Collections
  import Struct
  import opened StunFormats
  import opened Stun

  /** The message type of section 5: four bits of the method, a bit of the class, three of the method, a bit of the
      class, five of the method, from the lowest up. */
  lemma TypeBits(method_: bv32, cls: bv32)
    requires method_ < 0x1000 && cls < 4
    ensures SetType(method_, cls)
            == (method_ & 0xF) + ((cls & 1) << 4) + (((method_ >> 4) & 7) << 5) + ((cls >> 1) << 8)
               + ((method_ >> 7) << 9)
  {
  }

  /** Binding and Allocate, as request, indication, success and error. */
  lemma KnownTypes()
    ensures SetType(1, 0) == 0x0001 && SetType(1, 1) == 0x0011 && SetType(1, 2) == 0x0101 && SetType(1, 3) == 0x0111
    ensures SetType(3, 0) == 0x0003 && SetType(3, 2) == 0x0103 && SetType(6, 1) == 0x0016
  {
  }

  function Word(high: nat, low: nat): nat {
    high * 0x100 + low
  }

  /** The header: type, length of what follows it, the fixed cookie, and the transaction id. */
  lemma HeaderBytes(kind: nat, tid: seq<Byte>, payload: seq<Byte>)
    requires |tid| == 12 && kind < 0x1_0000 && |payload| < 0x1_0000
    ensures var w := Wire(kind, tid, payload);
            && |w| == 20 + |payload| && Word(w[0], w[1]) == kind && Word(w[2], w[3]) == |payload|
            && w[4..8] == [0x21, 0x12, 0xA4, 0x42] && w[8..20] == tid && w[20..] == payload
  {
  }

  /** An attribute: its type, the length of its value, the value, and zeros up to a multiple of four. */
  lemma AttributeBytes(a: Attribute)
    requires Fits16(a)
    ensures var s := Padded(a);
            && |s| % 4 == 0 && |s| < 4 + |a.value| + 4
            && Word(s[0], s[1]) == a.kind && Word(s[2], s[3]) == |a.value| && s[4..4 + |a.value|] == a.value
            && forall k :: 4 + |a.value| <= k < |s| ==> s[k] == 0
  {
    AttributeHeader(a);
    assert Padded(a) == Header(a) + a.value + seq<Byte>(Padding(|a.value|), i => 0);
    hide *;
    Stretches(Header(a), a.value, Padding(|a.value|));
  }

  lemma AttributeHeader(a: Attribute)
    requires Fits16(a)
    ensures var h := Header(a); |h| == 4 && Word(h[0], h[1]) == a.kind && Word(h[2], h[3]) == |a.value|
  {
  }

  lemma Stretches(h: seq<Byte>, value: seq<Byte>, pad: nat)
    requires |h| == 4
    ensures var s := h + value + seq<Byte>(pad, i => 0);
            && s[..4] == h && s[4..4 + |value|] == value && |s| == 4 + |value| + pad
            && forall k :: 4 + |value| <= k < |s| ==> s[k] == 0
  {
  }

  lemma XorCons(a0: nat, a: nat, b0: nat, b: nat)
    requires a0 < 2 && b0 < 2
    ensures Xor(a0 + 2 * a, b0 + 2 * b) == (a0 + b0) % 2 + 2 * Xor(a, b)
  {
    var x, y := a0 + 2 * a, b0 + 2 * b;
    XorStep(x, y);
    assert x / 2 == a && y / 2 == b && (x + y) % 2 == (a0 + b0) % 2;
    hide Xor;
  }

  /** Exclusive or acts on the high and the low bits apart. */
  lemma {:induction false} XorSplit(a1: nat, a0: nat, b1: nat, b0: nat, k: nat)
    requires a0 < Pow2(k) && b0 < Pow2(k)
    ensures Xor(Pow2(k) * a1 + a0, Pow2(k) * b1 + b0) == Pow2(k) * Xor(a1, b1) + Xor(a0, b0)
    decreases k
  {
    hide *;
    if k == 0 {
      NothingLow(a0, b0);
      return;
    }
    HalfBelow(a0, k);
    HalfBelow(b0, k);
    XorSplit(a1, a0 / 2, b1, b0 / 2, k - 1);
    ScaleNext(k, a1);
    ScaleNext(k, b1);
    ScaleNext(k, Xor(a1, b1));
    SplitStep(Pow2(k - 1) * a1, a0, Pow2(k - 1) * b1, b0, Pow2(k - 1) * Xor(a1, b1));
  }

  lemma NothingLow(a0: nat, b0: nat)
    requires a0 < Pow2(0) && b0 < Pow2(0)
    ensures Pow2(0) == 1 && a0 == 0 && b0 == 0 && Xor(a0, b0) == 0
  {
  }

  lemma ScaleNext(k: nat, a: nat)
    requires k > 0
    ensures Pow2(k) * a == 2 * (Pow2(k - 1) * a)
  {
    var p := Pow2(k - 1);
    assert Pow2(k) == 2 * p;
    hide Pow2;
    assert (2 * p) * a == 2 * (p * a);
  }

  lemma HalfBelow(a: nat, k: nat)
    requires k > 0 && a < Pow2(k)
    ensures a / 2 < Pow2(k - 1)
  {
  }

  lemma SplitStep(x: nat, a0: nat, y: nat, b0: nat, z: nat)
    requires Xor(x + a0 / 2, y + b0 / 2) == z + Xor(a0 / 2, b0 / 2)
    ensures Xor(2 * x + a0, 2 * y + b0) == 2 * z + Xor(a0, b0)
  {
    hide Xor;
    XorStep(a0, b0);
    XorCons(a0 % 2, x + a0 / 2, b0 % 2, y + b0 / 2);
    assert a0 % 2 + 2 * (x + a0 / 2) == 2 * x + a0 && b0 % 2 + 2 * (y + b0 / 2) == 2 * y + b0;
  }

  lemma PortBytes(port: nat)
    requires port < 0x1_0000
    ensures XorPort(port) / 0x100 == Xor(port / 0x100, 0x21) && XorPort(port) % 0x100 == Xor(port % 0x100, 0x12)
  {
    assert Pow2(8) == 256 by { assert Pow2(4) == 16; }
    XorBound(port % 0x100, 0x12, 8);
    XorSplit(port / 0x100, port % 0x100, 0x21, 0x12, 8);
    hide Xor, Pow2;
    assert XorPort(port) == 0x100 * Xor(port / 0x100, 0x21) + Xor(port % 0x100, 0x12);
  }

  /** An address: a zero, the family, the port and the address, the last two exclusive-ored with the cookie and then the
      transaction id where that is asked for. */
  lemma AddressBytes(a: Address, tid: seq<Byte>, xor: bool)
    requires a.family < 256 && a.port < 0x1_0000
    ensures PackAddress(a, tid, xor).Ok?
    ensures var s := PackAddress(a, tid, xor).value;
            && |s| == 4 + |a.addr| && s[0] == 0 && s[1] == a.family
            && s[2] == (if xor then Xor(a.port / 0x100, 0x21) else a.port / 0x100)
            && s[3] == (if xor then Xor(a.port % 0x100, 0x12) else a.port % 0x100)
            && (xor ==> forall k :: 0 <= k < |a.addr| ==>
                          s[4..][k] == Xor(a.addr[k], ([0x21, 0x12, 0xA4, 0x42] + tid)[k % (4 + |tid|)]))
            && (!xor ==> s[4..] == a.addr)
  {
    var port := if xor then XorPort(a.port) else a.port;
    PortBound(a.port);
    PortBytes(a.port);
    FamilyPort(a.family, port);
    var key := [0x21, 0x12, 0xA4, 0x42] + tid;
    var addr := if xor then XorString(a.addr, key) else a.addr;
    assert PackAddress(a, tid, xor) == Ok([0, a.family] + Be16(port) + addr);
    XoredBytes(a.addr, key);
    hide *;
    var s := [0, a.family] + Be16(port) + addr;
    AtFour(s, a.family, port, addr);
  }

  lemma AtFour(s: seq<Byte>, family: Byte, port: nat, addr: seq<Byte>)
    requires s == [0, family] + Be16(port) + addr && port < 0x1_0000
    ensures |s| == 4 + |addr| && s[0] == 0 && s[1] == family && s[2] == port / 0x100 && s[3] == port % 0x100
    ensures s[4..] == addr
  {
  }

  lemma XoredBytes(a: seq<Byte>, key: seq<Byte>)
    requires key != []
    ensures forall k :: 0 <= k < |a| ==> XorString(a, key)[k] == Xor(a[k], key[k % |key|])
  {
    hide Xor;
  }

  /** The IPv4 address of the sample response in section 2.2 of RFC 5769: 192.0.2.1, port 32853. */
  lemma SampleAddress(tid: seq<Byte>)
    requires |tid| == 12
    ensures PackAddress(Address(1, [192, 0, 2, 1], 32853), tid, true)
            == Ok([0x00, 0x01, 0xA1, 0x47, 0xE1, 0x12, 0xA6, 0x43])
  {
    hide *;
    var addr: seq<Byte> := [192, 0, 2, 1];
    var a := Address(1, addr, 32853);
    AddressBytes(a, tid, true);
    SampleBytes(tid, addr, PackAddress(a, tid, true).value);
  }

  lemma SampleBytes(tid: seq<Byte>, addr: seq<Byte>, s: seq<Byte>)
    requires |tid| == 12 && |s| == 8 && addr == [192, 0, 2, 1]
    requires s[0] == 0 && s[1] == 1 && s[2] == Xor(32853 / 0x100, 0x21) && s[3] == Xor(32853 % 0x100, 0x12)
    requires forall k :: 0 <= k < 4 ==> s[4..][k] == Xor(addr[k], ([0x21, 0x12, 0xA4, 0x42] + tid)[k % (4 + |tid|)])
    ensures s == [0x00, 0x01, 0xA1, 0x47, 0xE1, 0x12, 0xA6, 0x43]
  {
    SamplePort();
    hide Xor;
    SampleHost(tid, addr, s[4..]);
    EightBytes(s);
  }

  lemma SamplePort()
    ensures Xor(32853 / 0x100, 0x21) == 0xA1 && Xor(32853 % 0x100, 0x12) == 0x47
  {
    SampleXors();
    hide Xor;
    assert 32853 / 0x100 == 0x80 && 32853 % 0x100 == 0x55;
  }

  lemma SampleHost(tid: seq<Byte>, addr: seq<Byte>, host: seq<Byte>)
    requires |tid| == 12 && |host| == 4 && addr == [192, 0, 2, 1]
    requires forall k :: 0 <= k < 4 ==> host[k] == Xor(addr[k], ([0x21, 0x12, 0xA4, 0x42] + tid)[k % (4 + |tid|)])
    ensures host == [0xE1, 0x12, 0xA6, 0x43]
  {
    SampleXors();
    SampleKey(tid);
    hide Xor;
    assert host[0] == 0xE1;
    assert host[1] == 0x12;
    assert host[2] == 0xA6;
    assert host[3] == 0x43;
  }

  lemma EightBytes(s: seq<Byte>)
    requires |s| == 8 && s[..4] == [0x00, 0x01, 0xA1, 0x47] && s[4..] == [0xE1, 0x12, 0xA6, 0x43]
    ensures s == [0x00, 0x01, 0xA1, 0x47, 0xE1, 0x12, 0xA6, 0x43]
  {
    assert s == s[..4] + s[4..];
  }

  lemma SampleKey(tid: seq<Byte>)
    requires |tid| == 12
    ensures var key := [0x21, 0x12, 0xA4, 0x42] + tid;
            && key[0 % (4 + |tid|)] == 0x21 && key[1 % (4 + |tid|)] == 0x12
            && key[2 % (4 + |tid|)] == 0xA4 && key[3 % (4 + |tid|)] == 0x42
  {
  }

  lemma Nibbles(a1: nat, a0: nat, b1: nat, b0: nat)
    requires a0 < 16 && b0 < 16
    ensures Xor(16 * a1 + a0, 16 * b1 + b0) == 16 * Xor(a1, b1) + Xor(a0, b0)
  {
    assert Pow2(4) == 16;
    hide Xor, Pow2;
    XorSplit(a1, a0, b1, b0, 4);
  }

  lemma SampleNibbles()
    ensures Xor(8, 2) == 10 && Xor(5, 1) == 4 && Xor(5, 2) == 7 && Xor(12, 2) == 14 && Xor(2, 4) == 6 && Xor(1, 2) == 3
    ensures forall n: nat :: Xor(0, n) == n
  {
    assert Xor(4, 1) == 5 && Xor(2, 0) == 2;
    assert Xor(2, 1) == 3 && Xor(6, 1) == 7 && Xor(1, 2) == 3;
  }

  lemma SampleXors()
    ensures Xor(0x80, 0x21) == 0xA1 && Xor(0x55, 0x12) == 0x47 && Xor(192, 0x21) == 0xE1
    ensures Xor(0, 0x12) == 0x12 && Xor(2, 0xA4) == 0xA6 && Xor(1, 0x42) == 0x43
  {
    SampleNibbles();
    hide Xor;
    Nibbles(8, 0, 2, 1);
    Nibbles(5, 5, 1, 2);
    Nibbles(12, 0, 2, 1);
    Nibbles(0, 2, 10, 4);
    Nibbles(0, 1, 4, 2);
  }
}
