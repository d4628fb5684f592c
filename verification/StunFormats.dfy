/** The packet formats of net/stun.lua, as the struct codec packs them. */
module StunFormats {
  import opened Bytes
  import opened Struct

  /** Two big-endian bytes. */
  function Be16(n: nat): (s: seq<Byte>)
    ensures |s| == 2
  {
    [n / 256 % 256, n % 256]
  }

  lemma Be16IsIntBytes(n: nat)
    requires n < TWO64
    ensures IntBytes(n, 2, Big) == Be16(n)
  {
    assert n % TWO64 == n;
    LowBytes(n);
    hide ToBytes, Reverse;
    assert Reverse([n % 256, n / 256 % 256]) == [n / 256 % 256, n % 256];
  }

  lemma LowBytes(n: nat)
    ensures ToBytes(n, 2) == [n % 256, n / 256 % 256]
  {
    assert ToBytes(n / 256 / 256, 0) == [];
    assert ToBytes(n / 256, 1) == [n / 256 % 256];
  }

  lemma AlignOne(len: nat, h: Header, opt: char, size: nat)
    requires h.align == 1
    ensures ToAlign(len, h, opt, size) == 0
  {
  }

  /** One unsigned integer of an unaligned format. */
  lemma PackUnsigned(fmt: string, p: nat, h: Header, n: nat, rest: seq<Value>, total: nat, size: nat, next: nat)
    requires !AtEnd(fmt, p) && fmt[p] in "BI" && OptSize(fmt, p + 1, fmt[p]) == Ok((size, next))
    requires h.align == 1 && IntSize(size) && n < TWO64
    ensures PackFrom(fmt, p, h, [Num(n)] + rest, total)
            == After(IntBytes(n, size, h.endian), PackFrom(fmt, next, h, rest, total + size))
  {
    hide OptSize, Control, ToAlign;
    AlignOne(total, h, fmt[p], size);
    PackUnfold(fmt, p, h, [Num(n)] + rest, total, size, next);
    assert ([Num(n)] + rest)[1..] == rest;
    assert Zeros(0) + IntBytes(n, size, h.endian) == IntBytes(n, size, h.endian);
  }

  lemma UnpackUnsigned(fmt: string, p: nat, h: Header, data: seq<Byte>, pos: nat, size: nat, next: nat)
    requires !AtEnd(fmt, p) && fmt[p] in "BI" && OptSize(fmt, p + 1, fmt[p]) == Ok((size, next))
    requires h.align == 1 && IntSize(size)
    ensures UnpackFrom(fmt, p, h, data, pos)
            == if pos > |data| then Err(OverRead)
               else if pos + size > |data| then Err(DataTooShort)
               else AfterValues([Num(FromBytes(Order(h.endian, data[pos..pos + size])))],
                                 UnpackFrom(fmt, next, h, data, pos + size))
  {
    hide OptSize, Control, ToAlign, UnpackFrom, UnpackItem, IsItem;
    AlignOne(pos, h, fmt[p], size);
    if pos + size <= |data| {
      UnsignedItem(fmt[p], size, h.endian, data, pos);
    }
    ItsAnItem(fmt[p]);
    UnpackStep(fmt, p, h, data, pos);
  }

  lemma ItsAnItem(opt: char)
    requires opt in "BI"
    ensures IsItem(opt) && IsInt(opt) && !IsSigned(opt)
  {
  }

  lemma UnsignedItem(opt: char, size: nat, endian: Endian, data: seq<Byte>, pos: nat)
    requires opt in "BI" && IntSize(size) && pos + size <= |data|
    ensures IsItem(opt)
    ensures UnpackItem(opt, size, endian, data, pos)
            == Ok(([Num(FromBytes(Order(endian, data[pos..pos + size])))], size))
  {
    ItsAnItem(opt);
  }

  /** The byte-order option changes nothing but the byte order. */
  lemma BigEndian(fmt: string, p: nat, h: Header, args: seq<Value>, total: nat, data: seq<Byte>, pos: nat)
    requires !AtEnd(fmt, p) && fmt[p] == '>'
    ensures PackFrom(fmt, p, h, args, total) == PackFrom(fmt, p + 1, h.(endian := Big), args, total)
    ensures UnpackFrom(fmt, p, h, data, pos) == if pos > |data| then Err(OverRead)
                                                else UnpackFrom(fmt, p + 1, h.(endian := Big), data, pos)
  {
    assert OptSize(fmt, p + 1, '>') == Ok((0, p + 1));
  }

  lemma PackI2I2(a: nat, b: nat)
    requires a < TWO64 && b < TWO64
    ensures Pack(">I2I2", [Num(a), Num(b)]) == Ok(Be16(a) + Be16(b))
  {
    hide PackItem, UnpackItem, ToAlign, Control, OptSize, IntBytes, Be16, PackFrom, UnpackFrom, NumberFrom, FitsFrom;
    var fmt := ">I2I2";
    var h := Header(Big, 1);
    Be16IsIntBytes(a);
    Read2(fmt, 2);
    BigEndian(fmt, 0, DEFAULT, [Num(a), Num(b)], 0, [], 0);
    PackUnsigned(fmt, 1, h, a, [Num(b)], 0, 2, 3);
    LastI2(fmt, h, b, 2);
    assert [Num(a)] + [Num(b)] == [Num(a), Num(b)];
  }

  lemma Read2(fmt: string, p: nat)
    requires p < |fmt| && fmt[p] == '2' && (p + 1 == |fmt| || fmt[p + 1] == 'I')
    ensures OptSize(fmt, p, 'I') == Ok((2, p + 1))
  {
    assert NumberFrom(fmt, p, 0) == NumberFrom(fmt, p + 1, 2) == (2, p + 1);
  }

  /** The number that big-endian bytes stand for. */
  function Be(s: seq<Byte>): nat {
    FromBytes(Reverse(s))
  }

  lemma Be2Bound(s: seq<Byte>)
    requires |s| == 2
    ensures Be(s) < 0x1_0000
  {
    FromBytesBound(Reverse(s));
    PowersOf256();
  }

  lemma BeBe16(n: nat)
    requires n < 0x1_0000
    ensures Be(Be16(n)) == n
  {
    var s := Be16(n);
    assert Reverse(s) == [s[1], s[0]];
    assert FromBytes([s[1], s[0]]) == s[1] + 256 * FromBytes([s[0]]);
    assert FromBytes([s[0]]) == s[0] + 256 * FromBytes([]);
  }

  lemma UnpackEnd(fmt: string, h: Header, data: seq<Byte>, pos: nat)
    ensures UnpackFrom(fmt, |fmt|, h, data, pos) == Ok(([], pos))
  {
  }

  lemma UnpackI2(data: seq<Byte>)
    ensures Unpack(">I2", data, 1)
            == if |data| < 2 then Err(DataTooShort) else Ok(([Num(Be(data[..2]))], 3))
  {
    hide PackItem, UnpackItem, ToAlign, Control, OptSize, Be16, PackFrom, UnpackFrom, NumberFrom, FitsFrom;
    var fmt := ">I2";
    var h := Header(Big, 1);
    Read2(fmt, 2);
    BigEndian(fmt, 0, DEFAULT, [], 0, data, 0);
    UnpackUnsigned(fmt, 1, h, data, 0, 2, 3);
    if |data| >= 2 {
      UnpackEnd(fmt, h, data, 2);
      assert data[0..2] == data[..2];
      assert [Num(Be(data[..2]))] + [] == [Num(Be(data[..2]))];
    }
  }

  lemma UnpackI2I2(data: seq<Byte>)
    ensures Unpack(">I2I2", data, 1)
            == if |data| < 4 then Err(DataTooShort) else Ok(([Num(Be(data[..2])), Num(Be(data[2..4]))], 5))
  {
    hide PackItem, UnpackItem, ToAlign, Control, OptSize, Be16, PackFrom, UnpackFrom, NumberFrom, FitsFrom;
    var fmt := ">I2I2";
    var h := Header(Big, 1);
    Read2(fmt, 2); Read2(fmt, 4);
    BigEndian(fmt, 0, DEFAULT, [], 0, data, 0);
    UnpackUnsigned(fmt, 1, h, data, 0, 2, 3);
    UnpackUnsigned(fmt, 3, h, data, 2, 2, 5);
    if |data| >= 4 {
      UnpackEnd(fmt, h, data, 4);
      assert data[0..2] == data[..2];
      assert [Num(Be(data[..2]))] + ([Num(Be(data[2..4]))] + []) == [Num(Be(data[..2])), Num(Be(data[2..4]))];
    }
  }

  lemma UnpackI2I2I4(data: seq<Byte>)
    ensures Unpack(">I2I2I4", data, 1)
            == if |data| < 8 then Err(DataTooShort)
               else Ok(([Num(Be(data[..2])), Num(Be(data[2..4])), Num(Be(data[4..8]))], 9))
  {
    hide PackItem, UnpackItem, ToAlign, Control, OptSize, Be16, PackFrom, UnpackFrom, NumberFrom, FitsFrom;
    var fmt := ">I2I2I4";
    var h := Header(Big, 1);
    Read2(fmt, 2); Read2(fmt, 4); Read4(fmt, 6);
    BigEndian(fmt, 0, DEFAULT, [], 0, data, 0);
    UnpackUnsigned(fmt, 1, h, data, 0, 2, 3);
    UnpackUnsigned(fmt, 3, h, data, 2, 2, 5);
    UnpackUnsigned(fmt, 5, h, data, 4, 4, 7);
    if |data| >= 8 {
      UnpackEnd(fmt, h, data, 8);
      assert data[0..2] == data[..2];
      var a, b, c := Num(Be(data[..2])), Num(Be(data[2..4])), Num(Be(data[4..8]));
      assert [a] + ([b] + ([c] + [])) == [a, b, c];
    }
  }

  lemma Read4(fmt: string, p: nat)
    requires p < |fmt| && fmt[p] == '4' && p + 1 == |fmt|
    ensures OptSize(fmt, p, 'I') == Ok((4, p + 1))
  {
    assert NumberFrom(fmt, p, 0) == NumberFrom(fmt, p + 1, 4) == (4, p + 1);
  }

  lemma PaddingByte(fmt: string, p: nat, h: Header, args: seq<Value>, total: nat, data: seq<Byte>, pos: nat)
    requires !AtEnd(fmt, p) && fmt[p] == 'x' && h.align == 1
    ensures PackFrom(fmt, p, h, args, total) == After([0], PackFrom(fmt, p + 1, h, args, total + 1))
    ensures UnpackFrom(fmt, p, h, data, pos) == if pos > |data| then Err(OverRead)
                                                else if pos + 1 > |data| then Err(DataTooShort)
                                                else AfterValues([], UnpackFrom(fmt, p + 1, h, data, pos + 1))
  {
    hide OptSize, Control, ToAlign, UnpackFrom, PackFrom;
    AlignOne(total, h, 'x', 1);
    AlignOne(pos, h, 'x', 1);
    OneX(fmt, p + 1);
    PackUnfold(fmt, p, h, args, total, 1, p + 1);
    assert Zeros(0) + [0] == [0] && args[0..] == args;
    UnpackStep(fmt, p, h, data, pos);
  }

  lemma OneX(fmt: string, p: nat)
    requires p <= |fmt|
    ensures OptSize(fmt, p, 'x') == Ok((1, p)) && IsItem('x') && !IsInt('x')
  {
  }

  /** A format that ends in `I2`. */
  lemma LastI2(fmt: string, h: Header, n: nat, total: nat)
    requires |fmt| >= 2 && fmt[|fmt| - 2..] == "I2" && h == Header(Big, 1) && n < TWO64
    ensures PackFrom(fmt, |fmt| - 2, h, [Num(n)], total) == Ok(Be16(n))
  {
    hide PackItem, UnpackItem, ToAlign, Control, OptSize, Be16, IntBytes;
    var p := |fmt| - 2;
    assert fmt[p..][0] == 'I' && fmt[p..][1] == '2';
    Read2(fmt, p + 1);
    PackUnsigned(fmt, p, h, n, [], total, 2, |fmt|);
    Be16IsIntBytes(n);
    assert [Num(n)] + [] == [Num(n)] && Be16(n) + [] == Be16(n);
    assert PackFrom(fmt, |fmt|, h, [], total + 2) == Ok([]);
  }

  lemma ReadB(fmt: string, p: nat)
    requires p <= |fmt|
    ensures OptSize(fmt, p, 'B') == Ok((1, p))
  {
  }

  lemma OneByte(b: Byte)
    ensures IntBytes(b, 1, Big) == [b] && Be([b]) == b
  {
    assert ToBytes(b, 1) == [b % 256] + ToBytes(b / 256, 0);
    assert Reverse([b]) == [b];
    assert FromBytes([b]) == b + 256 * FromBytes([]);
  }

  /** The family and port in front of an address. */
  lemma FamilyPort(family: nat, port: nat)
    requires family < 256 && port < 0x1_0000
    ensures Pack("x>BI2", [Num(family), Num(port)]) == Ok([0, family] + Be16(port))
  {
    hide PackItem, UnpackItem, ToAlign, Control, OptSize, Be16, IntBytes, Be;
    hide PackFrom, UnpackFrom, NumberFrom, FitsFrom;
    var fmt := "x>BI2";
    var args := [Num(family), Num(port)];
    var h := Header(Big, 1);
    PaddingByte(fmt, 0, DEFAULT, args, 0, [], 0);
    BigEndian(fmt, 1, DEFAULT, args, 1, [], 0);
    ReadB(fmt, 3);
    PackUnsigned(fmt, 2, h, family, [Num(port)], 1, 1, 3);
    LastI2(fmt, h, port, 2);
    OneByte(family);
    assert [Num(family)] + [Num(port)] == args;
    assert [0] + ([family] + Be16(port)) == [0, family] + Be16(port);
  }

  lemma UnpackFamilyPort(data: seq<Byte>)
    ensures Unpack("x>BI2", data, 1)
            == if |data| < 4 then Err(DataTooShort) else Ok(([Num(data[1]), Num(Be(data[2..4]))], 5))
  {
    hide PackItem, UnpackItem, ToAlign, Control, OptSize, Be16, PackFrom, UnpackFrom, NumberFrom, FitsFrom;
    var fmt := "x>BI2";
    var h := Header(Big, 1);
    PaddingByte(fmt, 0, DEFAULT, [], 0, data, 0);
    BigEndian(fmt, 1, DEFAULT, [], 0, data, 1);
    ReadB(fmt, 3);
    Read2(fmt, 4);
    UnpackUnsigned(fmt, 2, h, data, 1, 1, 3);
    UnpackUnsigned(fmt, 3, h, data, 2, 2, 5);
    if |data| >= 4 {
      OneByte(data[1]);
      assert data[1..2] == [data[1]];
      UnpackEnd(fmt, h, data, 4);
      var b := Num(Be(data[2..4]));
      assert [] + ([Num(data[1])] + ([b] + [])) == [Num(data[1]), b];
    }
  }
}
