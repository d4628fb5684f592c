/** The format-driven binary codec of util-src/struct.c, for formats made of byte order,
    alignment, padding, integers of 1 to 8 bytes, fixed-length and zero-terminated strings. */
module Struct {
  import opened Bytes

  datatype Error =
    | IntegralSize | BadAlignment | InvalidOption | BadArgument | StringTooShort
    | DataTooShort | OverRead | UnfinishedString | NoFixedSize | NotModelled

  datatype Result<+T> = Ok(value: T) | Err(error: Error)
  {
    predicate IsFailure() { Err? }
    function PropagateFailure<U>(): Result<U>
      requires Err?
    {
      Err(error)
    }
    function Extract(): T
      requires Ok?
    {
      value
    }
  }

  datatype Endian = Big | Little

  /** An alignment limit is never zero. */
  type Align = x: nat | x > 0 witness 1

  datatype Header = Header(endian: Endian, align: Align)

  /** The native byte order is little-endian; nothing is aligned at first. */
  const DEFAULT := Header(Little, 1)

  const MAXALIGN: Align := 8
  const MAXINTSIZE: nat := 32

  /** A Lua number (an integer exact in a double) or a Lua string. */
  datatype Value = Num(n: int) | Str(s: seq<Byte>)

  /** The format ends at the first NUL. */
  predicate AtEnd(fmt: string, p: nat) {
    p >= |fmt| || fmt[p] == '\0'
  }

  predicate IsDigit(c: char) { '0' <= c <= '9' }

  function DigitValue(c: char): nat
    requires IsDigit(c)
  {
    c as int - '0' as int
  }

  // ---------- Reading options ----------

  /** The value of the decimal digits at p, continuing from `a`, and where they stop. */
  function NumberFrom(fmt: string, p: nat, a: nat): (r: (nat, nat))
    requires p <= |fmt|
    ensures p <= r.1 <= |fmt|
    decreases |fmt| - p
  {
    if p < |fmt| && IsDigit(fmt[p]) then NumberFrom(fmt, p + 1, a * 10 + DigitValue(fmt[p])) else (a, p)
  }

  function Number(fmt: string, p: nat, default: nat): (r: (nat, nat))
    requires p <= |fmt|
    ensures p <= r.1 <= |fmt|
  {
    if p < |fmt| && IsDigit(fmt[p]) then NumberFrom(fmt, p, 0) else (default, p)
  }

  method GetNum(fmt: string, p: nat, default: nat) returns (a: nat, next: nat)
    requires p <= |fmt|
    ensures (a, next) == Number(fmt, p, default)
    ensures next <= |fmt|
  {
    if p == |fmt| || !IsDigit(fmt[p]) {
      return default, p;
    }
    a, next := DigitValue(fmt[p]), p + 1;
    while next < |fmt| && IsDigit(fmt[next])
      invariant p < next <= |fmt|
      invariant NumberFrom(fmt, next, a) == Number(fmt, p, default)
    {
      a, next := a * 10 + DigitValue(fmt[next]), next + 1;
    }
  }

  predicate IsInt(opt: char) { opt in "bBhHlLTiI" }

  /** Options that stand for something in the data. */
  predicate IsItem(opt: char) { IsInt(opt) || opt in "xfdcs" }

  predicate IsSigned(opt: char) { 'a' <= opt <= 'z' }

  predicate IsAlnum(c: char) { IsDigit(c) || 'a' <= c <= 'z' || 'A' <= c <= 'Z' }

  /** The size of the option before p, and where the format goes on. */
  function OptSize(fmt: string, p: nat, opt: char): (r: Result<(nat, nat)>)
    requires p <= |fmt|
    ensures r.Ok? ==> p <= r.value.1 <= |fmt|
    ensures r.Ok? ==> opt == 'c' || r.value.0 <= MAXINTSIZE
  {
    match opt
    case 'B' => Ok((1, p))
    case 'b' => Ok((1, p))
    case 'H' => Ok((2, p))
    case 'h' => Ok((2, p))
    case 'L' => Ok((8, p))
    case 'l' => Ok((8, p))
    case 'T' => Ok((8, p))
    case 'f' => Ok((4, p))
    case 'd' => Ok((8, p))
    case 'x' => Ok((1, p))
    case 'c' => Ok(Number(fmt, p, 1))
    case 'i' => var n := Number(fmt, p, 4); if n.0 > MAXINTSIZE then Err(IntegralSize) else Ok(n)
    case 'I' => var n := Number(fmt, p, 4); if n.0 > MAXINTSIZE then Err(IntegralSize) else Ok(n)
    case _ => Ok((0, p))
  }

  /** Bytes of padding before an element of this size at this position. */
  function ToAlign(len: nat, h: Header, opt: char, size: nat): nat {
    if size == 0 || opt == 'c' then 0
    else
      var size' := if size > h.align then h.align else size;
      And(size' - And(len, size' - 1), size' - 1)
  }

  /** When the effective alignment is a power of two, this is the distance to the next
      multiple of it: no padding aligns the element with fewer bytes. */
  lemma ToAlignAligns(len: nat, h: Header, opt: char, size: nat, k: nat, pad: nat)
    requires size > 0 && opt != 'c'
    requires Pow2(k) == if size > h.align then h.align else size
    ensures Divides(Pow2(k), len + ToAlign(len, h, opt, size))
    ensures Divides(Pow2(k), len + pad) ==> ToAlign(len, h, opt, size) <= pad
  {
    hide And, Pow2;
    AndLowBits(len, k);
    AndLowBits(Pow2(k) - len % Pow2(k), k);
    RoundUp(len, Pow2(k), pad);
  }

  lemma NoAlign(len: nat, h: Header, opt: char)
    ensures ToAlign(len, h, opt, 0) == 0
  {
  }

  predicate IsPowerOf2(a: nat) {
    a > 0 && And(a, a - 1) == 0
  }

  /** Options that control byte order and alignment. */
  function Control(fmt: string, p: nat, opt: char, h: Header): (r: Result<(Header, nat)>)
    requires p <= |fmt|
    ensures r.Ok? ==> p <= r.value.1 <= |fmt|
  {
    match opt
    case ' ' => Ok((h, p))
    case '>' => Ok((h.(endian := Big), p))
    case '<' => Ok((h.(endian := Little), p))
    case '!' =>
      var n := Number(fmt, p, MAXALIGN);
      if !IsPowerOf2(n.0) then Err(BadAlignment) else Ok((h.(align := n.0), n.1))
    case _ => Err(InvalidOption)
  }

  // ---------- Integers ----------

  const TWO63: nat := 0x8000_0000_0000_0000
  const TWO64: nat := 0x1_0000_0000_0000_0000

  /** The sizes in which values and shifts behave on 64-bit machine words. */
  predicate IntSize(size: nat) { 1 <= size <= 8 }

  /** The numbers whose conversion to a 64-bit word is defined. */
  predicate Castable(n: int) { -(TWO63 as int) <= n < TWO64 }

  /** Bytes in the given order. */
  function Order<T>(endian: Endian, s: seq<T>): seq<T> {
    if endian == Little then s else Reverse(s)
  }

  function IntBytes(n: int, size: nat, endian: Endian): (s: seq<Byte>)
    ensures |s| == size
  {
    Order(endian, ToBytes(n % TWO64, size))
  }

  /** The number that the low `size` bytes of n stand for, read as signed or unsigned. */
  function Wrap(n: int, size: nat, signed: bool): int {
    var m := Pow256(size);
    if signed && n % m >= m / 2 then n % m - m else n % m
  }

  predicate InRange(n: int, size: nat, signed: bool) {
    var m := Pow256(size);
    if signed then -(m / 2) <= n < m / 2 else 0 <= n < m
  }

  method PutInteger(n: int, endian: Endian, size: nat) returns (s: seq<Byte>)
    requires size <= MAXINTSIZE
    ensures s == IntBytes(n, size, endian)
  {
    hide ToBytes, Reverse;
    var value: nat := n % TWO64;
    ghost var target := ToBytes(value, size);
    var buff := new Byte[size];
    if endian == Little {
      for i := 0 to size
        invariant ToBytes(value, size - i) == target[i..]
        invariant forall k :: 0 <= k < i ==> buff[k] == target[k]
      {
        ToBytesStep(value, size - i);
        assert target[i + 1..] == target[i..][1..];
        buff[i] := value % 256;
        value := value / 256;
      }
      assert buff[..] == target;
    } else {
      for i := size downto 0
        invariant ToBytes(value, i) == target[size - i..]
        invariant forall k :: i <= k < size ==> buff[k] == target[size - 1 - k]
      {
        ToBytesStep(value, i + 1);
        assert target[size - i..] == target[size - i - 1..][1..];
        buff[i] := value % 256;
        value := value / 256;
      }
      assert buff[..] == Reverse(target);
    }
    s := buff[..];
  }

  lemma ToBytesStep(u: nat, k: nat)
    requires k > 0
    ensures ToBytes(u, k)[0] == u % 256 && ToBytes(u, k)[1..] == ToBytes(u / 256, k - 1)
  {
  }

  /** In-place byte reversal when the order is not the native one. */
  method CorrectBytes(b: array<Byte>, endian: Endian)
    modifies b
    ensures b[..] == Order(endian, old(b[..]))
  {
    if endian != DEFAULT.endian {
      var i, size := 0, b.Length;
      while i < size - 1
        invariant 0 <= i <= size && i + size == b.Length
        invariant forall k :: 0 <= k < i || size <= k < b.Length ==> b[k] == old(b[b.Length - 1 - k])
        invariant forall k :: i <= k < size ==> b[k] == old(b[k])
      {
        size := size - 1;
        b[i], b[size] := b[size], b[i];
        i := i + 1;
      }
      assert forall k :: 0 <= k < b.Length ==> b[..][k] == Reverse(old(b[..]))[k];
    }
  }

  /** The number that bytes in the given order stand for. */
  function ReadInt(s: seq<Byte>, endian: Endian, signed: bool): int {
    var l := FromBytes(Order(endian, s));
    if signed && l >= Pow256(|s|) / 2 then l - Pow256(|s|) else l
  }

  lemma ReverseSnoc<T>(s: seq<T>, x: T)
    ensures Reverse(s + [x]) == [x] + Reverse(s)
  {
  }

  lemma PowersOf256()
    ensures Pow256(1) == 0x100 && Pow256(2) == 0x1_0000 && Pow256(3) == 0x100_0000 && Pow256(4) == 0x1_0000_0000
    ensures Pow256(5) == 0x100_0000_0000 && Pow256(6) == 0x1_0000_0000_0000 && Pow256(7) == 0x100_0000_0000_0000
    ensures Pow256(8) == TWO64
  {
    assert Pow256(3) == 256 * Pow256(2);
    assert Pow256(5) == 256 * Pow256(4);
    assert Pow256(7) == 256 * Pow256(6);
  }

  lemma FitsWord(s: seq<Byte>)
    requires |s| <= 8
    ensures FromBytes(s) < Pow256(|s|) <= TWO64
    ensures |s| < 8 ==> FromBytes(s) * 256 + 255 < TWO64
  {
    FromBytesBound(s);
    PowersOf256();
  }

  lemma NothingIsZero()
    ensures FromBytes([]) == 0 && FromBytes(Reverse([])) == 0
  {
  }

  lemma NextByte(b: Byte, s: seq<Byte>)
    ensures FromBytes([b] + s) == b + FromBytes(s) * 256
  {
    assert ([b] + s)[1..] == s;
  }

  method GetInteger(buff: seq<Byte>, endian: Endian, signed: bool) returns (n: int)
    requires IntSize(|buff|)
    ensures n == ReadInt(buff, endian, signed)
  {
    hide Pow256, FromBytes, Reverse;
    var size := |buff|;
    var l: nat := 0;
    assert buff[..0] == [] == buff[size..];
    NothingIsZero();
    if endian == Big {
      for i := 0 to size
        invariant l == FromBytes(Reverse(buff[..i]))
      {
        FitsWord(Reverse(buff[..i]));
        ReverseSnoc(buff[..i], buff[i]);
        assert buff[..i + 1] == buff[..i] + [buff[i]];
        NextByte(buff[i], Reverse(buff[..i]));
        l := (l * 256) % TWO64 + buff[i];
      }
      assert buff[..size] == buff;
    } else {
      for i := size downto 0
        invariant l == FromBytes(buff[i..])
      {
        FitsWord(buff[i + 1..]);
        assert buff[i..] == [buff[i]] + buff[i + 1..];
        NextByte(buff[i], buff[i + 1..]);
        l := (l * 256) % TWO64 + buff[i];
      }
      assert buff[0..] == buff;
    }
    FitsWord(Order(endian, buff));
    if signed {
      n := SignExtend(l, size);
    } else {
      n := l;
    }
  }

  /** The mask is all ones from the sign bit up; or-ing it in replaces those bits, and the
      word is then read as signed. */
  method SignExtend(l: nat, size: nat) returns (n: int)
    requires IntSize(size) && l < Pow256(size)
    ensures n == if l >= Pow256(size) / 2 then l - Pow256(size) else l
  {
    var mask := SignMask(size);
    MaskedSign(l, size);
    var word := l;
    if And(l, mask) != 0 {
      word := Or(l, mask);
    }
    n := if word >= TWO63 then word - TWO64 else word;
  }

  /** ~0 << (size*8 - 1) in 64 bits. */
  function SignMask(size: nat): nat
    requires IntSize(size)
  {
    PowersOf256();
    TWO64 - SignBit(size)
  }

  /** The mask finds the sign bit, and puts ones above it. */
  lemma MaskedSign(l: nat, size: nat)
    requires IntSize(size) && l < Pow256(size)
    ensures And(l, SignMask(size)) == if l < SignBit(size) then 0 else SignBit(size)
    ensures l >= SignBit(size) ==> Or(l, SignMask(size)) == TWO64 - Pow256(size) + l
    ensures 2 * SignBit(size) == Pow256(size) <= TWO64
  {
    var k := 8 * size - 1;
    PowersOf256();
    SignBitIsPower(size);
    hide Pow2, Pow256, And, Or, SignBit;
    Distributes(Pow2(k), Pow2(64 - k));
    MaskedTop(l, k, 64 - k);
  }

  lemma Distributes(a: nat, b: nat)
    requires b > 0
    ensures a * (b - 1) == a * b - a
  {
  }

  /** A mask of m ones above k zeros, on a number of k + 1 bits. */
  lemma MaskedTop(l: nat, k: nat, m: nat)
    requires m > 0 && l < 2 * Pow2(k)
    ensures var mask := Pow2(k) * (Pow2(m) - 1);
            && And(l, mask) == (if l < Pow2(k) then 0 else Pow2(k))
            && Or(l, mask) + And(l, mask) == l + mask
  {
    var half := Pow2(k);
    assert Pow2(m) == 2 * Pow2(m - 1);
    hide Pow2, And, Or, Shr;
    var ones := Pow2(m) - 1;
    AndScaled(l, ones, k);
    ShrIsQuotient(l, k);
    AndLowBits(Shr(l, k), m);
    TopBit(l, half, ones + 1);
    Scaled(half, And(Shr(l, k), ones));
    OrPlusAnd(l, half * ones);
  }

  lemma Scaled(a: nat, bit: nat)
    requires bit <= 1
    ensures a * bit == if bit == 0 then 0 else a
  {
  }

  lemma TopBit(l: nat, half: nat, m: nat)
    requires l < 2 * half && m >= 2
    ensures l / half % m == if l < half then 0 else 1
  {
    if l < half {
      ModUnique(l, 0, l, half);
      ModUnique(0, 0, 0, m);
    } else {
      ModUnique(l, 1, l - half, half);
      ModUnique(1, 0, 1, m);
    }
  }

  /** The sign bit as a power of two, and the rest of the word above it. */
  lemma SignBitIsPower(size: nat)
    requires IntSize(size)
    ensures SignBit(size) == Pow2(8 * size - 1) && Pow2(64 - (8 * size - 1)) >= 2
    ensures Pow2(8 * size - 1) * Pow2(64 - (8 * size - 1)) == TWO64
  {
    EightBits(size);
    EightBits(8);
    PowersOf256();
    Pow2Add(8 * size - 1, 64 - (8 * size - 1));
    assert Pow2(64 - (8 * size - 1)) == 2 * Pow2(64 - 8 * size);
  }

  lemma {:induction false} EightBits(k: nat)
    ensures Pow2(8 * k) == Pow256(k)
  {
    if k > 0 {
      EightBits(k - 1);
      Pow2Add(8, 8 * (k - 1));
      assert Pow2(3) == 8 && Pow2(5) == 32 && Pow2(7) == 128 && Pow2(8) == 256;
    }
  }

  lemma {:induction false} Pow2Add(a: nat, b: nat)
    ensures Pow2(a + b) == Pow2(a) * Pow2(b)
  {
    if a > 0 {
      Pow2Add(a - 1, b);
      assert 2 * (Pow2(a - 1) * Pow2(b)) == Pow2(a) * Pow2(b);
    }
  }

  /** 1 << (size*8 - 1) */
  function SignBit(size: nat): (r: nat)
    requires IntSize(size)
    ensures 2 * r == Pow256(size) && r > 0 && r <= TWO63
  {
    PowersOf256();
    Pow256(size) / 2
  }

  /** An integer written and read back is the integer its low bytes stand for. */
  lemma IntRoundTrip(n: int, size: nat, endian: Endian, signed: bool)
    requires IntSize(size)
    ensures ReadInt(IntBytes(n, size, endian), endian, signed) == Wrap(n, size, signed)
  {
    PowersOf256();
    var u := n % TWO64;
    if endian == Big {
      ReverseReverse(ToBytes(u, size));
    }
    FromToBytes(u, size);
    Pow256Add(size, 8 - size);
    ModMod(n, Pow256(size), Pow256(8 - size));
  }

  /** It is the same integer exactly when it is in the range of the format. */
  lemma WrapIsIdentityInRange(n: int, size: nat, signed: bool)
    requires IntSize(size)
    ensures Wrap(n, size, signed) == n <==> InRange(n, size, signed)
  {
    var m := Pow256(size);
    var half := SignBit(size);
    if 0 <= n < m {
      ModUnique(n, 0, n, m);
    } else if -m <= n < 0 {
      ModUnique(n, -1, n + m, m);
    }
  }

  // ---------- Packing ----------

  /** The bytes of one item, and how many arguments it takes. */
  function PackItem(opt: char, size: nat, endian: Endian, args: seq<Value>): (r: Result<(seq<Byte>, nat)>)
    requires IsItem(opt)
    ensures r.Ok? ==> r.value.1 <= |args|
    ensures r.Ok? ==> r.value.1 == if opt == 'x' then 0 else 1
  {
    if opt == 'x' then Ok(([0], 0))
    else if opt == 'f' || opt == 'd' then Err(NotModelled)
    else if args == [] then Err(BadArgument)
    else if IsInt(opt) then
      if args[0].Str? then Err(BadArgument)
      else if !IntSize(size) || !Castable(args[0].n) then Err(NotModelled)
      else Ok((IntBytes(args[0].n, size, endian), 1))
    else if args[0].Num? then Err(BadArgument)
    else if opt == 's' then Ok((args[0].s + [0], 1))
    else if size == 0 then Err(NotModelled)
    else if |args[0].s| < size then Err(StringTooShort)
    else Ok((args[0].s[..size], 1))
  }

  function Zeros(n: nat): (s: seq<Byte>)
    ensures |s| == n
  {
    seq(n, i => 0)
  }

  /** What the format from p on adds to a packet that is `total` bytes long already. */
  function PackFrom(fmt: string, p: nat, h: Header, args: seq<Value>, total: nat): Result<seq<Byte>>
    decreases |fmt| - p
  {
    if AtEnd(fmt, p) then Ok([]) else
    var opt := fmt[p];
    var (size, next) :- OptSize(fmt, p + 1, opt);
    if IsItem(opt) then
      var pad := ToAlign(total, h, opt, size);
      var (bytes, used) :- PackItem(opt, size, h.endian, args);
      var rest :- PackFrom(fmt, next, h, args[used..], total + pad + |bytes|);
      Ok(Zeros(pad) + bytes + rest)
    else
      var (h', next') :- Control(fmt, next, opt, h);
      PackFrom(fmt, next', h', args, total)
  }

  function Pack(fmt: string, args: seq<Value>): Result<seq<Byte>> {
    PackFrom(fmt, 0, DEFAULT, args, 0)
  }

  // ---------- Unpacking ----------

  /** The first zero byte at or after pos, or the end of the data. */
  function ZeroFrom(data: seq<Byte>, pos: nat): (e: nat)
    requires pos <= |data|
    ensures pos <= e <= |data|
    ensures forall i :: pos <= i < e ==> data[i] != 0
    ensures e < |data| ==> data[e] == 0
    decreases |data| - pos
  {
    if pos == |data| || data[pos] == 0 then pos else ZeroFrom(data, pos + 1)
  }

  /** The values one item yields, and the bytes it takes. */
  function UnpackItem(opt: char, size: nat, endian: Endian, data: seq<Byte>, pos: nat)
    : (r: Result<(seq<Value>, nat)>)
    requires IsItem(opt) && pos + size <= |data|
    ensures r.Ok? ==> pos + r.value.1 <= |data|
  {
    if opt == 'x' then Ok(([], size))
    else if opt == 'f' || opt == 'd' then Err(NotModelled)
    else if IsInt(opt) then
      if !IntSize(size) then Err(NotModelled)
      else Ok(([Num(ReadInt(data[pos..pos + size], endian, IsSigned(opt)))], size))
    else if opt == 's' then
      var e := ZeroFrom(data, pos);
      if e == |data| then Err(UnfinishedString) else Ok(([Str(data[pos..e])], e - pos + 1))
    else if size == 0 then Err(NotModelled)
    else Ok(([Str(data[pos..pos + size])], size))
  }

  /** The values the format from p on reads from pos, and the position after them. */
  function UnpackFrom(fmt: string, p: nat, h: Header, data: seq<Byte>, pos: nat): Result<(seq<Value>, nat)>
    decreases |fmt| - p
  {
    if AtEnd(fmt, p) then Ok(([], pos)) else
    var opt := fmt[p];
    var (size, next) :- OptSize(fmt, p + 1, opt);
    var start := pos + ToAlign(pos, h, opt, size);
    if start > |data| then Err(OverRead)
    else if start + size > |data| then Err(DataTooShort)
    else if IsItem(opt) then
      var (values, used) :- UnpackItem(opt, size, h.endian, data, start);
      var (rest, end) :- UnpackFrom(fmt, next, h, data, start + used);
      Ok((values + rest, end))
    else
      var (h', next') :- Control(fmt, next, opt, h);
      UnpackFrom(fmt, next', h', data, pos)
  }

  /** Positions are counted from 1, on the way in and on the way out. */
  function Unpack(fmt: string, data: seq<Byte>, init: nat): Result<(seq<Value>, nat)>
    requires 1 <= init <= |data| + 1
  {
    var (values, end) :- UnpackFrom(fmt, 0, DEFAULT, data, init - 1);
    Ok((values, end + 1))
  }

  // ---------- Measuring ----------

  function SizeFrom(fmt: string, p: nat, h: Header, pos: nat): Result<nat>
    decreases |fmt| - p
  {
    if AtEnd(fmt, p) then Ok(pos) else
    var opt := fmt[p];
    var (size, next) :- OptSize(fmt, p + 1, opt);
    var start := pos + ToAlign(pos, h, opt, size);
    if opt == 's' || (opt == 'c' && size == 0) then Err(NoFixedSize)
    else if IsAlnum(opt) then SizeFrom(fmt, next, h, start + size)
    else
      var (h', next') :- Control(fmt, next, opt, h);
      SizeFrom(fmt, next', h', start + size)
  }

  function Size(fmt: string): Result<nat> {
    SizeFrom(fmt, 0, DEFAULT, 0)
  }

  // ---------- What a round trip gives back ----------

  /** What comes back for an argument: integers wrap, strings are cut at n or at a zero. */
  function Canonical(opt: char, size: nat, v: Value): Value {
    if v.Num? then Num(Wrap(v.n, size, IsSigned(opt)))
    else if opt == 's' then Str(v.s[..ZeroFrom(v.s, 0)])
    else if size <= |v.s| then Str(v.s[..size])
    else v
  }

  predicate Fits(opt: char, size: nat, v: Value) {
    if v.Num? then InRange(v.n, size, IsSigned(opt))
    else if opt == 's' then 0 !in v.s
    else |v.s| == size
  }

  /** Where the bytes of a packed item stand in some data, unpacking the item yields the
      canonical form of its argument; the position moves past the item, unless the argument
      of `s` holds a zero. */
  lemma ItemRoundTrip(opt: char, size: nat, endian: Endian, args: seq<Value>, data: seq<Byte>, pos: nat)
    requires IsItem(opt) && PackItem(opt, size, endian, args).Ok?
    requires (opt == 'x' ==> size == 1) && (opt == 's' ==> size == 0)
    requires var bytes := PackItem(opt, size, endian, args).value.0;
             pos + |bytes| <= |data| && data[pos..pos + |bytes|] == bytes
    ensures
      var (bytes, used) := PackItem(opt, size, endian, args).value;
      && pos + size <= |data|
      && var r := UnpackItem(opt, size, endian, data, pos);
      && r.Ok? && r.value.0 == (if used == 1 then [Canonical(opt, size, args[0])] else [])
      && (opt != 's' || 0 !in args[0].s ==> r.value.1 == |bytes|)
  {
    hide ReadInt, IntBytes, ZeroFrom, IsSigned;
    if IsInt(opt) {
      IntRoundTrip(args[0].n, size, endian, IsSigned(opt));
    } else if opt == 's' {
      StringRoundTrip(args[0].s, data, pos);
    }
  }

  /** A string is read up to its first zero. */
  lemma StringRoundTrip(s: seq<Byte>, data: seq<Byte>, pos: nat)
    requires pos + |s| + 1 <= |data| && data[pos..pos + |s| + 1] == s + [0]
    ensures ZeroFrom(data, pos) == pos + ZeroFrom(s, 0)
    ensures data[pos..pos + ZeroFrom(s, 0)] == s[..ZeroFrom(s, 0)]
    ensures 0 !in s ==> ZeroFrom(s, 0) == |s|
  {
    var e := ZeroFrom(s, 0);
    hide ZeroFrom;
    var bytes := data[pos..pos + |s| + 1];
    forall i | pos <= i < pos + e
      ensures data[i] != 0
    {
      assert data[i] == bytes[i - pos] == s[i - pos];
    }
    assert data[pos + e] == bytes[e] == 0;
    ZeroUnique(data, pos, pos + e);
    assert data[pos..pos + e] == bytes[..e] == s[..e];
  }

  lemma {:induction false} ZeroUnique(data: seq<Byte>, pos: nat, e: nat)
    requires pos <= e < |data| && data[e] == 0 && forall i :: pos <= i < e ==> data[i] != 0
    ensures ZeroFrom(data, pos) == e
    decreases e - pos
  {
  }

  /** Every argument fits its item, and there are no more arguments than items. */
  predicate FitsFrom(fmt: string, p: nat, h: Header, args: seq<Value>, total: nat)
    requires PackFrom(fmt, p, h, args, total).Ok?
    decreases |fmt| - p
  {
    if AtEnd(fmt, p) then args == [] else
    var opt := fmt[p];
    var (size, next) := OptSize(fmt, p + 1, opt).value;
    if IsItem(opt) then
      var (bytes, used) := PackItem(opt, size, h.endian, args).value;
      && (used == 1 ==> Fits(opt, size, args[0]))
      && FitsFrom(fmt, next, h, args[used..], total + ToAlign(total, h, opt, size) + |bytes|)
    else
      var (h', next') := Control(fmt, next, opt, h).value;
      FitsFrom(fmt, next', h', args, total)
  }

  lemma CanonicalIffFits(opt: char, size: nat, endian: Endian, args: seq<Value>)
    requires IsItem(opt) && PackItem(opt, size, endian, args).Ok? && opt != 'x'
    ensures Canonical(opt, size, args[0]) == args[0] <==> Fits(opt, size, args[0])
  {
    if IsInt(opt) {
      WrapIsIdentityInRange(args[0].n, size, IsSigned(opt));
    } else if opt == 's' {
      var s := args[0].s;
      var e := ZeroFrom(s, 0);
      if e == |s| {
        assert s[..e] == s;
      } else {
        assert |s[..e]| < |s|;
      }
    } else if |args[0].s| == size {
      assert args[0].s[..size] == args[0].s;
    }
  }

  /** One item off the front: what unpacking yields first, and how it goes on. */
  lemma UnpackHead(fmt: string, p: nat, h: Header, args: seq<Value>, size: nat, next: nat, data: seq<Byte>, pos: nat)
    requires !AtEnd(fmt, p) && IsItem(fmt[p]) && OptSize(fmt, p + 1, fmt[p]) == Ok((size, next))
    requires PackItem(fmt[p], size, h.endian, args).Ok?
    requires var bytes := PackItem(fmt[p], size, h.endian, args).value.0;
             var start := pos + ToAlign(pos, h, fmt[p], size);
             start + |bytes| <= |data| && data[start..start + |bytes|] == bytes
    ensures
      var (bytes, used) := PackItem(fmt[p], size, h.endian, args).value;
      var head := if used == 1 then [Canonical(fmt[p], size, args[0])] else [];
      var r := UnpackFrom(fmt, p, h, data, pos);
      && (r.Ok? ==> head <= r.value.0)
      && (used == 0 || Fits(fmt[p], size, args[0]) ==>
            var r' := UnpackFrom(fmt, next, h, data, pos + ToAlign(pos, h, fmt[p], size) + |bytes|);
            r == if r'.Ok? then Ok((head + r'.value.0, r'.value.1)) else Err(r'.error))
  {
    hide UnpackItem, UnpackFrom, ToAlign, Canonical, IsInt, InRange, IntBytes;
    var start := pos + ToAlign(pos, h, fmt[p], size);
    assert (fmt[p] == 'x' ==> size == 1) && (fmt[p] == 's' ==> size == 0);
    assert fmt[p] == 's' ==> args != [] && args[0].Str?;
    assert fmt[p] == 's' && Fits(fmt[p], size, args[0]) ==> 0 !in args[0].s;
    hide *;
    ItemRoundTrip(fmt[p], size, h.endian, args, data, start);
    UnpackUnfold(fmt, p, h, size, next, data, pos);
  }

  lemma UnpackUnfold(fmt: string, p: nat, h: Header, size: nat, next: nat, data: seq<Byte>, pos: nat)
    requires !AtEnd(fmt, p) && IsItem(fmt[p]) && OptSize(fmt, p + 1, fmt[p]) == Ok((size, next))
    requires var start := pos + ToAlign(pos, h, fmt[p], size);
             start + size <= |data| && UnpackItem(fmt[p], size, h.endian, data, start).Ok?
    ensures
      var start := pos + ToAlign(pos, h, fmt[p], size);
      var (values, used) := UnpackItem(fmt[p], size, h.endian, data, start).value;
      var r' := UnpackFrom(fmt, next, h, data, start + used);
      UnpackFrom(fmt, p, h, data, pos) == if r'.Ok? then Ok((values + r'.value.0, r'.value.1)) else Err(r'.error)
  {
    hide IsItem, IsInt, ToAlign, UnpackItem, Control, OptSize;
  }

  lemma ControlSize(fmt: string, p: nat, opt: char)
    requires p <= |fmt| && !IsItem(opt)
    ensures OptSize(fmt, p, opt) == Ok((0, p))
  {
  }

  /** Unpacking what was packed, at the position where it was packed, gives back exactly the
      arguments, and the position after the data, if and only if every argument fits. */
  lemma {:induction false} RoundTripFrom(fmt: string, p: nat, h: Header, args: seq<Value>,
                                         pre: seq<Byte>, post: seq<Byte>)
    requires PackFrom(fmt, p, h, args, |pre|).Ok?
    ensures
      var out := PackFrom(fmt, p, h, args, |pre|).value;
      var r := UnpackFrom(fmt, p, h, pre + out + post, |pre|);
      if FitsFrom(fmt, p, h, args, |pre|) then r == Ok((args, |pre| + |out|)) else r.Err? || r.value.0 != args
    decreases |fmt| - p
  {
    hide IsItem, IsInt, ToAlign, PackItem, UnpackItem, Control, Fits, Canonical, OptSize;
    if !AtEnd(fmt, p) {
      var opt := fmt[p];
      var (size, next) := OptSize(fmt, p + 1, opt).value;
      if IsItem(opt) {
        var pad := Zeros(ToAlign(|pre|, h, opt, size));
        var (bytes, used) := PackItem(opt, size, h.endian, args).value;
        var pre' := pre + pad + bytes;
        var rest := PackFrom(fmt, next, h, args[used..], |pre'|).value;
        var data := pre' + rest + post;
        assert pre + (pad + bytes + rest) + post == data;
        assert data[|pre| + |pad|..|pre'|] == bytes;
        UnpackHead(fmt, p, h, args, size, next, data, |pre|);
        RoundTripFrom(fmt, next, h, args[used..], pre', post);
        if used == 1 {
          CanonicalIffFits(opt, size, h.endian, args);
          assert args == [args[0]] + args[1..];
        } else {
          assert args[0..] == args && forall vs: seq<Value> :: [] + vs == vs;
        }
      } else {
        ControlSize(fmt, p + 1, opt);
        NoAlign(|pre|, h, opt);
        var (h', next') := Control(fmt, next, opt, h).value;
        RoundTripFrom(fmt, next', h', args, pre, post);
      }
    }
  }

  /** For every format and arguments that pack: unpacking the packet from its start gives
      back the arguments, with the next position one past the data, if and only if every
      integer is in range, every `cn` string has n bytes and no `s` string holds a zero. */
  lemma RoundTrip(fmt: string, args: seq<Value>)
    requires Pack(fmt, args).Ok?
    ensures
      var data := Pack(fmt, args).value;
      Unpack(fmt, data, 1) == Ok((args, |data| + 1)) <==> FitsFrom(fmt, 0, DEFAULT, args, 0)
  {
    var data := Pack(fmt, args).value;
    RoundTripFrom(fmt, 0, DEFAULT, args, [], []);
    assert [] + data + [] == data;
  }

  predicate HasString(fmt: string, p: nat)
    decreases |fmt| - p
  {
    !AtEnd(fmt, p) && (fmt[p] == 's' || HasString(fmt, p + 1))
  }

  /** The digits of a count hold no `s` option. */
  lemma {:induction false} DigitsHoldNoString(fmt: string, p: nat, a: nat)
    requires p <= |fmt|
    ensures HasString(fmt, p) == HasString(fmt, NumberFrom(fmt, p, a).1)
    decreases |fmt| - p
  {
    if p < |fmt| && IsDigit(fmt[p]) {
      DigitsHoldNoString(fmt, p + 1, a * 10 + DigitValue(fmt[p]));
    }
  }

  lemma OptionsHoldNoString(fmt: string, p: nat, opt: char, h: Header)
    requires p <= |fmt|
    ensures OptSize(fmt, p, opt).Ok? ==> HasString(fmt, OptSize(fmt, p, opt).value.1) == HasString(fmt, p)
    ensures Control(fmt, p, opt, h).Ok? ==> HasString(fmt, Control(fmt, p, opt, h).value.1) == HasString(fmt, p)
  {
    DigitsHoldNoString(fmt, p, 0);
  }

  /** What packing, measuring and the two option readers have in common. */
  lemma ItemLength(opt: char, size: nat, endian: Endian, args: seq<Value>)
    requires IsItem(opt) && opt != 's' && PackItem(opt, size, endian, args).Ok? && (opt == 'x' ==> size == 1)
    ensures |PackItem(opt, size, endian, args).value.0| == size && !(opt == 'c' && size == 0) && IsAlnum(opt)
  {
  }

  lemma PaddingSize(fmt: string, p: nat)
    requires p <= |fmt|
    ensures OptSize(fmt, p, 'x') == Ok((1, p))
  {
  }

  /** `size` is the length of what `pack` produces, for every format without `s`; one with
      `s` has no size. */
  lemma {:induction false} SizeIsPackedLength(fmt: string, p: nat, h: Header, args: seq<Value>, total: nat)
    requires PackFrom(fmt, p, h, args, total).Ok?
    ensures SizeFrom(fmt, p, h, total) == if HasString(fmt, p) then Err(NoFixedSize)
                                          else Ok(total + |PackFrom(fmt, p, h, args, total).value|)
    decreases |fmt| - p
  {
    hide IsInt, ToAlign, PackItem, Control, OptSize;
    if !AtEnd(fmt, p) {
      var opt := fmt[p];
      PaddingSize(fmt, p + 1);
      var (size, next) := OptSize(fmt, p + 1, opt).value;
      OptionsHoldNoString(fmt, p + 1, opt, h);
      if IsItem(opt) {
        if opt != 's' {
          ItemLength(opt, size, h.endian, args);
          var (bytes, used) := PackItem(opt, size, h.endian, args).value;
          SizeIsPackedLength(fmt, next, h, args[used..], total + ToAlign(total, h, opt, size) + |bytes|);
        }
      } else {
        ControlSize(fmt, p + 1, opt);
        NoAlign(total, h, opt);
        OptionsHoldNoString(fmt, next, opt, h);
        ControlIsNoLetter(fmt, next, opt, h);
        var (h', next') := Control(fmt, next, opt, h).value;
        SizeIsPackedLength(fmt, next', h', args, total);
      }
    }
  }

  lemma ControlIsNoLetter(fmt: string, p: nat, opt: char, h: Header)
    requires p <= |fmt| && Control(fmt, p, opt, h).Ok?
    ensures !IsAlnum(opt)
  {
  }

  // ---------- The library's loops ----------

  method ReadOptSize(fmt: string, p: nat, opt: char) returns (r: Result<(nat, nat)>)
    requires p <= |fmt|
    ensures r == OptSize(fmt, p, opt)
  {
    match opt {
      case 'B' => r := Ok((1, p));
      case 'b' => r := Ok((1, p));
      case 'H' => r := Ok((2, p));
      case 'h' => r := Ok((2, p));
      case 'L' => r := Ok((8, p));
      case 'l' => r := Ok((8, p));
      case 'T' => r := Ok((8, p));
      case 'f' => r := Ok((4, p));
      case 'd' => r := Ok((8, p));
      case 'x' => r := Ok((1, p));
      case 'c' =>
        var n, next := GetNum(fmt, p, 1);
        r := Ok((n, next));
      case 'i' =>
        var n, next := GetNum(fmt, p, 4);
        r := if n > MAXINTSIZE then Err(IntegralSize) else Ok((n, next));
      case 'I' =>
        var n, next := GetNum(fmt, p, 4);
        r := if n > MAXINTSIZE then Err(IntegralSize) else Ok((n, next));
      case _ => r := Ok((0, p));
    }
  }

  method ControlOptions(fmt: string, p: nat, opt: char, h: Header) returns (r: Result<(Header, nat)>)
    requires p <= |fmt|
    ensures r == Control(fmt, p, opt, h)
  {
    match opt {
      case ' ' => r := Ok((h, p));
      case '>' => r := Ok((h.(endian := Big), p));
      case '<' => r := Ok((h.(endian := Little), p));
      case '!' =>
        var a, next := GetNum(fmt, p, MAXALIGN);
        if !IsPowerOf2(a) {
          return Err(BadAlignment);
        }
        r := Ok((h.(align := a), next));
      case _ => r := Err(InvalidOption);
    }
  }

  /** A result with bytes that came before it. */
  function After(b: seq<Byte>, r: Result<seq<Byte>>): Result<seq<Byte>> {
    if r.Ok? then Ok(b + r.value) else r
  }

  method PackLoop(fmt: string, args: seq<Value>) returns (r: Result<seq<Byte>>)
    ensures r == Pack(fmt, args)
  {
    hide IsInt, ToAlign, Control, OptSize;
    var b: seq<Byte> := [];
    var h, p: nat, arg: nat, totalsize: nat := DEFAULT, 0, 0, 0;
    assert args[0..] == args;
    assert forall s: seq<Byte> :: [] + s == s;
    while !AtEnd(fmt, p)
      invariant arg <= |args|
      invariant Pack(fmt, args) == After(b, PackFrom(fmt, p, h, args[arg..], totalsize))
      decreases |fmt| - p
    {
      var opt := fmt[p];
      var s :- ReadOptSize(fmt, p + 1, opt);
      var (size, next) := s;
      if IsItem(opt) {
        var toalign := ToAlign(totalsize, h, opt, size);
        var i :- PutItem(opt, size, h.endian, args[arg..]);
        PackUnfold(fmt, p, h, args[arg..], totalsize, size, next);
        AfterAfter(b, Zeros(toalign) + i.0, PackFrom(fmt, next, h, args[arg..][i.1..], totalsize + toalign + |i.0|));
        b, totalsize := b + (Zeros(toalign) + i.0), totalsize + toalign + |i.0|;
        assert args[arg..][i.1..] == args[arg + i.1..];
        p, arg := next, arg + i.1;
      } else {
        ControlSize(fmt, p + 1, opt);
        var c :- ControlOptions(fmt, next, opt, h);
        h, p := c.0, c.1;
      }
    }
    assert b + [] == b;
    r := Ok(b);
  }

  lemma PackUnfold(fmt: string, p: nat, h: Header, args: seq<Value>, total: nat, size: nat, next: nat)
    requires !AtEnd(fmt, p) && IsItem(fmt[p]) && OptSize(fmt, p + 1, fmt[p]) == Ok((size, next))
    requires PackItem(fmt[p], size, h.endian, args).Ok?
    ensures
      var (bytes, used) := PackItem(fmt[p], size, h.endian, args).value;
      var toalign := ToAlign(total, h, fmt[p], size);
      PackFrom(fmt, p, h, args, total)
      == After(Zeros(toalign) + bytes, PackFrom(fmt, next, h, args[used..], total + toalign + |bytes|))
  {
    hide IsItem, IsInt, ToAlign, PackItem, Control, OptSize;
  }

  lemma AfterAfter(b: seq<Byte>, c: seq<Byte>, r: Result<seq<Byte>>)
    ensures After(b, After(c, r)) == After(b + c, r)
  {
    if r.Ok? {
      assert b + (c + r.value) == b + c + r.value;
    }
  }

  method PutItem(opt: char, size: nat, endian: Endian, args: seq<Value>) returns (r: Result<(seq<Byte>, nat)>)
    requires IsItem(opt)
    ensures r == PackItem(opt, size, endian, args)
  {
    if IsInt(opt) && args != [] && args[0].Num? && IntSize(size) && Castable(args[0].n) {
      var s := PutInteger(args[0].n, endian, size);
      r := Ok((s, 1));
    } else {
      r := PackItem(opt, size, endian, args);
    }
  }

  /** A result with values that came before it. */
  function AfterValues(vs: seq<Value>, r: Result<(seq<Value>, nat)>): Result<(seq<Value>, nat)> {
    if r.Ok? then Ok((vs + r.value.0, r.value.1)) else r
  }

  lemma AfterValuesTwice(vs: seq<Value>, ws: seq<Value>, r: Result<(seq<Value>, nat)>)
    ensures AfterValues(vs, AfterValues(ws, r)) == AfterValues(vs + ws, r)
  {
    if r.Ok? {
      assert vs + (ws + r.value.0) == vs + ws + r.value.0;
    }
  }

  lemma AfterValuesEnds(vs: seq<Value>, pos: nat, r: Result<(seq<Value>, nat)>)
    ensures AfterValues(vs, Ok(([], pos))) == Ok((vs, pos))
    ensures r.Err? ==> AfterValues(vs, r) == r
    ensures AfterValues([], r) == r
  {
    assert vs + [] == vs;
    assert r.Ok? ==> [] + r.value.0 == r.value.0;
  }

  /** One option of the format. */
  lemma UnpackStep(fmt: string, p: nat, h: Header, data: seq<Byte>, pos: nat)
    requires !AtEnd(fmt, p)
    ensures var opt := fmt[p];
            var s := OptSize(fmt, p + 1, opt);
            UnpackFrom(fmt, p, h, data, pos)
            == if s.Err? then Err(s.error)
               else
                 var (size, next) := s.value;
                 var start := pos + ToAlign(pos, h, opt, size);
                 if start > |data| then Err(OverRead)
                 else if start + size > |data| then Err(DataTooShort)
                 else if IsItem(opt) then
                   var i := UnpackItem(opt, size, h.endian, data, start);
                   if i.Err? then Err(i.error)
                   else AfterValues(i.value.0, UnpackFrom(fmt, next, h, data, start + i.value.1))
                 else
                   var c := Control(fmt, next, opt, h);
                   if c.Err? then Err(c.error) else UnpackFrom(fmt, c.value.1, c.value.0, data, pos)
  {
    hide IsItem, IsInt, ToAlign, UnpackItem, Control, OptSize;
  }

  method UnpackLoop(fmt: string, data: seq<Byte>, init: nat) returns (r: Result<(seq<Value>, nat)>)
    requires 1 <= init <= |data| + 1
    ensures r == Unpack(fmt, data, init)
  {
    hide IsItem, IsInt, ToAlign, Control, OptSize, UnpackFrom, UnpackItem, AfterValues;
    var values: seq<Value> := [];
    var pos: nat, h, p: nat := init - 1, DEFAULT, 0;
    ghost var whole := UnpackFrom(fmt, 0, DEFAULT, data, init - 1);
    AfterValuesEnds([], 0, whole);
    while !AtEnd(fmt, p)
      invariant whole == AfterValues(values, UnpackFrom(fmt, p, h, data, pos))
      decreases |fmt| - p
    {
      UnpackStep(fmt, p, h, data, pos);
      AfterValuesEnds(values, 0, UnpackFrom(fmt, p, h, data, pos));
      var opt := fmt[p];
      var s :- ReadOptSize(fmt, p + 1, opt);
      var (size, next) := s;
      var start := pos + ToAlign(pos, h, opt, size);
      if start > |data| {
        return Err(OverRead);
      }
      if start + size > |data| {
        return Err(DataTooShort);
      }
      if IsItem(opt) {
        var i :- TakeItem(opt, size, h.endian, data, start);
        AfterValuesTwice(values, i.0, UnpackFrom(fmt, next, h, data, start + i.1));
        values, pos, p := values + i.0, start + i.1, next;
      } else {
        ControlSize(fmt, p + 1, opt);
        NoAlign(pos, h, opt);
        var c :- ControlOptions(fmt, next, opt, h);
        h, p := c.0, c.1;
      }
    }
    EndOfFormat(fmt, p, h, data, pos);
    AfterValuesEnds(values, pos, whole);
    r := Ok((values, pos + 1));
  }

  lemma EndOfFormat(fmt: string, p: nat, h: Header, data: seq<Byte>, pos: nat)
    requires AtEnd(fmt, p)
    ensures UnpackFrom(fmt, p, h, data, pos) == Ok(([], pos))
  {
  }

  method TakeItem(opt: char, size: nat, endian: Endian, data: seq<Byte>, pos: nat)
    returns (r: Result<(seq<Value>, nat)>)
    requires IsItem(opt) && pos + size <= |data|
    ensures r == UnpackItem(opt, size, endian, data, pos)
  {
    hide ReadInt, ZeroFrom, IsSigned;
    if IsInt(opt) && IntSize(size) {
      var n := GetInteger(data[pos..pos + size], endian, IsSigned(opt));
      r := Ok(([Num(n)], size));
    } else {
      r := UnpackItem(opt, size, endian, data, pos);
    }
  }

  method SizeLoop(fmt: string) returns (r: Result<nat>)
    ensures r == Size(fmt)
  {
    hide ToAlign, Control, OptSize;
    var h, p: nat, pos: nat := DEFAULT, 0, 0;
    while !AtEnd(fmt, p)
      invariant Size(fmt) == SizeFrom(fmt, p, h, pos)
      decreases |fmt| - p
    {
      var opt := fmt[p];
      var s :- ReadOptSize(fmt, p + 1, opt);
      pos := pos + ToAlign(pos, h, opt, s.0);
      if opt == 's' || (opt == 'c' && s.0 == 0) {
        return Err(NoFixedSize);
      }
      p := s.1;
      if !IsAlnum(opt) {
        var c :- ControlOptions(fmt, p, opt, h);
        h, p := c.0, c.1;
      }
      pos := pos + s.0;
    }
    r := Ok(pos);
  }
}
