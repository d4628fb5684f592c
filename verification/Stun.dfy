/** STUN packets as net/stun.lua builds and parses them. */
module Stun {
  import opened Bytes
  import opened Collections
  import Struct
  import opened StunFormats

  datatype Error =
    | PackError(e: Struct.Error)
    | BadTransactionId | BadHash | BadLength | BadCookie | TruncatedHeader | TruncatedValue

  datatype Result<+T> = Ok(value: T) | Err(error: Error)

  const MAGIC_COOKIE: seq<Byte> := [0x21, 0x12, 0xA4, 0x42]
  const MAGIC_NUMBER: nat := 0x2112A442
  const MESSAGE_INTEGRITY: nat := 0x0008

  // ---------- The message type ----------

  function SetType(method_: bv32, cls: bv32): bv32 {
    ((method_ & 0x1F80) << 2) | ((method_ & 0x0070) << 1) | (method_ & 0x000F)
    | ((cls & 0x0002) << 7) | ((cls & 0x0001) << 4)
  }

  function GetMethod(kind: bv32): bv32 {
    ((kind & 0x3E00) >> 2) | ((kind & 0x00E0) >> 1) | (kind & 0x000F)
  }

  function GetClass(kind: bv32): bv32 {
    ((kind & 0x0100) >> 7) | ((kind & 0x0010) >> 4)
  }

  /** Method and class come back exactly when they have 12 and 2 bits; the type fits 16 bits,
      and the four class predicates are the four values of its class. */
  lemma TypeRoundTrip(method_: bv32, cls: bv32)
    ensures GetMethod(SetType(method_, cls)) == method_ <==> method_ < 0x1000
    ensures GetClass(SetType(method_, cls)) == cls <==> cls < 4
    ensures SetType(method_, cls) < 0x8000
    ensures SetType(method_, cls) & 0x0110 == 0x0000 <==> cls & 3 == 0
    ensures SetType(method_, cls) & 0x0110 == 0x0010 <==> cls & 3 == 1
    ensures SetType(method_, cls) & 0x0110 == 0x0100 <==> cls & 3 == 2
    ensures SetType(method_, cls) & 0x0110 == 0x0110 <==> cls & 3 == 3
  {
  }

  lemma FitsField(kind: bv32)
    requires kind < 0x8000
    ensures kind as nat < 0x8000
  {
  }

  // ---------- Attributes ----------

  datatype Attribute = Attribute(kind: nat, value: seq<Byte>)

  /** What fits the two 16-bit fields of an attribute header. */
  predicate Fits16(a: Attribute) {
    a.kind < 0x1_0000 && |a.value| < 0x1_0000
  }

  /** Bytes up to the next multiple of four. */
  function Padding(len: nat): (n: nat)
    ensures n < 4 && (len + n) % 4 == 0
  {
    (4 - len % 4) % 4
  }

  function Header(a: Attribute): (s: seq<Byte>)
    ensures |s| == 4
  {
    Be16(a.kind) + Be16(|a.value|)
  }

  /** An attribute as it stands in a packet, and as a parsed packet keeps it. */
  function Padded(a: Attribute): (s: seq<Byte>)
    ensures |s| == 4 + |a.value| + Padding(|a.value|)
  {
    Header(a) + a.value + seq(Padding(|a.value|), i => 0)
  }

  function Unpadded(a: Attribute): (s: seq<Byte>)
    ensures |s| == 4 + |a.value|
  {
    Header(a) + a.value
  }

  function AllPadded(attrs: seq<Attribute>): (parts: seq<seq<Byte>>)
    ensures |parts| == |attrs|
  {
    seq(|attrs|, i requires 0 <= i < |attrs| => Padded(attrs[i]))
  }

  function AllUnpadded(attrs: seq<Attribute>): (parts: seq<seq<Byte>>)
    ensures |parts| == |attrs|
  {
    seq(|attrs|, i requires 0 <= i < |attrs| => Unpadded(attrs[i]))
  }

  // ---------- Packets ----------

  /** A whole packet on the wire. */
  function Wire(kind: nat, tid: seq<Byte>, payload: seq<Byte>): (s: seq<Byte>)
    ensures |s| == 8 + |tid| + |payload|
  {
    Be16(kind) + Be16(|payload|) + MAGIC_COOKIE + tid + payload
  }

  /** The attributes from position q on. A zero-length one moves the position by 20. */
  function ParseFrom(bytes: seq<Byte>, q: nat): Result<seq<seq<Byte>>>
    decreases |bytes| - q
  {
    if q + 1 >= |bytes| then Ok([])
    else if q + 4 > |bytes| then Err(TruncatedHeader)
    else
      var header := bytes[q..q + 4];
      var len := Be(header[2..4]);
      if len == 0 then Onto(header, ParseFrom(bytes, q + 20))
      else if q + 4 + len > |bytes| then Err(TruncatedValue)
      else Onto(header + bytes[q + 4..q + 4 + len], ParseFrom(bytes, q + 4 + len + Padding(len)))
  }

  function Onto(first: seq<Byte>, r: Result<seq<seq<Byte>>>): Result<seq<seq<Byte>>> {
    if r.Ok? then Ok([first] + r.value) else r
  }

  /** Everything but the last attribute has a value. */
  predicate OnlyLastEmpty(attrs: seq<Attribute>) {
    forall i :: 0 <= i < |attrs| - 1 ==> attrs[i].value != []
  }

  lemma HeaderLength(a: Attribute)
    requires Fits16(a)
    ensures Be(Header(a)[2..4]) == |a.value| && Be(Header(a)[..2]) == a.kind
  {
    assert Header(a)[2..4] == Be16(|a.value|) && Header(a)[..2] == Be16(a.kind);
    BeBe16(|a.value|);
    BeBe16(a.kind);
  }

  /** One attribute off the front. */
  lemma ParseOne(a: Attribute, pre: seq<Byte>, post: seq<Byte>)
    requires Fits16(a)
    ensures ParseFrom(pre + Padded(a) + post, |pre|)
            == Onto(Unpadded(a), ParseFrom(pre + Padded(a) + post,
                                           if a.value == [] then |pre| + 20 else |pre| + |Padded(a)|))
  {
    var bytes := pre + Padded(a) + post;
    HeaderLength(a);
    assert bytes[|pre|..|pre| + 4] == Header(a);
    assert bytes[|pre| + 4..|pre| + 4 + |a.value|] == a.value;
    if a.value == [] {
      assert Unpadded(a) == Header(a);
    }
  }

  /** Parsing serialized attributes gives them back without padding, whenever only the last
      may be empty. */
  lemma {:induction false} ParsePadded(attrs: seq<Attribute>, pre: seq<Byte>)
    requires forall a :: a in attrs ==> Fits16(a)
    requires OnlyLastEmpty(attrs)
    ensures ParseFrom(pre + Concat(AllPadded(attrs)), |pre|) == Ok(AllUnpadded(attrs))
  {
    if attrs != [] {
      var a, rest := attrs[0], attrs[1..];
      assert AllPadded(attrs)[1..] == AllPadded(rest) && AllUnpadded(attrs) == [Unpadded(a)] + AllUnpadded(rest);
      var bytes := pre + Padded(a) + Concat(AllPadded(rest));
      assert pre + Concat(AllPadded(attrs)) == bytes;
      ParseOne(a, pre, Concat(AllPadded(rest)));
      if rest == [] {
        assert |bytes| <= |pre| + |Padded(a)|;
      } else {
        ParsePadded(rest, pre + Padded(a));
      }
    }
  }

  /** What is made of attributes whose last one is cut off after k bytes: a single byte is not seen, a piece of a header
      and a piece of a value are errors, and padding need not be there. */
  function CutOff(parts: seq<seq<Byte>>, a: Attribute, k: nat): Result<seq<seq<Byte>>> {
    if k < 2 then Ok(parts)
    else if k < 4 then Err(TruncatedHeader)
    else if k < 4 + |a.value| then Err(TruncatedValue)
    else Ok(parts + [Unpadded(a)])
  }

  lemma CutAttribute(a: Attribute, pre: seq<Byte>, k: nat)
    requires Fits16(a) && a.value != [] && k <= |Padded(a)|
    ensures ParseFrom(pre + Padded(a)[..k], |pre|) == CutOff([], a, k)
  {
    hide *;
    var q, bytes, len := |pre|, pre + Padded(a)[..k], |a.value|;
    SmallCut(a, k);
    if k < 4 {
      NoHeader(bytes, q);
    } else {
      HeaderLength(a);
      FrontOfPadded(a);
      Pieces(pre, Padded(a), k, Header(a), a.value);
      OneValue(bytes, q, Header(a), len);
      if k >= 4 + len {
        NoHeader(bytes, q + 4 + len + Padding(len));
      }
    }
  }

  lemma FrontOfPadded(a: Attribute)
    ensures Padded(a)[..4 + |a.value|] == Unpadded(a) == Header(a) + a.value
  {
  }

  lemma Pieces(pre: seq<Byte>, s: seq<Byte>, k: nat, h: seq<Byte>, v: seq<Byte>)
    requires |h| == 4 <= k <= |s| && 4 + |v| <= |s| && s[..4 + |v|] == h + v
    ensures var q, bytes := |pre|, pre + s[..k];
            && bytes[q..q + 4] == h
            && (k >= 4 + |v| ==> bytes[q + 4..q + 4 + |v|] == v)
  {
    var q, bytes := |pre|, pre + s[..k];
    assert bytes[q..q + 4] == s[..4 + |v|][..4];
    if k >= 4 + |v| {
      assert bytes[q + 4..q + 4 + |v|] == s[..4 + |v|][4..];
    }
  }

  lemma SmallCut(a: Attribute, k: nat)
    ensures k < 4 ==> CutOff([], a, k) == if k < 2 then Ok([]) else Err(TruncatedHeader)
    ensures 4 <= k < 4 + |a.value| ==> CutOff([], a, k) == Err(TruncatedValue)
    ensures k >= 4 + |a.value| ==> CutOff([], a, k) == Onto(Unpadded(a), Ok([]))
  {
    assert [] + [Unpadded(a)] == [Unpadded(a)] + [];
  }

  lemma NoHeader(bytes: seq<Byte>, q: nat)
    requires q + 4 > |bytes|
    ensures ParseFrom(bytes, q) == if q + 1 >= |bytes| then Ok([]) else Err(TruncatedHeader)
  {
  }

  lemma OneValue(bytes: seq<Byte>, q: nat, header: seq<Byte>, len: nat)
    requires q + 4 <= |bytes| && bytes[q..q + 4] == header && Be(header[2..4]) == len > 0
    ensures ParseFrom(bytes, q)
            == if q + 4 + len > |bytes| then Err(TruncatedValue)
               else Onto(header + bytes[q + 4..q + 4 + len], ParseFrom(bytes, q + 4 + len + Padding(len)))
  {
    hide Be, Padding, Onto;
  }

  lemma {:induction false} CutPacket(attrs: seq<Attribute>, a: Attribute, pre: seq<Byte>, k: nat)
    requires forall b :: b in attrs + [a] ==> Fits16(b) && b.value != []
    requires k <= |Padded(a)|
    ensures ParseFrom(pre + Concat(AllPadded(attrs)) + Padded(a)[..k], |pre|) == CutOff(AllUnpadded(attrs), a, k)
  {
    hide *;
    var tail := Padded(a)[..k];
    assert a in attrs + [a];
    if attrs == [] {
      NoAttributes(pre);
      CutAttribute(a, pre, k);
    } else {
      var first, rest := attrs[0], attrs[1..];
      assert attrs == [first] + rest && forall b :: b in rest + [a] ==> b in attrs + [a];
      assert first in attrs + [a];
      FirstAttribute(attrs, pre, tail);
      ParseOne(first, pre, Concat(AllPadded(rest)) + tail);
      CutPacket(rest, a, pre + Padded(first), k);
      OntoCutOff(first, rest, a, k);
    }
  }

  lemma NoAttributes(pre: seq<Byte>)
    ensures pre + Concat(AllPadded([])) == pre && AllUnpadded([]) == []
  {
  }

  lemma FirstAttribute(attrs: seq<Attribute>, pre: seq<Byte>, post: seq<Byte>)
    requires attrs != []
    ensures var first, rest := attrs[0], attrs[1..];
            && AllUnpadded(attrs) == [Unpadded(first)] + AllUnpadded(rest)
            && pre + Concat(AllPadded(attrs)) + post == pre + Padded(first) + (Concat(AllPadded(rest)) + post)
            && pre + Concat(AllPadded(attrs)) + post == pre + Padded(first) + Concat(AllPadded(rest)) + post
  {
    var first, rest := attrs[0], attrs[1..];
    assert AllPadded(attrs)[0] == Padded(first) && AllPadded(attrs)[1..] == AllPadded(rest);
    assert Concat(AllPadded(attrs)) == Padded(first) + Concat(AllPadded(rest));
    hide Concat, Padded, Unpadded;
  }

  lemma OntoCutOff(first: Attribute, rest: seq<Attribute>, a: Attribute, k: nat)
    ensures Onto(Unpadded(first), CutOff(AllUnpadded(rest), a, k))
            == CutOff([Unpadded(first)] + AllUnpadded(rest), a, k)
  {
    hide Unpadded;
    assert [Unpadded(first)] + (AllUnpadded(rest) + [Unpadded(a)])
           == [Unpadded(first)] + AllUnpadded(rest) + [Unpadded(a)];
  }

  /** The room that parsed attributes take at least, the padding of the last not counted. */
  function Span(parts: seq<seq<Byte>>): nat {
    if parts == [] then 0
    else if |parts| == 1 then |parts[0]|
    else |parts[0]| + Padding(|parts[0]|) + Span(parts[1..])
  }

  lemma {:induction false} ParsedSpan(bytes: seq<Byte>, q: nat)
    requires ParseFrom(bytes, q).Ok? && ParseFrom(bytes, q).value != []
    ensures q + Span(ParseFrom(bytes, q).value) <= |bytes|
    decreases |bytes| - q
  {
    var len := Be(bytes[q..q + 4][2..4]);
    var q' := if len == 0 then q + 20 else q + 4 + len + Padding(len);
    assert Padding(4 + len) == Padding(len);
    var rest := ParseFrom(bytes, q').value;
    assert ParseFrom(bytes, q).value[1..] == rest;
    if rest != [] {
      ParsedSpan(bytes, q');
    }
  }

  lemma {:induction false} PaddedSpan(attrs: seq<Attribute>)
    requires attrs != []
    ensures |Concat(AllPadded(attrs))| <= Span(AllUnpadded(attrs)) + 3
  {
    var rest := attrs[1..];
    assert AllPadded(attrs)[1..] == AllPadded(rest) && AllUnpadded(attrs)[1..] == AllUnpadded(rest);
    assert Padding(4 + |attrs[0].value|) == Padding(|attrs[0].value|);
    if rest != [] {
      PaddedSpan(rest);
    }
  }

  lemma OntoInjective(first: seq<Byte>, r: Result<seq<seq<Byte>>>, rest: seq<seq<Byte>>)
    ensures Onto(first, r) == Ok([first] + rest) <==> r == Ok(rest)
  {
    if r.Ok? {
      assert ([first] + r.value)[1..] == r.value && ([first] + rest)[1..] == rest;
    }
  }

  /** With an empty attribute before the last, something is lost: the list does not come back. */
  lemma {:induction false} ParseLoses(attrs: seq<Attribute>, pre: seq<Byte>)
    requires forall a :: a in attrs ==> Fits16(a)
    requires !OnlyLastEmpty(attrs)
    ensures ParseFrom(pre + Concat(AllPadded(attrs)), |pre|) != Ok(AllUnpadded(attrs))
  {
    hide ParseFrom, Padded, Unpadded, AllPadded, AllUnpadded, Onto, Concat, Padding, Fits16;
    var a, rest := attrs[0], attrs[1..];
    assert attrs == [a] + rest;
    var bytes := pre + Padded(a) + Concat(AllPadded(rest));
    FirstAttribute(attrs, pre, []);
    WithoutRest(pre + Concat(AllPadded(attrs)), bytes, Concat(AllPadded(rest)));
    ParseOne(a, pre, Concat(AllPadded(rest)));
    var next := if a.value == [] then |pre| + 20 else |pre| + |Padded(a)|;
    OntoInjective(Unpadded(a), ParseFrom(bytes, next), AllUnpadded(rest));
    if a.value == [] {
      PaddingOfNothing();
      TooLittleIsLeft(bytes, |pre|, rest);
    } else {
      var i :| 0 <= i < |attrs| - 1 && attrs[i].value == [];
      assert rest[i - 1].value == [];
      ParseLoses(rest, pre + Padded(a));
    }
  }

  lemma WithoutRest(s: seq<Byte>, t: seq<Byte>, u: seq<Byte>)
    ensures s + [] == s && t + [] == t && u + [] == u
  {
  }

  lemma PaddingOfNothing()
    ensures Padding(0) == 0
  {
  }

  /** Behind an empty attribute there is no room for all the others. */
  lemma TooLittleIsLeft(bytes: seq<Byte>, q: nat, rest: seq<Attribute>)
    requires rest != [] && |bytes| == q + 4 + |Concat(AllPadded(rest))|
    ensures ParseFrom(bytes, q + 20) != Ok(AllUnpadded(rest))
  {
    hide Concat, Span, ParseFrom, Padded, Unpadded;
    if ParseFrom(bytes, q + 20) == Ok(AllUnpadded(rest)) {
      ParsedSpan(bytes, q + 20);
      PaddedSpan(rest);
    }
  }

  /** What `deserialize` makes of bytes: the type, the transaction id and the attributes. */
  function Parse(bytes: seq<Byte>): Result<(nat, seq<Byte>, seq<seq<Byte>>)> {
    if |bytes| < 8 then Err(PackError(Struct.DataTooShort))
    else if |bytes| != Be(bytes[2..4]) + 20 then Err(BadLength)
    else if Be(bytes[4..8]) != MAGIC_NUMBER then Err(BadCookie)
    else
      var r := ParseFrom(bytes, 20);
      if r.Ok? then Ok((Be(bytes[..2]), bytes[8..20], r.value)) else Err(r.error)
  }

  lemma MagicBytes()
    ensures Be(MAGIC_COOKIE) == MAGIC_NUMBER
  {
  }

  /** Deserializing a serialized packet recovers type, transaction id and every unpadded
      attribute, if and only if no attribute but possibly the last is empty. */
  lemma WireRoundTrip(kind: nat, tid: seq<Byte>, attrs: seq<Attribute>)
    requires kind < 0x1_0000 && |tid| == 12 && (forall a :: a in attrs ==> Fits16(a))
    requires |Concat(AllPadded(attrs))| < 0x1_0000
    ensures Parse(Wire(kind, tid, Concat(AllPadded(attrs)))) == Ok((kind, tid, AllUnpadded(attrs)))
            <==> OnlyLastEmpty(attrs)
  {
    var payload := Concat(AllPadded(attrs));
    var pre := Be16(kind) + Be16(|payload|) + MAGIC_COOKIE + tid;
    var bytes := Wire(kind, tid, payload);
    assert bytes == pre + payload;
    assert bytes[..2] == Be16(kind) && bytes[2..4] == Be16(|payload|);
    assert bytes[4..8] == MAGIC_COOKIE && bytes[8..20] == tid;
    BeBe16(kind);
    BeBe16(|payload|);
    MagicBytes();
    if OnlyLastEmpty(attrs) {
      ParsePadded(attrs, pre);
    } else {
      ParseLoses(attrs, pre);
    }
  }

  /** Two attributes, the first empty: the second is not seen. */
  lemma EmptyAttributeHidesTheNext()
    ensures var attrs := [Attribute(0x001A, []), Attribute(0x0019, [17, 0, 0, 0])];
            Parse(Wire(1, seq(12, i => 0), Concat(AllPadded(attrs)))) != Ok((1, seq(12, i => 0), AllUnpadded(attrs)))
  {
    var attrs := [Attribute(0x001A, []), Attribute(0x0019, [17, 0, 0, 0])];
    assert AllPadded(attrs) == [Padded(attrs[0])] + [Padded(attrs[1])];
    assert AllPadded(attrs)[1..] == [Padded(attrs[1])];
    assert Concat([Padded(attrs[1])]) == Padded(attrs[1]) + Concat([]);
    assert |Concat(AllPadded(attrs))| == 12;
    assert attrs[0].value == [] && !OnlyLastEmpty(attrs);
    WireRoundTrip(1, seq(12, i => 0), attrs);
  }

  // ---------- Looking attributes up ----------

  /** The values of all kept attributes of one kind, in order. */
  function Values(parts: seq<seq<Byte>>, kind: nat): seq<seq<Byte>>
    requires forall p :: p in parts ==> |p| >= 4
  {
    if parts == [] then []
    else (if Be(parts[0][..2]) == kind then [parts[0][4..]] else []) + Values(parts[1..], kind)
  }

  lemma ValuesFrom(parts: seq<seq<Byte>>, kind: nat, i: nat)
    requires forall p :: p in parts ==> |p| >= 4
    ensures i < |parts| ==>
              Values(parts[i..], kind)
              == (if Be(parts[i][..2]) == kind then [parts[i][4..]] else []) + Values(parts[i + 1..], kind)
    ensures i == |parts| ==> Values(parts[i..], kind) == []
  {
    hide Be;
    assert i < |parts| ==> parts[i..][1..] == parts[i + 1..];
  }

  function ValuesOf(attrs: seq<Attribute>, kind: nat): seq<seq<Byte>> {
    if attrs == [] then []
    else (if attrs[0].kind == kind then [attrs[0].value] else []) + ValuesOf(attrs[1..], kind)
  }

  /** The values kept by a parsed packet are those of the attributes it was made of. */
  lemma {:induction false} ValuesOfUnpadded(attrs: seq<Attribute>, kind: nat)
    requires forall a :: a in attrs ==> Fits16(a)
    ensures Values(AllUnpadded(attrs), kind) == ValuesOf(attrs, kind)
  {
    if attrs != [] {
      HeaderLength(attrs[0]);
      assert Unpadded(attrs[0])[..2] == Header(attrs[0])[..2];
      assert Unpadded(attrs[0])[4..] == attrs[0].value;
      assert AllUnpadded(attrs)[1..] == AllUnpadded(attrs[1..]);
      ValuesOfUnpadded(attrs[1..], kind);
    }
  }

  // ---------- Addresses ----------

  /** Byte by byte exclusive or, the second operand repeated as needed. */
  function XorString(a: seq<Byte>, b: seq<Byte>): (s: seq<Byte>)
    ensures |s| == |a|
  {
    if b == [] then a else seq(|a|, i requires 0 <= i < |a| => XorByte(a[i], b[i % |b|]))
  }

  function XorByte(a: Byte, b: Byte): Byte {
    XorBound(a, b, 8);
    assert Pow2(8) == 256 by { assert Pow2(4) == 16; }
    Xor(a, b)
  }

  function XorPort(port: nat): nat {
    Xor(port, 0x2112)
  }

  method StrXor(a: seq<Byte>, b: seq<Byte>) returns (s: seq<Byte>)
    ensures s == XorString(a, b)
  {
    if |a| == 0 || |b| == 0 {
      return a;
    }
    s := [];
    for i := 0 to |a|
      invariant |s| == i && forall k :: 0 <= k < i ==> s[k] == XorByte(a[k], b[k % |b|])
    {
      s := s + [XorByte(a[i], b[i % |b|])];
    }
  }

  lemma XorStringTwice(a: seq<Byte>, b: seq<Byte>)
    ensures XorString(XorString(a, b), b) == a
  {
    if b != [] {
      forall i | 0 <= i < |a|
        ensures XorString(XorString(a, b), b)[i] == a[i]
      {
        XorTwice(a[i], b[i % |b|]);
      }
    }
  }

  lemma PortBound(port: nat)
    requires port < 0x1_0000
    ensures XorPort(port) < 0x1_0000
  {
    assert Pow2(16) == 0x1_0000 by { assert Pow2(4) == 16; assert Pow2(8) == 256; assert Pow2(12) == 0x1000; }
    XorBound(port, 0x2112, 16);
  }

  datatype Address = Address(family: nat, addr: seq<Byte>, port: nat)

  function PackAddress(a: Address, tid: seq<Byte>, xor: bool): Result<seq<Byte>> {
    var port := if xor then XorPort(a.port) else a.port;
    var addr := if xor then XorString(a.addr, MAGIC_COOKIE + tid) else a.addr;
    var familyPort := Struct.Pack("x>BI2", [Struct.Num(a.family), Struct.Num(port)]);
    if familyPort.Ok? then Ok(familyPort.value + addr) else Err(PackError(familyPort.error))
  }

  function UnpackAddress(data: seq<Byte>, tid: seq<Byte>, xor: bool): Result<Address> {
    UnpackFamilyPort(data);
    var familyPort := Struct.Unpack("x>BI2", data, 1);
    if familyPort.Err? then Err(PackError(familyPort.error))
    else
      var family, port, addr := familyPort.value.0[0].n, familyPort.value.0[1].n, data[4..];
      if xor then Ok(Address(family, XorString(addr, MAGIC_COOKIE + tid), XorPort(port)))
      else Ok(Address(family, addr, port))
  }

  /** An address unpacks to what was packed, plain or exclusive-ored, for every transaction id. */
  lemma AddressRoundTrip(a: Address, tid: seq<Byte>, xor: bool)
    requires a.family < 256 && a.port < 0x1_0000
    ensures PackAddress(a, tid, xor).Ok?
    ensures UnpackAddress(PackAddress(a, tid, xor).value, tid, xor) == Ok(a)
  {
    PortBound(a.port);
    var port := if xor then XorPort(a.port) else a.port;
    FamilyPort(a.family, port);
    var data := PackAddress(a, tid, xor).value;
    UnpackFamilyPort(data);
    assert data[2..4] == Be16(port);
    BeBe16(port);
    XorTwice(a.port, 0x2112);
    XorStringTwice(a.addr, MAGIC_COOKIE + tid);
    assert data[4..] == if xor then XorString(a.addr, MAGIC_COOKIE + tid) else a.addr;
  }

  // ---------- Packet objects ----------

  class Packet {
    var kind: nat
    var transactionId: seq<Byte>
    var attributes: seq<seq<Byte>>

    /** Every kept attribute has its header, and the type fits its field. */
    ghost predicate Valid()
      reads this
    {
      kind < 0x1_0000 && forall p :: p in attributes ==> |p| >= 4
    }

    constructor (transactionId: seq<Byte>, method_: bv32, cls: bv32)
      ensures Valid() && this.transactionId == transactionId && attributes == []
      ensures kind == SetType(method_, cls) as nat
    {
      this.transactionId := transactionId;
      attributes := [];
      TypeRoundTrip(method_, cls);
      FitsField(SetType(method_, cls));
      hide SetType;
      kind := SetType(method_, cls) as nat;
    }

    /** The header holds only 16 bits of the payload length. */
    method Serialize() returns (r: Result<seq<Byte>>)
      requires Valid() && |Concat(attributes)| < Struct.TWO64
      ensures r == if |transactionId| != 12 then Err(BadTransactionId)
                   else Ok(Wire(kind, transactionId, Concat(attributes)))
    {
      hide Struct.Pack, Concat, Be16;
      var payload := Concat(attributes);
      if |transactionId| != 12 {
        return Err(BadTransactionId);
      }
      PackI2I2(kind, |payload|);
      var header := Struct.PackLoop(">I2I2", [Struct.Num(kind), Struct.Num(|payload|)]);
      r := Ok(header.value + MAGIC_COOKIE + transactionId + payload);
    }

    /** Appends an attribute with its header and padding. */
    method AddAttribute(kind: nat, value: seq<Byte>)
      requires Valid() && kind < Struct.TWO64 && |value| < Struct.TWO64
      modifies this`attributes
      ensures Valid()
      ensures attributes == old(attributes) + [Padded(Attribute(kind, value))]
      ensures Concat(attributes) == old(Concat(attributes)) + Padded(Attribute(kind, value))
    {
      hide Struct.Pack, Concat, Be16;
      PackI2I2(kind, |value|);
      var header := Struct.PackLoop(">I2I2", [Struct.Num(kind), Struct.Num(|value|)]);
      var padding := seq(Padding(|value|), i => 0);
      ConcatSnoc(attributes, Padded(Attribute(kind, value)));
      attributes := attributes + [header.value + value + padding];
    }

    method Deserialize(bytes: seq<Byte>) returns (r: Result<()>)
      modifies this
      ensures r.Ok? <==> Parse(bytes).Ok?
      ensures r.Ok? ==> (kind, transactionId, attributes) == Parse(bytes).value && Valid()
      ensures r.Err? ==> r.error == Parse(bytes).error
    {
      hide Struct.Unpack, Be, Padding, AfterParts;
      UnpackI2I2I4(bytes);
      var fields := Struct.UnpackLoop(">I2I2I4", bytes, 1);
      if fields.Err? {
        return Err(PackError(fields.error));
      }
      if |bytes| != fields.value.0[1].n + 20 {
        return Err(BadLength);
      }
      if fields.value.0[2].n != MAGIC_NUMBER {
        return Err(BadCookie);
      }
      Be2Bound(bytes[..2]);
      kind, transactionId, attributes := fields.value.0[0].n, bytes[8..20], [];
      var pos := 20;
      AfterEnds([], ParseFrom(bytes, 20));
      while pos + 1 < |bytes|
        invariant 20 <= pos
        invariant kind == Be(bytes[..2]) < 0x1_0000 && transactionId == bytes[8..20] && Valid()
        invariant ParseFrom(bytes, 20) == AfterParts(attributes, ParseFrom(bytes, pos))
        decreases |bytes| - pos
      {
        AfterEnds(attributes, ParseFrom(bytes, pos));
        if pos + 4 > |bytes| {
          return Err(TruncatedHeader);
        }
        var header := bytes[pos..pos + 4];
        UnpackI2I2(header);
        var lengths := Struct.UnpackLoop(">I2I2", header, 1);
        var len := lengths.value.0[1].n;
        if len == 0 {
          AfterOnto(attributes, header, ParseFrom(bytes, pos + 20));
          attributes := attributes + [header];
          pos := pos + 20;
        } else {
          if pos + 4 + len > |bytes| {
            return Err(TruncatedValue);
          }
          var data := bytes[pos + 4..pos + 4 + len];
          AfterOnto(attributes, header + data, ParseFrom(bytes, pos + 4 + len + Padding(len)));
          attributes := attributes + [header + data];
          pos := pos + 4 + len + Padding(len);
        }
      }
      AfterEnds(attributes, ParseFrom(bytes, pos));
      r := Ok(());
    }

    /** The idx-th attribute value of a kind, counted from 1; 0 means the first. */
    method GetAttribute(kind: nat, idx: nat) returns (value: Option<seq<Byte>>)
      requires Valid()
      ensures var vs := Values(attributes, kind);
              var k := if idx < 1 then 1 else idx;
              value == if k <= |vs| then Some(vs[k - 1]) else None
    {
      hide Struct.Unpack, Be, Values;
      var left := if idx < 1 then 1 else idx;
      assert attributes[0..] == attributes;
      for i := 0 to |attributes|
        invariant 1 <= left
        invariant var vs, rest := Values(attributes, kind), Values(attributes[i..], kind);
                  var k := if idx < 1 then 1 else idx;
                  (k <= |vs| <==> left <= |rest|) && (left <= |rest| ==> vs[k - 1] == rest[left - 1])
      {
        UnpackI2(attributes[i]);
        var head := Struct.UnpackLoop(">I2", attributes[i], 1);
        ValuesFrom(attributes, kind, i);
        if head.value.0[0] == Struct.Num(kind) {
          if left == 1 {
            return Some(attributes[i][4..]);
          }
          left := left - 1;
        }
      }
      ValuesFrom(attributes, kind, |attributes|);
      value := None;
    }

    /** Signs the packet: what is hashed is the final packet without its last 24 bytes. */
    method AddMessageIntegrity(hmac: seq<Byte> -> seq<Byte>) returns (r: Result<seq<Byte>>)
      requires Valid() && |Concat(attributes)| + 24 < Struct.TWO64
      modifies this`attributes
      ensures Valid()
      ensures r == if |transactionId| != 12 then Err(BadTransactionId)
                   else
                     var front := SignedFront(kind, transactionId, old(Concat(attributes)));
                     if |hmac(front)| == 20 then Ok(front) else Err(BadHash)
      ensures r == Err(BadHash) ==> attributes == old(attributes)
      ensures r == Err(BadTransactionId) ==>
                attributes == old(attributes) + [Padded(Attribute(0x0008, seq(20, i => 0)))]
      ensures r.Ok? ==>
                && attributes == old(attributes) + [Padded(Attribute(0x0008, hmac(r.value)))]
                && var wire := Wire(kind, transactionId, Concat(attributes));
                   r.value == wire[..|wire| - 24]
    {
      hide Concat, Be16;
      ghost var before := attributes;
      var dummy := seq(20, i => 0);
      AddAttribute(MESSAGE_INTEGRITY, dummy);
      var whole := Serialize();
      if whole.Err? {
        return Err(whole.error);
      }
      FrontOf(kind, transactionId, Concat(before), dummy);
      hide SignedFront, Wire, Padded;
      var pkt := whole.value[..|whole.value| - 24];
      var hash := hmac(pkt);
      attributes := attributes[..|attributes| - 1];
      assert attributes == before;
      if |hash| != 20 {
        return Err(BadHash);
      }
      AddAttribute(MESSAGE_INTEGRITY, hash);
      FrontOf(kind, transactionId, Concat(before), hash);
      r := Ok(pkt);
    }
  }

  /** What is signed: the packet as it stands, with a length that counts the signature to come. */
  function SignedFront(kind: nat, tid: seq<Byte>, payload: seq<Byte>): seq<Byte> {
    Be16(kind) + Be16(|payload| + 24) + MAGIC_COOKIE + tid + payload
  }

  /** It is what stands before the last 24 bytes of a packet that ends with a hash of 20 bytes, whatever the hash. */
  lemma FrontOf(kind: nat, tid: seq<Byte>, payload: seq<Byte>, hash: seq<Byte>)
    requires |hash| == 20
    ensures var w := Wire(kind, tid, payload + Padded(Attribute(MESSAGE_INTEGRITY, hash)));
            |w| >= 24 && w[..|w| - 24] == SignedFront(kind, tid, payload)
  {
    hide Be16;
    var p := Padded(Attribute(MESSAGE_INTEGRITY, hash));
    assert Wire(kind, tid, payload + p) == SignedFront(kind, tid, payload) + p;
  }

  function AfterParts(parts: seq<seq<Byte>>, r: Result<seq<seq<Byte>>>): Result<seq<seq<Byte>>> {
    if r.Ok? then Ok(parts + r.value) else r
  }

  lemma AfterEnds(parts: seq<seq<Byte>>, r: Result<seq<seq<Byte>>>)
    ensures AfterParts([], r) == r && AfterParts(parts, Ok([])) == Ok(parts) && (r.Err? ==> AfterParts(parts, r) == r)
  {
    assert parts + [] == parts;
    assert r.Ok? ==> [] + r.value == r.value;
  }

  lemma AfterOnto(parts: seq<seq<Byte>>, part: seq<Byte>, r: Result<seq<seq<Byte>>>)
    ensures AfterParts(parts, Onto(part, r)) == AfterParts(parts + [part], r)
  {
    if r.Ok? {
      assert parts + ([part] + r.value) == parts + [part] + r.value;
    }
  }
}
