/** The fixed header of a DNS message (section 4.1.1 of RFC 1035). */
module DnsHeader {
  import opened Bytes
  import opened Collections
  import opened DnsName

  datatype Header = Header(id: nat, rd: nat, tc: nat, aa: nat, opcode: nat, qr: nat, rcode: nat, z: nat, ra: nat,
                           qdcount: nat, ancount: nat, nscount: nat, arcount: nat)

  const HEADER_LENGTH: nat := 12

  function Numbers(h: Header): seq<nat> {
    [h.id / 0x100, h.id % 0x100,
     h.rd + 2 * h.tc + 4 * h.aa + 8 * h.opcode + 128 * h.qr,
     h.rcode + 16 * h.z + 128 * h.ra,
     h.qdcount / 0x100, h.qdcount % 0x100,
     h.ancount / 0x100, h.ancount % 0x100,
     h.nscount / 0x100, h.nscount % 0x100,
     h.arcount / 0x100, h.arcount % 0x100]
  }

  /** A number that does not fit a byte is an error of string.char. */
  function EncodeHeader(h: Header): Result<Text> {
    var n := Numbers(h);
    if forall i :: 0 <= i < |n| ==> n[i] < 0x100 then Ok(seq(|n|, i requires 0 <= i < |n| => n[i]))
    else Err(NotAByte)
  }

  function DecodeHeader(s: Text): Header
    requires |s| == HEADER_LENGTH
  {
    Header(Word(s[0], s[1]),
           s[2] % 2, s[2] / 2 % 2, s[2] / 4 % 2, s[2] / 8 % 16, s[2] / 128,
           s[3] % 16, s[3] / 16 % 8, s[3] / 128,
           Word(s[4], s[5]), Word(s[6], s[7]), Word(s[8], s[9]), Word(s[10], s[11]))
  }

  /** Every field within its width. */
  predicate InRange(h: Header) {
    && h.id < 0x10000 && h.rd < 2 && h.tc < 2 && h.aa < 2 && h.opcode < 16 && h.qr < 2
    && h.rcode < 16 && h.z < 8 && h.ra < 2
    && h.qdcount < 0x10000 && h.ancount < 0x10000 && h.nscount < 0x10000 && h.arcount < 0x10000
  }

  /** A header comes back exactly when every field is within its width. */
  lemma HeaderRoundTrip(h: Header)
    ensures EncodeHeader(h).Ok? ==> |EncodeHeader(h).value| == HEADER_LENGTH
    ensures EncodeHeader(h).Ok? && DecodeHeader(EncodeHeader(h).value) == h <==> InRange(h)
  {
    var n := Numbers(h);
    if InRange(h) {
      FlagsApart(h);
    }
    if EncodeHeader(h).Ok? {
      var s := EncodeHeader(h).value;
      assert |n| == HEADER_LENGTH && forall i :: 0 <= i < HEADER_LENGTH ==> s[i] == n[i];
      DecodedInRange(s);
    }
  }

  lemma FlagsApart(h: Header)
    requires InRange(h)
    ensures var b := h.rd + 2 * h.tc + 4 * h.aa + 8 * h.opcode + 128 * h.qr;
            && b < 256 && b % 2 == h.rd && b / 2 % 2 == h.tc && b / 4 % 2 == h.aa
            && b / 8 % 16 == h.opcode && b / 128 == h.qr
    ensures var b := h.rcode + 16 * h.z + 128 * h.ra;
            b < 256 && b % 16 == h.rcode && b / 16 % 8 == h.z && b / 128 == h.ra
  {
  }

  lemma DecodedInRange(s: Text)
    requires |s| == HEADER_LENGTH
    ensures InRange(DecodeHeader(s))
  {
  }

  lemma BitsOfByte(b: nat)
    ensures b == b % 2 + 2 * (b / 2 % 2) + 4 * (b / 4 % 2) + 8 * (b / 8 % 16) + 128 * (b / 128)
    ensures b == b % 16 + 16 * (b / 16 % 8) + 128 * (b / 128)
  {
    Halves(b, 8, 16);
    Halves(b, 16, 8);
    Halves(b, 4, 2);
    Halves(b, 2, 2);
  }

  lemma Halves(b: nat, k: nat, m: nat)
    requires k > 0 && m > 0
    ensures k * m > 0 && b / k == b / k % m + m * (b / (k * m))
  {
    MulMonotone(1, m, k);
    var q, r := b / k, b % k;
    var q', r' := q / m, q % m;
    assert b == q * k + r && q == q' * m + r';
    MulMonotone(r', m - 1, k);
    assert q' * (k * m) == q' * m * k;
    assert b == q' * (k * m) + (r' * k + r) by {
      assert q * k == (q' * m) * k + r' * k;
    }
    ModUnique(b, q', r' * k + r, k * m);
  }

  /** Any twelve bytes are the encoding of the header they decode to. */
  lemma HeaderBytesRoundTrip(s: Text)
    requires |s| == HEADER_LENGTH
    ensures EncodeHeader(DecodeHeader(s)) == Ok(s)
  {
    var n := Numbers(DecodeHeader(s));
    BitsOfByte(s[2]);
    BitsOfByte(s[3]);
    WordSplits(s[0], s[1]);
    WordSplits(s[4], s[5]);
    WordSplits(s[6], s[7]);
    WordSplits(s[8], s[9]);
    WordSplits(s[10], s[11]);
    hide Word;
    assert |n| == HEADER_LENGTH && forall i :: 0 <= i < HEADER_LENGTH ==> n[i] == s[i];
    assert EncodeHeader(DecodeHeader(s)).value == s;
  }

  lemma WordSplits(a: Byte, b: Byte)
    ensures Word(a, b) / 0x100 == a && Word(a, b) % 0x100 == b
  {
  }

  /** Two bytes as a word, the high one first. */
  function BigEndian(high: nat, low: nat): nat {
    high * 0x100 + low
  }

  /** The fields by their bits in the six words of section 4.1.1, the highest bit first. */
  lemma FieldsOfWords(s: Text)
    requires |s| == HEADER_LENGTH
    ensures var h, flags := DecodeHeader(s), BigEndian(s[2], s[3]);
            && h.id == BigEndian(s[0], s[1])
            && h.qr == flags / 0x8000 && h.opcode == flags / 0x800 % 16 && h.aa == flags / 0x400 % 2
            && h.tc == flags / 0x200 % 2 && h.rd == flags / 0x100 % 2
            && h.ra == flags / 0x80 % 2 && h.z == flags / 0x10 % 8 && h.rcode == flags % 16
            && h.qdcount == BigEndian(s[4], s[5]) && h.ancount == BigEndian(s[6], s[7])
            && h.nscount == BigEndian(s[8], s[9]) && h.arcount == BigEndian(s[10], s[11])
  {
    var high, low := s[2], s[3];
    HighBits(high, low, 128);
    HighBits(high, low, 8);
    HighBits(high, low, 4);
    HighBits(high, low, 2);
    HighBits(high, low, 1);
    LowBits(high, low);
    hide BigEndian;
  }

  lemma HighBits(high: nat, low: Byte, m: nat)
    requires m > 0
    ensures 0x100 * m > 0 && BigEndian(high, low) / (0x100 * m) == high / m
  {
    var q, r := high / m, high % m;
    assert high == q * m + r;
    assert BigEndian(high, low) == q * (0x100 * m) + (r * 0x100 + low);
    ModUnique(BigEndian(high, low), q, r * 0x100 + low, 0x100 * m);
  }

  lemma LowBits(high: nat, low: Byte)
    ensures BigEndian(high, low) / 0x80 % 2 == low / 0x80
    ensures BigEndian(high, low) / 0x10 % 8 == low / 0x10 % 8
    ensures BigEndian(high, low) % 16 == low % 16
  {
    var w := BigEndian(high, low);
    assert low == 128 * (low / 128) + low % 128 && low == 16 * (low / 16) + low % 16;
    ModUnique(w, 2 * high + low / 128, low % 128, 128);
    ModUnique(2 * high + low / 128, high, low / 128, 2);
    ModUnique(w, 16 * high + low / 16, low % 16, 16);
    assert low / 16 == 8 * (low / 128) + low / 16 % 8 by {
      Halves(low, 16, 8);
    }
    ModUnique(16 * high + low / 16, 2 * high + low / 128, low / 16 % 8, 8);
  }

  /** Nothing for an answer that was not asked for, unless forced; an error when the packet is too short. */
  method ReadHeader(reader: Resolver, active: set<nat>, force: bool) returns (r: Result<Option<Header>>)
    requires reader.offset >= 1
    modifies reader`offset
    ensures var s := Sub(reader.packet, old(reader.offset) - 1, HEADER_LENGTH);
            if |s| >= 2 && Word(s[0], s[1]) !in active && !force then r == Ok(None)
            else if |s| < HEADER_LENGTH then r == Err(OutOfBounds)
            else r == Ok(Some(DecodeHeader(s))) && reader.offset == old(reader.offset) + HEADER_LENGTH
  {
    ghost var s := Sub(reader.packet, reader.offset - 1, HEADER_LENGTH);
    var id := reader.ReadWord();
    if id.Err? { return Err(id.error); }
    if id.value !in active && !force { return Ok(None); }
    var flags := reader.ReadWord();
    if flags.Err? { return Err(flags.error); }
    var b1, b2 := reader.packet[reader.offset - 3], reader.packet[reader.offset - 2];
    var qdcount := reader.ReadWord();
    if qdcount.Err? { return Err(qdcount.error); }
    var ancount := reader.ReadWord();
    if ancount.Err? { return Err(ancount.error); }
    var nscount := reader.ReadWord();
    if nscount.Err? { return Err(nscount.error); }
    var arcount := reader.ReadWord();
    if arcount.Err? { return Err(arcount.error); }
    r := Ok(Some(Header(id.value, b1 % 2, b1 / 2 % 2, b1 / 4 % 2, b1 / 8 % 16, b1 / 128,
                        b2 % 16, b2 / 16 % 8, b2 / 128,
                        qdcount.value, ancount.value, nscount.value, arcount.value)));
  }
}
