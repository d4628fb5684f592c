/** UTF-8 as util-src/encodings.c decodes and checks it (RFC 3629). */
module Utf8 {
  import opened Bytes
  import opened Collections

  const MAX_UNICODE: nat := 0x10FFFF

  // ---------- Section 3 of RFC 3629 ----------

  /** Every code point but the surrogates. */
  predicate Scalar(v: nat) {
    v < 0xD800 || 0xE000 <= v <= MAX_UNICODE
  }

  /** Section 3: U+0000 to U+10FFFF, without U+D800 to U+DFFF. */
  lemma Scalars(v: nat)
    ensures Scalar(v) <==> v <= 0x10FFFF && !(0xD800 <= v <= 0xDFFF)
  {
  }

  function Encoding(v: nat): (e: Text)
    requires Scalar(v)
    ensures 1 <= |e| <= 4
  {
    if v < 0x80 then [v]
    else if v < 0x800 then [0xC0 + v / 0x40, 0x80 + v % 0x40]
    else if v < 0x10000 then [0xE0 + v / 0x1000, 0x80 + v / 0x40 % 0x40, 0x80 + v % 0x40]
    else [0xF0 + v / 0x40000, 0x80 + v / 0x1000 % 0x40, 0x80 + v / 0x40 % 0x40, 0x80 + v % 0x40]
  }

  predicate AllScalar(vs: seq<nat>) {
    forall i :: 0 <= i < |vs| ==> Scalar(vs[i])
  }

  function EncodeAll(vs: seq<nat>): Text
    requires AllScalar(vs)
  {
    if vs == [] then [] else Encoding(vs[0]) + EncodeAll(vs[1..])
  }

  /** The text is the encoding of some scalar values. */
  ghost predicate WellFormed(s: Text) {
    exists vs :: AllScalar(vs) && EncodeAll(vs) == s
  }

  /** The encoding of v is at the front. */
  predicate StartsWith(s: Text, v: nat)
    requires Scalar(v)
  {
    Encoding(v) <= s
  }

  /** Byte by byte, the first difference counting. */
  predicate Less(a: Text, b: Text) {
    b != [] && (a == [] || a[0] < b[0] || (a[0] == b[0] && Less(a[1..], b[1..])))
  }

  /** Encodings are ordered as what they encode. */
  lemma OrderIsKept(v: nat, w: nat)
    requires Scalar(v) && Scalar(w)
    ensures Less(Encoding(v), Encoding(w)) <==> v < w
  {
    if v < w {
      EarlierIsLess(v, w);
    } else if w < v {
      EarlierIsLess(w, v);
      NotBoth(Encoding(v), Encoding(w));
    } else {
      NotBoth(Encoding(v), Encoding(w));
    }
  }

  lemma {:induction false} NotBoth(a: Text, b: Text)
    ensures !(Less(a, b) && Less(b, a))
  {
    if Less(a, b) && Less(b, a) {
      NotBoth(a[1..], b[1..]);
    }
  }

  lemma EarlierIsLess(v: nat, w: nat)
    requires Scalar(v) && Scalar(w) && v < w
    ensures Less(Encoding(v), Encoding(w))
  {
    var e, f := Encoding(v), Encoding(w);
    DigitsOrdered(v, w);
    LeadOrdered(v, w);
    hide Less;
    var k := if e[0] != f[0] then 0 else if e[1] != f[1] then 1 else if e[2] != f[2] then 2 else 3;
    LessAt(e, f, k);
  }

  /** In base 64. */
  lemma DigitsOrdered(v: nat, w: nat)
    requires v < w
    ensures v / 0x40 < w / 0x40 || (v / 0x40 == w / 0x40 && v % 0x40 < w % 0x40)
    ensures v / 0x1000 < w / 0x1000 || (v / 0x1000 == w / 0x1000 && v / 0x40 % 0x40 <= w / 0x40 % 0x40)
    ensures v / 0x40000 < w / 0x40000 || (v / 0x40000 == w / 0x40000 && v / 0x1000 % 0x40 <= w / 0x1000 % 0x40)
    ensures v / 0x1000 == w / 0x1000 && v / 0x40 % 0x40 == w / 0x40 % 0x40 ==> v / 0x40 == w / 0x40
    ensures v / 0x40000 == w / 0x40000 && v / 0x1000 % 0x40 == w / 0x1000 % 0x40 ==> v / 0x1000 == w / 0x1000
  {
    assert v / 0x1000 == v / 0x40 / 0x40 && w / 0x1000 == w / 0x40 / 0x40;
    assert v / 0x40000 == v / 0x1000 / 0x40 && w / 0x40000 == w / 0x1000 / 0x40;
  }

  /** The lead byte tells the length. */
  lemma LeadOrdered(v: nat, w: nat)
    requires Scalar(v) && Scalar(w) && v < w
    ensures Encoding(v)[0] <= Encoding(w)[0]
    ensures Encoding(v)[0] == Encoding(w)[0] ==> |Encoding(v)| == |Encoding(w)| > 1
  {
  }

  lemma {:induction false} LessAt(a: Text, b: Text, k: nat)
    requires k < |a| && k < |b| && a[k] < b[k] && forall i :: 0 <= i < k ==> a[i] == b[i]
    ensures Less(a, b)
  {
    if k > 0 {
      LessAt(a[1..], b[1..], k - 1);
    }
  }

  /** The examples in section 7 of RFC 3629: "A", a not identical to, a capital alpha, a syllable, a kanji and one
      outside the first plane. */
  lemma Examples()
    ensures Encoding(0x41) == [0x41] && Encoding(0x2262) == [0xE2, 0x89, 0xA2] && Encoding(0x391) == [0xCE, 0x91]
    ensures Encoding(0xD55C) == [0xED, 0x95, 0x9C] && Encoding(0x65E5) == [0xE6, 0x97, 0xA5]
    ensures Encoding(0x233B4) == [0xF0, 0xA3, 0x8E, 0xB4]
  {
  }

  // ---------- Bits ----------

  const WORD: nat := 0x1_0000_0000

  /** The masks of the decoder. */
  lemma Masks(c: nat)
    ensures And(c, 0x40) == 0x40 * (c / 0x40 % 2)
    ensures And(c, 0x3F) == c % 0x40
    ensures And(c, 0x7F) == c % 0x80
    ensures c < 256 ==> (And(c, 0xC0) == 0x80 <==> 0x80 <= c < 0xC0)
  {
    hide And, Shr;
    AndLowBits(c, 6);
    AndLowBits(c, 7);
    assert Pow2(6) == 0x40 && Pow2(7) == 0x80 by { Powers(); }
    ShrIsQuotient(c, 6);
    AndScaled(c, 1, 6);
    AndScaled(c, 3, 6);
    AndLowBits(c / 0x40, 1);
    AndLowBits(c / 0x40, 2);
    assert Pow2(1) == 2 && Pow2(2) == 4;
    hide Pow2;
    assert 0x40 * And(c / 0x40, 1) == And(c, 0x40) && 0x40 * And(c / 0x40, 3) == And(c, 0xC0);
    if c < 256 {
      assert c / 0x40 % 4 == c / 0x40;
    }
  }

  lemma Powers()
    ensures Pow2(6) == 0x40 && Pow2(7) == 0x80 && Pow2(12) == 0x1000 && Pow2(18) == 0x40000 && Pow2(0) == 1
  {
    assert Pow2(3) == 8 && Pow2(6) == 64;
    assert Pow2(9) == 512 && Pow2(12) == 4096;
    assert Pow2(15) == 0x8000 && Pow2(18) == 0x40000;
  }

  // ---------- One sequence ----------

  /** The byte at i of a C string; after the last one stands the terminator, and nothing may be read behind it. */
  function Peek(s: Text, i: nat): Byte
    requires i <= |s|
  {
    if i == |s| then 0 else s[i]
  }

  /** The one bits after the highest bit. */
  function Ones(b: Byte): (n: nat)
    ensures n <= 7
  {
    if b < 0xC0 then 0 else if b < 0xE0 then 1 else if b < 0xF0 then 2 else if b < 0xF8 then 3
    else if b < 0xFC then 4 else if b < 0xFE then 5 else if b < 0xFF then 6 else 7
  }

  /** c << 1 in 32 bits. */
  function Doubled(c: nat): nat {
    c * 2 % WORD
  }

  lemma ShiftedOnes(b: nat, k: nat, c: nat)
    requires 0x80 <= b < 256 && k <= Ones(b) && c == b * Pow2(k)
    ensures c / 0x40 % 2 == 1 <==> k < Ones(b)
    ensures Doubled(c) == b * Pow2(k + 1)
    ensures Doubled(c) < WORD
  {
    assert Pow2(0) == 1 && Pow2(1) == 2 && Pow2(2) == 4 && Pow2(3) == 8;
    assert Pow2(4) == 16 && Pow2(5) == 32 && Pow2(6) == 64 && Pow2(7) == 128;
    assert b * Pow2(k + 1) == 2 * (b * Pow2(k));
    hide Pow2;
    match k
    case 0 =>
    case 1 =>
    case 2 =>
    case 3 =>
    case 4 =>
    case 5 =>
    case 6 =>
    case 7 =>
  }

  predicate IsContinuation(b: Byte) {
    0x80 <= b < 0xC0
  }

  /** n continuation bytes follow the first one. */
  predicate Continued(t: Text, n: nat) {
    n < |t| && forall k :: 1 <= k <= n ==> IsContinuation(t[k])
  }

  /** The number in the low six bits of n bytes. */
  function Digits(t: Text, n: nat): (v: nat)
    requires n < |t|
    ensures v < Pow2(6 * n)
  {
    if n == 0 then 0
    else
      assert Pow2(6 * n) == 0x40 * Pow2(6 * n - 6) by { Pow2Six(6 * n - 6); }
      0x40 * Digits(t, n - 1) + Low(t[n])
  }

  function Low(b: nat): (r: nat)
    ensures r < 0x40 && (0x80 <= b < 0xC0 ==> r == b - 0x80)
  {
    b % 0x40
  }

  lemma Pow2Six(k: nat)
    ensures Pow2(k + 6) == 0x40 * Pow2(k)
  {
    assert Pow2(k + 6) == 2 * Pow2(k + 5) == 4 * Pow2(k + 4);
    assert Pow2(k + 4) == 2 * Pow2(k + 3) == 4 * Pow2(k + 2);
    assert Pow2(k + 2) == 2 * Pow2(k + 1) == 4 * Pow2(k);
  }

  /** The value of a lead byte with n bytes after it whose digits are t. */
  function Assembled(b: nat, t: nat, n: nat): int {
    if n == 1 then (b - 0xC0) * 0x40 + t
    else if n == 2 then (b - 0xE0) * 0x1000 + t
    else (b - 0xF0) * 0x40000 + t
  }

  /** The smallest value that needs n bytes after the lead. */
  function Limit(n: nat): nat {
    if n == 0 then 0xFF else if n == 1 then 0x7F else if n == 2 then 0x7FF else 0xFFFF
  }

  /** What the decoder accepts. */
  predicate Accepted(v: int, n: nat) {
    1 <= n <= 3 && Limit(n) < v <= MAX_UNICODE && !(0xD800 <= v <= 0xDFFF)
  }

  /** Base 64 digits are the quotients and remainders they look like. */
  lemma Digits64(x: nat, y: nat, z: nat, w: nat)
    requires y < 0x40 && z < 0x40 && w < 0x40
    ensures var v := 0x40000 * x + 0x1000 * y + 0x40 * z + w;
            v / 0x40000 == x && v / 0x1000 == 0x40 * x + y && v / 0x1000 % 0x40 == y
            && v / 0x40 == 0x1000 * x + 0x40 * y + z && v / 0x40 % 0x40 == z && v % 0x40 == w
  {
  }

  /** What the n bytes after the lead give, digit by digit. */
  lemma ThreeDigits(t: Text, n: nat)
    requires n < |t| && 1 <= n <= 3
    ensures n == 1 ==> Digits(t, n) == Low(t[1])
    ensures n == 2 ==> Digits(t, n) == 0x40 * Low(t[1]) + Low(t[2])
    ensures n == 3 ==> Digits(t, n) == 0x1000 * Low(t[1]) + 0x40 * Low(t[2]) + Low(t[3])
  {
    hide Low;
    assert Digits(t, 0) == 0;
    assert Digits(t, 1) == Low(t[1]);
  }

  /** An accepted value has just the bytes it was read from as its encoding. */
  lemma AcceptedIsEncoded(t: Text, n: nat)
    requires Continued(t, n) && t[0] >= 0x80 && n == Ones(t[0])
    requires Accepted(Assembled(t[0], Digits(t, n), n), n)
    ensures var v := Assembled(t[0], Digits(t, n), n); Scalar(v) && Encoding(v) == t[..n + 1]
  {
    ThreeDigits(t, n);
    hide Digits, Low;
    assert n >= 1 ==> Low(t[1]) == t[1] - 0x80;
    assert n >= 2 ==> Low(t[2]) == t[2] - 0x80;
    assert n >= 3 ==> Low(t[3]) == t[3] - 0x80;
    if n == 1 {
      Digits64(0, 0, t[0] - 0xC0, Low(t[1]));
    } else if n == 2 {
      Digits64(0, t[0] - 0xE0, Low(t[1]), Low(t[2]));
    } else {
      Digits64(t[0] - 0xF0, Low(t[1]), Low(t[2]), Low(t[3]));
    }
  }

  /** A scalar value encoded at the front beyond ASCII is the one its bytes give, and is accepted. */
  lemma EncodedIsAccepted(t: Text, v: nat)
    requires t != [] && t[0] >= 0x80 && Scalar(v) && StartsWith(t, v)
    ensures var n := Ones(t[0]);
            Continued(t, n) && Assembled(t[0], Digits(t, n), n) == v && Accepted(v, n)
  {
    var e := Encoding(v);
    var n := |e| - 1;
    assert e == t[..n + 1];
    assert forall k :: 0 <= k <= n ==> t[k] == e[k];
    assert v >= 0x80;
    EncodingShape(v);
    ThreeDigits(t, n);
  }

  lemma EncodingShape(v: nat)
    requires Scalar(v) && v >= 0x80
    ensures var e := Encoding(v);
            var n := |e| - 1;
            && e[0] >= 0x80 && Ones(e[0]) == n && 1 <= n <= 3 && Accepted(v, n)
            && (forall k :: 1 <= k <= n ==> IsContinuation(e[k]))
            && (n == 1 ==> v == (e[0] - 0xC0) * 0x40 + Low(e[1]))
            && (n == 2 ==> v == (e[0] - 0xE0) * 0x1000 + 0x40 * Low(e[1]) + Low(e[2]))
            && (n == 3 ==> v == (e[0] - 0xF0) * 0x40000 + 0x1000 * Low(e[1]) + 0x40 * Low(e[2]) + Low(e[3]))
  {
    hide Low;
    var q := v / 0x40;
    assert v == 0x40 * q + v % 0x40;
    assert q == 0x40 * (v / 0x1000) + q % 0x40;
    assert v / 0x1000 == 0x40 * (v / 0x40000) + v / 0x1000 % 0x40;
  }

  /** What is decoded at o: the scalar value whose encoding stands there, or nothing when none does. */
  ghost predicate Decodes(s: Text, o: nat, r: Option<(nat, nat)>)
    requires o <= |s|
  {
    if r.Some? then
      var (v, next) := r.value;
      Scalar(v) && StartsWith(s[o..] + [0], v) && next == o + |Encoding(v)|
    else
      forall v: nat :: Scalar(v) ==> !StartsWith(s[o..] + [0], v)
  }

  /** One sequence of a terminated string; only bytes up to the terminator are looked at. */
  method DecodeOne(s: Text, o: nat) returns (r: Option<(nat, nat)>)
    requires o <= |s|
    ensures Decodes(s, o, r)
  {
    var first := Peek(s, o);
    if first < 0x80 {
      AsciiDecodes(s, o);
      return Some((first, o + 1));
    }
    var ok, count, c, res := Collect(s, o);
    if !ok {
      return None;
    }
    r := Judge(s, o, count, c, res);
  }

  /** The bytes that continue a sequence: how many, the shifted lead byte and the bits so far. */
  method Collect(s: Text, o: nat) returns (ok: bool, count: nat, c: nat, res: nat)
    requires o < |s| && s[o] >= 0x80
    ensures !ok ==> Decodes(s, o, None)
    ensures ok ==> count == Ones(s[o]) && Continued(s[o..] + [0], count) && c == s[o] * Pow2(count)
    ensures ok && count <= 3 ==> res == Digits(s[o..] + [0], count)
  {
    hide Digits, Ones, Decodes, And, Or, Pow2, Doubled;
    ghost var t := s[o..] + [0];
    var first: nat := Peek(s, o);
    c, res, count := first, 0, 0;
    StartOfDigits(t);
    Masks(c);
    ShiftedOnes(first, 0, c);
    while And(c, 0x40) != 0
      invariant count <= Ones(first) && c == first * Pow2(count) && c < WORD
      invariant Continued(t, count) && o + count < |s|
      invariant count <= 4 ==> res == Digits(t, count)
      invariant And(c, 0x40) != 0 <==> count < Ones(first)
      decreases Ones(first) - count
    {
      var cc := Peek(s, o + count + 1);
      assert t[count + 1] == cc;
      Masks(cc);
      if And(cc, 0xC0) != 0x80 {
        NothingDecodes(s, o, count + 1);
        return false, count, c, res;
      }
      AppendDigit(t, count + 1, res);
      ShiftedOnes(first, count, c);
      count := count + 1;
      res := Or(res * 0x40 % WORD, And(cc, 0x3F));
      c := Doubled(c);
      Masks(c);
      ShiftedOnes(first, count, c);
    }
    ok := true;
  }

  /** The lead byte's bits are added and the value is checked. */
  method Judge(s: Text, o: nat, count: nat, c: nat, bits: nat) returns (r: Option<(nat, nat)>)
    requires o < |s| && s[o] >= 0x80 && count == Ones(s[o]) && Continued(s[o..] + [0], count) && c == s[o] * Pow2(count)
    requires count <= 3 ==> bits == Digits(s[o..] + [0], count)
    ensures Decodes(s, o, r)
  {
    hide Digits, Ones, Decodes, And, Or, Pow2;
    ghost var t := s[o..] + [0];
    if count <= 3 {
      AddLead(t, count, c);
    }
    assert t[count] != 0;
    var res := Or(bits, And(c, 0x7F) * Pow2(count * 5) % WORD);
    if count > 3 || res > MAX_UNICODE || res <= Limit(count) || 0xD800 <= res <= 0xDFFF {
      NothingDecodes(s, o, count);
      return None;
    }
    AcceptedIsEncoded(t, count);
    ItDecodes(s, o, res);
    r := Some((res, o + count + 1));
  }

  lemma AsciiDecodes(s: Text, o: nat)
    requires o <= |s| && Peek(s, o) < 0x80
    ensures Decodes(s, o, Some((Peek(s, o), o + 1)))
  {
    assert (s[o..] + [0])[0] == Peek(s, o);
    assert Encoding(Peek(s, o)) == [Peek(s, o)];
  }

  lemma StartOfDigits(t: Text)
    requires t != []
    ensures Digits(t, 0) == 0 && Pow2(0) == 1
  {
  }

  /** Before the bytes so far there is room for six more bits. */
  lemma AppendDigit(t: Text, n: nat, res: nat)
    requires 1 <= n < |t| && (n <= 4 ==> res == Digits(t, n - 1))
    ensures n <= 4 ==> Or(res * 0x40 % WORD, Low(t[n])) == Digits(t, n)
  {
    if n <= 4 {
      Powers();
      assert Pow2(0) == 1;
      assert res < 0x40000;
      assert res * 0x40 % WORD == res * 0x40;
      OrApart(Low(t[n]), res * 0x40, 6);
      OrCommutes(Low(t[n]), res * 0x40);
    }
  }

  /** The bits of the lead byte go above the digits. */
  lemma AddLead(t: Text, n: nat, c: nat)
    requires n <= 3 && n < |t| && t[0] >= 0x80 && n == Ones(t[0]) && c == t[0] * Pow2(n)
    ensures var res := Or(Digits(t, n), And(c, 0x7F) * Pow2(n * 5) % WORD);
            if n == 0 then res <= 0xFF else res == Assembled(t[0], Digits(t, n), n)
  {
    Masks(c);
    LeadBits(t[0], n, c);
    LeadMasked(c, n);
    hide And, Or, Pow2, Digits, Ones, LeadShifted, Assembled;
    var lead, d := LeadShifted(c, n), Digits(t, n);
    OrApart(d, lead, 6 * n);
    if n == 0 {
      assert d < 1 by { Powers(); }
    } else {
      AssembledAdds(t[0], d, n);
    }
  }

  lemma LeadMasked(c: nat, n: nat)
    requires And(c, 0x7F) == c % 0x80 && LeadShifted(c, n) < WORD
    ensures And(c, 0x7F) * Pow2(n * 5) % WORD == LeadShifted(c, n)
  {
    hide And, Pow2;
  }

  lemma AssembledAdds(b: nat, t: nat, n: nat)
    ensures Assembled(b, t, n) == t + Assembled(b, 0, n)
  {
  }

  /** (c & 0x7F) << (n * 5), at most 28 bits. */
  function LeadShifted(c: nat, n: nat): nat {
    c % 0x80 * Pow2(n * 5)
  }

  lemma LeadBits(b: nat, n: nat, c: nat)
    requires 0x80 <= b < 256 && n <= 3 && n == Ones(b) && c == b * Pow2(n)
    ensures LeadShifted(c, n) < WORD && LeadShifted(c, n) % Pow2(6 * n) == 0
    ensures n == 0 ==> LeadShifted(c, n) < 0x80
    ensures n > 0 ==> LeadShifted(c, n) == Assembled(b, 0, n)
  {
    SmallPowers();
    Powers();
    hide Pow2;
    if n == 1 {
      LeadOf(b, 2, 0xC0, 0x20);
    } else if n == 2 {
      LeadOf(b, 4, 0xE0, 0x400);
    } else if n == 3 {
      LeadOf(b, 8, 0xF0, 0x8000);
    }
  }

  lemma SmallPowers()
    ensures Pow2(1) == 2 && Pow2(2) == 4 && Pow2(3) == 8 && Pow2(5) == 0x20 && Pow2(10) == 0x400 && Pow2(15) == 0x8000
  {
    assert Pow2(5) == 32 && Pow2(7) == 128;
    assert Pow2(10) == 1024 && Pow2(13) == 8192;
  }

  /** What is left of a lead byte when its marker is shifted out. */
  lemma LeadOf(b: nat, shift: nat, marker: nat, up: nat)
    requires (shift, marker, up) in {(2, 0xC0, 0x20), (4, 0xE0, 0x400), (8, 0xF0, 0x8000)}
    requires marker <= b < marker + 0x80 / shift
    ensures b * shift % 0x80 == (b - marker) * shift
    ensures b * shift % 0x80 * up == (b - marker) * (shift * up)
    ensures (b * shift % 0x80 * up) % (shift * up) == 0
  {
  }

  /** A missing continuation byte, or bytes whose value is not accepted, leave nothing that is encoded here. */
  lemma NothingDecodes(s: Text, o: nat, n: nat)
    requires o < |s| && n <= |s| - o && s[o] >= 0x80 && n <= Ones(s[o])
    requires !Continued(s[o..] + [0], n)
             || (n == Ones(s[o]) && !Accepted(Assembled(s[o], Digits(s[o..] + [0], n), n), n))
    ensures Decodes(s, o, None)
  {
    var t := s[o..] + [0];
    forall v: nat | Scalar(v)
      ensures !StartsWith(t, v)
    {
      if StartsWith(t, v) {
        EncodedIsAccepted(t, v);
        assert false;
      }
    }
  }

  lemma ItDecodes(s: Text, o: nat, v: nat)
    requires o <= |s| && Scalar(v) && StartsWith(s[o..] + [0], v)
    ensures Decodes(s, o, Some((v, o + |Encoding(v)|)))
  {
  }

  // ---------- A whole string ----------

  /** No encoding is the beginning of another one. */
  lemma PrefixFree(t: Text, v: nat, w: nat)
    requires Scalar(v) && Scalar(w) && StartsWith(t, v) && StartsWith(t, w)
    ensures v == w
  {
    assert t[0] == Encoding(v)[0] == Encoding(w)[0];
    if t[0] >= 0x80 {
      EncodedIsAccepted(t, v);
      EncodedIsAccepted(t, w);
    }
  }

  lemma OnlyNulHasZero(v: nat)
    requires Scalar(v) && 0 in Encoding(v)
    ensures v == 0
  {
    if v >= 0x80 {
      EncodingShape(v);
    }
  }

  /** The terminator does not help to complete an encoding. */
  lemma WithinString(t: Text, v: nat)
    requires Scalar(v) && t != []
    ensures StartsWith(t + [0], v) <==> StartsWith(t, v)
  {
    var e := Encoding(v);
    if e <= t + [0] && |e| > |t| {
      assert e[|t|] == 0;
      OnlyNulHasZero(v);
    }
    if |e| <= |t| {
      assert (t + [0])[..|e|] == t[..|e|];
    }
  }

  /** With v encoded at the front, the whole is well formed exactly when the rest is. */
  lemma WellFormedRest(t: Text, v: nat)
    requires Scalar(v) && StartsWith(t, v)
    ensures WellFormed(t) <==> WellFormed(t[|Encoding(v)|..])
  {
    var e, rest := Encoding(v), t[|Encoding(v)|..];
    assert t == e + rest;
    if WellFormed(rest) {
      var vs :| AllScalar(vs) && EncodeAll(vs) == rest;
      assert ([v] + vs)[1..] == vs;
      assert AllScalar([v] + vs) && EncodeAll([v] + vs) == t;
    }
    if WellFormed(t) {
      var vs :| AllScalar(vs) && EncodeAll(vs) == t;
      assert StartsWith(t, vs[0]);
      PrefixFree(t, v, vs[0]);
      assert EncodeAll(vs[1..]) == rest;
      assert AllScalar(vs[1..]);
    }
  }

  lemma NotWellFormed(t: Text)
    requires t != [] && forall v: nat :: Scalar(v) ==> !StartsWith(t, v)
    ensures !WellFormed(t)
  {
  }

  /** A string is valid exactly when it is the encoding of some scalar values; it may hold zero bytes. */
  method CheckUtf8(s: Text) returns (ok: bool)
    ensures ok <==> WellFormed(s)
  {
    var pos: nat := 0;
    assert s[0..] == s;
    while pos <= |s|
      invariant pos <= |s| + 1
      invariant pos <= |s| ==> (WellFormed(s) <==> WellFormed(s[pos..]))
      invariant pos == |s| + 1 ==> WellFormed(s)
    {
      var r := DecodeOne(s, pos);
      if pos == |s| {
        AtTerminator(s, r);
      } else {
        BeforeTerminator(s, pos, r);
      }
      if r.None? {
        return false;
      }
      pos := r.value.1;
    }
    ok := true;
  }

  lemma AtTerminator(s: Text, r: Option<(nat, nat)>)
    requires Decodes(s, |s|, r)
    ensures r == Some((0, |s| + 1)) && WellFormed(s[|s|..])
  {
    var t := s[|s|..] + [0];
    assert t == [0] && Encoding(0) == [0];
    assert StartsWith(t, 0);
    assert AllScalar([]) && EncodeAll([]) == s[|s|..];
    if r.Some? {
      PrefixFree(t, 0, r.value.0);
    }
  }

  lemma BeforeTerminator(s: Text, pos: nat, r: Option<(nat, nat)>)
    requires pos < |s| && Decodes(s, pos, r)
    ensures r.None? ==> !WellFormed(s[pos..])
    ensures r.Some? ==> pos < r.value.1 <= |s| && (WellFormed(s[pos..]) <==> WellFormed(s[r.value.1..]))
  {
    var t := s[pos..];
    if r.Some? {
      var v := r.value.0;
      WithinString(t, v);
      WellFormedRest(t, v);
      assert t[|Encoding(v)|..] == s[r.value.1..];
    } else {
      forall v: nat | Scalar(v)
        ensures !StartsWith(t, v)
      {
        WithinString(t, v);
      }
      NotWellFormed(t);
    }
  }
}
