/** Base64 as util-src/encodings.c writes and reads it (section 4 of RFC 4648). */
module Base64 {
  import opened Bytes
  import opened Collections

  type Sextet = x: nat | x < 64

  const PAD: Byte := 0x3D

  /** The table: A to Z, a to z, 0 to 9, + and /. */
  function Code(v: Sextet): Byte {
    if v < 26 then 0x41 + v else if v < 52 then 0x61 + v - 26 else if v < 62 then 0x30 + v - 52
    else if v == 62 then 0x2B else 0x2F
  }

  /** The position in the table. */
  function Value(c: Byte): (v: Option<Sextet>)
    ensures v.Some? ==> Code(v.value) == c
  {
    if 0x41 <= c <= 0x5A then Some(c - 0x41) else if 0x61 <= c <= 0x7A then Some(c - 0x61 + 26)
    else if 0x30 <= c <= 0x39 then Some(c - 0x30 + 52) else if c == 0x2B then Some(62)
    else if c == 0x2F then Some(63) else None
  }

  lemma ValueOfCode(v: Sextet)
    ensures Value(Code(v)) == Some(v) && Code(v) != PAD && Code(v) != 0 && !Skipped(Code(v))
  {
  }

  const UPPER := "ABCDEFGHIJKLMNOPQRSTUVWXYZ"
  const LOWER := "abcdefghijklmnopqrstuvwxyz"

  /** The letters of table 1 of RFC 4648, in their order, and the pad. */
  lemma Alphabet(v: Sextet)
    ensures Code(v) as char == (UPPER + LOWER + "0123456789+/")[v]
    ensures PAD as char == '='
  {
    hide Code;
    if v < 26 {
      Uppers(v);
    } else if v < 52 {
      Lowers(v - 26);
    } else {
      Others(v - 52);
    }
  }

  lemma Uppers(i: nat)
    requires i < 26
    ensures Code(i) as char == UPPER[i]
  {
    assert UPPER[i] as int == 0x41 + i;
  }

  lemma Lowers(i: nat)
    requires i < 26
    ensures Code(i + 26) as char == LOWER[i]
  {
    assert LOWER[i] as int == 0x61 + i;
  }

  lemma Others(i: nat)
    requires i < 12
    ensures Code(i + 52) as char == "0123456789+/"[i]
  {
    assert "0123456789+/"[i] as int == Code(i + 52);
  }

  /** Test vectors of section 10 of RFC 4648, one for each number of pads, and a group with the two last letters. */
  lemma TestVectors()
    ensures Encode(Ascii("f")) == Ascii("Zg==") && Encode(Ascii("fo")) == Ascii("Zm8=")
    ensures Encode(Ascii("foo")) == Ascii("Zm9v") && Encode(Ascii("foob")) == Ascii("Zm9vYg==")
    ensures Encode([0xFB, 0xF0, 0x3F]) == Ascii("+/A/")
  {
    VectorGroups();
    LongVectorGroups();
    hide Group;
    assert Ascii("foob")[3..] == [0x62] && Ascii("foo")[3..] == [];
    AsciiConcat("Zm9v", "Yg==");
  }

  lemma VectorGroups()
    ensures Group(0x66, 0, 0, 1) == Ascii("Zg==") && Group(0x66, 0x6F, 0, 2) == Ascii("Zm8=")
    ensures Group(0x62, 0, 0, 1) == Ascii("Yg==")
  {
  }

  lemma LongVectorGroups()
    ensures Group(0x66, 0x6F, 0x6F, 3) == Ascii("Zm9v") && Group(0xFB, 0xF0, 0x3F, 3) == Ascii("+/A/")
  {
    assert Tuple(0x66, 0x6F, 0x6F) == 0x666F6F && Tuple(0xFB, 0xF0, 0x3F) == 0xFBF03F;
    assert 0x666F6F / 262144 % 64 == 25 && 0x666F6F / 4096 % 64 == 38 && 0x666F6F / 64 % 64 == 61;
    assert 0xFBF03F / 262144 % 64 == 62 && 0xFBF03F / 4096 % 64 == 63 && 0xFBF03F / 64 % 64 == 0;
    hide Tuple;
  }

  /** Newline, carriage return, tab, space, form feed and backspace. */
  predicate Skipped(c: Byte) {
    c == 0x0A || c == 0x0D || c == 0x09 || c == 0x20 || c == 0x0C || c == 0x08
  }

  // ---------- Groups ----------

  function Tuple(c1: nat, c2: nat, c3: nat): nat {
    c3 + 256 * (c2 + 256 * c1)
  }

  /** Four characters for n bytes. */
  function Group(c1: Byte, c2: Byte, c3: Byte, n: nat): (g: Text)
    ensures |g| == 4
  {
    var t := Tuple(c1, c2, c3);
    [Code(t / 262144 % 64), Code(t / 4096 % 64),
     if n < 2 then PAD else Code(t / 64 % 64), if n < 3 then PAD else Code(t % 64)]
  }

  function Encode(s: Text): Text {
    if |s| >= 3 then Group(s[0], s[1], s[2], 3) + Encode(s[3..])
    else if |s| == 2 then Group(s[0], s[1], 0, 2)
    else if |s| == 1 then Group(s[0], 0, 0, 1)
    else []
  }

  /** The bytes of up to four sextets: one less than there are. */
  function Ungroup(t: seq<Sextet>): (s: Text)
    requires 1 <= |t| <= 4
    ensures |s| == |t| - 1
  {
    var v := Bits(t[0], if |t| > 1 then t[1] else 0, if |t| > 2 then t[2] else 0, if |t| > 3 then t[3] else 0);
    if |t| == 4 then [v / 65536 % 256, v / 256 % 256, v % 256]
    else if |t| == 3 then [v / 65536 % 256, v / 256 % 256]
    else if |t| == 2 then [v / 65536 % 256]
    else []
  }

  function Bits(a: nat, b: nat, c: nat, d: nat): nat {
    d + 64 * (c + 64 * (b + 64 * a))
  }

  /** The rest of a text, with the sextets of an unfinished group. The text ends at its first zero byte; an unfinished
      group at the end is dropped, at a pad it gives what it holds. */
  function DecodeFrom(s: Text, t: seq<Sextet>): Option<Text>
    requires |t| < 4
    decreases |s|
  {
    if s == [] || s[0] == 0 then Some([])
    else if Skipped(s[0]) then DecodeFrom(s[1..], t)
    else if s[0] == PAD then Before(if t == [] then [] else Ungroup(t), DecodeFrom(s[1..], []))
    else
      var v := Value(s[0]);
      if v.None? then None
      else if |t| == 3 then Before(Ungroup(t + [v.value]), DecodeFrom(s[1..], []))
      else DecodeFrom(s[1..], t + [v.value])
  }

  function Before(s: Text, rest: Option<Text>): Option<Text> {
    if rest.Some? then Some(s + rest.value) else None
  }

  function Decode(s: Text): Option<Text> {
    DecodeFrom(s, [])
  }

  // ---------- Round trip ----------

  lemma {:induction false} RoundTrip(s: Text)
    ensures Decode(Encode(s)) == Some(s)
    decreases |s|
  {
    hide Group, DecodeFrom;
    if s == [] {
      StartDecoding([]);
      EndDecoding([], [], []);
    }
    if |s| >= 3 {
      var g, rest := Group(s[0], s[1], s[2], 3), Encode(s[3..]);
      RoundTrip(s[3..]);
      DecodeGroup(s[0], s[1], s[2], 3, rest);
      assert [s[0], s[1], s[2]][..3] == [s[0], s[1], s[2]];
      assert s == [s[0], s[1], s[2]] + s[3..];
    } else if |s| > 0 {
      var g := Group(s[0], if |s| == 2 then s[1] else 0, 0, |s|);
      DecodeGroup(s[0], if |s| == 2 then s[1] else 0, 0, |s|, []);
      assert g + [] == g;
      EndDecoding([], [], [s[0], if |s| == 2 then s[1] else 0, 0][..|s|]);
      assert [s[0], if |s| == 2 then s[1] else 0, 0][..|s|] == s;
    }
  }

  /** Reading a group gives the bytes it was made of. */
  lemma DecodeGroup(c1: Byte, c2: Byte, c3: Byte, n: nat, rest: Text)
    requires 1 <= n <= 3 && (n < 3 ==> c3 == 0) && (n < 2 ==> c2 == 0)
    ensures DecodeFrom(Group(c1, c2, c3, n) + rest, []) == Before([c1, c2, c3][..n], DecodeFrom(rest, []))
  {
    hide Code, Value, Skipped;
    var g := Group(c1, c2, c3, n);
    var t := Tuple(c1, c2, c3);
    var a, b, c, d: Sextet := t / 262144 % 64, t / 4096 % 64, t / 64 % 64, t % 64;
    ValueOfCode(a); ValueOfCode(b); ValueOfCode(c); ValueOfCode(d);
    var s0 := g + rest;
    var s1, s2, s3 := g[1..] + rest, g[2..] + rest, g[3..] + rest;
    assert s0[1..] == s1 && s1[1..] == s2 && s2[1..] == s3 && s3[1..] == rest;
    assert [] + [a] == [a] && [a] + [b] == [a, b] && [a, b] + [c] == [a, b, c] && [a, b, c] + [d] == [a, b, c, d];
    UngroupGroup(c1, c2, c3, n);
    StepDigit(s0, [], a);
    StepDigit(s1, [a], b);
    if n == 1 {
      StepPad(s2, [a, b]);
      StepPad(s3, []);
    } else if n == 2 {
      StepDigit(s2, [a, b], c);
      StepPad(s3, [a, b, c]);
    } else {
      StepDigit(s2, [a, b], c);
      StepDigit(s3, [a, b, c], d);
    }
  }

  lemma StepDigit(s: Text, t: seq<Sextet>, v: Sextet)
    requires |t| < 4 && s != [] && s[0] == Code(v)
    ensures DecodeFrom(s, t) == if |t| == 3 then Before(Ungroup(t + [v]), DecodeFrom(s[1..], []))
                                else DecodeFrom(s[1..], t + [v])
  {
    ValueOfCode(v);
  }

  lemma StepPad(s: Text, t: seq<Sextet>)
    requires |t| < 4 && s != [] && s[0] == PAD
    ensures DecodeFrom(s, t) == if t == [] then DecodeFrom(s[1..], []) else Before(Ungroup(t), DecodeFrom(s[1..], []))
  {
    var rest := DecodeFrom(s[1..], []);
    assert rest.Some? ==> [] + rest.value == rest.value;
  }

  /** The first sextets of a tuple give back the bytes, since the missing bytes are zero. */
  lemma UngroupGroup(c1: Byte, c2: Byte, c3: Byte, n: nat)
    requires 1 <= n <= 3 && (n < 3 ==> c3 == 0) && (n < 2 ==> c2 == 0)
    ensures var t := Tuple(c1, c2, c3);
            Ungroup([t / 262144 % 64, t / 4096 % 64, t / 64 % 64, t % 64][..n + 1]) == [c1, c2, c3][..n]
  {
    hide Tuple, Bits;
    var t := Tuple(c1, c2, c3);
    TupleSextets(c1, c2, c3);
    TupleBytes(c1, c2, c3);
  }

  lemma TupleSextets(c1: nat, c2: nat, c3: nat)
    requires c1 < 256 && c2 < 256 && c3 < 256
    ensures var t := Tuple(c1, c2, c3);
            && Bits(t / 262144 % 64, t / 4096 % 64, t / 64 % 64, t % 64) == t
            && (c3 == 0 ==> t % 64 == 0) && (c3 == 0 && c2 == 0 ==> t / 64 % 64 == 0)
  {
    var t := Tuple(c1, c2, c3);
    Digit(t);
    Digit(t / 64);
    Digit(t / 64 / 64);
    Quotients(t);
    assert t / 262144 < 64;
    if c3 == 0 {
      ModUnique(t, 4 * (c2 + 256 * c1), 0, 64);
      if c2 == 0 {
        ModUnique(4 * (256 * c1), 16 * c1, 0, 64);
      }
    }
  }

  lemma Digit(v: nat)
    ensures v == 64 * (v / 64) + v % 64
  {
  }

  lemma TupleBytes(c1: nat, c2: nat, c3: nat)
    requires c1 < 256 && c2 < 256 && c3 < 256
    ensures var t := Tuple(c1, c2, c3); t / 65536 % 256 == c1 && t / 256 % 256 == c2 && t % 256 == c3
  {
    var t := Tuple(c1, c2, c3);
    ModUnique(t, c2 + 256 * c1, c3, 256);
    assert t / 65536 == c1;
  }

  // ---------- Whitespace ----------

  /** Without the characters that are skipped. */
  function Strip(s: Text): Text {
    if s == [] then [] else (if Skipped(s[0]) then [] else [s[0]]) + Strip(s[1..])
  }

  /** Skipped characters do not change what is decoded, nor whether it is. */
  lemma {:induction false} DecodeStripped(s: Text, t: seq<Sextet>)
    requires |t| < 4
    ensures DecodeFrom(Strip(s), t) == DecodeFrom(s, t)
    decreases |s|
  {
    if s != [] {
      var rest := Strip(s[1..]);
      if Skipped(s[0]) {
        assert [] + rest == rest;
        DecodeStripped(s[1..], t);
      } else {
        assert ([s[0]] + rest)[1..] == rest;
        DecodeStripped(s[1..], []);
        if s[0] != 0 && s[0] != PAD && Value(s[0]).Some? && |t| < 3 {
          DecodeStripped(s[1..], t + [Value(s[0]).value]);
        }
      }
    }
  }

  lemma {:induction false} StripAppends(s: Text, u: Text)
    ensures Strip(s + u) == Strip(s) + Strip(u)
  {
    if s == [] {
      assert s + u == u;
    } else {
      assert (s + u)[1..] == s[1..] + u;
      StripAppends(s[1..], u);
    }
  }

  /** Whitespace put in anywhere makes no difference, in any text. */
  lemma WhitespaceAnywhere(s: Text, u: Text, w: Text)
    requires forall c :: c in w ==> Skipped(c)
    ensures Decode(s + w + u) == Decode(s + u)
  {
    StripAppends(s + w, u);
    StripAppends(s, w);
    StripAppends(s, u);
    StripNothing(w);
    DecodeStripped(s + w + u, []);
    DecodeStripped(s + u, []);
    assert Strip(s) + [] == Strip(s);
  }

  lemma {:induction false} StripNothing(w: Text)
    requires forall c :: c in w ==> Skipped(c)
    ensures Strip(w) == []
  {
    if w != [] {
      StripNothing(w[1..]);
    }
  }

  /** Up to the first zero byte, or all of it. */
  function CString(s: Text): Text {
    if s == [] || s[0] == 0 then [] else [s[0]] + CString(s[1..])
  }

  /** Only characters of the table, pads and whitespace are decoded, and any text of those is. */
  lemma {:induction false} DecodesWhen(s: Text, t: seq<Sextet>)
    requires |t| < 4
    ensures DecodeFrom(s, t).Some? <==> forall c :: c in CString(s) ==> Value(c).Some? || c == PAD || Skipped(c)
    decreases |s|
  {
    if s != [] && s[0] != 0 {
      var v := Value(s[0]);
      assert forall c :: c in CString(s) <==> c == s[0] || c in CString(s[1..]);
      DecodesWhen(s[1..], t);
      DecodesWhen(s[1..], []);
      if v.Some? && |t| < 3 {
        DecodesWhen(s[1..], t + [v.value]);
      }
    }
  }

  /** The same in letters: newline, carriage return, tab, space, form feed and backspace are skipped. */
  lemma DecodesExactly(s: Text)
    ensures Decode(s).Some? <==>
              forall c :: c in CString(s) ==>
                c as char in UPPER || c as char in LOWER || c as char in "0123456789+/="
                || c in {0x0A, 0x0D, 0x09, 0x20, 0x0C, 0x08}
  {
    DecodesWhen(s, []);
    forall c: Byte
      ensures Value(c).Some? || c == PAD || Skipped(c)
              <==> c as char in UPPER || c as char in LOWER || c as char in "0123456789+/="
                   || c in {0x0A, 0x0D, 0x09, 0x20, 0x0C, 0x08}
    {
      InAlphabet(c);
    }
    hide *;
  }

  lemma InAlphabet(c: Byte)
    ensures Value(c).Some? || c == PAD || Skipped(c)
            <==> c as char in UPPER || c as char in LOWER || c as char in "0123456789+/="
                 || c in {0x0A, 0x0D, 0x09, 0x20, 0x0C, 0x08}
  {
    if Value(c).Some? {
      var v := Value(c).value;
      if v < 26 {
        Uppers(v);
      } else if v < 52 {
        Lowers(v - 26);
      } else {
        Others(v - 52);
      }
    }
  }

  // ---------- The loops ----------

  /** The four characters of a whole group stand for the same 24 bits as its three bytes, the highest first. */
  lemma GroupKeepsBits(c1: Byte, c2: Byte, c3: Byte)
    ensures var g := Group(c1, c2, c3, 3);
            && (forall i :: 0 <= i < 4 ==> Value(g[i]).Some?)
            && Bits(Value(g[0]).value, Value(g[1]).value, Value(g[2]).value, Value(g[3]).value) == Tuple(c1, c2, c3)
  {
    hide Code, Value, Tuple, Bits;
    var t := Tuple(c1, c2, c3);
    ValueOfCode(t / 262144 % 64);
    ValueOfCode(t / 4096 % 64);
    ValueOfCode(t / 64 % 64);
    ValueOfCode(t % 64);
    TupleSextets(c1, c2, c3);
  }

  /** Four characters, from the last one to the first, and then the pads. */
  method EncodeGroup(c1: Byte, c2: Byte, c3: Byte, n: nat) returns (g: Text)
    requires 1 <= n <= 3
    ensures g == Group(c1, c2, c3, n)
  {
    hide Code, Tuple;
    ghost var t := Tuple(c1, c2, c3);
    var tuple := Tuple(c1, c2, c3);
    var s := new Byte[4](_ => 0);
    for i := 0 to 4
      invariant tuple == (if i == 0 then t else if i == 1 then t / 64 else if i == 2 then t / 4096
                          else if i == 3 then t / 262144 else t / 16777216)
      invariant i > 0 ==> s[3] == Code(t % 64)
      invariant i > 1 ==> s[2] == Code(t / 64 % 64)
      invariant i > 2 ==> s[1] == Code(t / 4096 % 64)
      invariant i > 3 ==> s[0] == Code(t / 262144 % 64)
    {
      s[3 - i] := Code(tuple % 64);
      Quotients(t);
      tuple := tuple / 64;
    }
    for i := n + 1 to 4
      invariant s[0] == Code(t / 262144 % 64) && s[1] == Code(t / 4096 % 64)
      invariant s[2] == if n < 2 && i > 2 then PAD else Code(t / 64 % 64)
      invariant s[3] == if n < 3 && i > 3 then PAD else Code(t % 64)
    {
      s[i] := PAD;
    }
    g := s[..];
    assert g == [s[0], s[1], s[2], s[3]];
  }

  lemma Quotients(t: nat)
    ensures t / 64 / 64 == t / 4096 && t / 4096 / 64 == t / 262144 && t / 262144 / 64 == t / 16777216
  {
  }

  lemma DivMod3(n: nat)
    ensures n == n / 3 * 3 + n % 3
  {
  }

  method EncodeText(s: Text) returns (r: Text)
    ensures r == Encode(s)
  {
    hide Group;
    r := [];
    var pos: nat, n: nat := 0, |s| / 3;
    DivMod3(|s|);
    assert s[0..] == s;
    while n > 0
      invariant pos + 3 * n == |s| / 3 * 3
      invariant r + Encode(s[pos..]) == Encode(s)
    {
      var g := EncodeGroup(s[pos], s[pos + 1], s[pos + 2], 3);
      assert s[pos..][3..] == s[pos + 3..];
      assert r + (g + Encode(s[pos + 3..])) == r + g + Encode(s[pos + 3..]);
      r := r + g;
      n := n - 1;
      pos := pos + 3;
    }
    DivMod3(|s|);
    assert |s| % 3 == |s| - pos;
    if |s| % 3 == 1 {
      var g := EncodeGroup(s[pos], 0, 0, 1);
      r := r + g;
    } else if |s| % 3 == 2 {
      var g := EncodeGroup(s[pos], s[pos + 1], 0, 2);
      r := r + g;
    } else {
      assert r + [] == r;
    }
  }

  method DecodeText(s: Text) returns (r: Option<Text>)
    ensures r == Decode(s)
  {
    hide DecodeFrom, Value, Skipped, Ungroup;
    var out: Text, pos: nat, n: nat := [], 0, 0;
    var t := new Sextet[4](_ => 0);
    assert s[0..] == s && t[..0] == [];
    StartDecoding(s);
    while pos < |s| && s[pos] != 0
      invariant pos <= |s| && n < 4
      invariant Decode(s) == Before(out, DecodeFrom(s[pos..], t[..n]))
      decreases |s| - pos
    {
      var c := s[pos];
      assert s[pos..][1..] == s[pos + 1..];
      DecodeStep(s[pos..], t[..n], out);
      pos := pos + 1;
      if c == PAD {
        if n > 0 {
          out := out + Ungroup(t[..n]);
        }
        n := 0;
      } else if !Skipped(c) {
        var v := Value(c);
        if v.None? {
          return None;
        }
        ghost var before := t[..n];
        t[n] := v.value;
        n := n + 1;
        assert t[..n] == before + [v.value];
        if n == 4 {
          out := out + Ungroup(t[..]);
          assert t[..] == t[..4];
          n := 0;
        }
      }
      assert t[..0] == [];
    }
    EndDecoding(s[pos..], t[..n], out);
    r := Some(out);
  }

  lemma StartDecoding(s: Text)
    ensures Before([], DecodeFrom(s, [])) == Decode(s)
  {
    var r := DecodeFrom(s, []);
    assert r.Some? ==> [] + r.value == r.value;
  }

  lemma EndDecoding(s: Text, t: seq<Sextet>, out: Text)
    requires |t| < 4 && (s == [] || s[0] == 0)
    ensures Before(out, DecodeFrom(s, t)) == Some(out)
  {
    assert out + [] == out;
  }

  /** One character. */
  lemma DecodeStep(s: Text, t: seq<Sextet>, out: Text)
    requires |t| < 4 && s != [] && s[0] != 0
    ensures var c, rest := s[0], s[1..];
            Before(out, DecodeFrom(s, t))
            == if c == PAD then Before(if t == [] then out else out + Ungroup(t), DecodeFrom(rest, []))
               else if Skipped(c) then Before(out, DecodeFrom(rest, t))
               else if Value(c).None? then None
               else if |t| == 3 then Before(out + Ungroup(t + [Value(c).value]), DecodeFrom(rest, []))
               else Before(out, DecodeFrom(rest, t + [Value(c).value]))
  {
    hide Ungroup, Value, Before;
    var r := DecodeFrom(s[1..], []);
    BeforeTwice(out, if t == [] then [] else Ungroup(t), r);
    assert out + [] == out;
    if |t| == 3 && Value(s[0]).Some? {
      BeforeTwice(out, Ungroup(t + [Value(s[0]).value]), r);
    }
    assert Before(out, None) == None by { BeforeNothing(out); }
  }

  lemma BeforeTwice(s: Text, u: Text, r: Option<Text>)
    ensures Before(s, Before(u, r)) == Before(s + u, r)
  {
    if r.Some? {
      assert s + (u + r.value) == s + u + r.value;
    }
  }

  lemma BeforeNothing(s: Text)
    ensures Before(s, None) == None
  {
  }
}
