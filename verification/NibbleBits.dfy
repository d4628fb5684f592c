/** The bit operations of fallbacks/bit.lua: eight nibbles, table by table. */
module NibbleBits {
  import opened Bytes

  type Nibble = x: nat | x < 16

  const WORD: nat := 0x1_0000_0000

  // ---------- The tables ----------

  /** Sixteen entries of a table. */
  datatype Row = Row(e0: nat, e1: nat, e2: nat, e3: nat, e4: nat, e5: nat, e6: nat, e7: nat,
                     e8: nat, e9: nat, e10: nat, e11: nat, e12: nat, e13: nat, e14: nat, e15: nat)

  function Pick(i: nat, r: Row): nat {
    match i
    case 0 => r.e0 case 1 => r.e1 case 2 => r.e2 case 3 => r.e3
    case 4 => r.e4 case 5 => r.e5 case 6 => r.e6 case 7 => r.e7
    case 8 => r.e8 case 9 => r.e9 case 10 => r.e10 case 11 => r.e11
    case 12 => r.e12 case 13 => r.e13 case 14 => r.e14 case _ => r.e15
  }

  /** Exclusive or of the high and the low nibble of the key. */
  function XorMap(k: nat): nat {
    Pick(k % 16, XorRow(k / 16))
  }

  function XorRow(a: nat): Row {
    match a
    case 0 => Row(0, 1, 2, 3, 4, 5, 6, 7, 8, 9, 10, 11, 12, 13, 14, 15)
    case 1 => Row(1, 0, 3, 2, 5, 4, 7, 6, 9, 8, 11, 10, 13, 12, 15, 14)
    case 2 => Row(2, 3, 0, 1, 6, 7, 4, 5, 10, 11, 8, 9, 14, 15, 12, 13)
    case 3 => Row(3, 2, 1, 0, 7, 6, 5, 4, 11, 10, 9, 8, 15, 14, 13, 12)
    case 4 => Row(4, 5, 6, 7, 0, 1, 2, 3, 12, 13, 14, 15, 8, 9, 10, 11)
    case 5 => Row(5, 4, 7, 6, 1, 0, 3, 2, 13, 12, 15, 14, 9, 8, 11, 10)
    case 6 => Row(6, 7, 4, 5, 2, 3, 0, 1, 14, 15, 12, 13, 10, 11, 8, 9)
    case 7 => Row(7, 6, 5, 4, 3, 2, 1, 0, 15, 14, 13, 12, 11, 10, 9, 8)
    case 8 => Row(8, 9, 10, 11, 12, 13, 14, 15, 0, 1, 2, 3, 4, 5, 6, 7)
    case 9 => Row(9, 8, 11, 10, 13, 12, 15, 14, 1, 0, 3, 2, 5, 4, 7, 6)
    case 10 => Row(10, 11, 8, 9, 14, 15, 12, 13, 2, 3, 0, 1, 6, 7, 4, 5)
    case 11 => Row(11, 10, 9, 8, 15, 14, 13, 12, 3, 2, 1, 0, 7, 6, 5, 4)
    case 12 => Row(12, 13, 14, 15, 8, 9, 10, 11, 4, 5, 6, 7, 0, 1, 2, 3)
    case 13 => Row(13, 12, 15, 14, 9, 8, 11, 10, 5, 4, 7, 6, 1, 0, 3, 2)
    case 14 => Row(14, 15, 12, 13, 10, 11, 8, 9, 6, 7, 4, 5, 2, 3, 0, 1)
    case _ => Row(15, 14, 13, 12, 11, 10, 9, 8, 7, 6, 5, 4, 3, 2, 1, 0)
  }

  /** Or of the two nibbles. */
  function OrMap(k: nat): nat {
    Pick(k % 16, OrRow(k / 16))
  }

  function OrRow(a: nat): Row {
    match a
    case 0 => Row(0, 1, 2, 3, 4, 5, 6, 7, 8, 9, 10, 11, 12, 13, 14, 15)
    case 1 => Row(1, 1, 3, 3, 5, 5, 7, 7, 9, 9, 11, 11, 13, 13, 15, 15)
    case 2 => Row(2, 3, 2, 3, 6, 7, 6, 7, 10, 11, 10, 11, 14, 15, 14, 15)
    case 3 => Row(3, 3, 3, 3, 7, 7, 7, 7, 11, 11, 11, 11, 15, 15, 15, 15)
    case 4 => Row(4, 5, 6, 7, 4, 5, 6, 7, 12, 13, 14, 15, 12, 13, 14, 15)
    case 5 => Row(5, 5, 7, 7, 5, 5, 7, 7, 13, 13, 15, 15, 13, 13, 15, 15)
    case 6 => Row(6, 7, 6, 7, 6, 7, 6, 7, 14, 15, 14, 15, 14, 15, 14, 15)
    case 7 => Row(7, 7, 7, 7, 7, 7, 7, 7, 15, 15, 15, 15, 15, 15, 15, 15)
    case 8 => Row(8, 9, 10, 11, 12, 13, 14, 15, 8, 9, 10, 11, 12, 13, 14, 15)
    case 9 => Row(9, 9, 11, 11, 13, 13, 15, 15, 9, 9, 11, 11, 13, 13, 15, 15)
    case 10 => Row(10, 11, 10, 11, 14, 15, 14, 15, 10, 11, 10, 11, 14, 15, 14, 15)
    case 11 => Row(11, 11, 11, 11, 15, 15, 15, 15, 11, 11, 11, 11, 15, 15, 15, 15)
    case 12 => Row(12, 13, 14, 15, 12, 13, 14, 15, 12, 13, 14, 15, 12, 13, 14, 15)
    case 13 => Row(13, 13, 15, 15, 13, 13, 15, 15, 13, 13, 15, 15, 13, 13, 15, 15)
    case 14 => Row(14, 15, 14, 15, 14, 15, 14, 15, 14, 15, 14, 15, 14, 15, 14, 15)
    case _ => Row(15, 15, 15, 15, 15, 15, 15, 15, 15, 15, 15, 15, 15, 15, 15, 15)
  }

  /** And of the two nibbles. */
  function AndMap(k: nat): nat {
    Pick(k % 16, AndRow(k / 16))
  }

  function AndRow(a: nat): Row {
    match a
    case 0 => Row(0, 0, 0, 0, 0, 0, 0, 0, 0, 0, 0, 0, 0, 0, 0, 0)
    case 1 => Row(0, 1, 0, 1, 0, 1, 0, 1, 0, 1, 0, 1, 0, 1, 0, 1)
    case 2 => Row(0, 0, 2, 2, 0, 0, 2, 2, 0, 0, 2, 2, 0, 0, 2, 2)
    case 3 => Row(0, 1, 2, 3, 0, 1, 2, 3, 0, 1, 2, 3, 0, 1, 2, 3)
    case 4 => Row(0, 0, 0, 0, 4, 4, 4, 4, 0, 0, 0, 0, 4, 4, 4, 4)
    case 5 => Row(0, 1, 0, 1, 4, 5, 4, 5, 0, 1, 0, 1, 4, 5, 4, 5)
    case 6 => Row(0, 0, 2, 2, 4, 4, 6, 6, 0, 0, 2, 2, 4, 4, 6, 6)
    case 7 => Row(0, 1, 2, 3, 4, 5, 6, 7, 0, 1, 2, 3, 4, 5, 6, 7)
    case 8 => Row(0, 0, 0, 0, 0, 0, 0, 0, 8, 8, 8, 8, 8, 8, 8, 8)
    case 9 => Row(0, 1, 0, 1, 0, 1, 0, 1, 8, 9, 8, 9, 8, 9, 8, 9)
    case 10 => Row(0, 0, 2, 2, 0, 0, 2, 2, 8, 8, 10, 10, 8, 8, 10, 10)
    case 11 => Row(0, 1, 2, 3, 0, 1, 2, 3, 8, 9, 10, 11, 8, 9, 10, 11)
    case 12 => Row(0, 0, 0, 0, 4, 4, 4, 4, 8, 8, 8, 8, 12, 12, 12, 12)
    case 13 => Row(0, 1, 0, 1, 4, 5, 4, 5, 8, 9, 8, 9, 12, 13, 12, 13)
    case 14 => Row(0, 0, 2, 2, 4, 4, 6, 6, 8, 8, 10, 10, 12, 12, 14, 14)
    case _ => Row(0, 1, 2, 3, 4, 5, 6, 7, 8, 9, 10, 11, 12, 13, 14, 15)
  }

  /** The complement. */
  function NotMap(n: nat): nat {
    Pick(n, Row(15, 14, 13, 12, 11, 10, 9, 8, 7, 6, 5, 4, 3, 2, 1, 0))
  }

  /** Shifted right by one. */
  function RightMap(n: nat): nat {
    Pick(n, Row(0, 0, 1, 1, 2, 2, 3, 3, 4, 4, 5, 5, 6, 6, 7, 7))
  }

  /** The lowest bit as the highest of the next nibble. */
  function RightCarryMap(n: nat): nat {
    Pick(n, Row(0, 8, 0, 8, 0, 8, 0, 8, 0, 8, 0, 8, 0, 8, 0, 8))
  }

  /** Shifted left by one within the nibble. */
  function LeftMap(n: nat): nat {
    Pick(n, Row(0, 2, 4, 6, 8, 10, 12, 14, 0, 2, 4, 6, 8, 10, 12, 14))
  }

  /** The highest bit as the lowest of the next nibble. */
  function LeftCarryMap(n: nat): nat {
    Pick(n, Row(0, 0, 0, 0, 0, 0, 0, 0, 1, 1, 1, 1, 1, 1, 1, 1))
  }

  /** The highest bit where it is. */
  function SignCarryMap(n: nat): nat {
    Pick(n, Row(0, 0, 0, 0, 0, 0, 0, 0, 8, 8, 8, 8, 8, 8, 8, 8))
  }

  // ---------- The tables are right ----------

  /** The nibble with these bits, lowest first. */
  function Num(w: bool, x: bool, y: bool, z: bool): (n: nat)
    ensures n < 16
  {
    (if w then 1 else 0) + (if x then 2 else 0) + (if y then 4 else 0) + (if z then 8 else 0)
  }

  lemma XorTable(a0: bool, a1: bool, a2: bool, a3: bool, b0: bool, b1: bool, b2: bool, b3: bool)
    ensures Pick(Num(b0, b1, b2, b3), XorRow(Num(a0, a1, a2, a3))) == Num(a0 != b0, a1 != b1, a2 != b2, a3 != b3)
  {
  }

  lemma OrTable(a0: bool, a1: bool, a2: bool, a3: bool, b0: bool, b1: bool, b2: bool, b3: bool)
    ensures Pick(Num(b0, b1, b2, b3), OrRow(Num(a0, a1, a2, a3))) == Num(a0 || b0, a1 || b1, a2 || b2, a3 || b3)
  {
  }

  lemma AndTable(a0: bool, a1: bool, a2: bool, a3: bool, b0: bool, b1: bool, b2: bool, b3: bool)
    ensures Pick(Num(b0, b1, b2, b3), AndRow(Num(a0, a1, a2, a3))) == Num(a0 && b0, a1 && b1, a2 && b2, a3 && b3)
  {
  }

  // ---------- Words ----------

  predicate IsWord(t: seq<nat>) {
    |t| == 8 && forall i :: 0 <= i < 8 ==> t[i] < 16
  }

  /** The number whose nibbles these are, highest first. */
  function ToNat(t: seq<nat>): nat {
    if t == [] then 0 else 16 * ToNat(t[..|t| - 1]) + t[|t| - 1]
  }

  function Pow16(k: nat): (r: nat)
    ensures r > 0
  {
    if k == 0 then 1 else 16 * Pow16(k - 1)
  }

  lemma {:induction false} ToNatBound(t: seq<nat>)
    requires forall i :: 0 <= i < |t| ==> t[i] < 16
    ensures ToNat(t) < Pow16(|t|)
  {
    if t != [] {
      ToNatBound(t[..|t| - 1]);
    }
  }

  lemma EightNibbles()
    ensures Pow16(8) == WORD && Pow16(4) == 0x10000 && Pow16(7) == 0x1000_0000
  {
    assert Pow16(2) == 256 && Pow16(4) == 256 * 256;
    assert Pow16(6) == 256 * Pow16(4) && Pow16(8) == 256 * Pow16(6);
  }

  lemma Snoc(t: seq<nat>, i: nat)
    requires i < |t|
    ensures ToNat(t[..i + 1]) == 16 * ToNat(t[..i]) + t[i]
  {
    assert t[..i + 1][..i] == t[..i];
  }

  // ---------- Bitwise operations ----------

  /** A table applied to each pair of nibbles. */
  function Bop(a: seq<nat>, b: seq<nat>, op: nat -> nat): (t: seq<nat>)
    requires IsWord(a) && IsWord(b)
    ensures |t| == 8 && forall i :: 0 <= i < 8 ==> t[i] == op(a[i] * 16 + b[i])
  {
    [op(a[0] * 16 + b[0]), op(a[1] * 16 + b[1]), op(a[2] * 16 + b[2]), op(a[3] * 16 + b[3]),
     op(a[4] * 16 + b[4]), op(a[5] * 16 + b[5]), op(a[6] * 16 + b[6]), op(a[7] * 16 + b[7])]
  }

  function Uop(a: seq<nat>, op: nat -> nat): (t: seq<nat>)
    requires IsWord(a)
    ensures |t| == 8 && forall i :: 0 <= i < 8 ==> t[i] == op(a[i])
  {
    [op(a[0]), op(a[1]), op(a[2]), op(a[3]), op(a[4]), op(a[5]), op(a[6]), op(a[7])]
  }

  /** A number with one more bit at the low end. */
  function Cons(p: bool, v: nat): nat {
    2 * v + if p then 1 else 0
  }

  lemma NibbleBitsOf(a: nat) returns (w: bool, x: bool, y: bool, z: bool)
    requires a < 16
    ensures a == Num(w, x, y, z)
  {
    w, x, y, z := a % 2 == 1, a / 2 % 2 == 1, a / 4 % 2 == 1, a / 8 == 1;
  }

  lemma Halves(p: bool, v: nat)
    ensures Cons(p, v) / 2 == v && Cons(p, v) % 2 == if p then 1 else 0
  {
  }

  lemma XorBit(p: bool, q: bool, x: nat, y: nat)
    ensures Xor(Cons(p, x), Cons(q, y)) == Cons(p != q, Xor(x, y))
  {
    hide Xor;
    Halves(p, x);
    Halves(q, y);
    XorParity(Cons(p, x), Cons(q, y));
  }

  lemma OrBit(p: bool, q: bool, x: nat, y: nat)
    ensures Or(Cons(p, x), Cons(q, y)) == Cons(p || q, Or(x, y))
  {
    hide Or;
    Halves(p, x);
    Halves(q, y);
    OrStep(Cons(p, x), Cons(q, y));
  }

  lemma AndBit(p: bool, q: bool, x: nat, y: nat)
    ensures And(Cons(p, x), Cons(q, y)) == Cons(p && q, And(x, y))
  {
    hide And;
    Halves(p, x);
    Halves(q, y);
    AndStep(Cons(p, x), Cons(q, y));
  }

  lemma XorNibble(x: nat, y: nat, a: nat, b: nat)
    requires a < 16 && b < 16
    ensures XorMap(a * 16 + b) < 16 && Xor(16 * x + a, 16 * y + b) == 16 * Xor(x, y) + XorMap(a * 16 + b)
  {
    hide XorRow, Pick, Num, Xor, Cons;
    var a0, a1, a2, a3 := NibbleBitsOf(a);
    var b0, b1, b2, b3 := NibbleBitsOf(b);
    XorTable(a0, a1, a2, a3, b0, b1, b2, b3);
    XorBit(a3, b3, x, y);
    XorBit(a2, b2, Cons(a3, x), Cons(b3, y));
    XorBit(a1, b1, Cons(a2, Cons(a3, x)), Cons(b2, Cons(b3, y)));
    XorBit(a0, b0, Cons(a1, Cons(a2, Cons(a3, x))), Cons(b1, Cons(b2, Cons(b3, y))));
    NumIsCons(a0, a1, a2, a3, x);
    NumIsCons(b0, b1, b2, b3, y);
    NumIsCons(a0 != b0, a1 != b1, a2 != b2, a3 != b3, Xor(x, y));
    Key(a, b);
  }

  lemma OrNibble(x: nat, y: nat, a: nat, b: nat)
    requires a < 16 && b < 16
    ensures OrMap(a * 16 + b) < 16 && Or(16 * x + a, 16 * y + b) == 16 * Or(x, y) + OrMap(a * 16 + b)
  {
    hide OrRow, Pick, Num, Or, Cons;
    var a0, a1, a2, a3 := NibbleBitsOf(a);
    var b0, b1, b2, b3 := NibbleBitsOf(b);
    OrTable(a0, a1, a2, a3, b0, b1, b2, b3);
    OrBit(a3, b3, x, y);
    OrBit(a2, b2, Cons(a3, x), Cons(b3, y));
    OrBit(a1, b1, Cons(a2, Cons(a3, x)), Cons(b2, Cons(b3, y)));
    OrBit(a0, b0, Cons(a1, Cons(a2, Cons(a3, x))), Cons(b1, Cons(b2, Cons(b3, y))));
    NumIsCons(a0, a1, a2, a3, x);
    NumIsCons(b0, b1, b2, b3, y);
    NumIsCons(a0 || b0, a1 || b1, a2 || b2, a3 || b3, Or(x, y));
    Key(a, b);
  }

  lemma AndNibble(x: nat, y: nat, a: nat, b: nat)
    requires a < 16 && b < 16
    ensures AndMap(a * 16 + b) < 16 && And(16 * x + a, 16 * y + b) == 16 * And(x, y) + AndMap(a * 16 + b)
  {
    hide AndRow, Pick, Num, And, Cons;
    var a0, a1, a2, a3 := NibbleBitsOf(a);
    var b0, b1, b2, b3 := NibbleBitsOf(b);
    AndTable(a0, a1, a2, a3, b0, b1, b2, b3);
    AndBit(a3, b3, x, y);
    AndBit(a2, b2, Cons(a3, x), Cons(b3, y));
    AndBit(a1, b1, Cons(a2, Cons(a3, x)), Cons(b2, Cons(b3, y)));
    AndBit(a0, b0, Cons(a1, Cons(a2, Cons(a3, x))), Cons(b1, Cons(b2, Cons(b3, y))));
    NumIsCons(a0, a1, a2, a3, x);
    NumIsCons(b0, b1, b2, b3, y);
    NumIsCons(a0 && b0, a1 && b1, a2 && b2, a3 && b3, And(x, y));
    Key(a, b);
  }

  lemma NumIsCons(w: bool, x: bool, y: bool, z: bool, v: nat)
    ensures Cons(w, Cons(x, Cons(y, Cons(z, v)))) == 16 * v + Num(w, x, y, z)
  {
  }

  lemma Key(a: nat, b: nat)
    requires a < 16 && b < 16
    ensures (a * 16 + b) / 16 == a && (a * 16 + b) % 16 == b
  {
  }

  lemma NoNibbles(t: seq<nat>)
    ensures ToNat(t[..0]) == 0 && Xor(0, 0) == 0 && Or(0, 0) == 0 && And(0, 0) == 0
  {
    assert t[..0] == [];
  }

  lemma {:induction false} XorWords(a: seq<nat>, b: seq<nat>, t: seq<nat>, i: nat)
    requires IsWord(a) && IsWord(b) && i <= 8
    requires |t| == 8 && forall k :: 0 <= k < 8 ==> t[k] == XorMap(a[k] * 16 + b[k])
    ensures ToNat(t[..i]) == Xor(ToNat(a[..i]), ToNat(b[..i]))
    ensures forall k :: 0 <= k < i ==> t[k] < 16
  {
    hide XorMap, XorRow, Pick, Xor, ToNat;
    if i == 0 {
      NoNibbles(a);
      NoNibbles(b);
      NoNibbles(t);
    } else {
      XorWords(a, b, t, i - 1);
      Snoc(a, i - 1);
      Snoc(b, i - 1);
      Snoc(t, i - 1);
      XorNibble(ToNat(a[..i - 1]), ToNat(b[..i - 1]), a[i - 1], b[i - 1]);
    }
  }

  lemma XorWord(a: seq<nat>, b: seq<nat>)
    requires IsWord(a) && IsWord(b)
    ensures var t := Bop(a, b, XorMap);
            IsWord(t) && ToNat(t) == Xor(ToNat(a), ToNat(b))
  {
    hide XorMap, Xor, Bop, ToNat;
    var t := Bop(a, b, XorMap);
    XorWords(a, b, t, 8);
    assert a[..8] == a && b[..8] == b && t[..8] == t;
  }

  lemma {:induction false} OrWords(a: seq<nat>, b: seq<nat>, t: seq<nat>, i: nat)
    requires IsWord(a) && IsWord(b) && i <= 8
    requires |t| == 8 && forall k :: 0 <= k < 8 ==> t[k] == OrMap(a[k] * 16 + b[k])
    ensures ToNat(t[..i]) == Or(ToNat(a[..i]), ToNat(b[..i]))
    ensures forall k :: 0 <= k < i ==> t[k] < 16
  {
    hide OrMap, OrRow, Pick, Or, ToNat;
    if i == 0 {
      NoNibbles(a);
      NoNibbles(b);
      NoNibbles(t);
    } else {
      OrWords(a, b, t, i - 1);
      Snoc(a, i - 1);
      Snoc(b, i - 1);
      Snoc(t, i - 1);
      OrNibble(ToNat(a[..i - 1]), ToNat(b[..i - 1]), a[i - 1], b[i - 1]);
    }
  }

  lemma OrWord(a: seq<nat>, b: seq<nat>)
    requires IsWord(a) && IsWord(b)
    ensures var t := Bop(a, b, OrMap);
            IsWord(t) && ToNat(t) == Or(ToNat(a), ToNat(b))
  {
    hide OrMap, Or, Bop, ToNat;
    var t := Bop(a, b, OrMap);
    OrWords(a, b, t, 8);
    assert a[..8] == a && b[..8] == b && t[..8] == t;
  }

  lemma {:induction false} AndWords(a: seq<nat>, b: seq<nat>, t: seq<nat>, i: nat)
    requires IsWord(a) && IsWord(b) && i <= 8
    requires |t| == 8 && forall k :: 0 <= k < 8 ==> t[k] == AndMap(a[k] * 16 + b[k])
    ensures ToNat(t[..i]) == And(ToNat(a[..i]), ToNat(b[..i]))
    ensures forall k :: 0 <= k < i ==> t[k] < 16
  {
    hide AndMap, AndRow, Pick, And, ToNat;
    if i == 0 {
      NoNibbles(a);
      NoNibbles(b);
      NoNibbles(t);
    } else {
      AndWords(a, b, t, i - 1);
      Snoc(a, i - 1);
      Snoc(b, i - 1);
      Snoc(t, i - 1);
      AndNibble(ToNat(a[..i - 1]), ToNat(b[..i - 1]), a[i - 1], b[i - 1]);
    }
  }

  lemma AndWord(a: seq<nat>, b: seq<nat>)
    requires IsWord(a) && IsWord(b)
    ensures var t := Bop(a, b, AndMap);
            IsWord(t) && ToNat(t) == And(ToNat(a), ToNat(b))
  {
    hide AndMap, And, Bop, ToNat;
    var t := Bop(a, b, AndMap);
    AndWords(a, b, t, 8);
    assert a[..8] == a && b[..8] == b && t[..8] == t;
  }

  lemma {:induction false} NotWords(a: seq<nat>, t: seq<nat>, i: nat)
    requires IsWord(a) && i <= 8
    requires |t| == 8 && forall k :: 0 <= k < 8 ==> t[k] == NotMap(a[k])
    ensures ToNat(t[..i]) == Pow16(i) - 1 - ToNat(a[..i])
    ensures forall k :: 0 <= k < i ==> t[k] < 16
  {
    hide ToNat, NotMap;
    if i == 0 {
      NoNibbles(a);
      NoNibbles(t);
    } else {
      NotWords(a, t, i - 1);
      Snoc(a, i - 1);
      Snoc(t, i - 1);
      NotNibble(a[i - 1]);
    }
  }

  lemma NotNibble(n: nat)
    requires n < 16
    ensures NotMap(n) == 15 - n
  {
  }

  lemma NotWord(a: seq<nat>)
    requires IsWord(a)
    ensures var t := Uop(a, NotMap);
            IsWord(t) && ToNat(t) == WORD - 1 - ToNat(a)
  {
    hide NotMap, Uop, ToNat;
    var t := Uop(a, NotMap);
    NotWords(a, t, 8);
    EightNibbles();
    assert a[..8] == a && t[..8] == t;
  }

  // ---------- Shifts by one ----------

  lemma {:induction false} HighFirst(t: seq<nat>)
    requires t != []
    ensures ToNat(t) == t[0] * Pow16(|t| - 1) + ToNat(t[1..])
  {
    if |t| > 1 {
      var init := t[..|t| - 1];
      HighFirst(init);
      assert init[1..] == t[1..][..|t| - 2];
      assert 16 * (t[0] * Pow16(|t| - 2)) == t[0] * Pow16(|t| - 1);
    } else {
      assert t[..0] == [] && t[1..] == [];
    }
  }

  lemma SmallTables(n: nat)
    requires n < 16
    ensures RightMap(n) == n / 2 && RightCarryMap(n) == 8 * (n % 2)
    ensures LeftMap(n) == 2 * n % 16 && LeftCarryMap(n) == 2 * n / 16
    ensures SignCarryMap(n) == 8 * (n / 8)
  {
  }

  lemma StepRight(w: nat, n: nat)
    ensures (16 * w + n) / 2 == 16 * (w / 2) + 8 * (w % 2) + n / 2 && (16 * w + n) % 2 == n % 2
  {
  }

  /** Right by one in place; the first carry is the new highest bit. */
  method ShiftRight1(t: array<nat>, first: nat)
    requires t.Length == 8 && IsWord(t[..]) && (first == 0 || first == 8)
    modifies t
    ensures IsWord(t[..]) && ToNat(t[..]) == (ToNat(old(t[..])) + (if first == 8 then WORD else 0)) / 2
  {
    hide ToNat, RightMap, RightCarryMap;
    ghost var o := t[..];
    ghost var s := if first == 8 then 1 else 0;
    var carry := first;
    EmptyIsZero(o);
    for i := 0 to 8
      invariant t[i..] == o[i..]
      invariant forall k :: 0 <= k < i ==> t[k] < 16
      invariant ToNat(t[..i]) == (ToNat(o[..i]) + s * Pow16(i)) / 2
      invariant carry == 8 * ((ToNat(o[..i]) + s * Pow16(i)) % 2)
    {
      assert t[i] == o[i];
      SmallTables(o[i]);
      StepRight(ToNat(o[..i]) + s * Pow16(i), o[i]);
      Snoc(o, i);
      var shifted := RightMap(t[i]) + carry;
      carry := RightCarryMap(t[i]);
      ghost var done := t[..i];
      t[i] := shifted;
      assert t[..i] == done && t[..i + 1] == t[..][..i + 1] && t[..][..i] == done;
      Snoc(t[..], i);
      assert s * Pow16(i + 1) == 16 * (s * Pow16(i));
    }
    assert t[..8] == t[..] && o[..8] == o;
    EightNibbles();
  }

  lemma EmptyIsZero(t: seq<nat>)
    ensures ToNat(t[..0]) == 0
  {
  }

  lemma StepLeft(n: nat, c: nat, p: nat, x: nat, y: nat)
    requires n < 16 && x + c * p == 2 * y
    ensures (2 * n % 16 + c) * p + x + (2 * n / 16) * (16 * p) == 2 * (n * p + y)
  {
  }

  /** Left by one in place; the highest bit is lost. */
  method ShiftLeft1(t: array<nat>)
    requires t.Length == 8 && IsWord(t[..])
    modifies t
    ensures IsWord(t[..]) && ToNat(t[..]) == 2 * ToNat(old(t[..])) % WORD
  {
    hide ToNat, LeftMap, LeftCarryMap;
    ghost var o := t[..];
    var carry: nat := 0;
    EmptyIsZero(o);
    assert o[8..] == [] == o[..0];
    for i := 8 downto 0
      invariant t[..i] == o[..i] && carry < 2
      invariant forall k :: i <= k < 8 ==> t[k] < 16
      invariant ToNat(t[i..]) + carry * Pow16(8 - i) == 2 * ToNat(o[i..])
    {
      assert t[i] == o[i];
      SmallTables(o[i]);
      ghost var rest := t[i + 1..];
      StepLeft(o[i], carry, Pow16(7 - i), ToNat(rest), ToNat(o[i + 1..]));
      var shifted := LeftMap(t[i]) + carry;
      carry := LeftCarryMap(t[i]);
      t[i] := shifted;
      assert t[i + 1..] == rest && t[i..][1..] == rest && o[i..][1..] == o[i + 1..];
      HighFirst(t[i..]);
      HighFirst(o[i..]);
    }
    assert t[0..] == t[..] && o[0..] == o;
    EightNibbles();
    ToNatBound(t[..]);
    ModUnique(2 * ToNat(o), carry, ToNat(t[..]), WORD);
  }

  // ---------- Shifts ----------

  /** How often a loop from 1 to i runs. */
  function Times(i: int): nat {
    if i > 0 then i else 0
  }

  /** Two's complement. */
  function Signed(v: nat): int {
    if v > 0x7FFF_FFFF then v - WORD else v
  }

  lemma FloorTwice(s: int, p: nat)
    requires p > 0
    ensures s / p / 2 == s / (2 * p)
  {
    var q, r := s / p, s % p;
    var q2, r2 := q / 2, q % 2;
    assert s == q * p + r && q == 2 * q2 + r2;
    assert q * p == q2 * (2 * p) + r2 * p;
    assert r2 * p + r < 2 * p by {
      MulMonotone(r2, 1, p);
    }
    ModUnique(s, q2, r2 * p + r, 2 * p);
  }

  function Quotient(v: nat, k: nat): (q: int)
    ensures q >= 0
  {
    QuotientIsNat(v, Pow2(k));
    v / Pow2(k)
  }

  lemma QuotientIsNat(v: nat, p: nat)
    requires p > 0
    ensures v / p >= 0
  {
    if v / p < 0 {
      MulMonotone(v / p, -1, p);
    }
  }

  method RShift(a: seq<nat>, i: int) returns (r: seq<nat>)
    requires IsWord(a)
    ensures IsWord(r) && ToNat(r) == Quotient(ToNat(a), Times(i))
  {
    var t := new nat[8](k requires 0 <= k < 8 => a[k]);
    assert t[..] == a;
    var n: nat := 0;
    while n < i
      invariant n <= Times(i) && IsWord(t[..]) && ToNat(t[..]) == Quotient(ToNat(a), n)
    {
      ShiftRight1(t, 0);
      FloorTwice(ToNat(a), Pow2(n));
      n := n + 1;
    }
    r := t[..];
  }

  method ARShift(a: seq<nat>, i: int) returns (r: seq<nat>)
    requires IsWord(a)
    ensures IsWord(r) && Signed(ToNat(r)) == Signed(ToNat(a)) / Pow2(Times(i))
  {
    var t := new nat[8](k requires 0 <= k < 8 => a[k]);
    assert t[..] == a;
    var n: nat := 0;
    while n < i
      invariant n <= Times(i) && IsWord(t[..]) && Signed(ToNat(t[..])) == Signed(ToNat(a)) / Pow2(n)
    {
      ghost var v := ToNat(t[..]);
      SignBit(t[..]);
      var first := SignCarryMap(t[0]);
      ShiftRight1(t, first);
      SignedHalf(v);
      FloorTwice(Signed(ToNat(a)), Pow2(n));
      n := n + 1;
    }
    r := t[..];
  }

  /** The carry table sees the sign. */
  lemma SignBit(t: seq<nat>)
    requires IsWord(t)
    ensures SignCarryMap(t[0]) == if ToNat(t) > 0x7FFF_FFFF then 8 else 0
    ensures ToNat(t) < WORD
  {
    HighFirst(t);
    EightNibbles();
    ToNatBound(t);
    ToNatBound(t[1..]);
    SmallTables(t[0]);
  }

  lemma SignedHalf(v: nat)
    requires v < WORD
    ensures Signed((v + (if v > 0x7FFF_FFFF then WORD else 0)) / 2) == Signed(v) / 2
  {
  }

  method LShift(a: seq<nat>, i: int) returns (r: seq<nat>)
    requires IsWord(a)
    ensures IsWord(r) && ToNat(r) == ToNat(a) * Pow2(Times(i)) % WORD
  {
    var t := new nat[8](k requires 0 <= k < 8 => a[k]);
    assert t[..] == a;
    ToNatBound(a);
    EightNibbles();
    var n: nat := 0;
    while n < i
      invariant n <= Times(i) && IsWord(t[..]) && ToNat(t[..]) == ToNat(a) * Pow2(n) % WORD
    {
      ShiftLeft1(t);
      DoubleProduct(ToNat(a), n);
      n := n + 1;
    }
    r := t[..];
  }

  lemma DoubleProduct(v: nat, n: nat)
    ensures 2 * (v * Pow2(n) % WORD) % WORD == v * Pow2(n + 1) % WORD
  {
    DoubleMod(v * Pow2(n));
    assert 2 * (v * Pow2(n)) == v * Pow2(n + 1);
  }

  lemma DoubleMod(v: nat)
    ensures 2 * (v % WORD) % WORD == 2 * v % WORD
  {
  }

  // ---------- Numbers ----------

  /** The last n hexadecimal digits of a number; a negative one is printed in two's complement. */
  function Digits(v: int, n: nat): (t: seq<nat>)
    ensures |t| == n && forall i :: 0 <= i < n ==> t[i] < 16
    decreases n
  {
    if n == 0 then [] else Digits(v / 16, n - 1) + [v % 16]
  }

  lemma ModSixteen(v: int, p: nat)
    requires p > 0
    ensures v % (16 * p) == 16 * (v / 16 % p) + v % 16
  {
    var u, d := v / 16, v % 16;
    var q, r := u / p, u % p;
    assert u == q * p + r && v == 16 * u + d;
    assert q * (16 * p) == 16 * (q * p);
    ModUnique(v, q, 16 * r + d, 16 * p);
  }

  lemma {:induction false} DigitsAreModulo(v: int, n: nat)
    ensures ToNat(Digits(v, n)) == v % Pow16(n)
    decreases n
  {
    if n > 0 {
      var t := Digits(v, n);
      assert t[..n - 1] == Digits(v / 16, n - 1);
      DigitsAreModulo(v / 16, n - 1);
      ModSixteen(v, Pow16(n - 1));
    } else {
      ModUnique(v, v, 0, 1);
    }
  }

  /** A number as a word. */
  function Cast(v: int): (t: seq<nat>)
    ensures IsWord(t)
  {
    Digits(v, 8)
  }

  lemma CastIsModulo(v: int)
    ensures ToNat(Cast(v)) == v % WORD
  {
    DigitsAreModulo(v, 8);
    EightNibbles();
  }

  /** What goes in signed comes out unchanged. */
  lemma SignedRoundTrip(v: int)
    ensures Signed(ToNat(Cast(v))) == v <==> -0x8000_0000 <= v <= 0x7FFF_FFFF
    ensures (Signed(ToNat(Cast(v))) - v) % WORD == 0
  {
    CastIsModulo(v);
    var q, r := v / WORD, v % WORD;
    assert v == q * WORD + r;
    ModUnique(Signed(r) - v, if r > 0x7FFF_FFFF then -q - 1 else -q, 0, WORD);
  }

  method BXor(a: int, b: int) returns (r: int)
    ensures r == Signed(Xor(a % WORD, b % WORD))
  {
    hide XorMap, Bop, Xor, Cast, IsWord, ToNat, Signed;
    var x, y := Cast(a), Cast(b);
    CastIsModulo(a);
    CastIsModulo(b);
    XorWord(x, y);
    r := Wrap(Bop(x, y, XorMap));
  }

  method BOr(a: int, b: int) returns (r: int)
    ensures r == Signed(Or(a % WORD, b % WORD))
  {
    hide OrMap, Bop, Or, Cast, IsWord, ToNat, Signed;
    var x, y := Cast(a), Cast(b);
    CastIsModulo(a);
    CastIsModulo(b);
    OrWord(x, y);
    r := Wrap(Bop(x, y, OrMap));
  }

  method BAnd(a: int, b: int) returns (r: int)
    ensures r == Signed(And(a % WORD, b % WORD))
  {
    hide AndMap, Bop, And, Cast, IsWord, ToNat, Signed;
    var x, y := Cast(a), Cast(b);
    CastIsModulo(a);
    CastIsModulo(b);
    AndWord(x, y);
    r := Wrap(Bop(x, y, AndMap));
  }

  method BNot(a: int) returns (r: int)
    ensures r == -1 - Signed(a % WORD)
  {
    hide NotMap, Uop, Cast, IsWord, ToNat;
    var x := Cast(a);
    CastIsModulo(a);
    NotWord(x);
    r := Wrap(Uop(x, NotMap));
  }

  /** Unsigned: zeros come in from the left. */
  method RightShift(a: int, i: int) returns (r: int)
    ensures r == Signed(Quotient(a % WORD, if i > 0 then i else 0))
  {
    CastIsModulo(a);
    var t := RShift(Cast(a), i);
    r := Wrap(t);
  }

  /** Signed: the floor of the quotient. */
  method ArithmeticShift(a: int, i: int) returns (r: int)
    ensures r == Signed(a % WORD) / Pow2(if i > 0 then i else 0)
  {
    CastIsModulo(a);
    var t := ARShift(Cast(a), i);
    r := Wrap(t);
  }

  /** Multiplication modulo 2^32. */
  method LeftShift(a: int, i: int) returns (r: int)
    ensures r == Signed(a % WORD * Pow2(if i > 0 then i else 0) % WORD)
  {
    CastIsModulo(a);
    var t := LShift(Cast(a), i);
    r := Wrap(t);
  }

  /** The word read back as a signed number. */
  method Wrap(t: seq<nat>) returns (r: int)
    requires IsWord(t)
    ensures r == Signed(ToNat(t))
  {
    r := ToNat(t);
    if r > 0x7FFF_FFFF {
      r := r - 1 - 0xFFFF_FFFF;
    }
  }
}
