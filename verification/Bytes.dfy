/** Bytes, and integers written as bytes. */
module Bytes {

  type Byte = x: nat | x < 256

  /** Lua strings are sequences of bytes. */
  type Text = seq<Byte>

  /** The bytes of an ASCII text. */
  function Ascii(s: string): (t: Text)
    requires forall i :: 0 <= i < |s| ==> s[i] < 128 as char
    ensures |t| == |s|
  {
    seq<Byte>(|s|, i requires 0 <= i < |s| => s[i] as nat)
  }

  lemma AsciiConcat(s: string, t: string)
    requires (forall i :: 0 <= i < |s| ==> s[i] < 128 as char) && (forall i :: 0 <= i < |t| ==> t[i] < 128 as char)
    ensures forall i :: 0 <= i < |s + t| ==> (s + t)[i] < 128 as char
    ensures Ascii(s + t) == Ascii(s) + Ascii(t)
  {
  }

  /** 256 to the power k. */
  function Pow256(k: nat): (r: nat)
    ensures r > 0
  {
    if k == 0 then 1 else 256 * Pow256(k - 1)
  }

  /** The k low bytes of u, least significant first. */
  function ToBytes(u: nat, k: nat): (s: seq<Byte>)
    ensures |s| == k
  {
    if k == 0 then [] else [u % 256] + ToBytes(u / 256, k - 1)
  }

  /** The number that bytes stand for, least significant first. */
  function FromBytes(s: seq<Byte>): nat {
    if s == [] then 0 else s[0] + 256 * FromBytes(s[1..])
  }

  /** Bitwise and, bit by bit. */
  function And(a: nat, b: nat): (r: nat)
    ensures r <= a && r <= b
    decreases b
  {
    if a == 0 || b == 0 then 0 else (a % 2) * (b % 2) + 2 * And(a / 2, b / 2)
  }

  /** Bitwise exclusive or. */
  function Xor(a: nat, b: nat): nat
    decreases a + b
  {
    if a == 0 then b else if b == 0 then a else (a + b) % 2 + 2 * Xor(a / 2, b / 2)
  }

  /** Exclusive or with the same operand twice gives the first operand back. */
  lemma {:induction false} XorTwice(a: nat, b: nat)
    ensures Xor(Xor(a, b), b) == a
    decreases a + b
  {
    if a + b > 0 {
      var x := Xor(a, b);
      XorParity(a, b);
      XorParity(x, b);
      XorTwice(a / 2, b / 2);
      hide Xor;
      assert Xor(x, b) / 2 == a / 2 && Xor(x, b) % 2 == a % 2;
    }
  }

  lemma {:induction false} XorStep(a: nat, b: nat)
    ensures Xor(a, b) % 2 == (a + b) % 2 && Xor(a, b) / 2 == Xor(a / 2, b / 2)
  {
  }

  lemma {:induction false} XorParity(a: nat, b: nat)
    ensures Xor(a, b) % 2 == (if a % 2 != b % 2 then 1 else 0) && Xor(a, b) / 2 == Xor(a / 2, b / 2)
  {
  }

  lemma {:induction false} XorBound(a: nat, b: nat, k: nat)
    requires a < Pow2(k) && b < Pow2(k)
    ensures Xor(a, b) < Pow2(k)
  {
    XorStep(a, b);
    if k > 0 {
      XorBound(a / 2, b / 2, k - 1);
    }
  }

  /** 2 to the power k. */
  function Pow2(k: nat): (r: nat)
    ensures r > 0
  {
    if k == 0 then 1 else 2 * Pow2(k - 1)
  }

  /** A mask of k low bits takes the remainder by 2^k. */
  lemma {:induction false} AndLowBits(a: nat, k: nat)
    ensures And(a, Pow2(k) - 1) == a % Pow2(k)
  {
    if k > 0 {
      var p := Pow2(k - 1);
      AndLowBits(a / 2, k - 1);
      ModStep2(a, p);
      if p > 1 || k == 1 {
        assert (2 * p - 1) / 2 == p - 1 && (2 * p - 1) % 2 == 1;
      }
    }
  }

  lemma ModStep2(u: nat, p: nat)
    requires p > 0
    ensures u % (2 * p) == u % 2 + 2 * ((u / 2) % p)
  {
    var q, r := (u / 2) / p, (u / 2) % p;
    assert u / 2 == q * p + r;
    assert u == q * (2 * p) + (u % 2 + 2 * r);
    ModUnique(u, q, u % 2 + 2 * r, 2 * p);
  }

  function Reverse<T>(s: seq<T>): (r: seq<T>)
    ensures |r| == |s|
    ensures forall i :: 0 <= i < |s| ==> r[i] == s[|s| - 1 - i]
  {
    if s == [] then [] else Reverse(s[1..]) + [s[0]]
  }

  lemma ReverseReverse<T>(s: seq<T>)
    ensures Reverse(Reverse(s)) == s
  {
  }

  lemma {:induction false} FromBytesBound(s: seq<Byte>)
    ensures FromBytes(s) < Pow256(|s|)
  {
    if s != [] {
      FromBytesBound(s[1..]);
    }
  }

  /** Reading back k bytes of u gives u modulo 256^k. */
  lemma {:induction false} FromToBytes(u: nat, k: nat)
    ensures FromBytes(ToBytes(u, k)) == u % Pow256(k)
  {
    if k > 0 {
      var p := Pow256(k - 1);
      assert ToBytes(u, k)[1..] == ToBytes(u / 256, k - 1);
      FromToBytes(u / 256, k - 1);
      ModStep(u, p);
    }
  }

  lemma ModStep(u: nat, p: nat)
    requires p > 0
    ensures u % (256 * p) == u % 256 + 256 * ((u / 256) % p)
  {
    var q, r := (u / 256) / p, (u / 256) % p;
    assert u / 256 == q * p + r;
    assert u == 256 * (q * p + r) + u % 256;
    assert u == q * (256 * p) + (u % 256 + 256 * r);
    ModUnique(u, q, u % 256 + 256 * r, 256 * p);
  }

  /** Quotient and remainder are what they look like. */
  lemma ModUnique(a: int, q: int, r: nat, m: nat)
    requires m > 0 && r < m && a == q * m + r
    ensures a % m == r && a / m == q
  {
    var q2, r2 := a / m, a % m;
    assert a == q2 * m + r2;
    if q2 > q {
      MulMonotone(q + 1, q2, m);
    } else if q2 < q {
      MulMonotone(q2 + 1, q, m);
    }
  }

  predicate Divides(m: nat, x: nat)
    requires m > 0
  {
    x % m == 0
  }

  /** (m - len % m) % m is the distance to the next multiple of m. */
  lemma RoundUp(len: nat, m: nat, pad: nat)
    requires m > 0
    ensures Divides(m, len + (m - len % m) % m)
    ensures Divides(m, len + pad) ==> (m - len % m) % m <= pad
  {
    var q, r := len / m, len % m;
    assert len == q * m + r;
    if r == 0 {
      ModUnique(m, 1, 0, m);
    } else {
      ModUnique(m - r, 0, m - r, m);
      assert len + (m - r) == (q + 1) * m;
      ModUnique(len + (m - r), q + 1, 0, m);
      if pad < m - r {
        ModUnique(len + pad, q, r + pad, m);
      }
    }
  }

  lemma MulMonotone(x: int, y: int, m: nat)
    requires x <= y
    ensures x * m <= y * m
  {
  }

  /** Reducing by a multiple of m first does not change the remainder by m. */
  lemma ModMod(n: int, m: nat, k: nat)
    requires m > 0 && k > 0
    ensures m * k > 0 && (n % (m * k)) % m == n % m
  {
    MulMonotone(1, k, m);
    assert m * k > 0;
    var q, r := n / (m * k), n % (m * k);
    var q', r' := r / m, r % m;
    assert n == q * (m * k) + r && r == q' * m + r';
    assert q * (m * k) == (q * k) * m;
    assert n == (q * k + q') * m + r';
    ModUnique(n, q * k + q', r', m);
  }

  lemma {:induction false} Pow256Add(a: nat, b: nat)
    ensures Pow256(a + b) == Pow256(a) * Pow256(b)
  {
    if a > 0 {
      Pow256Add(a - 1, b);
      assert 256 * (Pow256(a - 1) * Pow256(b)) == Pow256(a) * Pow256(b);
    }
  }

  /** Writing the number back gives the bytes. */
  lemma {:induction false} ToFromBytes(s: seq<Byte>)
    ensures ToBytes(FromBytes(s), |s|) == s
  {
    if s != [] {
      ToFromBytes(s[1..]);
      LowByte(FromBytes(s), FromBytes(s[1..]), s[0]);
      hide FromBytes;
      assert ToBytes(FromBytes(s), |s|) == [s[0]] + s[1..];
    }
  }

  lemma LowByte(u: nat, q: nat, b: Byte)
    requires u == b + 256 * q
    ensures u % 256 == b && u / 256 == q
  {
  }

  lemma {:induction false} FromBytesSnoc(s: seq<Byte>, b: Byte)
    ensures FromBytes(s + [b]) == FromBytes(s) + Pow256(|s|) * b
  {
    if s == [] {
      assert [b][1..] == [];
    } else {
      assert (s + [b])[1..] == s[1..] + [b];
      FromBytesSnoc(s[1..], b);
      assert 256 * (Pow256(|s| - 1) * b) == Pow256(|s|) * b;
    }
  }

  /** Bitwise or. */
  function Or(a: nat, b: nat): nat
    decreases a + b
  {
    if a == 0 then b else if b == 0 then a
    else (if a % 2 + b % 2 > 0 then 1 else 0) + 2 * Or(a / 2, b / 2)
  }

  lemma {:induction false} OrStep(a: nat, b: nat)
    ensures Or(a, b) % 2 == (if a % 2 + b % 2 > 0 then 1 else 0) && Or(a, b) / 2 == Or(a / 2, b / 2)
  {
  }

  lemma {:induction false} AndStep(a: nat, b: nat)
    ensures And(a, b) % 2 == (a % 2) * (b % 2) && And(a, b) / 2 == And(a / 2, b / 2)
  {
  }

  /** Or of numbers with no bit in common is their sum. */
  lemma {:induction false} OrApart(a: nat, b: nat, k: nat)
    requires a < Pow2(k) && b % Pow2(k) == 0
    ensures Or(a, b) == a + b
    decreases k
  {
    if k > 0 {
      var p := Pow2(k - 1);
      ModStep2(b, p);
      OrApart(a / 2, b / 2, k - 1);
    }
  }

  /** Every bit is counted once in the or and once more in the and. */
  lemma {:induction false} OrPlusAnd(a: nat, b: nat)
    ensures Or(a, b) + And(a, b) == a + b
    decreases a + b
  {
    OrStep(a, b);
    AndStep(a, b);
    if a > 0 || b > 0 {
      OrPlusAnd(a / 2, b / 2);
      hide Or, And;
      var o, n := Or(a, b), And(a, b);
      assert o == 2 * (o / 2) + o % 2 && n == 2 * (n / 2) + n % 2;
      BitsAdd(a, b);
    }
  }

  lemma BitsAdd(a: nat, b: nat)
    ensures (if a % 2 + b % 2 > 0 then 1 else 0) + (a % 2) * (b % 2) == a % 2 + b % 2
  {
    if a % 2 == 1 {
    } else {
      assert (a % 2) * (b % 2) == 0;
    }
  }

  /** Shifted right by k bits. */
  function Shr(a: nat, k: nat): nat {
    if k == 0 then a else Shr(a / 2, k - 1)
  }

  lemma {:induction false} ShrIsQuotient(a: nat, k: nat)
    ensures Shr(a, k) == a / Pow2(k)
  {
    if k > 0 {
      ShrIsQuotient(a / 2, k - 1);
      HalfOfQuotient(a, Pow2(k - 1));
    }
  }

  /** Bits above a power of two, taken from the shifted number. */
  lemma {:induction false} AndScaled(a: nat, b: nat, k: nat)
    ensures And(a, Pow2(k) * b) == Pow2(k) * And(Shr(a, k), b)
  {
    if k > 0 {
      var p := Pow2(k - 1);
      AndScaled(a / 2, b, k - 1);
      AndDouble(a, p * b);
      TwiceProduct(p, b);
      TwiceProduct(p, And(Shr(a, k), b));
      hide And;
    }
  }

  lemma TwiceProduct(p: nat, b: nat)
    ensures 2 * p * b == 2 * (p * b)
  {
  }

  lemma {:induction false} AndDouble(a: nat, b: nat)
    ensures And(a, 2 * b) == 2 * And(a / 2, b)
  {
  }

  lemma HalfOfQuotient(a: nat, p: nat)
    requires p > 0
    ensures a / 2 / p == a / (2 * p)
  {
    var q, r := a / 2 / p, a / 2 % p;
    assert a / 2 == q * p + r;
    assert a == q * (2 * p) + (2 * r + a % 2);
    ModUnique(a, q, 2 * r + a % 2, 2 * p);
  }

  lemma {:induction false} OrCommutes(a: nat, b: nat)
    ensures Or(a, b) == Or(b, a)
    decreases a + b
  {
    if a > 0 && b > 0 {
      OrCommutes(a / 2, b / 2);
    }
  }
}
