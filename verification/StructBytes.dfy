/** Where the codec of util-src/struct.c puts which byte, and what it makes of which bytes, said of the bytes one by one
    and of the format as it is written. */
module StructBytes {
  import opened Bytes
  import opened Struct

  // ---------- The byte order in force ----------

  /** The last of < and > before p is >; the native order is little-endian. */
  predicate BigAt(fmt: string, p: nat)
    requires p <= |fmt|
  {
    p > 0 && (fmt[p - 1] == '>' || (fmt[p - 1] != '<' && BigAt(fmt, p - 1)))
  }

  lemma {:induction false} NumeralsKeepOrder(fmt: string, p: nat, q: nat)
    requires p <= q <= |fmt| && forall i :: p <= i < q ==> IsDigit(fmt[i])
    ensures BigAt(fmt, q) == BigAt(fmt, p)
    decreases q
  {
    if p < q {
      assert IsDigit(fmt[q - 1]);
      NumeralsKeepOrder(fmt, p, q - 1);
    }
  }

  lemma {:induction false} NumberIsDigits(fmt: string, p: nat, a: nat)
    requires p <= |fmt|
    ensures forall i :: p <= i < NumberFrom(fmt, p, a).1 ==> IsDigit(fmt[i])
    decreases |fmt| - p
  {
    if p < |fmt| && IsDigit(fmt[p]) {
      NumberIsDigits(fmt, p + 1, a * 10 + DigitValue(fmt[p]));
    }
  }

  /** After an item the order is the one before it. */
  lemma OptionKeepsOrder(fmt: string, p: nat)
    requires p < |fmt| && OptSize(fmt, p + 1, fmt[p]).Ok? && fmt[p] != '<' && fmt[p] != '>'
    ensures BigAt(fmt, OptSize(fmt, p + 1, fmt[p]).value.1) == BigAt(fmt, p)
  {
    NumberIsDigits(fmt, p + 1, 0);
    NumeralsKeepOrder(fmt, p + 1, OptSize(fmt, p + 1, fmt[p]).value.1);
  }

  /** A control option changes the order exactly as it is written. */
  lemma ControlSetsOrder(fmt: string, p: nat, h: Header)
    requires p < |fmt| && !IsItem(fmt[p]) && Control(fmt, p + 1, fmt[p], h).Ok?
    requires h.endian == Big <==> BigAt(fmt, p)
    ensures OptSize(fmt, p + 1, fmt[p]) == Ok((0, p + 1))
    ensures var (h', next) := Control(fmt, p + 1, fmt[p], h).value; h'.endian == Big <==> BigAt(fmt, next)
  {
    NumberIsDigits(fmt, p + 1, 0);
    NumeralsKeepOrder(fmt, p + 1, Control(fmt, p + 1, fmt[p], h).value.1);
  }

  // ---------- Integers byte by byte ----------

  /** The bytes of n, low ones first or high ones first. */
  predicate Spelled(n: int, s: seq<Byte>, big: bool) {
    forall i :: 0 <= i < |s| ==> s[i] == n / Pow256(if big then |s| - 1 - i else i) % 256
  }

  lemma {:induction false} ByteOf(u: nat, k: nat, i: nat)
    requires i < k
    ensures ToBytes(u, k)[i] == u / Pow256(i) % 256
  {
    if i > 0 {
      ByteOf(u / 256, k - 1, i - 1);
      Twice(u, 256, Pow256(i - 1));
    }
  }

  lemma Twice(u: nat, a: nat, b: nat)
    requires a > 0 && b > 0
    ensures a * b > 0 && u / (a * b) == u / a / b
  {
    MulMonotone(1, b, a);
    var q, r := u / a, u % a;
    var q', r' := q / b, q % b;
    assert u == q * a + r && q == q' * b + r';
    MulMonotone(r', b - 1, a);
    assert q' * (a * b) == q' * b * a;
    assert u == q' * (a * b) + (r' * a + r) by {
      assert q * a == q' * b * a + r' * a;
    }
    ModUnique(u, q', r' * a + r, a * b);
  }

  lemma ByteOfRest(x: int, p: nat)
    requires p > 0
    ensures x / p % 256 == x % (256 * p) / p
  {
    var q, r := x / (256 * p), x % (256 * p);
    var v, w := r / p, r % p;
    assert x == q * (256 * p) + r && r == v * p + w;
    assert x == (256 * q + v) * p + w;
    ModUnique(x, 256 * q + v, w, p);
    if v >= 256 {
      MulMonotone(256, v, p);
    }
    ModUnique(256 * q + v, q, v, 256);
  }

  /** Reducing to 64 bits does not change the first eight bytes. */
  lemma ByteOfWord(n: int, i: nat)
    requires i < 8
    ensures n % TWO64 / Pow256(i) % 256 == n / Pow256(i) % 256
  {
    var p, m := Pow256(i), Pow256(7 - i);
    Pow256Add(i, 8 - i);
    PowersOf256();
    assert Pow256(8 - i) == 256 * m && p * (256 * m) == TWO64;
    hide Pow256;
    ByteOfRest(n, p);
    ByteOfRest(n % TWO64, p);
    WordParts(n, p, m);
  }

  lemma WordParts(n: int, p: nat, m: nat)
    requires p > 0 && p * (256 * m) == TWO64
    ensures n % TWO64 % (256 * p) == n % (256 * p)
  {
    assert (256 * p) * m == TWO64;
    ModMod(n, 256 * p, m);
  }

  lemma IntIsSpelled(n: int, size: nat, endian: Endian)
    requires IntSize(size)
    ensures Spelled(n, IntBytes(n, size, endian), endian == Big)
  {
    var t := ToBytes(n % TWO64, size);
    forall i | 0 <= i < size
      ensures t[i] == n / Pow256(i) % 256
    {
      ByteOf(n % TWO64, size, i);
      ByteOfWord(n, i);
    }
    hide ToBytes, Pow256;
  }

  // ---------- Whole formats ----------

  /** An item of a format: where its letter stands in the format, where its bytes stand in the data, and what it takes
      or gives. */
  datatype Place = Place(letter: nat, start: nat, size: nat, values: seq<Value>)

  /** What stands at a place: integers byte by byte in the order that is written before them, strings as they are, a
      zero behind those that end with one, and a zero for a padding byte. */
  ghost predicate Stands(fmt: string, data: seq<Byte>, pl: Place)
    requires pl.letter < |fmt| && pl.start + pl.size <= |data|
  {
    var opt, s := fmt[pl.letter], data[pl.start..pl.start + pl.size];
    if opt == 'x' then pl.values == [] && |s| == 1
    else
      && |pl.values| == 1
      && (if opt in "bBhHlLTiI" then pl.values[0].Num? && Spelled(pl.values[0].n, s, BigAt(fmt, pl.letter))
          else pl.values[0].Str? && if opt == 's' then s == pl.values[0].s + [0] else s == pl.values[0].s)
  }

  /** The items stand at their places from some position on, and all other bytes are zero, as are those of padding
      letters. */
  ghost predicate Laid(fmt: string, data: seq<Byte>, from: nat, places: seq<Place>) {
    && (forall pl :: pl in places ==>
          && pl.letter < |fmt| && from <= pl.start && pl.start + pl.size <= |data|
          && Stands(fmt, data, pl))
    && (forall k :: from <= k < |data| && data[k] != 0 ==>
          exists pl :: pl in places && pl.start <= k < pl.start + pl.size && fmt[pl.letter] != 'x')
  }

  /** The argument an item takes; a string of fixed size is cut to it. */
  function Taken(opt: char, size: nat, args: seq<Value>): seq<Value> {
    if opt == 'x' || args == [] then []
    else if opt == 'c' && args[0].Str? && |args[0].s| >= size then [Str(args[0].s[..size])]
    else [args[0]]
  }

  /** The places of what is packed. */
  ghost function PackPlaces(fmt: string, p: nat, h: Header, args: seq<Value>, total: nat): seq<Place>
    requires PackFrom(fmt, p, h, args, total).Ok?
    decreases |fmt| - p
  {
    if AtEnd(fmt, p) then []
    else
      var opt := fmt[p];
      var (size, next) := OptSize(fmt, p + 1, opt).value;
      if IsItem(opt) then
        var start := total + ToAlign(total, h, opt, size);
        var (bytes, used) := PackItem(opt, size, h.endian, args).value;
        [Place(p, start, |bytes|, Taken(opt, size, args))] + PackPlaces(fmt, next, h, args[used..], start + |bytes|)
      else
        var (h', next') := Control(fmt, next, opt, h).value;
        PackPlaces(fmt, next', h', args, total)
  }

  lemma PackedItem(fmt: string, p: nat, h: Header, args: seq<Value>, size: nat, pre: seq<Byte>, post: seq<Byte>)
    requires p < |fmt| && IsItem(fmt[p]) && PackItem(fmt[p], size, h.endian, args).Ok?
    requires (h.endian == Big <==> BigAt(fmt, p)) && (fmt[p] == 'x' ==> size == 1)
    ensures var (bytes, used) := PackItem(fmt[p], size, h.endian, args).value;
            && Stands(fmt, pre + bytes + post, Place(p, |pre|, |bytes|, Taken(fmt[p], size, args)))
            && (fmt[p] == 'x' ==> bytes == [0])
  {
    var bytes := PackItem(fmt[p], size, h.endian, args).value.0;
    assert (pre + bytes + post)[|pre|..|pre| + |bytes|] == bytes;
    if IsInt(fmt[p]) {
      IntIsSpelled(args[0].n, size, h.endian);
    }
    hide IntBytes, Spelled, BigAt;
  }

  /** One place more, with zeros before it. */
  lemma LaidStep(fmt: string, data: seq<Byte>, from: nat, head: Place, rest: seq<Place>)
    requires head.letter < |fmt| && from <= head.start && head.start + head.size <= |data| && Stands(fmt, data, head)
    requires forall k :: from <= k < head.start ==> data[k] == 0
    requires fmt[head.letter] == 'x' ==> forall k :: head.start <= k < head.start + head.size ==> data[k] == 0
    requires Laid(fmt, data, head.start + head.size, rest)
    ensures Laid(fmt, data, from, [head] + rest)
  {
    hide Stands;
    assert head in [head] + rest && forall pl :: pl in rest ==> pl in [head] + rest;
    forall k | from <= k < |data| && data[k] != 0
      ensures exists pl :: pl in [head] + rest && pl.start <= k < pl.start + pl.size && fmt[pl.letter] != 'x'
    {
      if k >= head.start + head.size {
        var pl :| pl in rest && pl.start <= k < pl.start + pl.size && fmt[pl.letter] != 'x';
        assert pl in [head] + rest;
      } else if k >= head.start {
        assert head in [head] + rest;
      }
    }
  }

  /** What packing does at an item and at a control option. */
  lemma PackStep(fmt: string, p: nat, h: Header, args: seq<Value>, total: nat)
    requires !AtEnd(fmt, p) && PackFrom(fmt, p, h, args, total).Ok?
    ensures OptSize(fmt, p + 1, fmt[p]).Ok?
    ensures var (size, next) := OptSize(fmt, p + 1, fmt[p]).value;
            if IsItem(fmt[p]) then
              var pad := ToAlign(total, h, fmt[p], size);
              var item := PackItem(fmt[p], size, h.endian, args);
              && item.Ok?
              && var (bytes, used) := item.value;
              && var rest := PackFrom(fmt, next, h, args[used..], total + pad + |bytes|);
              && rest.Ok? && PackFrom(fmt, p, h, args, total).value == Zeros(pad) + bytes + rest.value
            else
              var c := Control(fmt, next, fmt[p], h);
              c.Ok? && PackFrom(fmt, p, h, args, total) == PackFrom(fmt, c.value.1, c.value.0, args, total)
  {
    hide IsItem, IsInt, ToAlign, PackItem, Control, OptSize, Zeros;
  }

  lemma PlacesStep(fmt: string, p: nat, h: Header, args: seq<Value>, total: nat)
    requires !AtEnd(fmt, p) && PackFrom(fmt, p, h, args, total).Ok?
    ensures OptSize(fmt, p + 1, fmt[p]).Ok?
    ensures var (size, next) := OptSize(fmt, p + 1, fmt[p]).value;
            var places := PackPlaces(fmt, p, h, args, total);
            if IsItem(fmt[p]) then
              && PackItem(fmt[p], size, h.endian, args).Ok?
              && var (bytes, used) := PackItem(fmt[p], size, h.endian, args).value;
              && var start := total + ToAlign(total, h, fmt[p], size);
              && PackFrom(fmt, next, h, args[used..], start + |bytes|).Ok?
              && places == [Place(p, start, |bytes|, Taken(fmt[p], size, args))]
                           + PackPlaces(fmt, next, h, args[used..], start + |bytes|)
            else
              && Control(fmt, next, fmt[p], h).Ok?
              && var (h', next') := Control(fmt, next, fmt[p], h).value;
              && PackFrom(fmt, next', h', args, total).Ok? && places == PackPlaces(fmt, next', h', args, total)
  {
    hide IsItem, IsInt, ToAlign, PackItem, Control, OptSize, Zeros, Taken;
  }

  lemma LetterSize(fmt: string, p: nat)
    requires !AtEnd(fmt, p)
    ensures fmt[p] == 'x' ==> OptSize(fmt, p + 1, fmt[p]) == Ok((1, p + 1))
    ensures !IsItem(fmt[p]) ==> OptSize(fmt, p + 1, fmt[p]) == Ok((0, p + 1))
    ensures IsItem(fmt[p]) ==> fmt[p] != '<' && fmt[p] != '>'
  {
  }

  lemma LaidBehind(fmt: string, p: nat, pre: seq<Byte>, pad: nat, bytes: seq<Byte>, rest: seq<Byte>,
                   values: seq<Value>, places: seq<Place>)
    requires p < |fmt| && Laid(fmt, pre + Zeros(pad) + bytes + rest, |pre| + pad + |bytes|, places)
    requires Stands(fmt, pre + Zeros(pad) + bytes + rest, Place(p, |pre| + pad, |bytes|, values))
    requires fmt[p] == 'x' ==> bytes == [0]
    ensures Laid(fmt, pre + (Zeros(pad) + bytes + rest), |pre|, [Place(p, |pre| + pad, |bytes|, values)] + places)
  {
    hide Laid, Stands;
    var data := pre + Zeros(pad) + bytes + rest;
    assert data == pre + (Zeros(pad) + bytes + rest);
    assert forall k :: |pre| <= k < |pre| + pad ==> data[k] == Zeros(pad)[k - |pre|] == 0;
    assert fmt[p] == 'x' ==> data[|pre| + pad] == 0;
    hide *;
    LaidStep(fmt, data, |pre|, Place(p, |pre| + pad, |bytes|, values), places);
  }

  /** One item in front of what is laid already. */
  lemma ItemLaid(fmt: string, p: nat, h: Header, args: seq<Value>, size: nat, pre: seq<Byte>, pad: nat,
                 bytes: seq<Byte>, used: nat, rest: seq<Byte>, places: seq<Place>)
    requires !AtEnd(fmt, p) && IsItem(fmt[p])
    requires OptSize(fmt, p + 1, fmt[p]).Ok? && OptSize(fmt, p + 1, fmt[p]).value.0 == size
    requires PackItem(fmt[p], size, h.endian, args) == Ok((bytes, used)) && (h.endian == Big <==> BigAt(fmt, p))
    requires Laid(fmt, pre + Zeros(pad) + bytes + rest, |pre| + pad + |bytes|, places)
    ensures Laid(fmt, pre + (Zeros(pad) + bytes + rest), |pre|,
                 [Place(p, |pre| + pad, |bytes|, Taken(fmt[p], size, args))] + places)
  {
    LetterSize(fmt, p);
    hide *;
    PackedItem(fmt, p, h, args, size, pre + Zeros(pad), rest);
    LaidBehind(fmt, p, pre, pad, bytes, rest, Taken(fmt[p], size, args), places);
  }

  lemma NothingLaid(fmt: string, p: nat, h: Header, args: seq<Value>, pre: seq<Byte>)
    requires AtEnd(fmt, p)
    ensures PackFrom(fmt, p, h, args, |pre|) == Ok([]) && PackPlaces(fmt, p, h, args, |pre|) == []
    ensures Laid(fmt, pre + [], |pre|, [])
  {
  }

  /** Every item of a format stands where it belongs, and nothing else is there. */
  lemma {:induction false} PackedByteByByte(fmt: string, p: nat, h: Header, args: seq<Value>, pre: seq<Byte>)
    requires PackFrom(fmt, p, h, args, |pre|).Ok? && p <= |fmt| && (h.endian == Big <==> BigAt(fmt, p))
    ensures Laid(fmt, pre + PackFrom(fmt, p, h, args, |pre|).value, |pre|, PackPlaces(fmt, p, h, args, |pre|))
    decreases |fmt| - p
  {
    hide *;
    if AtEnd(fmt, p) {
      NothingLaid(fmt, p, h, args, pre);
      return;
    }
    LetterSize(fmt, p);
    PackStep(fmt, p, h, args, |pre|);
    PlacesStep(fmt, p, h, args, |pre|);
    var (size, next) := OptSize(fmt, p + 1, fmt[p]).value;
    if IsItem(fmt[p]) {
      OptionKeepsOrder(fmt, p);
      var pad := ToAlign(|pre|, h, fmt[p], size);
      var (bytes, used) := PackItem(fmt[p], size, h.endian, args).value;
      var total := |pre| + pad + |bytes|;
      assert |pre + Zeros(pad) + bytes| == total;
      PackedByteByByte(fmt, next, h, args[used..], pre + Zeros(pad) + bytes);
      ItemLaid(fmt, p, h, args, size, pre, pad, bytes, used, PackFrom(fmt, next, h, args[used..], total).value,
               PackPlaces(fmt, next, h, args[used..], total));
    } else {
      ControlSetsOrder(fmt, p, h);
      var (h', next') := Control(fmt, next, fmt[p], h).value;
      PackedByteByByte(fmt, next', h', args, pre);
    }
  }

  // ---------- Reading ----------

  /** The two's-complement number of so many bytes: signed for small letters, unsigned for capital ones. */
  predicate InLetterRange(opt: char, n: int, size: nat) {
    if opt in "bhli" then 0 <= 2 * n + Pow256(size) < 2 * Pow256(size) else 0 <= n < Pow256(size)
  }

  /** What is read at a place; a padding byte may be any. */
  ghost predicate ReadsAs(fmt: string, data: seq<Byte>, pl: Place)
    requires pl.letter < |fmt| && pl.start + pl.size <= |data|
  {
    var opt, s := fmt[pl.letter], data[pl.start..pl.start + pl.size];
    if opt == 'x' then pl.values == [] && pl.size == 1
    else
      && |pl.values| == 1
      && (if opt in "bBhHlLTiI" then
            && pl.values[0].Num? && Spelled(pl.values[0].n, s, BigAt(fmt, pl.letter))
            && InLetterRange(opt, pl.values[0].n, pl.size)
          else if opt == 's' then pl.values[0].Str? && s == pl.values[0].s + [0] && 0 !in pl.values[0].s
          else pl.values[0] == Str(s))
  }

  ghost predicate AllRead(fmt: string, data: seq<Byte>, from: nat, places: seq<Place>) {
    forall pl :: pl in places ==>
      pl.letter < |fmt| && from <= pl.start && pl.start + pl.size <= |data| && ReadsAs(fmt, data, pl)
  }

  function ValuesOf(places: seq<Place>): seq<Value> {
    if places == [] then [] else places[0].values + ValuesOf(places[1..])
  }

  /** The places that are read. */
  ghost function ReadPlaces(fmt: string, p: nat, h: Header, data: seq<Byte>, pos: nat): seq<Place>
    decreases |fmt| - p
  {
    if AtEnd(fmt, p) || OptSize(fmt, p + 1, fmt[p]).Err? then []
    else
      var (size, next) := OptSize(fmt, p + 1, fmt[p]).value;
      if IsItem(fmt[p]) then
        var start := pos + ToAlign(pos, h, fmt[p], size);
        if start + size > |data| then []
        else
          var item := UnpackItem(fmt[p], size, h.endian, data, start);
          if item.Err? then []
          else
            var (values, used) := item.value;
            [Place(p, start, used, values)] + ReadPlaces(fmt, next, h, data, start + used)
      else
        var r := Control(fmt, next, fmt[p], h);
        if r.Err? then [] else ReadPlaces(fmt, r.value.1, r.value.0, data, pos)
  }

  lemma TopDropped(l: int, p: nat, m: nat)
    requires p > 0
    ensures (l - p * (256 * m)) / p % 256 == l / p % 256
  {
    var k := 256 * p;
    var q, r := l / k, l % k;
    ByteOfRest(l, p);
    ByteOfRest(l - p * (256 * m), p);
    assert p * (256 * m) == m * k && l == q * k + r;
    ModUnique(l - m * k, q - m, r, k);
  }

  lemma SpelledLow(s: seq<Byte>, n: int, i: nat)
    requires i < |s| && (n == FromBytes(s) || n == FromBytes(s) - Pow256(|s|))
    ensures s[i] == n / Pow256(i) % 256
  {
    hide *;
    ByteOf(FromBytes(s), |s|, i);
    ToFromBytes(s);
    var m := HighPart(|s|, i);
    TopDropped(FromBytes(s), Pow256(i), m);
  }

  lemma HighPart(k: nat, i: nat) returns (m: nat)
    requires i < k
    ensures Pow256(k) == Pow256(i) * (256 * m)
  {
    m := Pow256(k - i - 1);
    Pow256Add(i, k - i);
    assert Pow256(k - i) == 256 * m;
  }

  lemma IntIsRead(s: seq<Byte>, endian: Endian, opt: char)
    requires IntSize(|s|) && IsInt(opt)
    ensures var n := ReadInt(s, endian, IsSigned(opt));
            Spelled(n, s, endian == Big) && InLetterRange(opt, n, |s|)
  {
    var t := Order(endian, s);
    var n := ReadInt(s, endian, IsSigned(opt));
    FromBytesBound(t);
    PowersOf256();
    assert Pow256(|s|) % 2 == 0;
    assert IsSigned(opt) <==> opt in "bhli";
    assert n == FromBytes(t) || n == FromBytes(t) - Pow256(|t|);
    hide FromBytes, Pow256, ReadInt, IsSigned, IsInt;
    forall i | 0 <= i < |s|
      ensures s[i] == n / Pow256(if endian == Big then |s| - 1 - i else i) % 256
    {
      SpelledLow(t, n, if endian == Big then |s| - 1 - i else i);
    }
  }

  lemma StringIsRead(data: seq<Byte>, start: nat)
    requires start <= |data| && ZeroFrom(data, start) < |data|
    ensures var e := ZeroFrom(data, start); data[start..e + 1] == data[start..e] + [0] && 0 !in data[start..e]
  {
    var e := ZeroFrom(data, start);
    assert forall i :: 0 <= i < e - start ==> data[start..e][i] == data[start + i];
  }

  lemma ItemIsRead(fmt: string, p: nat, h: Header, data: seq<Byte>, size: nat, start: nat)
    requires p < |fmt| && IsItem(fmt[p]) && start + size <= |data| && (h.endian == Big <==> BigAt(fmt, p))
    requires UnpackItem(fmt[p], size, h.endian, data, start).Ok? && (fmt[p] == 'x' ==> size == 1)
    ensures var (values, used) := UnpackItem(fmt[p], size, h.endian, data, start).value;
            ReadsAs(fmt, data, Place(p, start, used, values))
  {
    hide ReadInt, Spelled, BigAt, InLetterRange, IntSize, ZeroFrom, IsSigned;
    if IsInt(fmt[p]) {
      IntIsRead(data[start..start + size], h.endian, fmt[p]);
    } else if fmt[p] == 's' {
      StringIsRead(data, start);
    }
  }

  lemma ItemIsThere(fmt: string, p: nat, h: Header, data: seq<Byte>, pos: nat, size: nat, next: nat)
    requires !AtEnd(fmt, p) && IsItem(fmt[p]) && OptSize(fmt, p + 1, fmt[p]) == Ok((size, next))
    requires UnpackFrom(fmt, p, h, data, pos).Ok?
    ensures var start := pos + ToAlign(pos, h, fmt[p], size);
            start + size <= |data| && UnpackItem(fmt[p], size, h.endian, data, start).Ok?
  {
    hide IsItem, IsInt, ToAlign, UnpackItem, Control, OptSize;
  }

  lemma PlaceIsThere(fmt: string, p: nat, h: Header, data: seq<Byte>, pos: nat, size: nat, next: nat, start: nat,
                     values: seq<Value>, used: nat)
    requires !AtEnd(fmt, p) && IsItem(fmt[p]) && OptSize(fmt, p + 1, fmt[p]) == Ok((size, next))
    requires start == pos + ToAlign(pos, h, fmt[p], size) && start + size <= |data|
    requires UnpackItem(fmt[p], size, h.endian, data, start) == Ok((values, used))
    ensures ReadPlaces(fmt, p, h, data, pos)
            == [Place(p, start, used, values)] + ReadPlaces(fmt, next, h, data, start + used)
  {
    hide IsItem, IsInt, ToAlign, UnpackItem, Control, OptSize;
  }

  lemma ReadControlStep(fmt: string, p: nat, h: Header, data: seq<Byte>, pos: nat, size: nat, next: nat)
    requires !AtEnd(fmt, p) && !IsItem(fmt[p]) && OptSize(fmt, p + 1, fmt[p]) == Ok((size, next))
    requires UnpackFrom(fmt, p, h, data, pos).Ok?
    ensures Control(fmt, next, fmt[p], h).Ok?
    ensures var (h', next') := Control(fmt, next, fmt[p], h).value;
            && UnpackFrom(fmt, p, h, data, pos) == UnpackFrom(fmt, next', h', data, pos)
            && ReadPlaces(fmt, p, h, data, pos) == ReadPlaces(fmt, next', h', data, pos)
  {
    hide IsItem, IsInt, ToAlign, UnpackItem, Control, OptSize;
  }

  lemma SizeIsRead(fmt: string, p: nat, h: Header, data: seq<Byte>, pos: nat)
    requires !AtEnd(fmt, p) && UnpackFrom(fmt, p, h, data, pos).Ok?
    ensures OptSize(fmt, p + 1, fmt[p]).Ok?
  {
    hide IsItem, IsInt, ToAlign, UnpackItem, Control, OptSize;
  }

  lemma AllReadStep(fmt: string, data: seq<Byte>, from: nat, head: Place, rest: seq<Place>)
    requires head.letter < |fmt| && from <= head.start && head.start + head.size <= |data| && ReadsAs(fmt, data, head)
    requires AllRead(fmt, data, head.start + head.size, rest)
    ensures AllRead(fmt, data, from, [head] + rest) && ValuesOf([head] + rest) == head.values + ValuesOf(rest)
  {
    hide ReadsAs;
    assert ([head] + rest)[1..] == rest;
  }

  lemma NothingRead(fmt: string, p: nat, h: Header, data: seq<Byte>, pos: nat)
    requires AtEnd(fmt, p)
    ensures UnpackFrom(fmt, p, h, data, pos) == Ok(([], pos)) && ReadPlaces(fmt, p, h, data, pos) == []
    ensures AllRead(fmt, data, pos, []) && ValuesOf([]) == []
  {
  }

  /** Every value that is read is what its bytes say, one after the other, in the order that is written before it. */
  lemma {:induction false} ReadByteByByte(fmt: string, p: nat, h: Header, data: seq<Byte>, pos: nat)
    requires UnpackFrom(fmt, p, h, data, pos).Ok? && p <= |fmt| && (h.endian == Big <==> BigAt(fmt, p))
    ensures var places := ReadPlaces(fmt, p, h, data, pos);
            AllRead(fmt, data, pos, places) && UnpackFrom(fmt, p, h, data, pos).value.0 == ValuesOf(places)
    decreases |fmt| - p
  {
    hide *;
    if AtEnd(fmt, p) {
      NothingRead(fmt, p, h, data, pos);
      return;
    }
    LetterSize(fmt, p);
    SizeIsRead(fmt, p, h, data, pos);
    var (size, next) := OptSize(fmt, p + 1, fmt[p]).value;
    if IsItem(fmt[p]) {
      ItemIsThere(fmt, p, h, data, pos, size, next);
      UnpackUnfold(fmt, p, h, size, next, data, pos);
      OptionKeepsOrder(fmt, p);
      var start := pos + ToAlign(pos, h, fmt[p], size);
      var (values, used) := UnpackItem(fmt[p], size, h.endian, data, start).value;
      PlaceIsThere(fmt, p, h, data, pos, size, next, start, values, used);
      ReadByteByByte(fmt, next, h, data, start + used);
      ItemIsRead(fmt, p, h, data, size, start);
      AllReadStep(fmt, data, pos, Place(p, start, used, values), ReadPlaces(fmt, next, h, data, start + used));
    } else {
      ReadControlStep(fmt, p, h, data, pos, size, next);
      ControlSetsOrder(fmt, p, h);
      var (h', next') := Control(fmt, next, fmt[p], h).value;
      ReadByteByByte(fmt, next', h', data, pos);
    }
  }

  // ---------- From the start of a format ----------

  /** Packing: without an order option and after < the low byte stands first, after > the high one, and a later option
      overrides an earlier one. */
  lemma PackIsAsWritten(fmt: string, args: seq<Value>)
    requires Pack(fmt, args).Ok?
    ensures Laid(fmt, Pack(fmt, args).value, 0, PackPlaces(fmt, 0, DEFAULT, args, 0))
  {
    PackedByteByByte(fmt, 0, DEFAULT, args, []);
    assert [] + Pack(fmt, args).value == Pack(fmt, args).value;
  }

  /** And reading likewise. */
  lemma UnpackIsAsWritten(fmt: string, data: seq<Byte>, init: nat)
    requires 1 <= init <= |data| + 1 && Unpack(fmt, data, init).Ok?
    ensures var places := ReadPlaces(fmt, 0, DEFAULT, data, init - 1);
            AllRead(fmt, data, init - 1, places) && Unpack(fmt, data, init).value.0 == ValuesOf(places)
  {
    hide UnpackFrom, ReadPlaces, AllRead, ValuesOf;
    ReadByteByByte(fmt, 0, DEFAULT, data, init - 1);
  }

  /** The letters with a size of their own: those of the C types on a 64-bit machine. */
  lemma LettersOfCTypes(pre: string, post: string)
    ensures var fmt, p := pre + post, |pre|;
            && OptSize(fmt, p, 'b') == OptSize(fmt, p, 'B') == OptSize(fmt, p, 'x') == Ok((1, p))
            && OptSize(fmt, p, 'h') == OptSize(fmt, p, 'H') == Ok((2, p))
            && OptSize(fmt, p, 'l') == OptSize(fmt, p, 'L') == OptSize(fmt, p, 'T') == Ok((8, p))
            && OptSize(fmt, p, 'f') == Ok((4, p)) && OptSize(fmt, p, 'd') == Ok((8, p))
            && OptSize(fmt, p, 's') == Ok((0, p))
  {
  }

  lemma OneAtTheEnd(fmt: string, p: nat, h: Header)
    requires |fmt| == p + 1 && fmt[p] == 'H' && h.align == 1
    ensures PackFrom(fmt, p, h, [Num(1)], 0) == Ok(if h.endian == Little then [1, 0] else [0, 1])
  {
    assert ToBytes(1, 2) == [1] + ToBytes(0, 1) && ToBytes(0, 1) == [0] + ToBytes(0, 0);
    assert Reverse([1, 0]) == Reverse([0]) + [1];
    var bytes := IntBytes(1, 2, h.endian);
    assert bytes == if h.endian == Little then [1, 0] else [0, 1];
    hide IntBytes;
    assert PackItem('H', 2, h.endian, [Num(1)]) == Ok((bytes, 1));
    assert ToAlign(0, h, 'H', 2) == 0;
    hide PackItem, ToAlign;
    assert Zeros(0) + bytes + [] == bytes && [Num(1)][1..] == [];
    assert PackFrom(fmt, p + 1, h, [], 2) == Ok([]);
  }

  lemma OrderFirst(fmt: string, p: nat, h: Header, args: seq<Value>, total: nat)
    requires p < |fmt| && (fmt[p] == '<' || fmt[p] == '>')
    ensures PackFrom(fmt, p, h, args, total)
            == PackFrom(fmt, p + 1, h.(endian := if fmt[p] == '>' then Big else Little), args, total)
  {
    hide PackItem, ToAlign, Zeros;
  }

  /** The number 1 in two bytes, in each order, and with an order overridden. */
  lemma OneInTwoBytes()
    ensures Pack("H", [Num(1)]) == Ok([1, 0]) && Pack("<H", [Num(1)]) == Ok([1, 0])
    ensures Pack(">H", [Num(1)]) == Ok([0, 1]) && Pack("><H", [Num(1)]) == Ok([1, 0])
  {
    hide PackFrom;
    OneAtTheEnd("H", 0, DEFAULT);
    OrderFirst("<H", 0, DEFAULT, [Num(1)], 0);
    OneAtTheEnd("<H", 1, Header(Little, 1));
    OrderFirst(">H", 0, DEFAULT, [Num(1)], 0);
    OneAtTheEnd(">H", 1, Header(Big, 1));
    OrderFirst("><H", 0, DEFAULT, [Num(1)], 0);
    OrderFirst("><H", 1, Header(Big, 1), [Num(1)], 0);
    OneAtTheEnd("><H", 2, Header(Little, 1));
  }
}
