/** What formats of util-src/struct.c mean as they are written, and when unpacking stays inside its data. */
module StructLaws {
  import opened Bytes
  import opened Decimals
  import opened Struct

  // ---------- Numbers in formats ----------

  predicate AllDigits(s: string) {
    forall i :: 0 <= i < |s| ==> IsDigit(s[i])
  }

  /** The number that digits stand for, with a before them. */
  function NumberOf(a: nat, s: string): nat
    requires AllDigits(s)
    decreases |s|
  {
    if s == "" then a else NumberOf(a * 10 + DigitValue(s[0]), s[1..])
  }

  lemma {:induction false} NumberOfSnoc(a: nat, s: string, c: char)
    requires AllDigits(s) && IsDigit(c)
    ensures AllDigits(s + [c]) && NumberOf(a, s + [c]) == NumberOf(a, s) * 10 + DigitValue(c)
    decreases |s|
  {
    if s == "" {
      assert "" + [c] == [c] && [c][1..] == "";
    } else {
      assert (s + [c])[1..] == s[1..] + [c];
      NumberOfSnoc(a * 10 + DigitValue(s[0]), s[1..], c);
    }
  }

  /** A numeral stands for its number. */
  lemma {:induction false} NumberOfDecimal(n: nat)
    ensures AllDigits(Decimal(n)) && NumberOf(0, Decimal(n)) == n && Decimal(n) != ""
  {
    assert forall d: nat :: d < 10 ==> IsDigit(Digit(d)) && DigitValue(Digit(d)) == d;
    if n < 10 {
      assert [Digit(n)][1..] == "";
    } else {
      NumberOfDecimal(n / 10);
      NumberOfSnoc(0, Decimal(n / 10), Digit(n % 10));
    }
  }

  lemma {:induction false} DigitsAreRead(pre: string, s: string, post: string, a: nat)
    requires AllDigits(s) && (post == "" || !IsDigit(post[0]))
    ensures NumberFrom(pre + s + post, |pre|, a) == (NumberOf(a, s), |pre| + |s|)
    decreases |s|
  {
    var fmt := pre + s + post;
    if s == "" {
      assert fmt == pre + post;
    } else {
      assert fmt[|pre|] == s[0] && fmt == (pre + [s[0]]) + s[1..] + post;
      DigitsAreRead(pre + [s[0]], s[1..], post, a * 10 + DigitValue(s[0]));
    }
  }

  lemma NumberIsRead(pre: string, n: nat, post: string, default: nat)
    requires post == "" || !IsDigit(post[0])
    ensures Number(pre + Decimal(n) + post, |pre|, default) == (n, |pre| + |Decimal(n)|)
    ensures Number(pre + post, |pre|, default) == (default, |pre|)
  {
    NumberOfDecimal(n);
    DigitsAreRead(pre, Decimal(n), post, 0);
    assert (pre + Decimal(n) + post)[|pre|] == Decimal(n)[0];
  }

  /** An integer or string option has the size written behind it, if it is at most 32 for an integer, and else 4 or 1;
      the format goes on after the numeral. */
  lemma SizeAsWritten(pre: string, opt: char, n: nat, post: string)
    requires opt in "iIc" && (post == "" || !IsDigit(post[0]))
    ensures OptSize(pre + Decimal(n) + post, |pre|, opt)
            == if opt != 'c' && n > 32 then Err(IntegralSize) else Ok((n, |pre| + |Decimal(n)|))
    ensures OptSize(pre + post, |pre|, opt) == Ok((if opt == 'c' then 1 else 4, |pre|))
  {
    NumberIsRead(pre, n, post, 1);
    NumberIsRead(pre, n, post, 4);
    hide Number;
  }

  /** An alignment option sets the alignment written behind it, if that is a power of two, and else the native one; the
      byte order stays. */
  lemma AlignmentAsWritten(pre: string, n: nat, post: string, h: Header)
    requires post == "" || !IsDigit(post[0])
    ensures Control(pre + Decimal(n) + post, |pre|, '!', h)
            == if PowerOfTwo(n) then Ok((Header(h.endian, n), |pre| + |Decimal(n)|)) else Err(BadAlignment)
    ensures Control(pre + post, |pre|, '!', h) == Ok((Header(h.endian, 8), |pre|))
  {
    NumberIsRead(pre, n, post, MAXALIGN);
    BitTrick(n);
    BitTrick(MAXALIGN);
    assert MAXALIGN == Pow2(3) && PowerOfTwo(MAXALIGN);
    hide Number, Pow2;
  }

  /** Spaces mean nothing, the first NUL ends a format, and a letter that is no option is an error; only the size of a
      format passes over an unknown letter or digit. */
  lemma OtherLetters(fmt: string, p: nat, h: Header, args: seq<Value>, data: seq<Byte>, pos: nat)
    requires p < |fmt| && pos <= |data|
    ensures fmt[p] == ' ' ==>
              && PackFrom(fmt, p, h, args, pos) == PackFrom(fmt, p + 1, h, args, pos)
              && UnpackFrom(fmt, p, h, data, pos) == UnpackFrom(fmt, p + 1, h, data, pos)
              && SizeFrom(fmt, p, h, pos) == SizeFrom(fmt, p + 1, h, pos)
    ensures fmt[p] == '\0' ==>
              && PackFrom(fmt, p, h, args, pos) == Ok([]) && UnpackFrom(fmt, p, h, data, pos) == Ok(([], pos))
              && SizeFrom(fmt, p, h, pos) == Ok(pos)
    ensures fmt[p] !in "bBhHlLTiIfdxcs<>! \0" ==>
              && PackFrom(fmt, p, h, args, pos) == Err(InvalidOption)
              && UnpackFrom(fmt, p, h, data, pos) == Err(InvalidOption)
              && SizeFrom(fmt, p, h, pos)
                 == if IsAlnum(fmt[p]) then SizeFrom(fmt, p + 1, h, pos) else Err(InvalidOption)
  {
  }

  /** What an item can be packed from: a number of a 64-bit machine word, or a string that is long enough. */
  predicate Takes(opt: char, size: nat, args: seq<Value>) {
    opt == 'x' ||
    (args != [] &&
     if opt in "bBhHlLTiI" then
       args[0].Num? && 1 <= size <= 8 && -0x8000_0000_0000_0000 <= args[0].n < 0x1_0000_0000_0000_0000
     else args[0].Str? && (opt == 's' || (opt == 'c' && 1 <= size <= |args[0].s|)))
  }

  lemma ItemPacks(opt: char, size: nat, endian: Endian, args: seq<Value>)
    requires IsItem(opt)
    ensures PackItem(opt, size, endian, args).Ok? <==> Takes(opt, size, args)
  {
    hide IntBytes;
  }

  /** What an item can be unpacked from: the string needs its zero byte. */
  lemma ItemUnpacks(opt: char, size: nat, endian: Endian, data: seq<Byte>, pos: nat)
    requires IsItem(opt) && pos + size <= |data|
    ensures UnpackItem(opt, size, endian, data, pos).Ok?
            <==> opt == 'x' || (opt in "bBhHlLTiI" && 1 <= size <= 8) || (opt == 's' && 0 in data[pos..])
                 || (opt == 'c' && size > 0)
  {
    hide ReadInt;
    assert forall i :: pos <= i < |data| ==> data[i] == data[pos..][i - pos];
  }

  /** Each item finds an argument that it takes. */
  ghost predicate AllTake(fmt: string, p: nat, args: seq<Value>)
    decreases |fmt| - p
  {
    AtEnd(fmt, p) ||
    (OptSize(fmt, p + 1, fmt[p]).Ok? &&
     var (size, next) := OptSize(fmt, p + 1, fmt[p]).value;
     if IsItem(fmt[p]) then
       Takes(fmt[p], size, args) && AllTake(fmt, next, if fmt[p] == 'x' then args else args[1..])
     else
       Control(fmt, next, fmt[p], DEFAULT).Ok? && AllTake(fmt, Control(fmt, next, fmt[p], DEFAULT).value.1, args))
  }

  /** Packing succeeds exactly when each item finds its argument; byte order, alignment and position make no difference,
      and arguments that are left over do not matter. */
  lemma {:induction false} PacksWhen(fmt: string, p: nat, h: Header, args: seq<Value>, total: nat)
    requires p <= |fmt|
    ensures PackFrom(fmt, p, h, args, total).Ok? <==> AllTake(fmt, p, args)
    decreases |fmt| - p
  {
    hide PackItem, Takes, OptSize, ToAlign, Zeros, IsItem;
    if !AtEnd(fmt, p) && OptSize(fmt, p + 1, fmt[p]).Ok? {
      var (size, next) := OptSize(fmt, p + 1, fmt[p]).value;
      if IsItem(fmt[p]) {
        var r := PackItem(fmt[p], size, h.endian, args);
        ItemPacks(fmt[p], size, h.endian, args);
        if r.Ok? {
          assert args[0..] == args;
          PacksWhen(fmt, next, h, args[r.value.1..], total + ToAlign(total, h, fmt[p], size) + |r.value.0|);
        }
      } else {
        ControlAlike(fmt, next, fmt[p], h);
        var r := Control(fmt, next, fmt[p], h);
        if r.Ok? {
          PacksWhen(fmt, r.value.1, r.value.0, args, total);
        }
      }
    }
  }

  lemma ControlAlike(fmt: string, p: nat, opt: char, h: Header)
    requires p <= |fmt|
    ensures var r, r' := Control(fmt, p, opt, h), Control(fmt, p, opt, DEFAULT);
            (r.Ok? <==> r'.Ok?) && (r.Ok? ==> r.value.1 == r'.value.1)
  {
  }

  ghost predicate PowerOfTwo(n: nat) {
    exists k: nat :: n == Pow2(k)
  }

  /** x & (x - 1) is zero for the powers of two and no other positive number. */
  lemma {:induction false} BitTrick(a: nat)
    ensures IsPowerOf2(a) <==> PowerOfTwo(a)
    decreases a
  {
    if a <= 1 {
      assert a == 1 ==> a == Pow2(0);
    } else {
      AndStep(a, a - 1);
      hide PowerOfTwo;
      if a % 2 == 0 {
        BitTrick(a / 2);
        assert (a - 1) / 2 == a / 2 - 1;
        EvenPower(a);
      } else {
        AndItself(a / 2);
        assert (a - 1) / 2 == a / 2 && And(a, a - 1) / 2 == a / 2 > 0;
        OddIsNoPower(a);
      }
    }
  }

  lemma EvenPower(a: nat)
    requires a > 1 && a % 2 == 0
    ensures PowerOfTwo(a) <==> PowerOfTwo(a / 2)
  {
    if PowerOfTwo(a) {
      var k: nat :| a == Pow2(k);
      assert a / 2 == Pow2(k - 1);
    }
    if PowerOfTwo(a / 2) {
      var k: nat :| a / 2 == Pow2(k);
      assert a == Pow2(k + 1);
    }
  }

  lemma OddIsNoPower(a: nat)
    requires a > 1 && a % 2 == 1
    ensures !PowerOfTwo(a)
  {
    if PowerOfTwo(a) {
      var k: nat :| a == Pow2(k);
      assert k > 0 && Pow2(k) == 2 * Pow2(k - 1);
    }
  }

  lemma {:induction false} AndItself(a: nat)
    ensures And(a, a) == a
  {
    if a > 0 {
      AndStep(a, a);
      AndItself(a / 2);
      assert (a % 2) * (a % 2) == a % 2 by {
        if a % 2 == 1 {
        }
      }
    }
  }

  // ---------- Inside the data ----------

  /** The test of the source, `size <= ld - pos` on unsigned 64-bit numbers, lets an item pass that is inside the data,
      and every item that starts behind its end. */
  lemma UnsignedTest(size: nat, ld: nat, pos: nat)
    requires ld < TWO63 && size < TWO63 && pos < TWO63
    ensures size <= (ld - pos) % TWO64 <==> pos + size <= ld || pos > ld
  {
    if pos <= ld {
      ModUnique(ld - pos, 0, ld - pos, TWO64);
    } else {
      ModUnique(ld - pos, -1, TWO64 - (pos - ld), TWO64);
    }
  }

  /** Alignment moves the position of some item past the end of the data, with all items before it inside. */
  predicate PassesEnd(fmt: string, p: nat, h: Header, data: seq<Byte>, pos: nat)
    decreases |fmt| - p
  {
    !AtEnd(fmt, p) && OptSize(fmt, p + 1, fmt[p]).Ok? &&
    var opt := fmt[p];
    var (size, next) := OptSize(fmt, p + 1, opt).value;
    var start := pos + ToAlign(pos, h, opt, size);
    if start > |data| then true
    else if start + size > |data| then false
    else if IsItem(opt) then
      var i := UnpackItem(opt, size, h.endian, data, start);
      i.Ok? && PassesEnd(fmt, next, h, data, start + i.value.1)
    else
      var c := Control(fmt, next, opt, h);
      c.Ok? && PassesEnd(fmt, c.value.1, c.value.0, data, pos)
  }

  lemma AfterValuesError(vs: seq<Value>, r: Result<(seq<Value>, nat)>, e: Error)
    ensures AfterValues(vs, r) == Err(e) <==> r == Err(e)
  {
  }

  lemma ItemErrors(opt: char, size: nat, endian: Endian, data: seq<Byte>, pos: nat)
    requires IsItem(opt) && pos + size <= |data|
    ensures UnpackItem(opt, size, endian, data, pos) != Err(OverRead)
    ensures UnpackItem(opt, size, endian, data, pos) != Err(DataTooShort)
  {
  }

  lemma OtherErrors(fmt: string, p: nat, opt: char, h: Header)
    requires p <= |fmt|
    ensures OptSize(fmt, p, opt) != Err(OverRead) && OptSize(fmt, p, opt) != Err(DataTooShort)
    ensures Control(fmt, p, opt, h) != Err(OverRead) && Control(fmt, p, opt, h) != Err(DataTooShort)
  {
  }

  /** Unpacking reads outside its data exactly when alignment moves an item past the end. */
  lemma {:induction false} OverReadsWhen(fmt: string, p: nat, h: Header, data: seq<Byte>, pos: nat)
    ensures UnpackFrom(fmt, p, h, data, pos) == Err(OverRead) <==> PassesEnd(fmt, p, h, data, pos)
    decreases |fmt| - p
  {
    hide IsItem, IsInt, ToAlign, UnpackItem, Control, OptSize, UnpackFrom, AfterValues;
    if AtEnd(fmt, p) {
      EndOfFormat(fmt, p, h, data, pos);
    } else {
      UnpackStep(fmt, p, h, data, pos);
      OtherErrors(fmt, p + 1, fmt[p], h);
      if OptSize(fmt, p + 1, fmt[p]).Ok? {
        var opt := fmt[p];
        var (size, next) := OptSize(fmt, p + 1, opt).value;
        var start := pos + ToAlign(pos, h, opt, size);
        if start + size <= |data| {
          if IsItem(opt) {
            ItemErrors(opt, size, h.endian, data, start);
            var i := UnpackItem(opt, size, h.endian, data, start);
            if i.Ok? {
              OverReadsWhen(fmt, next, h, data, start + i.value.1);
              AfterValuesError(i.value.0, UnpackFrom(fmt, next, h, data, start + i.value.1), OverRead);
            }
          } else {
            OtherErrors(fmt, next, opt, h);
            var c := Control(fmt, next, opt, h);
            if c.Ok? {
              OverReadsWhen(fmt, c.value.1, c.value.0, data, pos);
            }
          }
        }
      }
    }
  }

  // ---------- What the format alone says ----------

  /** Where an item lies in the data. */
  datatype Span = Span(start: nat, end: nat)

  /** Items whose bytes give a value whatever they are. */
  predicate Readable(opt: char, size: nat) {
    opt == 'x' || (IsInt(opt) && IntSize(size)) || (opt == 'c' && size > 0)
  }

  /** Where the items of a format lie, up to the first that cannot be read; this is for formats without strings, whose
      end only the data tells. */
  function Layout(fmt: string, p: nat, h: Header, pos: nat): seq<Span>
    decreases |fmt| - p
  {
    if AtEnd(fmt, p) || OptSize(fmt, p + 1, fmt[p]).Err? then []
    else
      var opt := fmt[p];
      var (size, next) := OptSize(fmt, p + 1, opt).value;
      var start := pos + ToAlign(pos, h, opt, size);
      if IsItem(opt) then
        [Span(start, start + size)] + if Readable(opt, size) then Layout(fmt, next, h, start + size) else []
      else
        var c := Control(fmt, next, opt, h);
        if c.Err? then [] else Layout(fmt, c.value.1, c.value.0, pos)
  }

  /** The length lies in the gap between the end of one span and the start of the next. */
  predicate InGap(spans: seq<Span>, len: nat) {
    exists j :: 0 < j < |spans| && spans[j - 1].end <= len < spans[j].start
  }

  lemma GapInFront(a: Span, b: Span, rest: seq<Span>, len: nat)
    ensures InGap([a, b] + rest, len) <==> a.end <= len < b.start || InGap([b] + rest, len)
  {
    var s, t := [a, b] + rest, [b] + rest;
    assert forall j :: 0 < j < |s| ==> s[j] == t[j - 1];
    if j :| 0 < j < |t| && t[j - 1].end <= len < t[j].start {
      assert s[j + 1] == t[j] && s[j] == t[j - 1];
    }
    if a.end <= len < b.start {
      assert s[1] == b && s[0] == a;
    }
    if j :| 1 < j < |s| && s[j - 1].end <= len < s[j].start {
      assert t[j - 1] == s[j] && t[j - 2] == s[j - 1];
    }
  }

  lemma {:induction false} LayoutGoesOn(fmt: string, p: nat, h: Header, pos: nat)
    ensures forall span :: span in Layout(fmt, p, h, pos) ==> pos <= span.start <= span.end
    decreases |fmt| - p
  {
    hide IsItem, ToAlign, Control, OptSize, Readable;
    if !AtEnd(fmt, p) && OptSize(fmt, p + 1, fmt[p]).Ok? {
      var opt := fmt[p];
      var (size, next) := OptSize(fmt, p + 1, opt).value;
      if IsItem(opt) {
        LayoutGoesOn(fmt, next, h, pos + ToAlign(pos, h, opt, size) + size);
      } else if Control(fmt, next, opt, h).Ok? {
        var c := Control(fmt, next, opt, h).value;
        LayoutGoesOn(fmt, c.1, c.0, pos);
        assert Layout(fmt, p, h, pos) == Layout(fmt, c.1, c.0, pos);
      } else {
        assert Layout(fmt, p, h, pos) == [];
      }
    }
  }

  lemma NothingFits(a: Span, spans: seq<Span>, len: nat)
    requires a.end > len && forall span :: span in spans ==> a.end <= span.start <= span.end
    ensures !InGap([a] + spans, len)
  {
    var s := [a] + spans;
    assert forall span :: span in s ==> span.end > len;
  }

  /** The same with another start of the first span. */
  lemma OnlyItsEnd(a: Span, b: Span, rest: seq<Span>, len: nat)
    requires a.end == b.end
    ensures InGap([a] + rest, len) <==> InGap([b] + rest, len)
  {
    var s, t := [a] + rest, [b] + rest;
    assert forall j :: 0 <= j < |s| ==> s[j].end == t[j].end && (j > 0 ==> s[j] == t[j]);
  }

  /** For a format without strings, whatever the bytes: unpacking reads outside its data exactly when the length of the
      data lies in a gap that alignment leaves between two items. */
  lemma {:induction false} OverReadsInGaps(fmt: string, p: nat, h: Header, data: seq<Byte>, pos: nat)
    requires 's' !in fmt && pos <= |data|
    ensures UnpackFrom(fmt, p, h, data, pos) == Err(OverRead)
            <==> InGap([Span(pos, pos)] + Layout(fmt, p, h, pos), |data|)
    decreases |fmt| - p
  {
    hide IsItem, ToAlign, UnpackItem, Control, OptSize, UnpackFrom, AfterValues, Readable, InGap;
    if AtEnd(fmt, p) {
      EndOfFormat(fmt, p, h, data, pos);
      NoGap(Span(pos, pos), |data|);
    } else {
      UnpackStep(fmt, p, h, data, pos);
      OtherErrors(fmt, p + 1, fmt[p], h);
      NoGap(Span(pos, pos), |data|);
      if OptSize(fmt, p + 1, fmt[p]).Ok? {
        var opt := fmt[p];
        var (size, next) := OptSize(fmt, p + 1, opt).value;
        assert opt in fmt;
        if IsItem(opt) {
          var end := pos + ToAlign(pos, h, opt, size) + size;
          ItemInGaps(fmt, p, h, data, pos, size, next, end);
          ItemOverReads(fmt, p, h, data, pos, size, next, end);
          if end <= |data| {
            OverReadsInGaps(fmt, next, h, data, end);
          }
        } else {
          OtherErrors(fmt, next, opt, h);
          NoSize(fmt, p + 1, opt);
          NoAlign(pos, h, opt);
          var c := Control(fmt, next, opt, h);
          if c.Ok? {
            OverReadsInGaps(fmt, c.value.1, c.value.0, data, pos);
          }
        }
      }
    }
  }

  lemma NoGap(a: Span, len: nat)
    ensures !InGap([a] + [], len)
  {
  }

  lemma NoSize(fmt: string, p: nat, opt: char)
    requires p <= |fmt| && !IsItem(opt)
    ensures OptSize(fmt, p, opt) == Ok((0, p))
  {
  }

  /** One item in front of others: it starts behind the end, or ends there, or all depends on the others. */
  lemma SpanInGaps(pos: nat, here: Span, rest: seq<Span>, len: nat)
    requires pos <= len && here.start <= here.end
    requires forall span :: span in rest ==> here.end <= span.start <= span.end
    ensures InGap([Span(pos, pos)] + ([here] + rest), len)
            <==> here.start > len || (here.end <= len && InGap([Span(here.end, here.end)] + rest, len))
  {
    hide InGap;
    assert [Span(pos, pos)] + ([here] + rest) == [Span(pos, pos), here] + rest;
    GapInFront(Span(pos, pos), here, rest, len);
    OnlyItsEnd(here, Span(here.end, here.end), rest, len);
    if here.end > len {
      NothingFits(here, rest, len);
    }
  }

  lemma LayoutItem(fmt: string, p: nat, h: Header, pos: nat, size: nat, next: nat, end: nat)
    requires !AtEnd(fmt, p) && IsItem(fmt[p]) && OptSize(fmt, p + 1, fmt[p]) == Ok((size, next))
    requires end == pos + ToAlign(pos, h, fmt[p], size) + size
    ensures Layout(fmt, p, h, pos)
            == [Span(end - size, end)] + if Readable(fmt[p], size) then Layout(fmt, next, h, end) else []
  {
    hide IsItem, ToAlign, Control, OptSize, Readable;
  }

  /** One item of the format: where its gap is, and what unpacking does. */
  lemma ItemInGaps(fmt: string, p: nat, h: Header, data: seq<Byte>, pos: nat, size: nat, next: nat, end: nat)
    requires !AtEnd(fmt, p) && IsItem(fmt[p]) && OptSize(fmt, p + 1, fmt[p]) == Ok((size, next))
    requires pos <= |data| && end == pos + ToAlign(pos, h, fmt[p], size) + size
    ensures InGap([Span(pos, pos)] + Layout(fmt, p, h, pos), |data|)
            <==> end - size > |data| || (end <= |data| && Readable(fmt[p], size)
                                         && InGap([Span(end, end)] + Layout(fmt, next, h, end), |data|))
  {
    LayoutItem(fmt, p, h, pos, size, next, end);
    hide IsItem, ToAlign, OptSize, Readable, InGap, Layout;
    var rest := if Readable(fmt[p], size) then Layout(fmt, next, h, end) else [];
    LayoutGoesOn(fmt, next, h, end);
    SpanInGaps(pos, Span(end - size, end), rest, |data|);
    NoGap(Span(end, end), |data|);
  }

  lemma ItemOverReads(fmt: string, p: nat, h: Header, data: seq<Byte>, pos: nat, size: nat, next: nat, end: nat)
    requires !AtEnd(fmt, p) && IsItem(fmt[p]) && OptSize(fmt, p + 1, fmt[p]) == Ok((size, next))
    requires pos <= |data| && end == pos + ToAlign(pos, h, fmt[p], size) + size
    requires fmt[p] != 's'
    ensures UnpackFrom(fmt, p, h, data, pos) == Err(OverRead)
            <==> end - size > |data| || (end <= |data| && Readable(fmt[p], size)
                                         && UnpackFrom(fmt, next, h, data, end) == Err(OverRead))
  {
    hide IsItem, ToAlign, UnpackItem, Control, OptSize, UnpackFrom, AfterValues, Readable;
    UnpackStep(fmt, p, h, data, pos);
    if end <= |data| {
      var i := UnpackItem(fmt[p], size, h.endian, data, end - size);
      ReadableItem(fmt[p], size, h.endian, data, end - size);
      if i.Ok? {
        AfterValuesError(i.value.0, UnpackFrom(fmt, next, h, data, end), OverRead);
      }
    }
  }

  lemma ReadableItem(opt: char, size: nat, endian: Endian, data: seq<Byte>, pos: nat)
    requires IsItem(opt) && opt != 's' && pos + size <= |data|
    ensures var i := UnpackItem(opt, size, endian, data, pos);
            if Readable(opt, size) then i.Ok? && i.value.1 == size else i.Err? && i.error != OverRead
  {
  }

  /** So for a whole format, from any initial position, only the length of the data matters. */
  lemma OnlyTheLengthMatters(fmt: string, data: seq<Byte>, init: nat)
    requires 's' !in fmt && 1 <= init <= |data| + 1
    ensures Unpack(fmt, data, init) == Err(OverRead)
            <==> InGap([Span(init - 1, init - 1)] + Layout(fmt, 0, DEFAULT, init - 1), |data|)
  {
    hide UnpackFrom, Layout, InGap;
    OverReadsInGaps(fmt, 0, DEFAULT, data, init - 1);
  }

  /** The items lie within the size of the format. */
  lemma {:induction false} LayoutIsMeasured(fmt: string, p: nat, h: Header, pos: nat)
    requires SizeFrom(fmt, p, h, pos).Ok?
    ensures forall span :: span in Layout(fmt, p, h, pos) ==> span.end <= SizeFrom(fmt, p, h, pos).value
    decreases |fmt| - p
  {
    hide ToAlign, Control, OptSize, Readable;
    if !AtEnd(fmt, p) {
      var opt := fmt[p];
      var (size, next) := OptSize(fmt, p + 1, opt).value;
      var end := pos + ToAlign(pos, h, opt, size) + size;
      if IsItem(opt) {
        SizeGrows(fmt, next, h, end);
        LayoutItem(fmt, p, h, pos, size, next, end);
        LayoutIsMeasured(fmt, next, h, end);
      } else if Control(fmt, next, opt, h).Ok? {
        NoSize(fmt, p + 1, opt);
        NoAlign(pos, h, opt);
        var c := Control(fmt, next, opt, h).value;
        OnlyControls(fmt, next, opt, h);
        LayoutIsMeasured(fmt, c.1, c.0, pos);
        assert Layout(fmt, p, h, pos) == Layout(fmt, c.1, c.0, pos);
      } else {
        assert Layout(fmt, p, h, pos) == [];
      }
    }
  }

  lemma OnlyControls(fmt: string, p: nat, opt: char, h: Header)
    requires p <= |fmt| && Control(fmt, p, opt, h).Ok?
    ensures !IsAlnum(opt)
  {
  }

  /** What a caller can see beforehand: without an alignment option nothing is read outside the data. */
  lemma NoAlignmentNoOverRead(fmt: string, data: seq<Byte>, init: nat)
    requires '!' !in fmt && 1 <= init <= |data| + 1
    ensures Unpack(fmt, data, init) != Err(OverRead)
  {
    hide UnpackFrom, PassesEnd;
    OverReadsWhen(fmt, 0, DEFAULT, data, init - 1);
    UnalignedStays(fmt, 0, DEFAULT, data, init - 1);
  }

  lemma {:induction false} UnalignedStays(fmt: string, p: nat, h: Header, data: seq<Byte>, pos: nat)
    requires '!' !in fmt && h.align == 1 && pos <= |data|
    ensures !PassesEnd(fmt, p, h, data, pos)
    decreases |fmt| - p
  {
    hide IsItem, IsInt, ToAlign, UnpackItem, OptSize;
    if !AtEnd(fmt, p) && OptSize(fmt, p + 1, fmt[p]).Ok? {
      var opt := fmt[p];
      var (size, next) := OptSize(fmt, p + 1, opt).value;
      NothingToAlign(pos, h, opt, size);
      if pos + size <= |data| {
        if IsItem(opt) {
          var i := UnpackItem(opt, size, h.endian, data, pos);
          if i.Ok? {
            UnalignedStays(fmt, next, h, data, pos + i.value.1);
          }
        } else {
          var c := Control(fmt, next, opt, h);
          if c.Ok? {
            assert fmt[p] in fmt;
            UnalignedStays(fmt, c.value.1, c.value.0, data, pos);
          }
        }
      }
    }
  }

  lemma NothingToAlign(len: nat, h: Header, opt: char, size: nat)
    requires h.align == 1
    ensures ToAlign(len, h, opt, size) == 0
  {
  }

  /** Nor when the format has a fixed size and the data is at least that long; it is not too short then either. */
  lemma FittingDataIsEnough(fmt: string, data: seq<Byte>)
    requires Size(fmt).Ok? && Size(fmt).value <= |data|
    ensures Unpack(fmt, data, 1) != Err(OverRead) && Unpack(fmt, data, 1) != Err(DataTooShort)
  {
    FixedStays(fmt, 0, DEFAULT, data, 0);
  }

  lemma {:induction false} FixedStays(fmt: string, p: nat, h: Header, data: seq<Byte>, pos: nat)
    requires SizeFrom(fmt, p, h, pos).Ok? && SizeFrom(fmt, p, h, pos).value <= |data|
    ensures UnpackFrom(fmt, p, h, data, pos) != Err(OverRead) && UnpackFrom(fmt, p, h, data, pos) != Err(DataTooShort)
    decreases |fmt| - p
  {
    hide IsInt, ToAlign, UnpackItem, Control, OptSize, UnpackFrom, AfterValues;
    if AtEnd(fmt, p) {
      EndOfFormat(fmt, p, h, data, pos);
    } else {
      var opt := fmt[p];
      var (size, next) := OptSize(fmt, p + 1, opt).value;
      var start := pos + ToAlign(pos, h, opt, size);
      UnpackStep(fmt, p, h, data, pos);
      if IsAlnum(opt) {
        SizeGrows(fmt, next, h, start + size);
      } else {
        NotAnItem(opt);
        ControlSize(fmt, p + 1, opt);
        NoAlign(pos, h, opt);
        OtherErrors(fmt, next, opt, h);
        var c := Control(fmt, next, opt, h).value;
        SizeGrows(fmt, c.1, c.0, pos);
        FixedStays(fmt, c.1, c.0, data, pos);
      }
      if IsItem(opt) {
        ItemErrors(opt, size, h.endian, data, start);
        FixedUse(opt, size, h.endian, data, start);
        var i := UnpackItem(opt, size, h.endian, data, start);
        if i.Ok? {
          FixedStays(fmt, next, h, data, start + size);
          AfterValuesError(i.value.0, UnpackFrom(fmt, next, h, data, start + size), OverRead);
          AfterValuesError(i.value.0, UnpackFrom(fmt, next, h, data, start + size), DataTooShort);
        }
      } else if IsAlnum(opt) {
        UnknownLetter(fmt, next, opt, h);
      }
    }
  }

  lemma NotAnItem(opt: char)
    requires !IsAlnum(opt)
    ensures !IsItem(opt)
  {
  }

  lemma UnknownLetter(fmt: string, p: nat, opt: char, h: Header)
    requires p <= |fmt| && IsAlnum(opt)
    ensures Control(fmt, p, opt, h) == Err(InvalidOption)
  {
  }

  lemma FixedUse(opt: char, size: nat, endian: Endian, data: seq<Byte>, pos: nat)
    requires IsItem(opt) && opt != 's' && pos + size <= |data|
    ensures UnpackItem(opt, size, endian, data, pos).Ok? ==> UnpackItem(opt, size, endian, data, pos).value.1 == size
  {
  }

  /** Measuring only moves forward. */
  lemma {:induction false} SizeGrows(fmt: string, p: nat, h: Header, pos: nat)
    requires SizeFrom(fmt, p, h, pos).Ok?
    ensures SizeFrom(fmt, p, h, pos).value >= pos
    decreases |fmt| - p
  {
    hide ToAlign, Control, OptSize, IsAlnum;
    if !AtEnd(fmt, p) {
      var opt := fmt[p];
      var (size, next) := OptSize(fmt, p + 1, opt).value;
      var end := pos + ToAlign(pos, h, opt, size) + size;
      if IsAlnum(opt) {
        SizeGrows(fmt, next, h, end);
      } else {
        var c := Control(fmt, next, opt, h).value;
        SizeGrows(fmt, c.1, c.0, end);
      }
    }
  }

  /** A byte and then an aligned long, with one byte of data: the long is read behind the end. */
  lemma AlignedLongIsReadBehindTheEnd(b: Byte)
    ensures Unpack("!bl", [b], 1) == Err(OverRead)
  {
    var fmt, h := "!bl", Header(Little, 8);
    AlignOption(fmt);
    LongGap(h);
    Sizes(fmt);
    ByteItem(b);
    hide ToAlign, Control, OptSize, UnpackFrom, UnpackItem, AfterValues, IsItem, IsInt;
    NoAlign(0, DEFAULT, '!');
    UnpackStep(fmt, 2, h, [b], 1);
    assert UnpackFrom(fmt, 2, h, [b], 1) == Err(OverRead);
    UnpackStep(fmt, 1, h, [b], 0);
    AfterValuesError(UnpackItem('b', 1, Little, [b], 0).value.0, UnpackFrom(fmt, 2, h, [b], 1), OverRead);
    assert UnpackFrom(fmt, 1, h, [b], 0) == Err(OverRead);
    UnpackStep(fmt, 0, DEFAULT, [b], 0);
  }

  lemma AlignOption(fmt: string)
    requires fmt == "!bl"
    ensures Control(fmt, 1, '!', DEFAULT) == Ok((Header(Little, 8), 1))
  {
    BitTrick(8);
    assert 8 == Pow2(3);
    assert !IsDigit('b');
  }

  lemma Sizes(fmt: string)
    requires fmt == "!bl"
    ensures OptSize(fmt, 1, '!') == Ok((0, 1))
    ensures OptSize(fmt, 2, 'b') == Ok((1, 2)) && OptSize(fmt, 3, 'l') == Ok((8, 3))
    ensures !IsItem('!') && IsItem('b')
  {
  }

  lemma ByteItem(b: Byte)
    ensures UnpackItem('b', 1, Little, [b], 0).Ok? && UnpackItem('b', 1, Little, [b], 0).value.1 == 1
  {
  }

  lemma LongGap(h: Header)
    requires h.align == 8
    ensures ToAlign(1, h, 'l', 8) == 7 && ToAlign(0, h, 'b', 1) == 0
  {
    assert Pow2(3) == 8 && Pow2(0) == 1;
    AndLowBits(1, 3);
    AndLowBits(7, 3);
    AndLowBits(0, 0);
    AndLowBits(1, 0);
  }
}
