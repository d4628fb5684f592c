/** The ring buffer of util-src/ringbuffer.c: a bounded queue of bytes in a fixed array. */
module RingBuffer {
  import opened Bytes
  import opened Collections

  // ---------- Lua strings ----------

  /** string.sub of the Lua manual: negative positions count from the end, both ends are brought into the string,
      and nothing is left when they cross. */
  function LuaSub(s: Text, i: int, j: int): Text {
    var first, last := FromPosition(i, |s|), ToPosition(j, |s|);
    if first > last then [] else s[first - 1..last]
  }

  function FromPosition(i: int, n: nat): (first: int)
    ensures first >= 1
  {
    if i > 0 then i else if i == 0 || -i > n then 1 else n + i + 1
  }

  function ToPosition(j: int, n: nat): (last: int)
    ensures last <= n
  {
    if j > n then n else if j >= 0 then j else if -j > n then 0 else n + j + 1
  }

  /** Positions count from one, negative ones from the end; a stretch ends with the text, and is empty when its ends
      cross. */
  lemma LuaSubMeans(s: Text, i: int, j: int)
    ensures 1 <= i <= j <= |s| ==> LuaSub(s, i, j) == s[i - 1..j]
    ensures -|s| <= i < 0 ==> LuaSub(s, i, j) == LuaSub(s, i + |s| + 1, j)
    ensures -|s| <= j < 0 ==> LuaSub(s, i, j) == LuaSub(s, i, j + |s| + 1)
    ensures i < -|s| || i == 0 ==> LuaSub(s, i, j) == LuaSub(s, 1, j)
    ensures j > |s| ==> LuaSub(s, i, j) == LuaSub(s, i, |s|)
    ensures j < -|s| || j == 0 || i > |s| || 0 <= j < i || i < 0 <= j < i + |s| + 1 ==> LuaSub(s, i, j) == []
  {
    assert -|s| <= i < 0 ==> FromPosition(i, |s|) == FromPosition(i + |s| + 1, |s|);
    assert -|s| <= j < 0 ==> ToPosition(j, |s|) == ToPosition(j + |s| + 1, |s|);
    assert (1 <= i ==> FromPosition(i, |s|) == i) && (0 <= j <= |s| ==> ToPosition(j, |s|) == j);
    assert i < -|s| || i == 0 ==> FromPosition(i, |s|) == 1;
    assert j > |s| ==> ToPosition(j, |s|) == |s|;
    assert j < -|s| || j == 0 ==> ToPosition(j, |s|) == 0;
    hide FromPosition, ToPosition;
  }

  /** s stands in c at position i. */
  predicate OccursAt(c: Text, s: Text, i: nat) {
    i + |s| <= |c| && c[i..i + |s|] == s
  }

  /** m is where the first occurrence of s ends; 0 means there is none. */
  ghost predicate FirstEnd(c: Text, s: Text, m: nat) {
    if m == 0 then forall i: nat :: !OccursAt(c, s, i)
    else m >= |s| && OccursAt(c, s, m - |s|) && forall i: nat :: i < m - |s| ==> !OccursAt(c, s, i)
  }

  /** There is one first occurrence. */
  lemma FirstEndIsUnique(c: Text, s: Text, m: nat, k: nat)
    requires s != [] && FirstEnd(c, s, m) && FirstEnd(c, s, k)
    ensures m == k
  {
    assert m > 0 ==> m >= |s| && OccursAt(c, s, m - |s|);
    assert k > 0 ==> k >= |s| && OccursAt(c, s, k - |s|);
  }

  // ---------- A window that wraps around ----------

  function At(p: nat, n: nat): (r: nat)
    ensures n > 0 && p < 2 * n ==> r < n
  {
    if p < n then p else p - n
  }

  lemma ModIsAt(p: nat, n: nat)
    requires n > 0 && p < 2 * n
    ensures p % n == At(p, n)
  {
    ModUnique(p, if p < n then 0 else 1, At(p, n), n);
  }

  /** n bytes of b from position p on, going on at the front. */
  function Window(b: Text, p: nat, n: nat): (w: Text)
    requires p < |b| && n <= |b|
    ensures |w| == n && forall i :: 0 <= i < n ==> w[i] == b[At(p + i, |b|)]
  {
    seq(n, i requires 0 <= i < n => b[At(p + i, |b|)])
  }

  lemma WindowGrows(b: Text, p: nat, n: nat, c: Byte)
    requires p < |b| && n < |b|
    ensures Window(b[At(p + n, |b|) := c], p, n + 1) == Window(b, p, n) + [c]
  {
  }

  lemma WindowShrinks(b: Text, p: nat, n: nat, r: nat)
    requires p < |b| && r <= n <= |b|
    ensures Window(b, At(p + r, |b|), n - r) == Window(b, p, n)[r..]
  {
  }

  /** Both positions after r bytes have gone from the front. */
  lemma StepsOn(p: nat, blen: nat, r: nat, n: nat)
    requires p < n && r <= blen <= n
    ensures (p + r) % n == At(p + r, n) < n && At(p + blen, n) % n == At(p + blen, n) < n
    ensures At(At(p + r, n) + (blen - r), n) == At(p + blen, n)
  {
    ModIsAt(p + r, n);
    ModIsAt(At(p + blen, n), n);
  }

  lemma Carried(accepted: Text, taken: Text, c: Text, r: nat)
    requires accepted == taken + c && r <= |c|
    ensures accepted == taken + c[..r] + c[r..]
  {
  }

  /** A stretch of the window is one or two stretches of the array. */
  lemma WindowSlice(b: Text, p: nat, n: nat, i: nat, j: nat)
    requires p < |b| && i < j <= n <= |b|
    ensures p + j <= |b| ==> Window(b, p, n)[i..j] == b[p + i..p + j]
    ensures p + i <= |b| < p + j ==> Window(b, p, n)[i..j] == b[p + i..] + b[..p + j - |b|]
    ensures p + i > |b| ==> Window(b, p, n)[i..j] == b[p + i - |b|..p + j - |b|]
  {
  }

  /** A wrapped position is known by its remainder. */
  lemma WrappedIs(p: nat, n: nat, idx: nat, pos: nat)
    requires p < n && idx <= n && pos <= n && pos % n == (p + idx) % n
    requires (pos == 0 ==> idx == 0) && (pos == n ==> idx > 0)
    ensures pos == if p + idx > n then p + idx - n else p + idx
  {
    ModIsAt(pos, n);
    if p + idx < 2 * n {
      ModIsAt(p + idx, n);
    }
  }

  /** A stretch of the window from its two wrapped ends. */
  lemma SliceIs(b: Text, p: nat, n: nat, i: nat, j: nat, from: nat, to: nat)
    requires p < |b| && i < j <= n <= |b| && from <= |b| && to <= |b|
    requires from % |b| == (p + i) % |b| && (from == 0 ==> i == 0) && (from == |b| ==> i > 0)
    requires to % |b| == (p + j) % |b| && to != 0
    ensures Window(b, p, n)[i..j] == if to <= from then b[from..] + b[..to] else b[from..to]
  {
    hide Window;
    WrappedIs(p, |b|, i, from);
    WrappedIs(p, |b|, j, to);
    WindowSlice(b, p, n, i, j);
  }

  // ---------- What the search looks at ----------

  /** Lengths are 64-bit and unsigned. */
  const SIZE: nat := 0x1_0000_0000_0000_0000

  const HALF: nat := 0x8000_0000_0000_0000

  /** The first byte of a C string: its terminator when it is empty. */
  function First(s: Text): Byte {
    if s == [] then 0 else s[0]
  }

  function ModAt(b: Text, p: nat): Byte
    requires b != []
  {
    ModBound(p, |b|);
    b[p % |b|]
  }

  lemma ModBound(p: nat, n: nat)
    requires n > 0
    ensures 0 <= p % n < n
  {
  }

  /** l bytes from a position on, going round and round. */
  function Circle(b: Text, p: nat, l: nat): (c: Text)
    requires b != []
    ensures |c| == l && forall j :: 0 <= j < l ==> c[j] == ModAt(b, p + j)
  {
    seq<Byte>(l, j requires 0 <= j < l => ModAt(b, p + j))
  }

  /** s stands at i, going round and round in the array, whether that is in the contents or not. */
  predicate Around(b: Text, p: nat, s: Text, i: nat)
    requires b != []
  {
    ModAt(b, p + i) == First(s) && Circle(b, p + i, |s|) == s
  }

  /** The last position the search tries: an unsigned difference. */
  function LastTry(n: nat, l: nat): nat
    requires n < HALF && l < HALF
  {
    if l <= n then n - l else SIZE - (l - n)
  }

  lemma LastTryIsUnsigned(n: nat, l: nat)
    requires n < HALF && l < HALF
    ensures LastTry(n, l) == (n - l) % SIZE
  {
    ModUnique(n - l, if l <= n then 0 else -1, LastTry(n, l), SIZE);
  }

  /** Going on by a whole turn makes no difference. */
  lemma AroundAgain(b: Text, p: nat, s: Text, i: nat)
    requires b != [] && |b| <= i
    ensures Around(b, p, s, i) <==> Around(b, p, s, i - |b|)
  {
    var c, d := Circle(b, p + i, |s|), Circle(b, p + (i - |b|), |s|);
    hide Circle;
    TurnBack(p + i, |b|);
    forall j | 0 <= j < |s|
      ensures c[j] == d[j]
    {
      TurnBack(p + i + j, |b|);
    }
    assert c == d;
  }

  lemma TurnBack(k: nat, n: nat)
    requires 0 < n <= k
    ensures k % n == (k - n) % n
  {
    var q, r := k / n, k % n;
    assert k == q * n + r;
    assert k - n == (q - 1) * n + r;
    ModUnique(k - n, q - 1, r, n);
  }

  /** So whatever is found at all is found in the first turn. */
  lemma {:induction false} FoundInFirstTurn(b: Text, p: nat, s: Text, i: nat)
    requires b != [] && Around(b, p, s, i)
    ensures exists k: nat :: k < |b| && k <= i && Around(b, p, s, k)
    decreases i
  {
    if i >= |b| {
      AroundAgain(b, p, s, i);
      FoundInFirstTurn(b, p, s, i - |b|);
    }
  }

  /** Inside the contents, going round is what occurring means. */
  lemma AroundInside(b: Text, p: nat, n: nat, s: Text, i: nat)
    requires p < |b| && n <= |b| && s != [] && i + |s| <= n
    ensures Around(b, p, s, i) <==> OccursAt(Window(b, p, n), s, i)
  {
    var w, c := Window(b, p, n), Circle(b, p + i, |s|);
    hide Circle, Window;
    forall j | 0 <= j < |s|
      ensures c[j] == w[i..][j]
    {
      ModIsAt(p + i + j, |b|);
      assert w[i..][j] == w[i + j];
    }
    assert c == w[i..i + |s|];
  }

  /** What the search returns: the end of the first match that it tries. */
  ghost predicate Searched(b: Text, p: nat, n: nat, s: Text, m: nat)
    requires b != [] && n < HALF && |s| < HALF
  {
    if exists i: nat :: i <= LastTry(n, |s|) && Around(b, p, s, i) then
      exists i: nat :: i <= LastTry(n, |s|) && Around(b, p, s, i) && m == i + |s|
                       && forall k: nat :: k < i ==> !Around(b, p, s, k)
    else m == 0
  }

  /** When the search can be trusted: the buffer is empty; or it is not full, and the text is no longer than the
      contents or does not stand anywhere around the array; or it is full and the text does not occur. */
  ghost predicate Trusted(b: Text, p: nat, n: nat, s: Text)
    requires p < |b| && n <= |b|
  {
    || n == 0
    || (n < |b| && (|s| <= n || forall i: nat :: i < |b| ==> !Around(b, p, s, i)))
    || (n == |b| && forall i: nat :: !OccursAt(Window(b, p, n), s, i))
  }

  /** For a text that is not empty the search is right exactly then. */
  lemma TrustedWhenRight(b: Text, p: nat, n: nat, s: Text, m: nat)
    requires p < |b| < HALF && 0 < n < |b| && s != [] && |s| < HALF && Searched(b, p, n, s, m)
    ensures FirstEnd(Window(b, p, n), s, m) <==> Trusted(b, p, n, s)
  {
    var w := Window(b, p, n);
    hide Around, OccursAt, Window, ModAt, Circle;
    forall i: nat | i + |s| <= n
      ensures Around(b, p, s, i) <==> OccursAt(w, s, i)
    {
      AroundInside(b, p, n, s, i);
    }
    forall i: nat | i + |s| > n
      ensures !OccursAt(w, s, i)
    {
      TooFar(w, s, i);
    }
    if |s| > n {
      if i: nat :| i < |b| && Around(b, p, s, i) {
        assert i <= LastTry(n, |s|);
        assert m > 0;
      }
      if i: nat :| i <= LastTry(n, |s|) && Around(b, p, s, i) {
        FoundInFirstTurn(b, p, s, i);
      }
    }
  }

  /** In an array of two bytes what stands behind the second is the first. */
  lemma StandsAround(b: Text, p: nat, q: nat, x: Byte, y: Byte)
    requires |b| == 2 && p < 2 && q < 2 && x != y && Window(b, p, 2) == [x, y] && Window(b, q, 1) == [y]
    ensures Around(b, q, [y, x], 0)
  {
    assert Window(b, p, 2)[0] == x && Window(b, p, 2)[1] == y && Window(b, q, 1)[0] == y;
    hide Window;
    ModIsAt(q, 2);
    ModIsAt(q + 1, 2);
    var c := Circle(b, q + 0, 2);
    assert c[0] == y && c[1] == x;
    assert c == [y, x];
  }

  lemma FoundAtOnce(b: Text, p: nat, n: nat, s: Text, m: nat)
    requires b != [] && n < HALF && |s| < HALF && Searched(b, p, n, s, m) && Around(b, p, s, 0)
    ensures m == |s|
  {
    hide Around;
  }

  lemma TooFar(c: Text, s: Text, i: nat)
    requires i + |s| > |c|
    ensures !OccursAt(c, s, i)
  {
  }

  class Buffer {
    const data: array<Byte>
    var rpos: nat
    var wpos: nat
    var blen: nat
    /** All that was ever written and all that was ever taken out. */
    ghost var accepted: Text
    ghost var taken: Text

    ghost predicate Placed()
      reads this
    {
      && 0 < data.Length < HALF && rpos < data.Length && wpos < data.Length && blen <= data.Length
      && wpos == At(rpos + blen, data.Length)
    }

    ghost function Contents(): (c: Text)
      requires Placed()
      reads this, data
      ensures |c| == blen
    {
      Window(data[..], rpos, blen)
    }

    /** Bytes come out in the order they went in, none lost and none twice. */
    ghost predicate Valid()
      reads this, data
    {
      Placed() && accepted == taken + Contents()
    }

    constructor (size: nat)
      requires 0 < size < HALF
      ensures Valid() && fresh(data) && data.Length == size && Contents() == [] && accepted == []
    {
      data := new Byte[size](_ => 0);
      rpos, wpos, blen := 0, 0, 0;
      accepted, taken := [], [];
    }

    /** Everything is appended, or nothing when it does not fit. */
    method Write(s: Text) returns (w: Option<nat>)
      requires Valid()
      modifies this, data
      ensures Valid() && taken == old(taken)
      ensures w == if |s| + |old(Contents())| > data.Length then None else Some(|s|)
      ensures Contents() == if w.Some? then old(Contents()) + s else old(Contents())
      ensures accepted == if w.Some? then old(accepted) + s else old(accepted)
    {
      if |s| + blen > data.Length {
        return None;
      }
      ghost var before := Contents();
      var k: nat := 0;
      assert before + s[..0] == before;
      while k < |s|
        invariant k <= |s| && rpos == old(rpos) && blen == old(blen) + k
        invariant taken == old(taken) && accepted == old(accepted)
        invariant wpos == old(wpos) + k
        invariant Window(data[..], rpos, blen) == before + s[..k]
      {
        WriteChar(s[k]);
        assert before + s[..k + 1] == before + s[..k] + [s[k]];
        k := k + 1;
      }
      assert s[..k] == s;
      ModIsAt(rpos, data.Length);
      ModIsAt(wpos, data.Length);
      rpos, wpos := rpos % data.Length, wpos % data.Length;
      accepted := accepted + s;
      assert before + s == Contents();
      assert taken + (before + s) == taken + before + s;
      w := Some(k);
    }

    /** One byte more; the write position is brought back into the array later. */
    method WriteChar(c: Byte)
      requires rpos < data.Length && blen < data.Length && wpos < 2 * data.Length
      requires At(wpos, data.Length) == At(rpos + blen, data.Length)
      modifies `blen, `wpos, data
      ensures blen == old(blen) + 1 && wpos == old(wpos) + 1
      ensures Window(data[..], rpos, blen) == Window(old(data[..]), rpos, old(blen)) + [c]
    {
      ModIsAt(wpos, data.Length);
      WindowGrows(data[..], rpos, blen, c);
      blen := blen + 1;
      data[wpos % data.Length] := c;
      wpos := wpos + 1;
      assert data[..] == old(data[..])[At(rpos + blen - 1, data.Length) := c];
    }

    /** Forget r bytes at the front. */
    method Advance(r: nat)
      requires Placed() && r <= blen && accepted == taken + Contents()
      modifies `rpos, `wpos, `blen, `taken
      ensures Valid() && Contents() == old(Contents())[r..] && taken == old(taken) + old(Contents())[..r]
    {
      ghost var before := Contents();
      StepsOn(rpos, blen, r, data.Length);
      WindowShrinks(data[..], rpos, blen, r);
      hide Window, At;
      blen := blen - r;
      rpos := rpos + r;
      rpos, wpos := rpos % data.Length, wpos % data.Length;
      Carried(accepted, taken, before, r);
      taken := taken + before[..r];
    }

    /** A negative count is a very large one. */
    method Discard(r: int) returns (ok: bool)
      requires Valid()
      modifies `rpos, `wpos, `blen, `taken
      ensures Valid() && ok == (0 <= r <= |old(Contents())|)
      ensures Contents() == if ok then old(Contents())[r..] else old(Contents())
      ensures taken == if ok then old(taken) + old(Contents())[..r] else old(taken)
    {
      if r < 0 || r > blen {
        return false;
      }
      Advance(r);
      ok := true;
    }

    /** The first r bytes, if there are so many. */
    method Front(r: nat) returns (s: Text)
      requires Placed() && r <= blen
      ensures s == Contents()[..r]
    {
      if r > 0 {
        WindowSlice(data[..], rpos, blen, 0, r);
      }
      if rpos + r > data.Length {
        s := data[rpos..] + data[..r - (data.Length - rpos)];
      } else {
        s := data[rpos..rpos + r];
      }
    }

    /** The first r bytes, taken out unless only looked at. */
    method Read(r: int, peek: bool) returns (s: Option<Text>)
      requires Valid()
      modifies `rpos, `wpos, `blen, `taken
      ensures Valid() && s == if 0 <= r <= |old(Contents())| then Some(old(Contents())[..r]) else None
      ensures Contents() == if s.Some? && !peek then old(Contents())[r..] else old(Contents())
      ensures taken == if s.Some? && !peek then old(taken) + old(Contents())[..r] else old(taken)
    {
      if r < 0 || r > blen {
        return None;
      }
      var front := Front(r);
      if !peek {
        Advance(r);
      }
      s := Some(front);
    }

    /** Where the first match ends that the search tries, or 0. A full buffer is taken for an empty one, and a text that
        is longer than the contents is looked for in all of the array. */
    method Find(s: Text) returns (m: nat)
      requires Placed() && |s| < HALF
      ensures |Contents()| == 0 || |Contents()| == data.Length ==> m == 0
      ensures 0 < |Contents()| < data.Length ==> Searched(data[..], rpos, blen, s, m)
      ensures s != [] ==> (FirstEnd(Contents(), s, m) <==> Trusted(data[..], rpos, blen, s))
    {
      if rpos == wpos {
        assert blen == 0 || blen == data.Length;
        NothingInNothing(s);
        return 0;
      }
      m := Scan(s);
      if s != [] {
        TrustedWhenRight(data[..], rpos, blen, s, m);
      }
    }

    /** The outer loop. */
    method Scan(s: Text) returns (m: nat)
      requires Placed() && 0 < blen < data.Length && |s| < HALF
      ensures Searched(data[..], rpos, blen, s, m)
    {
      hide Around, ModAt;
      LastTryIsUnsigned(blen, |s|);
      var last := (blen - |s|) % SIZE;
      var i: nat := 0;
      while i <= last
        invariant i <= last + 1
        invariant forall k: nat :: k < i ==> !Around(data[..], rpos, s, k)
      {
        var found := MatchesAt(s, i);
        if found {
          return i + |s|;
        }
        i := i + 1;
      }
      m := 0;
    }

    /** The test at one position, with the inner loop. */
    method MatchesAt(s: Text, i: nat) returns (found: bool)
      requires Placed()
      ensures found == Around(data[..], rpos, s, i)
    {
      ModBound(rpos + i, data.Length);
      if data[(rpos + i) % data.Length] != First(s) {
        return false;
      }
      found := true;
      var j: nat := 1;
      while j < |s|
        invariant 1 <= j && found
        invariant s != [] ==> j <= |s| && Circle(data[..], rpos + i, j) == s[..j]
      {
        ModBound(rpos + i + j, data.Length);
        if data[(rpos + i + j) % data.Length] != s[j] {
          assert Circle(data[..], rpos + i, |s|)[j] != s[j];
          return false;
        }
        assert Circle(data[..], rpos + i, j + 1) == Circle(data[..], rpos + i, j) + [s[j]];
        j := j + 1;
      }
      assert s != [] ==> s[..j] == s;
    }

    /** Everything up to the end of the first occurrence of s is taken out. */
    method ReadUntil(s: Text) returns (r: Option<Text>)
      requires Valid() && |s| < HALF
      modifies `rpos, `wpos, `blen, `taken
      ensures Valid()
      ensures |old(Contents())| == data.Length ==> r.None?
      ensures |old(Contents())| < data.Length && s != [] ==>
                exists m: nat :: FirstEnd(old(Contents()), s, m)
                                 && r == if m == 0 then None else Some(old(Contents())[..m])
      ensures r.Some? ==> old(Contents()) == r.value + Contents() && taken == old(taken) + r.value
      ensures r.None? ==> Contents() == old(Contents()) && taken == old(taken)
    {
      var m := Find(s);
      ghost var before := Contents();
      ghost var b, p, n := data[..], rpos, blen;
      if m > 0 {
        r := Read(m, false);
        if m <= n {
          assert before == before[..m] + before[m..];
        }
      } else {
        r := None;
      }
      if n < |b| && s != [] {
        if |s| <= n || n == 0 {
          assert Trusted(b, p, n, s);
        } else {
          LongIsNowhere(before, s);
          assert m > n || m == 0;
        }
      }
    }

    /** A position in the contents, or just behind them, as one in the array: there stands the byte, and only the
        front of the array stands for itself. */
    method WrapPosition(idx: nat) returns (pos: Option<nat>)
      requires Placed()
      ensures pos.Some? <==> idx <= |Contents()|
      ensures pos.Some? ==> pos.value <= data.Length
      ensures pos.Some? ==> (pos.value == 0 ==> idx == 0) && (pos.value == data.Length ==> idx > 0)
      ensures pos.Some? && idx < |Contents()| ==> data[At(pos.value, data.Length)] == Contents()[idx]
      ensures pos.Some? ==> pos.value % data.Length == (rpos + idx) % data.Length
    {
      if idx > blen {
        return None;
      }
      if idx + rpos > data.Length {
        pos := Some(idx - (data.Length - rpos));
        TurnBack(rpos + idx, data.Length);
      } else {
        pos := Some(rpos + idx);
      }
    }

    /** The two ends in the array of what string.sub would take, or nothing. */
    method SplicePositions(start: int, end: int) returns (ends: Option<(nat, nat)>)
      requires Placed()
      ensures ends.None? <==> LuaSub(Contents(), start, end) == []
      ensures ends.Some? ==>
                && ends.value.0 <= data.Length && ends.value.1 <= data.Length
                && LuaSub(Contents(), start, end)
                   == if ends.value.1 <= ends.value.0 then data[ends.value.0..] + data[..ends.value.1]
                      else data[ends.value.0..ends.value.1]
    {
      hide LuaSub, Window;
      var first, last := Clamp(start, end);
      if first > last {
        return None;
      }
      var from := WrapPosition(first - 1);
      var to := WrapPosition(last);
      SliceIs(data[..], rpos, blen, first - 1, last, from.value, to.value);
      ends := Some((from.value, to.value));
      assert data[..][from.value..] == data[from.value..] && data[..][..to.value] == data[..to.value];
    }

    /** Both positions brought into the contents. */
    method Clamp(start: int, end: int) returns (first: int, last: int)
      requires Placed()
      ensures 1 <= first && last <= blen
      ensures LuaSub(Contents(), start, end) == if first > last then [] else Contents()[first - 1..last]
    {
      first, last := start, end;
      if first < 0 { first := 1 + first + blen; }
      if first <= 0 { first := 1; }
      if last < 0 { last := 1 + last + blen; }
      if last > blen { last := blen; }
      if first < 1 { first := 1; }
    }

    method Sub(start: int, end: int) returns (s: Text)
      requires Placed()
      ensures s == LuaSub(Contents(), start, end)
    {
      var ends := SplicePositions(start, end);
      if ends.None? {
        s := [];
      } else if ends.value.1 <= ends.value.0 {
        s := data[ends.value.0..] + data[..ends.value.1];
      } else {
        s := data[ends.value.0..ends.value.1];
      }
    }

    /** The bytes of a stretch, one by one. */
    method ByteValues(start: int, end: int) returns (s: seq<Byte>)
      requires Placed()
      ensures s == LuaSub(Contents(), start, end)
    {
      hide LuaSub, Window, At;
      s := [];
      var ends := SplicePositions(start, end);
      if ends.Some? {
        if ends.value.1 <= ends.value.0 {
          s := PushBytes(s, ends.value.0, data.Length);
          s := PushBytes(s, 0, ends.value.1);
          assert data[ends.value.0..data.Length] == data[ends.value.0..];
          assert data[0..ends.value.1] == data[..ends.value.1];
        } else {
          s := PushBytes(s, ends.value.0, ends.value.1);
        }
      }
    }

    method PushBytes(before: seq<Byte>, from: nat, to: nat) returns (s: seq<Byte>)
      requires from <= to <= data.Length
      ensures s == before + data[from..to]
    {
      s := before;
      for i := from to to
        invariant s == before + data[from..i]
      {
        s := s + [data[i]];
      }
    }
  }

  lemma NothingInNothing(s: Text)
    ensures s != [] ==> FirstEnd([], s, 0)
  {
  }

  lemma LongIsNowhere(c: Text, s: Text)
    requires |s| > |c|
    ensures FirstEnd(c, s, 0)
  {
  }

  /** With "ab" written and "a" taken out again, "ba" is found in the contents "b": its end is behind them. */
  method LongTextFindsStaleBytes(a: Byte, b: Byte) returns (m: nat)
    requires a != b
    ensures m == 2
  {
    var r := new Buffer(2);
    var w := r.Write([a, b]);
    assert r.Contents() == [a, b];
    ghost var d, p := r.data[..], r.rpos;
    hide Window, Around, At, Searched, Trusted, FirstEnd;
    var ok := r.Discard(1);
    assert r.Contents() == [a, b][1..] == [b] && r.data[..] == d;
    StandsAround(d, p, r.rpos, a, b);
    m := r.Find([b, a]);
    FoundAtOnce(d, r.rpos, 1, [b, a], m);
  }

  /** A full buffer does not find its only byte, which a buffer with room left does. */
  method FullBufferFindsNothing(c: Byte) returns (full: nat, roomy: nat)
    ensures OccursAt([c], [c], 0) && full == 0 && roomy == 1
  {
    var b := new Buffer(1);
    var w := b.Write([c]);
    assert b.Contents() == [c];
    full := b.Find([c]);
    var b2 := new Buffer(2);
    w := b2.Write([c]);
    assert b2.Contents() == [c];
    assert OccursAt(b2.Contents(), [c], 0);
    roomy := b2.Find([c]);
  }
}
