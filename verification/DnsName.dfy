/** DNS packets as net/dns.lua reads and writes them: names with compression pointers,
    and the header (sections 4.1.1 and 4.1.4 of RFC 1035). */
module DnsName {
  import opened Bytes

  datatype Error = OutOfBounds | TwentyPointers | LabelTooLong | NotAByte

  datatype Result<+T> = Ok(value: T) | Err(error: Error)

  const DOT: Byte := 0x2E

  const MAX_POINTERS: nat := 20

  // ---------- Encoding ----------

  /** The maximal dot-free parts of a name. */
  function Parts(name: Text): seq<Text> {
    if name == [] then []
    else if name[0] == DOT then Parts(name[1..])
    else
      var n := PartLength(name);
      [name[..n]] + Parts(name[n..])
  }

  /** How far it is to the first dot or the end. */
  function PartLength(name: Text): (n: nat)
    ensures n <= |name| && DOT !in name[..n]
    ensures n < |name| ==> name[n] == DOT
    ensures name != [] && name[0] != DOT ==> n > 0
  {
    if name == [] || name[0] == DOT then 0
    else
      var n := 1 + PartLength(name[1..]);
      assert name[..n] == [name[0]] + name[1..][..n - 1];
      n
  }

  function EncodeLabels(labels: seq<Text>): Text
    requires AllShort(labels)
  {
    if labels == [] then [] else [|labels[0]|] + labels[0] + EncodeLabels(labels[1..])
  }

  predicate AllShort(labels: seq<Text>) {
    forall l :: l in labels ==> |l| < 256
  }

  /** A length that does not fit a byte is an error of string.char. */
  function Encode(name: Text): Result<Text> {
    if AllShort(Parts(name)) then Ok(EncodeLabels(Parts(name)) + [0]) else Err(LabelTooLong)
  }

  /** The text a list of labels is read as: every label with a dot after it. */
  function Join(labels: seq<Text>): Text {
    if labels == [] then [] else labels[0] + [DOT] + Join(labels[1..])
  }

  /** What stands in front of a dot, or of the end, is the first part. */
  lemma TakePart(name: Text, t: Text)
    requires name != [] && name[0] != DOT
    ensures var n := PartLength(name);
            && (AllShort(Parts(name)) <==> n < 256 && AllShort(Parts(name[n..])))
            && (AllShort(Parts(name)) ==>
                  t + EncodeLabels(Parts(name)) == t + [n] + name[..n] + EncodeLabels(Parts(name[n..])))
  {
    var n := PartLength(name);
    var part, after := name[..n], Parts(name[n..]);
    assert Parts(name) == [part] + after;
    hide Parts;
    if AllShort([part] + after) {
      assert part in [part] + after;
      assert forall l :: l in after ==> l in [part] + after;
      assert EncodeLabels([part] + after) == [n] + part + EncodeLabels(after);
    }
  }

  method EncodeName(name: Text) returns (r: Result<Text>)
    ensures r == Encode(name)
  {
    var t: Text, rest := [], name;
    while rest != []
      invariant AllShort(Parts(name)) <==> AllShort(Parts(rest))
      invariant AllShort(Parts(name)) ==> t + EncodeLabels(Parts(rest)) == EncodeLabels(Parts(name))
      decreases |rest|
    {
      if rest[0] == DOT {
        rest := rest[1..];
      } else {
        hide AllShort, Parts, EncodeLabels;
        var n := PartLength(rest);
        TakePart(rest, t);
        if n >= 256 {
          return Err(LabelTooLong);
        }
        t := t + [n] + rest[..n];
        rest := rest[n..];
      }
    }
    assert t + EncodeLabels([]) == t;
    r := Ok(t + [0]);
  }

  // ---------- Decoding ----------

  /** string.sub: what there is of `len` bytes at pos. */
  function Sub(packet: Text, pos: nat, len: nat): Text {
    if pos >= |packet| then [] else if pos + len > |packet| then packet[pos..] else packet[pos..pos + len]
  }

  /** What stands in the packet from pos on; only the end of the packet makes it shorter than asked. */
  predicate IsStretch(packet: Text, pos: nat, len: nat, s: Text) {
    && |s| <= len
    && (forall i :: 0 <= i < |s| ==> pos + i < |packet| && s[i] == packet[pos + i])
    && (|s| < len ==> pos + |s| >= |packet|)
  }

  lemma StretchIsSub(packet: Text, pos: nat, len: nat, s: Text)
    requires IsStretch(packet, pos, len, s)
    ensures s == Sub(packet, pos, len)
  {
    if s != [] {
      var last := |s| - 1;
      assert pos + last < |packet| && s[last] == packet[pos + last];
    }
  }

  function Word(b1: nat, b2: nat): nat {
    0x100 * b1 + b2
  }

  /** The position a two-byte pointer names. */
  function Target(b1: nat, b2: nat): nat
    requires b1 >= 0xC0
  {
    (b1 - 0xC0) * 0x100 + b2
  }

  /** The labels from pos on, each with a dot, and where the name ends in the packet;
      `pointers` were followed already. Every step moves forward or follows one more. */
  function Walk(packet: Text, pos: nat, pointers: nat): Result<(Text, nat)>
    decreases MAX_POINTERS - pointers, |packet| - pos
  {
    if pos >= |packet| then Err(OutOfBounds)
    else if packet[pos] == 0 then Ok(([], pos + 1))
    else if packet[pos] >= 0xC0 then
      if pointers + 1 >= MAX_POINTERS then Err(TwentyPointers)
      else if pos + 1 >= |packet| then Err(OutOfBounds)
      else
        var r := Walk(packet, Target(packet[pos], packet[pos + 1]), pointers + 1);
        if r.Ok? then Ok((r.value.0, pos + 2)) else r
    else Labelled(Sub(packet, pos + 1, packet[pos]), Walk(packet, pos + 1 + packet[pos], pointers))
  }

  /** One step of the walk. */
  lemma WalkStep(packet: Text, pos: nat, pointers: nat)
    requires pos < |packet|
    ensures packet[pos] == 0 ==> Walk(packet, pos, pointers) == Ok(([], pos + 1))
    ensures 0 < packet[pos] < 0xC0 ==>
              Walk(packet, pos, pointers)
              == Labelled(Sub(packet, pos + 1, packet[pos]), Walk(packet, pos + 1 + packet[pos], pointers))
    ensures packet[pos] >= 0xC0 && pointers + 1 >= MAX_POINTERS ==> Walk(packet, pos, pointers) == Err(TwentyPointers)
    ensures packet[pos] >= 0xC0 && pointers + 1 < MAX_POINTERS && pos + 1 >= |packet| ==>
              Walk(packet, pos, pointers) == Err(OutOfBounds)
    ensures packet[pos] >= 0xC0 && pointers + 1 < MAX_POINTERS && pos + 1 < |packet| ==>
              Walk(packet, pos, pointers)
              == Resumed([], pos + 3, Walk(packet, Target(packet[pos], packet[pos + 1]), pointers + 1))
  {
    if packet[pos] >= 0xC0 && pointers + 1 < MAX_POINTERS && pos + 1 < |packet| {
      var r := Walk(packet, Target(packet[pos], packet[pos + 1]), pointers + 1);
      assert r.Ok? ==> [] + r.value.0 == r.value.0;
    }
  }

  lemma ResumedPointer(n: Text, remember: nat, after: nat, r: Result<(Text, nat)>)
    requires after > 0
    ensures Resumed(n, remember, Resumed([], after, r)) == Resumed(n, if remember > 0 then remember else after, r)
  {
    if r.Ok? {
      assert [] + r.value.0 == r.value.0;
    }
  }

  lemma WalkPastEnd(packet: Text, pos: nat, pointers: nat)
    requires pos >= |packet|
    ensures Walk(packet, pos, pointers) == Err(OutOfBounds)
  {
  }

  function Labelled(part: Text, r: Result<(Text, nat)>): Result<(Text, nat)> {
    if r.Ok? then Ok((part + [DOT] + r.value.0, r.value.1)) else r
  }

  /** A whole name; the root label alone reads as a dot. */
  function Name(packet: Text, pos: nat): Result<(Text, nat)> {
    if pos < |packet| && packet[pos] == 0 then Ok(([DOT], pos + 1)) else Walk(packet, pos, 0)
  }

  /** A reader over a packet; the offset counts from 1. */
  class Resolver {
    const packet: Text
    var offset: nat

    constructor (packet: Text)
      ensures this.packet == packet && offset == 1
    {
      this.packet := packet;
      offset := 1;
    }

    /** One byte, or an error past the end. */
    method ReadByte() returns (r: Result<Byte>)
      requires offset >= 1
      modifies this`offset
      ensures r == if old(offset) > |packet| then Err(OutOfBounds) else Ok(packet[old(offset) - 1])
      ensures offset == if r.Ok? then old(offset) + 1 else old(offset)
    {
      if offset > |packet| {
        return Err(OutOfBounds);
      }
      offset := offset + 1;
      r := Ok(packet[offset - 2]);
    }

    /** Two bytes, the high one first, or an error when they are not both there. */
    method ReadWord() returns (r: Result<nat>)
      requires offset >= 1
      modifies this`offset
      ensures r == if old(offset) + 1 > |packet| then Err(OutOfBounds)
                   else Ok(Word(packet[old(offset) - 1], packet[old(offset)]))
      ensures offset == if r.Ok? then old(offset) + 2 else old(offset)
    {
      if offset + 1 > |packet| {
        return Err(OutOfBounds);
      }
      offset := offset + 2;
      r := Ok(Word(packet[offset - 3], packet[offset - 2]));
    }

    /** `len` bytes, or as many as there are; the offset moves all the same. */
    method ReadSub(len: nat) returns (s: Text)
      requires offset >= 1
      modifies this`offset
      ensures IsStretch(packet, old(offset) - 1, len, s) && offset == old(offset) + len
    {
      s := Sub(packet, offset - 1, len);
      offset := offset + len;
    }

    method ReadName() returns (r: Result<Text>)
      requires offset >= 1
      modifies this`offset
      ensures Matches(Name(packet, old(offset) - 1), r, offset)
    {
      hide Walk;
      var b := ReadByte();
      if b.Err? {
        WalkPastEnd(packet, offset - 1, 0);
        return Err(b.error);
      }
      var len := b.value;
      if len == 0 {
        return Ok([DOT]);
      }
      r := ReadLabels(len);
    }

    /** The labels of a name, with the first length at hand. */
    method ReadLabels(first: Byte) returns (r: Result<Text>)
      requires 2 <= offset <= |packet| + 1 && packet[offset - 2] == first
      modifies this`offset
      ensures Matches(Walk(packet, old(offset) - 2, 0), r, offset)
    {
      hide Walk, Sub, Resumed, Labelled, Target;
      ghost var spec := Walk(packet, offset - 2, 0);
      var remember: nat, pointers: nat := 0, 0;
      var len: nat, n: Text := first, [];
      ResumedAtOnce(spec);
      while len > 0
        invariant 2 <= offset <= |packet| + 1 && len == packet[offset - 2]
        invariant pointers < MAX_POINTERS && (remember > 0 <==> pointers > 0)
        invariant spec == Resumed(n, remember, Walk(packet, offset - 2, pointers))
        decreases MAX_POINTERS - pointers, |packet| + 1 - offset
      {
        if len >= 0xC0 {
          pointers := pointers + 1;
          var p := ReadPointer(len, n, remember, pointers);
          if p.Err? {
            return Err(p.error);
          }
          remember := if remember > 0 then remember else offset;
          offset := p.value + 1;
        } else {
          var part := ReadLabel(len, n, remember, pointers);
          n := n + (part + [DOT]);
        }
        var b := ReadByte();
        if b.Err? {
          WalkPastEnd(packet, offset - 1, pointers);
          ResumedError(n, remember, OutOfBounds);
          return Err(b.error);
        }
        len := b.value;
      }
      WalkStep(packet, offset - 2, pointers);
      ResumedAtEnd(n, remember, offset - 1);
      offset := if remember > 0 then remember else offset;
      r := Ok(n);
    }

    /** The second byte of a pointer, with the first at hand and `pointers` counting this one. */
    method ReadPointer(len: Byte, ghost n: Text, ghost remember: nat, pointers: nat) returns (r: Result<nat>)
      requires 2 <= offset <= |packet| + 1 && packet[offset - 2] == len && len >= 0xC0
      requires 0 < pointers <= MAX_POINTERS
      modifies this`offset
      ensures r.Ok? ==> pointers < MAX_POINTERS && offset == old(offset) + 1
      ensures Resumed(n, remember, Walk(packet, old(offset) - 2, pointers - 1))
              == if r.Err? then Err(r.error)
                 else Resumed(n, if remember > 0 then remember else offset, Walk(packet, r.value, pointers))
    {
      hide Walk, Resumed;
      WalkStep(packet, offset - 2, pointers - 1);
      if pointers >= MAX_POINTERS {
        ResumedError(n, remember, TwentyPointers);
        return Err(TwentyPointers);
      }
      var b := ReadByte();
      if b.Err? {
        ResumedError(n, remember, OutOfBounds);
        return Err(b.error);
      }
      r := Ok(Target(len, b.value));
      ResumedPointer(n, remember, offset, Walk(packet, r.value, pointers));
    }

    /** The text of a label, with its length at hand. */
    method ReadLabel(len: Byte, ghost n: Text, ghost remember: nat, ghost pointers: nat) returns (part: Text)
      requires 2 <= offset <= |packet| + 1 && packet[offset - 2] == len && 0 < len < 0xC0
      modifies this`offset
      ensures offset == old(offset) + len && part == Sub(packet, old(offset) - 1, len)
      ensures Resumed(n, remember, Walk(packet, old(offset) - 2, pointers))
              == Resumed(n + (part + [DOT]), remember, Walk(packet, offset - 1, pointers))
    {
      hide Walk, Resumed, Sub, Labelled;
      WalkStep(packet, offset - 2, pointers);
      ghost var before := offset;
      part := ReadSub(len);
      StretchIsSub(packet, before - 1, len, part);
      ResumedLabel(n, remember, part, Walk(packet, offset - 1, pointers));
    }
  }

  /** What a reader returns, and its offset (from 1) unless it fails, are what was computed from position 0 on. */
  predicate Matches<T(==)>(spec: Result<(T, nat)>, r: Result<T>, offset: nat) {
    if spec.Ok? then r == Ok(spec.value.0) && offset == spec.value.1 + 1 else r == Err(spec.error)
  }

  /** The result of a walk, given what was read and remembered before it. */
  function Resumed(n: Text, remember: nat, r: Result<(Text, nat)>): Result<(Text, nat)> {
    if r.Err? then r
    else Ok((n + r.value.0, if remember > 0 then remember - 1 else r.value.1))
  }

  lemma ResumedAtOnce(r: Result<(Text, nat)>)
    ensures Resumed([], 0, r) == r
  {
    assert r.Ok? ==> [] + r.value.0 == r.value.0;
  }

  lemma ResumedError(n: Text, remember: nat, e: Error)
    ensures Resumed(n, remember, Err(e)) == Err(e)
  {
  }

  lemma ResumedAtEnd(n: Text, remember: nat, end: nat)
    ensures Resumed(n, remember, Ok(([], end))) == Ok((n, if remember > 0 then remember - 1 else end))
  {
    assert n + [] == n;
  }

  lemma ResumedLabel(n: Text, remember: nat, part: Text, r: Result<(Text, nat)>)
    ensures Resumed(n, remember, Labelled(part, r)) == Resumed(n + (part + [DOT]), remember, r)
  {
    if r.Ok? {
      assert n + (part + [DOT] + r.value.0) == n + (part + [DOT]) + r.value.0;
    }
  }
}
