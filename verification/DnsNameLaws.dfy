/** What the name codec of net/dns.lua means: which packets spell which names, what comes back
    from an encoded name, and that compression changes nothing (section 4.1.4 of RFC 1035). */
module DnsNameLaws {
  import opened Bytes
  import opened DnsName

  // ---------- What a packet spells ----------

  /** The 14 low bits of two bytes, the high one first: the offset of a pointer, whose two high bits are ones. */
  function Offset(b1: nat, b2: nat): nat {
    (0x100 * b1 + b2) % 0x4000
  }

  /** The reader goes where the pointer leads. */
  lemma ReaderFollows(b1: Byte, b2: Byte)
    requires b1 >= 0xC0
    ensures Target(b1, b2) == Offset(b1, b2)
  {
  }

  /** The pointer to a position, as a writer makes it. */
  lemma PointerLeads(t: nat)
    requires t < 0x4000
    ensures 0xC0 <= 0xC0 + t / 0x100 < 0x100 && Target(0xC0 + t / 0x100, t % 0x100) == t
    ensures Offset(0xC0 + t / 0x100, t % 0x100) == t
  {
  }

  /** Section 4.1.4, with no limit: the labels at pos, and how many pointers lead through them. */
  predicate Spells(packet: Text, pos: nat, jumps: nat, labels: seq<Text>)
    decreases jumps, |labels|
  {
    pos < |packet| &&
    var len := packet[pos];
    if len == 0 then labels == [] && jumps == 0
    else if len >= 0xC0 then
      jumps > 0 && pos + 1 < |packet| && Spells(packet, Offset(len, packet[pos + 1]), jumps - 1, labels)
    else labels != [] && labels[0] == Sub(packet, pos + 1, len) && Spells(packet, pos + 1 + len, jumps, labels[1..])
  }

  /** Just after the first pointer, or after the root label when there is none. */
  function NameEnd(packet: Text, pos: nat): nat
    decreases |packet| - pos
  {
    if pos >= |packet| then pos
    else if packet[pos] == 0 then pos + 1
    else if packet[pos] >= 0xC0 then pos + 2
    else NameEnd(packet, pos + 1 + packet[pos])
  }

  /** A spelled name is read unless its pointers are too many. */
  lemma {:induction false} WalkReads(packet: Text, pos: nat, jumps: nat, labels: seq<Text>, pointers: nat)
    requires Spells(packet, pos, jumps, labels) && pointers < MAX_POINTERS
    ensures Walk(packet, pos, pointers)
            == if pointers + jumps < MAX_POINTERS then Ok((Join(labels), NameEnd(packet, pos))) else Err(TwentyPointers)
    decreases jumps, |labels|
  {
    if packet[pos] >= 0xC0 {
      ReaderFollows(packet[pos], packet[pos + 1]);
      if pointers + 1 < MAX_POINTERS {
        WalkReads(packet, Target(packet[pos], packet[pos + 1]), jumps - 1, labels, pointers + 1);
      }
    } else if packet[pos] > 0 {
      WalkReads(packet, pos + 1 + packet[pos], jumps, labels[1..], pointers);
    }
  }

  /** Whatever is read was spelled, through few enough pointers. */
  lemma {:induction false} WalkWasSpelled(packet: Text, pos: nat, pointers: nat) returns (jumps: nat, labels: seq<Text>)
    requires pointers < MAX_POINTERS && Walk(packet, pos, pointers).Ok?
    ensures Spells(packet, pos, jumps, labels) && pointers + jumps < MAX_POINTERS
    decreases MAX_POINTERS - pointers, |packet| - pos
  {
    jumps, labels := 0, [];
    if packet[pos] >= 0xC0 {
      ReaderFollows(packet[pos], packet[pos + 1]);
      jumps, labels := WalkWasSpelled(packet, Target(packet[pos], packet[pos + 1]), pointers + 1);
      jumps := jumps + 1;
    } else if packet[pos] > 0 {
      jumps, labels := WalkWasSpelled(packet, pos + 1 + packet[pos], pointers);
      labels := [Sub(packet, pos + 1, packet[pos])] + labels;
    }
  }

  /** A spelled name is read, or its pointers are too many. */
  lemma NameReads(packet: Text, pos: nat, jumps: nat, labels: seq<Text>)
    requires Spells(packet, pos, jumps, labels)
    ensures Name(packet, pos)
            == if jumps >= 20 then Err(TwentyPointers)
               else Ok((if packet[pos] == 0 then [DOT] else Join(labels), NameEnd(packet, pos)))
  {
    hide Walk;
    WalkReads(packet, pos, jumps, labels, 0);
  }

  /** A name is read from a position exactly when one is spelled there through at most 19 pointers. */
  lemma NameReadsWhatIsSpelled(packet: Text, pos: nat)
    ensures Name(packet, pos).Ok?
            <==> exists jumps: nat, labels :: jumps < 20 && Spells(packet, pos, jumps, labels)
  {
    hide Spells, NameEnd;
    if Name(packet, pos).Ok? {
      var jumps, labels := WalkWasSpelled(packet, pos, 0);
      assert jumps < 20 && Spells(packet, pos, jumps, labels);
    }
    if jumps: nat, labels :| jumps < 20 && Spells(packet, pos, jumps, labels) {
      NameReads(packet, pos, jumps, labels);
    }
  }

  // ---------- Reading an encoded name ----------

  /** The bytes s are in the packet at pos. */
  predicate Holds(packet: Text, pos: nat, s: Text) {
    pos + |s| <= |packet| && packet[pos..pos + |s|] == s
  }

  lemma HoldsBoth(packet: Text, pos: nat, s: Text, t: Text)
    requires Holds(packet, pos, s + t)
    ensures Holds(packet, pos, s) && Holds(packet, pos + |s|, t)
    ensures s != [] ==> packet[pos] == s[0]
  {
    assert s == (s + t)[..|s|] && t == (s + t)[|s|..];
    if s != [] {
      assert packet[pos..pos + |s + t|][0] == s[0];
    }
  }

  /** Labels as Parts yields them. */
  predicate Plain(labels: seq<Text>) {
    forall l :: l in labels ==> l != [] && DOT !in l
  }

  /** Lengths below those taken for pointers. */
  predicate BelowPointers(labels: seq<Text>) {
    forall l :: l in labels ==> 0 < |l| < 0xC0
  }

  lemma {:induction false} EncodedIsSpelled(packet: Text, pos: nat, labels: seq<Text>, jumps: nat, tail: seq<Text>)
    requires BelowPointers(labels) && Holds(packet, pos, EncodeLabels(labels))
    requires Spells(packet, pos + |EncodeLabels(labels)|, jumps, tail)
    ensures Spells(packet, pos, jumps, labels + tail)
    ensures NameEnd(packet, pos) == NameEnd(packet, pos + |EncodeLabels(labels)|)
    decreases |labels|
  {
    hide *;
    if labels == [] {
      NoLabel(tail);
    } else {
      var l, rest := labels[0], labels[1..];
      FirstLabel(labels, tail);
      HoldsLabel(packet, pos, l, EncodeLabels(rest));
      EncodedIsSpelled(packet, pos + 1 + |l|, rest, jumps, tail);
      LabelStep(packet, pos, jumps, labels + tail);
    }
  }

  lemma NoLabel(tail: seq<Text>)
    ensures EncodeLabels([]) == [] && [] + tail == tail
  {
  }

  lemma FirstLabel(labels: seq<Text>, tail: seq<Text>)
    requires labels != [] && BelowPointers(labels)
    ensures var l, rest := labels[0], labels[1..];
            && AllShort(rest) && EncodeLabels(labels) == [|l|] + l + EncodeLabels(rest) && BelowPointers(rest)
            && 0 < |l| < 0xC0
            && labels + tail != [] && (labels + tail)[0] == l && (labels + tail)[1..] == rest + tail
  {
    OfTail(labels);
    assert AllShort(labels) && AllShort(labels[1..]) && 0 < |labels[0]| < 0xC0;
    hide BelowPointers, AllShort;
    assert EncodeLabels(labels) == [|labels[0]|] + labels[0] + EncodeLabels(labels[1..]);
    hide EncodeLabels;
    FirstOfBoth(labels, tail);
  }

  lemma FirstOfBoth<T>(s: seq<T>, t: seq<T>)
    requires s != []
    ensures s + t != [] && (s + t)[0] == s[0] && (s + t)[1..] == s[1..] + t
  {
  }

  lemma LabelStep(packet: Text, pos: nat, jumps: nat, labels: seq<Text>)
    requires pos < |packet| && 0 < packet[pos] < 0xC0 && labels != [] && labels[0] == Sub(packet, pos + 1, packet[pos])
    requires Spells(packet, pos + 1 + packet[pos], jumps, labels[1..])
    ensures Spells(packet, pos, jumps, labels)
    ensures NameEnd(packet, pos) == NameEnd(packet, pos + 1 + packet[pos])
  {
  }

  /** A label with its length before it. */
  lemma HoldsLabel(packet: Text, pos: nat, l: Text, t: Text)
    requires |l| < 256 && Holds(packet, pos, [|l|] + l + t)
    ensures packet[pos] == |l| && Sub(packet, pos + 1, |l|) == l && Holds(packet, pos + 1 + |l|, t)
  {
    assert [|l|] + l + t == [|l|] + (l + t);
    HoldsBoth(packet, pos, [|l|], l + t);
    HoldsBoth(packet, pos + 1, l, t);
  }

  /** Every text that is read has a dot among its first 192 bytes, or is empty. */
  lemma {:induction false} DotComesEarly(packet: Text, pos: nat, pointers: nat)
    requires Walk(packet, pos, pointers).Ok?
    ensures var t := Walk(packet, pos, pointers).value.0; t == [] || DOT in t[..if |t| < 0xC0 then |t| else 0xC0]
    decreases MAX_POINTERS - pointers, |packet| - pos
  {
    var t := Walk(packet, pos, pointers).value.0;
    if packet[pos] >= 0xC0 {
      DotComesEarly(packet, Target(packet[pos], packet[pos + 1]), pointers + 1);
    } else if packet[pos] > 0 {
      var k := |Sub(packet, pos + 1, packet[pos])|;
      assert k < 0xC0 && t[k] == DOT;
      assert t[..if |t| < 0xC0 then |t| else 0xC0][k] == DOT;
    }
  }

  lemma SamePrefix(s: Text, t: Text, u: Text)
    ensures s + t == s + u <==> t == u
  {
    assert (s + t)[|s|..] == t && (s + u)[|s|..] == u;
  }

  /** Reading what was written for some labels gives them back, each with a dot after it, wherever in a packet
      they stand, exactly when no label is so long that its length reads as a pointer. */
  lemma {:induction false} LabelsRoundTrip(packet: Text, pos: nat, labels: seq<Text>, pointers: nat)
    requires Plain(labels) && AllShort(labels) && pointers < MAX_POINTERS
    requires Holds(packet, pos, EncodeLabels(labels) + [0])
    ensures Walk(packet, pos, pointers) == Ok((Join(labels), pos + |EncodeLabels(labels)| + 1))
            <==> BelowPointers(labels)
    ensures !BelowPointers(labels) ==> Walk(packet, pos, pointers).Err?
                                       || Walk(packet, pos, pointers).value.0 != Join(labels)
    decreases |labels|
  {
    hide Walk, Sub;
    if labels == [] {
      HoldsBoth(packet, pos, [0], []);
      WalkStep(packet, pos, pointers);
    } else {
      var l, rest := labels[0], labels[1..];
      assert EncodeLabels(labels) + [0] == [|l|] + l + (EncodeLabels(rest) + [0]);
      HoldsLabel(packet, pos, l, EncodeLabels(rest) + [0]);
      OfTail(labels);
      assert l in labels;
      if |l| >= 0xC0 {
        if Walk(packet, pos, pointers).Ok? {
          DotComesEarly(packet, pos, pointers);
          assert forall k :: 0 <= k < 0xC0 ==> Join(labels)[k] == l[k];
        }
      } else {
        LabelsRoundTrip(packet, pos + 1 + |l|, rest, pointers);
        LabelReads(packet, pos, labels, pointers);
      }
    }
  }

  lemma LabelReads(packet: Text, pos: nat, labels: seq<Text>, pointers: nat)
    requires labels != [] && pos < |packet| && 0 < |labels[0]| == packet[pos] < 0xC0
    requires Sub(packet, pos + 1, packet[pos]) == labels[0]
    ensures var r, there := Walk(packet, pos, pointers), Walk(packet, pos + 1 + packet[pos], pointers);
            && r.Ok? == there.Ok?
            && (r.Ok? ==> r.value.1 == there.value.1
                          && (r.value.0 == Join(labels) <==> there.value.0 == Join(labels[1..])))
  {
    var there := Walk(packet, pos + 1 + packet[pos], pointers);
    if there.Ok? {
      SamePrefix(labels[0] + [DOT], there.value.0, Join(labels[1..]));
    }
  }

  lemma {:induction false} PartsArePlain(name: Text)
    ensures Plain(Parts(name))
    decreases |name|
  {
    if name != [] {
      if name[0] == DOT {
        PartsArePlain(name[1..]);
      } else {
        PartsArePlain(name[PartLength(name)..]);
      }
    }
  }

  /** How a name is written when it comes back. */
  function Canonical(name: Text): Text {
    if Parts(name) == [] then [DOT] else Join(Parts(name))
  }

  lemma {:induction false} FirstPart(l: Text, s: Text)
    requires DOT !in l
    ensures PartLength(l + [DOT] + s) == |l|
  {
    var t := l + [DOT] + s;
    if l != [] {
      assert t[0] == l[0] && t[1..] == l[1..] + [DOT] + s;
      FirstPart(l[1..], s);
    }
  }

  lemma OfTail(labels: seq<Text>)
    requires labels != []
    ensures Plain(labels) ==> Plain(labels[1..])
    ensures AllShort(labels) ==> AllShort(labels[1..])
    ensures BelowPointers(labels) <==> 0 < |labels[0]| < 0xC0 && BelowPointers(labels[1..])
  {
    assert forall l :: l in labels <==> l == labels[0] || l in labels[1..];
  }

  /** Splitting at the dots undoes joining with dots. */
  lemma {:induction false} PartsOfJoin(labels: seq<Text>)
    requires Plain(labels)
    ensures Parts(Join(labels)) == labels
  {
    if labels != [] {
      var l, t := labels[0], Join(labels);
      assert l in labels && t == l + [DOT] + Join(labels[1..]);
      FirstPart(l, Join(labels[1..]));
      assert t[0] == l[0];
      assert t[..|l|] == l && t[|l|..] == [DOT] + Join(labels[1..]);
      assert t[|l|..][1..] == Join(labels[1..]);
      OfTail(labels);
      PartsOfJoin(labels[1..]);
    }
  }

  /** A length that is no byte is the only error. */
  lemma EncodesWhen(name: Text)
    ensures Encode(name).Ok? <==> forall l :: l in Parts(name) ==> |l| <= 255
  {
  }

  /** Wherever an encoded name stands, decoding it gives its canonical spelling, exactly when every part is below
      192 bytes. */
  lemma NameRoundTrip(packet: Text, pos: nat, name: Text)
    requires Encode(name).Ok? && Holds(packet, pos, Encode(name).value)
    ensures Name(packet, pos) == Ok((Canonical(name), pos + |Encode(name).value|)) <==> BelowPointers(Parts(name))
  {
    hide Walk, Parts;
    PartsArePlain(name);
    LabelsRoundTrip(packet, pos, Parts(name), 0);
    if Parts(name) == [] {
      HoldsBoth(packet, pos, [0], []);
    } else {
      var l, rest := Parts(name)[0], EncodeLabels(Parts(name)[1..]) + [0];
      assert l in Parts(name) && Encode(name).value == [|l|] + l + rest;
      HoldsLabel(packet, pos, l, rest);
    }
  }

  /** The canonical spelling has the parts of the name, and so its encoding, and is its own canonical spelling. */
  lemma CanonicalKeepsParts(name: Text)
    ensures Parts(Canonical(name)) == Parts(name)
    ensures Encode(Canonical(name)) == Encode(name) && Canonical(Canonical(name)) == Canonical(name)
  {
    PartsArePlain(name);
    if Parts(name) == [] {
      assert [DOT][1..] == [];
    } else {
      PartsOfJoin(Parts(name));
    }
  }

  // ---------- Compression ----------

  lemma PointerReads(packet: Text, pos: nat, labels: seq<Text>, b1: Byte, b2: Byte, jumps: nat, tail: seq<Text>)
    requires BelowPointers(labels) && b1 >= 0xC0 && Holds(packet, pos, EncodeLabels(labels) + [b1, b2])
    requires Spells(packet, Offset(b1, b2), jumps, tail)
    ensures Spells(packet, pos, jumps + 1, labels + tail)
    ensures Name(packet, pos)
            == if jumps + 1 >= 20 then Err(TwentyPointers)
               else Ok((Join(labels + tail), pos + |EncodeLabels(labels)| + 2))
  {
    hide Spells, Name, NameEnd, Offset;
    var at := pos + |EncodeLabels(labels)|;
    HoldsBoth(packet, pos, EncodeLabels(labels), [b1, b2]);
    assert packet[at..at + 2][1] == b2;
    PointerStep(packet, at, jumps, tail);
    EncodedIsSpelled(packet, pos, labels, jumps + 1, tail);
    NameReads(packet, pos, jumps + 1, labels + tail);
    if labels != [] {
      assert labels[0] in labels;
      HoldsLabel(packet, pos, labels[0], EncodeLabels(labels[1..]));
    }
  }

  /** Labels followed by a pointer to anything that spells a tail read as the labels and the tail, and the name
      ends after that first pointer; whether the tail is itself compressed does not matter. */
  lemma CompressedReads(packet: Text, pos: nat, labels: seq<Text>, t: nat, jumps: nat, tail: seq<Text>)
    requires BelowPointers(labels) && t < 0x4000
    requires Holds(packet, pos, EncodeLabels(labels) + [0xC0 + t / 0x100, t % 0x100])
    requires Spells(packet, t, jumps, tail)
    ensures Spells(packet, pos, jumps + 1, labels + tail)
    ensures Name(packet, pos)
            == if jumps + 1 >= 20 then Err(TwentyPointers)
               else Ok((Join(labels + tail), pos + |EncodeLabels(labels)| + 2))
  {
    PointerLeads(t);
    hide *;
    PointerReads(packet, pos, labels, 0xC0 + t / 0x100, t % 0x100, jumps, tail);
  }

  lemma PointerStep(packet: Text, pos: nat, jumps: nat, labels: seq<Text>)
    requires pos + 1 < |packet| && packet[pos] >= 0xC0
    requires Spells(packet, Offset(packet[pos], packet[pos + 1]), jumps, labels)
    ensures Spells(packet, pos, jumps + 1, labels) && NameEnd(packet, pos) == pos + 2
  {
    hide Offset;
  }

  /** Replacing the encoding of a tail by a pointer to such an encoding gives the same name, exactly when there is a
      label at all: a bare pointer to the root reads as the empty text where the root reads as a dot. */
  lemma CompressionKeepsName(packet: Text, pos: nat, full: nat, labels: seq<Text>, tail: seq<Text>, t: nat)
    requires BelowPointers(labels) && BelowPointers(tail) && t < 0x4000
    requires Holds(packet, full, EncodeLabels(labels + tail) + [0])
    requires Holds(packet, pos, EncodeLabels(labels) + [0xC0 + t / 0x100, t % 0x100])
    requires Holds(packet, t, EncodeLabels(tail) + [0])
    ensures Name(packet, pos).Ok? && Name(packet, full).Ok?
    ensures Name(packet, pos).value.1 == pos + |EncodeLabels(labels)| + 2
    ensures Name(packet, pos).value.0 == Name(packet, full).value.0 <==> labels + tail != []
  {
    TerminatedIsSpelled(packet, t, tail);
    CompressedReads(packet, pos, labels, t, 0, tail);
    TerminatedIsSpelled(packet, full, labels + tail);
    NameReads(packet, full, 0, labels + tail);
    var e := EncodeLabels(labels + tail) + [0];
    assert packet[full] == e[0];
    if labels + tail != [] {
      assert (labels + tail)[0] in labels + tail;
    }
  }

  /** The bytes of the example of section 4.1.4, at their offsets. */
  predicate Example(packet: Text) {
    && |packet| >= 93
    && packet[20..32] == [1, 0x46, 3, 0x49, 0x53, 0x49, 4, 0x41, 0x52, 0x50, 0x41, 0]
    && packet[40..46] == [3, 0x46, 0x4F, 0x4F, 0xC0, 20]
    && packet[64..66] == [0xC0, 26] && packet[92] == 0
  }

  /** Its labels, and the bytes between them. */
  lemma ExampleHolds(packet: Text)
    requires Example(packet)
    ensures packet[20] == 1 && Sub(packet, 21, 1) == [0x46]
    ensures packet[22] == 3 && Sub(packet, 23, 3) == [0x49, 0x53, 0x49]
    ensures packet[26] == 4 && Sub(packet, 27, 4) == [0x41, 0x52, 0x50, 0x41] && packet[31] == 0
    ensures packet[40] == 3 && Sub(packet, 41, 3) == [0x46, 0x4F, 0x4F]
    ensures packet[44] == 0xC0 && packet[45] == 20 && packet[64] == 0xC0 && packet[65] == 26
  {
    var s, t, u := packet[20..32], packet[40..46], packet[64..66];
    assert forall i :: 0 <= i < 12 ==> packet[20 + i] == s[i];
    assert forall i :: 0 <= i < 6 ==> packet[40 + i] == t[i];
    assert u[0] == packet[64] && u[1] == packet[65];
    assert packet[21..22] == s[1..2] && packet[23..26] == s[3..6] && packet[27..31] == s[7..11];
    assert packet[41..44] == t[1..4];
  }

  lemma ExampleIsSpelled(packet: Text)
    requires Example(packet)
    ensures var f, isi, arpa, foo := [0x46], [0x49, 0x53, 0x49], [0x41, 0x52, 0x50, 0x41], [0x46, 0x4F, 0x4F];
            && Spells(packet, 20, 0, [f, isi, arpa]) && NameEnd(packet, 20) == 32
            && Spells(packet, 40, 1, [foo, f, isi, arpa]) && NameEnd(packet, 40) == 46
            && Spells(packet, 64, 1, [arpa]) && NameEnd(packet, 64) == 66
            && Spells(packet, 92, 0, []) && NameEnd(packet, 92) == 93
  {
    ExampleHolds(packet);
    var f: Text, isi: Text, arpa: Text, foo: Text :=
      [0x46], [0x49, 0x53, 0x49], [0x41, 0x52, 0x50, 0x41], [0x46, 0x4F, 0x4F];
    assert Spells(packet, 31, 0, []) && NameEnd(packet, 31) == 32;
    assert Spells(packet, 92, 0, []) && NameEnd(packet, 92) == 93;
    assert Offset(0xC0, 20) == 20 && Offset(0xC0, 26) == 26;
    hide Spells, NameEnd, Sub, Offset, Example;
    LabelStep(packet, 26, 0, [arpa]);
    assert [isi, arpa][1..] == [arpa];
    LabelStep(packet, 22, 0, [isi, arpa]);
    assert [f, isi, arpa][1..] == [isi, arpa];
    LabelStep(packet, 20, 0, [f, isi, arpa]);
    PointerStep(packet, 44, 0, [f, isi, arpa]);
    PointerStep(packet, 64, 0, [arpa]);
    assert [foo, f, isi, arpa][1..] == [f, isi, arpa];
    LabelStep(packet, 40, 1, [foo, f, isi, arpa]);
  }

  lemma JoinText(l: Text, rest: seq<Text>, s: string, t: string)
    requires (forall i :: 0 <= i < |s| ==> s[i] < 128 as char) && (forall i :: 0 <= i < |t| ==> t[i] < 128 as char)
    requires Ascii(s) == l + [DOT] && Join(rest) == Ascii(t)
    ensures forall i :: 0 <= i < |s + t| ==> (s + t)[i] < 128 as char
    ensures Join([l] + rest) == Ascii(s + t)
  {
    AsciiConcat(s, t);
    assert ([l] + rest)[1..] == rest;
  }

  lemma ExampleTexts()
    ensures Ascii("F.") == [0x46] + [DOT] && Ascii("ISI.") == [0x49, 0x53, 0x49] + [DOT] && Ascii(".") == [DOT]
    ensures Ascii("ARPA.") == [0x41, 0x52, 0x50, 0x41] + [DOT] && Ascii("FOO.") == [0x46, 0x4F, 0x4F] + [DOT]
  {
  }

  lemma ExampleConcat()
    ensures "ARPA." + "" == "ARPA." && "ISI." + "ARPA." == "ISI.ARPA." && "F." + "ISI.ARPA." == "F.ISI.ARPA."
    ensures "FOO." + "F.ISI.ARPA." == "FOO.F.ISI.ARPA."
  {
  }

  lemma ExampleNames(f: Text, isi: Text, arpa: Text, foo: Text)
    requires f == [0x46] && isi == [0x49, 0x53, 0x49] && arpa == [0x41, 0x52, 0x50, 0x41] && foo == [0x46, 0x4F, 0x4F]
    ensures Join([arpa]) == Ascii("ARPA.") && Join([f, isi, arpa]) == Ascii("F.ISI.ARPA.")
    ensures Join([foo, f, isi, arpa]) == Ascii("FOO.F.ISI.ARPA.") && [DOT] == Ascii(".")
  {
    ExampleTexts();
    ExampleConcat();
    assert Join([]) == Ascii("");
    hide Ascii, Join;
    JoinText(arpa, [], "ARPA.", "");
    assert [arpa] + [] == [arpa];
    JoinText(isi, [arpa], "ISI.", "ARPA.");
    assert [isi] + [arpa] == [isi, arpa];
    JoinText(f, [isi, arpa], "F.", "ISI.ARPA.");
    assert [f] + [isi, arpa] == [f, isi, arpa];
    JoinText(foo, [f, isi, arpa], "FOO.", "F.ISI.ARPA.");
    assert [foo] + [f, isi, arpa] == [foo, f, isi, arpa];
  }

  /** Its four names, each written shorter by what it shares with the first. */
  lemma ReadsTheExample(packet: Text)
    requires Example(packet)
    ensures Name(packet, 20) == Ok((Ascii("F.ISI.ARPA."), 32))
    ensures Name(packet, 40) == Ok((Ascii("FOO.F.ISI.ARPA."), 46))
    ensures Name(packet, 64) == Ok((Ascii("ARPA."), 66))
    ensures Name(packet, 92) == Ok((Ascii("."), 93))
  {
    var f: Text, isi: Text, arpa: Text, foo: Text :=
      [0x46], [0x49, 0x53, 0x49], [0x41, 0x52, 0x50, 0x41], [0x46, 0x4F, 0x4F];
    ExampleIsSpelled(packet);
    ExampleHolds(packet);
    ExampleNames(f, isi, arpa, foo);
    hide Spells, NameEnd, Sub, Join, Name;
    NameReads(packet, 20, 0, [f, isi, arpa]);
    NameReads(packet, 40, 1, [foo, f, isi, arpa]);
    NameReads(packet, 64, 1, [arpa]);
    NameReads(packet, 92, 0, []);
  }

  lemma TerminatedIsSpelled(packet: Text, pos: nat, labels: seq<Text>)
    requires BelowPointers(labels) && Holds(packet, pos, EncodeLabels(labels) + [0])
    ensures Spells(packet, pos, 0, labels)
  {
    hide NameEnd;
    var at := pos + |EncodeLabels(labels)|;
    HoldsBoth(packet, pos, EncodeLabels(labels), [0]);
    assert Spells(packet, at, 0, []);
    EncodedIsSpelled(packet, pos, labels, 0, []);
    assert labels + [] == labels;
  }
}
