/** What the tokenizer of fallbacks/lxp.lua does to names and bindings: the events nest and bindings stay inside their
    elements as long as the chain of scopes is not lost. */
module LxpLaws {
  import opened Collections
  import opened Lxp

  // ---------- Open elements and bindings ----------

  /** The tags of the scopes, innermost last. */
  function Tags(scopes: seq<Scope>): (tags: seq<Option<string>>)
    ensures |tags| == |scopes|
  {
    seq(|scopes|, i requires 0 <= i < |scopes| => scopes[i].tag)
  }

  /** The stack of open elements after some events; nothing when an end does not match the innermost one. */
  function Nest(open: seq<Option<string>>, events: seq<Event>): Option<seq<Option<string>>>
    decreases |events|
  {
    if events == [] then Some(open)
    else match events[0]
      case StartElement(name, _, _) => Nest(open + [Some(name)], events[1..])
      case CharacterData(_) => Nest(open, events[1..])
      case EndElement(tag) =>
        if open != [] && open[|open| - 1] == tag then Nest(open[..|open| - 1], events[1..]) else None
  }

  lemma {:induction false} NestAppends(open: seq<Option<string>>, e1: seq<Event>, e2: seq<Event>)
    ensures Nest(open, e1 + e2) == if Nest(open, e1).Some? then Nest(Nest(open, e1).value, e2) else None
    decreases |e1|
  {
    if e1 == [] {
      assert e1 + e2 == e2;
    } else {
      assert (e1 + e2)[1..] == e1[1..] + e2;
      match e1[0]
      case StartElement(name, _, _) => NestAppends(open + [Some(name)], e1[1..], e2);
      case CharacterData(_) => NestAppends(open, e1[1..], e2);
      case EndElement(tag) =>
        if open != [] && open[|open| - 1] == tag {
          NestAppends(open[..|open| - 1], e1[1..], e2);
        }
    }
  }

  lemma NestStart(open: seq<Option<string>>, e: Event)
    requires e.StartElement?
    ensures Nest(open, [e]) == Some(open + [Some(e.name)])
    ensures Nest(open, [e, EndElement(Some(e.name))]) == Some(open)
  {
    var end := EndElement(Some(e.name));
    assert [e][1..] == [] && [e, end][1..] == [end];
    NestEnd(open, Some(e.name));
  }

  lemma NestEnd(open: seq<Option<string>>, tag: Option<string>)
    ensures Nest(open + [tag], [EndElement(tag)]) == Some(open)
  {
    assert (open + [tag])[..|open|] == open && [EndElement(tag)][1..] == [];
  }

  lemma TagsGrow(scopes: seq<Scope>, s: Scope, base: nat)
    requires base <= |scopes|
    ensures Tags((scopes + [s])[base..]) == Tags(scopes[base..]) + [s.tag]
    ensures (scopes + [s])[..base] == scopes[..base]
  {
    assert (scopes + [s])[base..] == scopes[base..] + [s];
  }

  /** Only scopes of elements bind __metatable; the outermost one does not. */
  predicate Rooted(scopes: seq<Scope>) {
    forall i :: 0 <= i < |scopes| && METATABLE in scopes[i].bindings ==> scopes[i].tag.Some?
  }

  /** Whether a token ends an element: an end tag or an empty one. */
  predicate Closes(t: Token) {
    t.Tag? && (KindOf(t.elem).End? || KindOf(t.elem).Empty?)
  }

  predicate HasStart(events: seq<Event>) {
    exists i :: 0 <= i < |events| && events[i].StartElement?
  }

  /** One token on a chain, seen from the scopes at base up: the scopes that stay open (kept), whose tags follow the
      events; the chain itself is lost exactly when an element ends directly inside one that binds __metatable. */
  lemma ActNests(t: Token, ns: Ns, base: nat, cfg: Config) returns (kept: seq<Scope>)
    requires !t.Wait? && ns.Chain? && base <= |ns.scopes| && Act(t, ns, cfg).Some? && Rooted(ns.scopes)
    ensures var (ns', events) := Act(t, ns, cfg).value;
            var open := Nest(Tags(ns.scopes[base..]), events);
            && (base == 0 && ns.bottom.Nothing? ==> open.Some?)
            && (open.Some? ==>
                  && base <= |kept| && kept[..base] == ns.scopes[..base] && open.value == Tags(kept[base..])
                  && Rooted(kept)
                  && ns' == (if Closes(t) then Under(ns.bottom, kept) else Chain(ns.bottom, kept))
                  && (!Closes(t) && |kept| == base ==> |ns.scopes| == base && !HasStart(events))
                  && (!Closes(t) ==> |ns.scopes| <= |kept|))
  {
    hide Push, Unescape, Tags, Under, Rooted;
    var (scopes, events) := (ns.scopes, Act(t, ns, cfg).value.1);
    kept := scopes;
    assert Tags(scopes[base..]) == [] <==> base == |scopes|;
    if t.Tag? {
      match KindOf(t.elem)
      case Neglected =>
      case End =>
        if scopes != [] {
          kept := scopes[..|scopes| - 1];
          var top := scopes[|scopes| - 1];
          assert scopes == kept + [top];
          RootedOf(kept, top);
          if base < |scopes| {
            TagsGrow(kept, top, base);
            NestEnd(Tags(kept[base..]), top.tag);
          } else {
            NestNothing(top.tag);
          }
        } else {
          NestNothing(None);
        }
      case Empty(tag) =>
        NestStart(Tags(scopes[base..]), Push(tag, ns, cfg).value.1);
      case Start(tag) =>
        var p := Push(tag, ns, cfg).value;
        kept := scopes + [p.0];
        NestStart(Tags(scopes[base..]), p.1);
        TagsGrow(scopes, p.0, base);
        RootedOf(scopes, p.0);
    }
  }

  lemma NestNothing(tag: Option<string>)
    ensures Nest([], [EndElement(tag)]) == None
  {
  }

  lemma RootedOf(scopes: seq<Scope>, s: Scope)
    ensures s.tag.Some? && Rooted(scopes) ==> Rooted(scopes + [s])
    ensures Rooted(scopes + [s]) ==> Rooted(scopes)
  {
    assert forall i :: 0 <= i < |scopes| ==> scopes[i] == (scopes + [s])[i];
  }

  lemma HasStartOf(e1: seq<Event>, e2: seq<Event>)
    ensures HasStart(e1 + e2) <==> HasStart(e1) || HasStart(e2)
  {
    assert forall i :: 0 <= i < |e1| ==> (e1 + e2)[i] == e1[i];
    assert forall i :: 0 <= i < |e2| ==> (e1 + e2)[|e1| + i] == e2[i];
  }

  /** Where an end tag arrives after the chain was lost. */
  predicate EndsLost(st: State, cfg: Config)
    decreases |st.data|
  {
    var t := Next(st.data);
    && st.alive && !t.Wait?
    && ((st.ns.Text? && t.Tag? && KindOf(t.elem).End?)
        || (Act(t, st.ns, cfg).Some? && EndsLost(State(t.rest, Act(t, st.ns, cfg).value.0, true), cfg)))
  }

  /** After the chain was lost there are no elements any more: a start tag is an error, and an end has no name. */
  lemma {:induction false} LostRun(st: State, open: seq<Option<string>>, cfg: Config)
    requires st.alive && st.ns.Text? && (open == [] || open[|open| - 1].Some?)
    ensures var (st', events) := Drain(st, cfg);
            && (Nest(open, events).Some? <==> !EndsLost(st, cfg))
            && (Nest(open, events).Some? ==> Nest(open, events).value == open && !HasStart(events))
            && (Nest(open, events).Some? && st'.alive ==> st'.ns == st.ns)
    decreases |st.data|
  {
    hide Unescape, HasStart;
    var t := Next(st.data);
    HasStartOf([], []);
    NoStart();
    if !t.Wait? && Act(t, st.ns, cfg).Some? {
      var (ns', e1) := Act(t, st.ns, cfg).value;
      var next := State(t.rest, ns', true);
      var e2 := Drain(next, cfg).1;
      NestAppends(open, e1, e2);
      HasStartOf(e1, e2);
      if t.Tag? && KindOf(t.elem).End? {
        assert e1 == [EndElement(None)];
      } else {
        LostRun(next, open, cfg);
        assert t.Chars? ==> e1[1..] == [];
        if t.Chars? {
          NoStartInText(e1[0].text);
        }
      }
    }
  }

  lemma NoStart()
    ensures !HasStart([])
  {
  }

  lemma NoStartInText(text: string)
    ensures !HasStart([CharacterData(text)])
  {
  }

  lemma LastTag(scopes: seq<Scope>, base: nat)
    requires Rooted(scopes) && TopBinds(scopes, METATABLE) && base <= |scopes|
    ensures var open := Tags(scopes[base..]); open == [] || open[|open| - 1].Some?
  {
  }

  /** Start and end events nest: from the scopes at base up, as long as no end goes below them, the scopes below stay
      what they were and the tags above (of the scopes kept) are those of the open elements. */
  lemma {:induction false} DrainNests(st: State, base: nat, cfg: Config) returns (kept: seq<Scope>)
    requires st.alive && st.ns.Chain? && base <= |st.ns.scopes| && Rooted(st.ns.scopes)
    ensures var (st', events) := Drain(st, cfg);
            var open := Nest(Tags(st.ns.scopes[base..]), events);
            st'.alive && open.Some? ==>
              && base <= |kept| && kept[..base] == st.ns.scopes[..base] && open.value == Tags(kept[base..])
              && (st'.ns == Chain(st.ns.bottom, kept) || st'.ns == Under(st.ns.bottom, kept))
              && (st'.ns.Chain? && |kept| == base && TopBinds(kept, METATABLE) ==>
                    |st.ns.scopes| == base && !HasStart(events))
    decreases |st.data|
  {
    hide Act, Tags, Rooted, HasStart, Next, Drain;
    var t := Next(st.data);
    assert st == State(st.data, st.ns, true);
    DrainOnce(st.data, st.ns, cfg);
    NoStart();
    kept := st.ns.scopes;
    if !t.Wait? && Act(t, st.ns, cfg).Some? {
      var (ns', e1) := Act(t, st.ns, cfg).value;
      var next := State(t.rest, ns', true);
      var e2 := Drain(next, cfg).1;
      var open := Tags(st.ns.scopes[base..]);
      var k := ActNests(t, st.ns, base, cfg);
      NestAppends(open, e1, e2);
      HasStartOf(e1, e2);
      if Nest(open, e1).Some? {
        if ns'.Chain? {
          kept := DrainNests(next, base, cfg);
        } else {
          kept := k;
          LastTag(k, base);
          LostRun(next, Tags(k[base..]), cfg);
        }
      }
    }
  }

  /** From the bottom up the events nest exactly when no end tag arrives after the chain was lost. */
  lemma {:induction false} EndNames(st: State, cfg: Config)
    requires st.alive && st.ns.Chain? && st.ns.bottom.Nothing? && Rooted(st.ns.scopes)
    ensures Nest(Tags(st.ns.scopes), Drain(st, cfg).1).Some? <==> !EndsLost(st, cfg)
    decreases |st.data|
  {
    hide Tags, Rooted, HasStart, Act;
    var t := Next(st.data);
    if !t.Wait? && Act(t, st.ns, cfg).Some? {
      var (ns', e1) := Act(t, st.ns, cfg).value;
      var next := State(t.rest, ns', true);
      assert st.ns.scopes[0..] == st.ns.scopes;
      var k := ActNests(t, st.ns, 0, cfg);
      assert k[0..] == k;
      NestAppends(Tags(st.ns.scopes), e1, Drain(next, cfg).1);
      if ns'.Chain? {
        EndNames(next, cfg);
      } else {
        LastTag(k, 0);
        LostRun(next, Tags(k), cfg);
      }
    }
  }

  /** Whatever is read, only scopes of elements bind __metatable. */
  lemma {:induction false} StaysRooted(st: State, cfg: Config)
    requires st.ns.Chain? ==> Rooted(st.ns.scopes)
    ensures var ns' := Drain(st, cfg).0.ns; ns'.Chain? ==> Rooted(ns'.scopes)
    decreases |st.data|
  {
    hide Push, Unescape, Rooted;
    var t := Next(st.data);
    NoneRooted();
    if st.alive && !t.Wait? && Act(t, st.ns, cfg).Some? {
      var ns' := Act(t, st.ns, cfg).value.0;
      if st.ns.Chain? && t.Tag? {
        var scopes := st.ns.scopes;
        if scopes != [] {
          assert scopes == scopes[..|scopes| - 1] + [scopes[|scopes| - 1]];
          RootedOf(scopes[..|scopes| - 1], scopes[|scopes| - 1]);
        }
        if KindOf(t.elem).Start? {
          RootedOf(scopes, Push(KindOf(t.elem).tag, st.ns, cfg).value.0);
        }
      }
      StaysRooted(State(t.rest, ns', true), cfg);
    }
  }

  lemma NoneRooted()
    ensures Rooted([])
  {
  }

  /** Every state that the tokenizer reaches from its start meets what the laws on bindings ask for. */
  lemma ReachableIsRooted(chunks: seq<string>, cfg: Config)
    ensures var ns := FeedAll(START, chunks, cfg).0.ns; ns.Chain? ==> Rooted(ns.scopes)
  {
    ChunkIndependence(START, chunks, cfg);
    StaysRooted(START.(data := START.data + Concat(chunks)), cfg);
  }

  /** Over every input from the start, every end names the innermost open element, and only the outermost scope ends
      nameless, exactly when no end tag follows the end of an element directly inside one that binds __metatable. */
  lemma EndNamesMatch(chunks: seq<string>, cfg: Config)
    ensures var (st', events) := FeedAll(START, chunks, cfg);
            var open := Nest([None], events);
            && (open.Some? <==> !EndsLost(START.(data := Concat(chunks)), cfg))
            && (open.Some? && st'.alive && st'.ns.Chain? ==> open.value == Tags(st'.ns.scopes))
  {
    ChunkIndependence(START, chunks, cfg);
    var st := START.(data := Concat(chunks));
    assert START.data + Concat(chunks) == Concat(chunks);
    EndNames(st, cfg);
    var kept := DrainNests(st, 0, cfg);
    var st' := Drain(st, cfg).0;
    assert Tags([ROOT]) == [None] && st.ns.scopes[0..] == st.ns.scopes && kept[0..] == kept;
  }

  /** Whether a start tag or an empty tag binds a prefix. */
  predicate TagBinds(elem: string, prefix: string, code: CharCode) {
    var k := KindOf(elem);
    (k.Start? || k.Empty?) && ParseTag(k.tag, code).Some? && prefix in Bindings(ParseTag(k.tag, code).value.1, map[])
  }

  /** Whether some tag of the input does. */
  predicate SomeTagBinds(data: string, prefix: string, code: CharCode)
    decreases |data|
  {
    var t := Next(data);
    !t.Wait? && ((t.Tag? && TagBinds(t.elem, prefix, code)) || SomeTagBinds(t.rest, prefix, code))
  }

  lemma {:induction false} NothingLost(st: State, cfg: Config)
    requires st.ns.Chain? && forall i :: 0 <= i < |st.ns.scopes| ==> METATABLE !in st.ns.scopes[i].bindings
    requires !SomeTagBinds(st.data, METATABLE, cfg.code)
    ensures !EndsLost(st, cfg)
    decreases |st.data|
  {
    hide ParseTag, Bindings, Qualified, ApplyNs, Unescape;
    var t := Next(st.data);
    if st.alive && !t.Wait? && Act(t, st.ns, cfg).Some? {
      NothingLost(State(t.rest, Act(t, st.ns, cfg).value.0, true), cfg);
    }
  }

  /** In particular the names match over every input in which no tag binds __metatable. */
  lemma NamesMatchWithoutMetatable(chunks: seq<string>, cfg: Config)
    requires !SomeTagBinds(Concat(chunks), METATABLE, cfg.code)
    ensures Nest([None], FeedAll(START, chunks, cfg).1).Some?
  {
    NothingLost(START.(data := Concat(chunks)), cfg);
    EndNamesMatch(chunks, cfg);
  }

  // ---------- Where the chain is lost, as the tags show it ----------

  /** How many elements are open at the end of the data, counted on its tags; nothing when more end than were open. */
  function Depth(data: string, depth: nat): Option<nat>
    decreases |data|
  {
    var t := Next(data);
    if t.Wait? then Some(depth)
    else if t.Chars? then Depth(t.rest, depth)
    else
      match KindOf(t.elem)
      case Start(_) => Depth(t.rest, depth + 1)
      case End => if depth == 0 then None else Depth(t.rest, depth - 1)
      case _ => Depth(t.rest, depth)
  }

  /** Whether the innermost open element binds __metatable. */
  predicate TopFlag(flags: seq<bool>) {
    flags != [] && flags[|flags| - 1]
  }

  /** What follows the first end of an element directly inside one that binds __metatable; `flags` says of each open
      element, innermost last, whether it does. */
  function Loss(data: string, flags: seq<bool>, code: CharCode): Option<string>
    decreases |data|
  {
    var t := Next(data);
    if t.Wait? then None
    else if t.Chars? then Loss(t.rest, flags, code)
    else
      match KindOf(t.elem)
      case Neglected => Loss(t.rest, flags, code)
      case Start(_) => Loss(t.rest, flags + [TagBinds(t.elem, METATABLE, code)], code)
      case Empty(_) => if TopFlag(flags) then Some(t.rest) else Loss(t.rest, flags, code)
      case End =>
        var below := if flags == [] then [] else flags[..|flags| - 1];
        if TopFlag(below) then Some(t.rest) else Loss(t.rest, below, code)
  }

  /** Whether the next tag, comments aside, is an end tag. */
  predicate EndComes(data: string)
    decreases |data|
  {
    var t := Next(data);
    !t.Wait? && if t.Chars? || KindOf(t.elem).Neglected? then EndComes(t.rest) else KindOf(t.elem).End?
  }

  function Flags(scopes: seq<Scope>): (flags: seq<bool>)
    ensures |flags| == |scopes|
  {
    seq(|scopes|, i requires 0 <= i < |scopes| => METATABLE in scopes[i].bindings)
  }

  lemma FlagsOf(scopes: seq<Scope>)
    ensures TopFlag(Flags(scopes)) <==> TopBinds(scopes, METATABLE)
    ensures forall n :: 0 <= n <= |scopes| ==> Flags(scopes[..n]) == Flags(scopes)[..n]
  {
  }

  lemma FlagsGrow(scopes: seq<Scope>, s: Scope)
    ensures Flags(scopes + [s]) == Flags(scopes) + [METATABLE in s.bindings]
  {
  }

  /** One token on a chain, seen on the tag. */
  lemma ActOnTags(t: Token, ns: Ns, cfg: Config)
    requires !t.Wait? && ns.Chain? && Act(t, ns, cfg).Some?
    ensures var ns' := Act(t, ns, cfg).value.0;
            var flags, n := Flags(ns.scopes), |ns.scopes|;
            if t.Chars? then ns' == ns
            else match KindOf(t.elem)
                 case Neglected => ns' == ns
                 case Start(_) =>
                   && ns'.Chain? && ns'.bottom == ns.bottom && |ns'.scopes| == n + 1 && ns'.scopes[..n] == ns.scopes
                   && Flags(ns'.scopes) == flags + [TagBinds(t.elem, METATABLE, cfg.code)]
                 case Empty(_) => if TopFlag(flags) then ns'.Text? else ns' == ns
                 case End =>
                   if n == 0 then
                     ns.bottom.StringTable? && ns' == Chain(Nothing, []) && flags == Flags(ns'.scopes) == []
                   else if TopFlag(flags[..n - 1]) then ns'.Text?
                   else ns' == Chain(ns.bottom, ns.scopes[..n - 1]) && Flags(ns'.scopes) == flags[..n - 1]
  {
    hide Unescape, Flags, ParseTag, Bindings, Qualified, ApplyNs, Blocked;
    FlagsOf(ns.scopes);
    if t.Tag? {
      match KindOf(t.elem)
      case Start(tag) => FlagsGrow(ns.scopes, Push(tag, ns, cfg).value.0);
      case End =>
        if ns.scopes != [] {
          FlagsOf(ns.scopes[..|ns.scopes| - 1]);
        }
      case _ =>
    }
  }

  /** So the loss seen from here is that seen after the token, or comes with the token. */
  lemma LossStep(data: string, ns: Ns, cfg: Config)
    requires var t := Next(data); !t.Wait? && ns.Chain? && Act(t, ns, cfg).Some?
    ensures var t, ns' := Next(data), Act(Next(data), ns, cfg).value.0;
            Loss(data, Flags(ns.scopes), cfg.code)
            == if ns'.Text? then Some(t.rest) else Loss(t.rest, Flags(ns'.scopes), cfg.code)
  {
    ActOnTags(Next(data), ns, cfg);
    hide Act, Flags, TopFlag, TagBinds;
  }

  /** Once lost, the chain does not come back: there are no more scopes than elements that the tags have open. */
  lemma {:induction false} LostStaysLost(st: State, depth: nat, cfg: Config)
    requires st.alive && Drain(st, cfg).0.alive && Depth(st.data, depth).Some?
    requires st.ns.Chain? ==> |st.ns.scopes| <= depth
    ensures var ns' := Drain(st, cfg).0.ns; ns'.Chain? ==> |ns'.scopes| <= Depth(st.data, depth).value
    decreases |st.data|
  {
    hide Unescape, Push;
    var t := Next(st.data);
    if !t.Wait? {
      var next := State(t.rest, Act(t, st.ns, cfg).value.0, true);
      if t.Chars? || KindOf(t.elem).Neglected? || KindOf(t.elem).Empty? {
        LostStaysLost(next, depth, cfg);
      } else {
        LostStaysLost(next, if KindOf(t.elem).End? then depth - 1 else depth + 1, cfg);
      }
    }
  }

  /** Without a loss the scopes follow the tags; with one, no more scopes are left than elements opened since `base`. */
  lemma {:induction false} ScopesFollowTags(st: State, base: nat, cfg: Config)
    requires st.alive && Drain(st, cfg).0.alive && st.ns.Chain? && base <= |st.ns.scopes|
    requires Depth(st.data, |st.ns.scopes| - base).Some?
    ensures var ns', depth := Drain(st, cfg).0.ns, Depth(st.data, |st.ns.scopes| - base).value;
            if Loss(st.data, Flags(st.ns.scopes), cfg.code).None? then
              && ns'.Chain? && ns'.bottom == st.ns.bottom
              && |ns'.scopes| == base + depth && ns'.scopes[..base] == st.ns.scopes[..base]
            else ns'.Chain? ==> |ns'.scopes| <= depth
    decreases |st.data|
  {
    var t := Next(st.data);
    hide Act, Flags, TopFlag, Next;
    if !t.Wait? {
      var depth := |st.ns.scopes| - base;
      LossStep(st.data, st.ns, cfg);
      ActOnTags(t, st.ns, cfg);
      var next := State(t.rest, Act(t, st.ns, cfg).value.0, true);
      if next.ns.Text? {
        LostStaysLost(next, if KindOf(t.elem).End? then depth - 1 else depth, cfg);
      } else {
        ScopesFollowTags(next, base, cfg);
      }
    }
  }

  /** On a lost chain only an end tag goes on. */
  lemma {:induction false} EndComesLost(st: State, cfg: Config)
    requires st.alive && st.ns.Text?
    ensures EndsLost(st, cfg) ==> EndComes(st.data)
    ensures Drain(st, cfg).0.alive && EndComes(st.data) ==> EndsLost(st, cfg)
    decreases |st.data|
  {
    hide Unescape;
    var t := Next(st.data);
    if !t.Wait? && Act(t, st.ns, cfg).Some? && (t.Chars? || KindOf(t.elem).Neglected?) {
      EndComesLost(State(t.rest, st.ns, true), cfg);
    }
  }

  /** An end tag arrives after the chain was lost only where the tags say so, and does if there is no error. */
  lemma {:induction false} EndsLostOnTags(st: State, cfg: Config)
    requires st.alive && st.ns.Chain?
    ensures var loss := Loss(st.data, Flags(st.ns.scopes), cfg.code);
            && (EndsLost(st, cfg) ==> loss.Some? && EndComes(loss.value))
            && (Drain(st, cfg).0.alive && loss.Some? && EndComes(loss.value) ==> EndsLost(st, cfg))
    decreases |st.data|
  {
    var t := Next(st.data);
    hide Act, Flags, TopFlag, Next, EndComes;
    if !t.Wait? && Act(t, st.ns, cfg).Some? {
      LossStep(st.data, st.ns, cfg);
      var next := State(t.rest, Act(t, st.ns, cfg).value.0, true);
      if next.ns.Text? {
        EndComesLost(next, cfg);
      } else {
        EndsLostOnTags(next, cfg);
      }
    }
  }

  /** So over every input without an error, the names of the ends match exactly when no end tag follows a loss; and with
      an error they match at least then. */
  lemma EndNamesMatchOnTags(chunks: seq<string>, cfg: Config)
    ensures var (st', events) := FeedAll(START, chunks, cfg);
            var loss := Loss(Concat(chunks), [false], cfg.code);
            && (loss.None? || !EndComes(loss.value) ==> Nest([None], events).Some?)
            && (st'.alive && loss.Some? && EndComes(loss.value) ==> Nest([None], events).None?)
  {
    hide Nest, Loss, EndComes, EndsLost, Drain;
    EndNamesMatch(chunks, cfg);
    ChunkIndependence(START, chunks, cfg);
    EndsLostOnTags(START.(data := Concat(chunks)), cfg);
    assert START.data + Concat(chunks) == Concat(chunks);
    assert Flags([ROOT]) == [false];
  }

  /** Bindings do not leak: input whose tags balance leaves the chain as it was, and so the meaning of every name,
      exactly when no element ends directly inside one that binds __metatable; and when one does, no scope is left. */
  lemma BindingsStayInside(st: State, chunk: string, cfg: Config)
    requires st.alive && st.ns.Chain? && Feed(st, chunk, cfg).0.alive && Depth(st.data + chunk, 0) == Some(0)
    ensures var ns', loss := Feed(st, chunk, cfg).0.ns, Loss(st.data + chunk, Flags(st.ns.scopes), cfg.code);
            && (loss.None? ==> ns' == st.ns)
            && (loss.Some? ==> ns'.Text? || ns'.scopes == [])
            && (st.ns.scopes != [] ==> (ns' == st.ns <==> loss.None?))
  {
    hide Loss, Depth, Flags, Drain;
    var n := |st.ns.scopes|;
    ScopesFollowTags(st.(data := st.data + chunk), n, cfg);
    var ns' := Feed(st, chunk, cfg).0.ns;
    assert ns'.Chain? && |ns'.scopes| == n ==> ns'.scopes[..n] == ns'.scopes;
    assert st.ns.scopes[..n] == st.ns.scopes;
  }

  // ---------- Looking prefixes up ----------

  /** The binding of a prefix is that of the innermost scope that has one. */
  lemma {:induction false} EnclosingIsInnermost(ns: Ns, prefix: string, i: nat, library: set<string>)
    requires ns.Chain? && i < |ns.scopes| && prefix in ns.scopes[i].bindings
    requires forall j :: i < j < |ns.scopes| ==> prefix !in ns.scopes[j].bindings
    ensures Enclosing(ns, prefix, library) == Bound(ns.scopes[i].bindings[prefix])
    decreases |ns.scopes|
  {
    if i < |ns.scopes| - 1 {
      EnclosingIsInnermost(ns.(scopes := ns.scopes[..|ns.scopes| - 1]), prefix, i, library);
    }
  }

  /** Over any run that closes only what it opened, and that does not lose the chain, a prefix means what the innermost
      open scope says that binds it, be it one from before or of an element that was opened since; only __index, the key
      that chains the tables, means nothing. */
  lemma InnermostBindingCounts(st: State, chunk: string, cfg: Config, prefix: string, i: nat)
    requires st.alive && st.ns.Chain? && Feed(st, chunk, cfg).0.alive
    requires Depth(st.data + chunk, 0).Some? && Loss(st.data + chunk, Flags(st.ns.scopes), cfg.code).None?
    ensures var ns, ns' := st.ns, Feed(st, chunk, cfg).0.ns;
            && ns'.Chain? && |ns'.scopes| == |ns.scopes| + Depth(st.data + chunk, 0).value
            && ns'.scopes[..|ns.scopes|] == ns.scopes
            && (i < |ns'.scopes| && prefix in ns'.scopes[i].bindings
                && (forall j :: i < j < |ns'.scopes| ==> prefix !in ns'.scopes[j].bindings) ==>
                  Resolve(map[], ns', prefix, cfg.library)
                  == if prefix == "__index" then NotText else Bound(ns'.scopes[i].bindings[prefix]))
  {
    var n := |st.ns.scopes|;
    ScopesFollowTags(st.(data := st.data + chunk), n, cfg);
    assert st.ns.scopes[..n] == st.ns.scopes;
    var ns' := Feed(st, chunk, cfg).0.ns;
    if i < |ns'.scopes| && prefix in ns'.scopes[i].bindings
       && forall j :: i < j < |ns'.scopes| ==> prefix !in ns'.scopes[j].bindings
    {
      EnclosingIsInnermost(ns', prefix, i, cfg.library);
    }
  }

  /** The prefixes that cannot be resolved: the key that chains the tables, unless the element binds it, and after the
      chain was lost the names of the string library, unless bound. */
  lemma {:induction false} OnlyTheseFail(bindings: map<string, string>, ns: Ns, prefix: string, library: set<string>)
    requires ns.Chain?
    ensures Resolve(bindings, ns, prefix, library).NotText?
            <==> && prefix !in bindings
                 && ((ns.scopes != [] && prefix == "__index")
                     || (ns.bottom.StringTable? && prefix in library
                         && forall i :: 0 <= i < |ns.scopes| ==> prefix !in ns.scopes[i].bindings))
  {
    EnclosingFails(ns, prefix, library);
  }

  lemma {:induction false} EnclosingFails(ns: Ns, prefix: string, library: set<string>)
    requires ns.Chain?
    ensures Enclosing(ns, prefix, library).NotText?
            <==> ns.bottom.StringTable? && prefix in library
                 && forall i :: 0 <= i < |ns.scopes| ==> prefix !in ns.scopes[i].bindings
    decreases |ns.scopes|
  {
    if ns.scopes != [] {
      EnclosingFails(ns.(scopes := ns.scopes[..|ns.scopes| - 1]), prefix, library);
    }
  }

  /** A start tag is an error exactly when it is malformed, when the scope around it binds __newindex or the chain is
      lost, or when its name or that of an attribute has a prefix that cannot be resolved. */
  lemma StartTagFails(elem: string, ns: Ns, cfg: Config)
    ensures Push(elem, ns, cfg).None?
            <==> || Blocked(ns) || ParseTag(elem, cfg.code).None?
                 || var (tag, attr) := ParseTag(elem, cfg.code).value;
                    var bindings := Bindings(attr, map[]);
                    || ApplyNs(tag, true, bindings, ns, cfg).None?
                    || exists i :: 0 <= i < |attr| && Declares(attr[i].0).None?
                                   && ApplyNs(attr[i].0, false, bindings, ns, cfg).None?
  {
    if !Blocked(ns) && ParseTag(elem, cfg.code).Some? {
      var (tag, attr) := ParseTag(elem, cfg.code).value;
      QualifiedFails(attr, Bindings(attr, map[]), ns, cfg, [], map[]);
    }
  }

  lemma {:induction false} QualifiedFails(attr: seq<(string, string)>, bindings: map<string, string>,
                                          ns: Ns, cfg: Config,
                                          names: seq<string>, values: map<string, string>)
    requires ns.Chain?
    ensures Qualified(attr, bindings, ns, cfg, names, values).None?
            <==> exists i :: 0 <= i < |attr| && Declares(attr[i].0).None?
                             && ApplyNs(attr[i].0, false, bindings, ns, cfg).None?
    decreases |attr|
  {
    if attr != [] {
      var k := ApplyNs(attr[0].0, false, bindings, ns, cfg);
      var rest := attr[1..];
      assert forall i :: 0 <= i < |rest| ==> rest[i] == attr[i + 1];
      if Declares(attr[0].0).Some? {
        QualifiedFails(rest, bindings, ns, cfg, names, values);
      } else if k.Some? {
        QualifiedFails(rest, bindings, ns, cfg, names + [k.value], values[k.value := attr[0].1]);
      }
      if i :| 0 < i < |attr| && Declares(attr[i].0).None? && ApplyNs(attr[i].0, false, bindings, ns, cfg).None? {
        assert rest[i - 1] == attr[i];
      }
    }
  }

  // ---------- The two prefixes at work ----------

  lemma {:induction false} SpanIs(s: string, p: char -> bool, n: nat)
    requires n <= |s| && (forall i :: 0 <= i < n ==> p(s[i])) && (n < |s| ==> !p(s[n]))
    ensures Span(s, p) == n
  {
    if n > 0 {
      SpanIs(s[1..], p, n - 1);
    }
  }

  lemma {:induction false} IndexIs(s: string, c: char, n: nat)
    requires n <= |s| && c !in s[..n] && (n < |s| ==> s[n] == c)
    ensures Index(s, c) == n
  {
    if n > 0 {
      assert s[0] == s[..n][0] && s[1..][..n - 1] == s[..n][1..];
      IndexIs(s[1..], c, n - 1);
    }
  }

  lemma NextTag(elem: string, rest: string)
    requires '>' !in elem
    ensures Next("<" + elem + ">" + rest) == Tag(elem, rest)
  {
    var data := "<" + elem + ">" + rest;
    assert data[..1 + |elem|] == "<" + elem;
    IndexIs(data, '>', 1 + |elem|);
    assert data[1..1 + |elem|] == elem && data[2 + |elem|..] == rest;
  }

  /** The text of a start tag that binds one prefix. */
  function Declaring(prefix: string): string {
    "a xmlns:" + prefix + "=\"x\""
  }

  lemma SkipChar(s: string, attr: seq<(string, string)>, code: CharCode)
    requires s != "" && Span(s, IsNameChar) == 0
    ensures Attributes(s, attr, code) == Attributes(s[1..], attr, code)
  {
    assert FrontAttribute(s).None?;
    hide FrontAttribute, Span, Unescape, SetKey;
  }

  lemma AtFront(s: string, n: nat, m: nat)
    requires 0 < n == Span(s, IsNameChar) && n + 1 < |s| && s[n] == '=' && IsQuote(s[n + 1])
    requires m == Span(s[n + 2..], IsValueChar) && n + 2 + m < |s|
    ensures FrontAttribute(s) == Some((n, m))
  {
    hide Span, IsQuote;
  }

  lemma TakeAttribute(s: string, attr: seq<(string, string)>, n: nat, m: nat, v: string, code: CharCode)
    requires FrontAttribute(s) == Some((n, m)) && Unescape(s[n + 2..n + 2 + m], code) == Some(v)
    ensures Attributes(s, attr, code) == Attributes(s[n + 3 + m..], SetKey(attr, s[..n], v), code)
  {
    hide FrontAttribute, Unescape, SetKey;
  }

  lemma PlainText(s: string, code: CharCode)
    requires '&' !in s
    ensures Unescape(s, code) == Some(s)
  {
    assert s[..|s|] == s;
    IndexIs(s, '&', |s|);
  }

  lemma NoAttributes(attr: seq<(string, string)>, code: CharCode)
    ensures Attributes("", attr, code) == Some(attr)
  {
  }

  /** One attribute and nothing else. */
  lemma OneAttribute(k: string, code: CharCode)
    requires k != "" && forall i :: 0 <= i < |k| ==> IsNameChar(k[i])
    ensures Attributes(" " + k + "=\"x\"", [], code) == Some([(k, "x")])
  {
    hide Index, Attributes, Unescape, SetKey, Span;
    var s2 := k + "=\"x\"";
    var s1 := " " + k + "=\"x\"";
    assert s1[1..] == s2;
    SpanIs(s1, IsNameChar, 0);
    SkipChar(s1, [], code);
    NamedAttribute(k, code);
  }

  lemma NamedAttribute(k: string, code: CharCode)
    requires k != "" && forall i :: 0 <= i < |k| ==> IsNameChar(k[i])
    ensures Attributes(k + "=\"x\"", [], code) == Some([(k, "x")])
  {
    hide Index, Attributes, Unescape, SetKey, Span, FrontAttribute;
    var s := k + "=\"x\"";
    TailIs();
    ValueOf(k, "=\"x\"");
    SpanIs(s, IsNameChar, |k|);
    OneValueChar();
    PlainText("x", code);
    NoAttributes([(k, "x")], code);
    SetFirst(k, "x");
    AtFront(s, |k|, 1);
    TakeAttribute(s, [], |k|, 1, "x", code);
  }

  lemma TailIs()
    ensures var t := "=\"x\"";
            |t| == 4 && t[0] == '=' && t[1] == '"' && t[2..] == "x\"" && t[2..3] == "x" && t[4..] == ""
  {
  }

  lemma OneValueChar()
    ensures Span("x\"", IsValueChar) == 1
  {
    assert "x\""[0] == 'x' && "x\""[1] == '"';
    SpanIs("x\"", IsValueChar, 1);
  }

  lemma SetFirst(k: string, v: string)
    ensures SetKey([], k, v) == [(k, v)]
  {
  }

  lemma ValueOf(k: string, tail: string)
    requires |tail| == 4
    ensures var s := k + tail;
            s[..|k|] == k && s[|k|] == tail[0] && s[|k| + 1] == tail[1] && s[|k| + 2..] == tail[2..]
            && s[|k| + 2..|k| + 3] == tail[2..3] && s[|k| + 4..] == tail[4..]
  {
  }

  lemma DeclaringParses(prefix: string, code: CharCode)
    requires forall i :: 0 <= i < |prefix| ==> IsNameChar(prefix[i])
    ensures ParseTag(Declaring(prefix), code) == Some(("a", [("xmlns:" + prefix, "x")]))
  {
    hide Span, Attributes, FrontAttribute, Unescape;
    var s, k := Declaring(prefix), "xmlns:" + prefix;
    assert s[0] == 'a' && s[1] == ' ';
    SpanIs(s, IsSpace, 0);
    SpanIs(s, IsWordChar, 1);
    OneAttribute(k, code);
    assert s[0..] == s && s[0..0 + 1] == "a" && s[1..] == " " + k + "=\"x\"";
  }

  lemma DeclaringBinds(prefix: string)
    ensures Bindings([("xmlns:" + prefix, "x")], map[]) == map[prefix := "x"]
    ensures Declares("xmlns:" + prefix) == Some(prefix)
  {
    var k := "xmlns:" + prefix;
    assert k[..6] == "xmlns:" && k[6..] == prefix;
    assert [(k, "x")][1..] == [];
  }

  lemma {:induction false} NothingBound(ns: Ns, prefix: string, library: set<string>)
    requires ns.Chain? && ns.bottom.Nothing? && forall i :: 0 <= i < |ns.scopes| ==> prefix !in ns.scopes[i].bindings
    ensures Enclosing(ns, prefix, library) == Unbound
    decreases |ns.scopes|
  {
    if ns.scopes != [] {
      NothingBound(ns.(scopes := ns.scopes[..|ns.scopes| - 1]), prefix, library);
    }
  }

  lemma PlainTag(name: char, ns: Ns, cfg: Config)
    requires name != ':' && IsWordChar(name) && ns.Chain? && !Blocked(ns)
    requires Resolve(map[], ns, "", cfg.library) == Unbound
    ensures Push([name], ns, cfg) == Some((Scope(map[], Some([name])), StartElement([name], [], map[])))
  {
    var s := [name];
    SpanIs(s, IsSpace, 0);
    assert s[0..] == s && s[0..0 + 1] == s && s[1..] == "";
    SpanIs(s, IsWordChar, 1);
    IndexIs(s, ':', 1);
  }

  /** A start tag at the outermost scope. */
  lemma PushDeclaring(prefix: string, cfg: Config)
    requires (forall i :: 0 <= i < |prefix| ==> IsNameChar(prefix[i])) && prefix != ""
    ensures Push(Declaring(prefix), Chain(Nothing, [ROOT]), cfg)
            == Some((Scope(map[prefix := "x"], Some("a")), StartElement("a", [], map[])))
  {
    var attr := [("xmlns:" + prefix, "x")];
    DeclaringParses(prefix, cfg.code);
    DeclaringBinds(prefix);
    hide ParseTag, Bindings, Declares;
    assert attr[1..] == [];
    NothingBound(Chain(Nothing, [ROOT]), "", cfg.library);
    IndexIs("a", ':', 1);
    hide Index;
    assert ApplyNs("a", true, map[prefix := "x"], Chain(Nothing, [ROOT]), cfg) == Some("a");
    assert Qualified(attr, map[prefix := "x"], Chain(Nothing, [ROOT]), cfg, [], map[]) == Some(([], map[]));
  }

  lemma ActDeclaring(prefix: string, rest: string, cfg: Config)
    requires (forall i :: 0 <= i < |prefix| ==> IsNameChar(prefix[i])) && prefix != "" && '>' !in prefix
    ensures Next("<" + Declaring(prefix) + ">" + rest) == Tag(Declaring(prefix), rest)
    ensures Act(Tag(Declaring(prefix), rest), Chain(Nothing, [ROOT]), cfg)
            == Some((Chain(Nothing, [ROOT, Scope(map[prefix := "x"], Some("a"))]), [StartElement("a", [], map[])]))
  {
    DeclaringStarts(prefix);
    PushDeclaring(prefix, cfg);
    hide Push, Next, Declaring, KindOf;
    NextTag(Declaring(prefix), rest);
    assert [ROOT] + [Scope(map[prefix := "x"], Some("a"))] == [ROOT, Scope(map[prefix := "x"], Some("a"))];
  }

  lemma DeclaringStarts(prefix: string)
    requires '>' !in prefix
    ensures '>' !in Declaring(prefix) && KindOf(Declaring(prefix)) == Start(Declaring(prefix))
  {
    var elem := Declaring(prefix);
    assert '>' !in "a xmlns:" && '>' !in "=\"x\"";
    assert elem[0] == 'a' && elem[|elem| - 1] == '"';
  }

  /** One token and the rest. */
  lemma DrainToken(data: string, rest: string, ns: Ns, ns': Ns, e1: seq<Event>, st': State, e2: seq<Event>, cfg: Config)
    requires !Next(data).Wait? && Next(data).rest == rest && Act(Next(data), ns, cfg) == Some((ns', e1))
    requires Drain(State(rest, ns', true), cfg) == (st', e2)
    ensures Drain(State(data, ns, true), cfg) == (st', e1 + e2)
  {
  }

  /** What comes after the start of an element that binds __metatable: the second end has no name. */
  lemma AfterMetatable(a: Scope, cfg: Config)
    requires a == Scope(map[METATABLE := "x"], Some("a"))
    ensures Drain(State("<b></b></a>", Chain(Nothing, [ROOT, a]), true), cfg)
            == (State("", Chain(StringTable, []), true),
                [StartElement("b", [], map[]), EndElement(Some("b")), EndElement(None)])
  {
    hide Next, Drain, Push, ParseTag;
    var b := Scope(map[], Some("b"));
    var ns, inner, lost := Chain(Nothing, [ROOT, a]), Chain(Nothing, [ROOT, a, b]), Chain(StringTable, []);
    var end := State("", lost, true);
    NextShort("b", "</b></a>", "<b></b></a>");
    NextShort("/b", "</a>", "</b></a>");
    NextShort("/a", "", "</a>");
    Kinds();
    NothingYet();
    DrainOnce("", lost, cfg);
    DrainToken("</a>", "", Text("x"), lost, [EndElement(None)], end, [], cfg);
    assert [EndElement(None)] + [] == [EndElement(None)];
    assert [ROOT, a, b][..2] == [ROOT, a] && a.bindings[METATABLE] == "x";
    DrainToken("</b></a>", "</a>", inner, Text("x"), [EndElement(Some("b"))], end, [EndElement(None)], cfg);
    var e := [EndElement(Some("b")), EndElement(None)];
    assert [EndElement(Some("b"))] + [EndElement(None)] == e;
    InsideA(ns, a, cfg);
    assert [ROOT, a] + [b] == [ROOT, a, b];
    DrainToken("<b></b></a>", "</b></a>", ns, inner, [StartElement("b", [], map[])], end, e, cfg);
    assert [StartElement("b", [], map[])] + e
        == [StartElement("b", [], map[]), EndElement(Some("b")), EndElement(None)];
  }

  /** An element inside one that binds __metatable: the end of the outer one has no name, and the scopes are gone. */
  lemma MetatableLosesTheName(cfg: Config)
    ensures Drain(START.(data := "<" + Declaring(METATABLE) + ">" + "<b></b></a>"), cfg)
            == (State("", Chain(StringTable, []), true),
                [StartElement("a", [], map[]), StartElement("b", [], map[]), EndElement(Some("b")), EndElement(None)])
  {
    hide Next, Drain, Act;
    var a, rest := Scope(map[METATABLE := "x"], Some("a")), "<b></b></a>";
    var e1 := [StartElement("b", [], map[]), EndElement(Some("b")), EndElement(None)];
    AfterMetatable(a, cfg);
    ActDeclaring(METATABLE, rest, cfg);
    var data := "<" + Declaring(METATABLE) + ">" + rest;
    DrainToken(data, rest, START.ns, Chain(Nothing, [ROOT, a]), [StartElement("a", [], map[])],
               State("", Chain(StringTable, []), true), e1, cfg);
    assert [StartElement("a", [], map[])] + e1
        == [StartElement("a", [], map[]), StartElement("b", [], map[]), EndElement(Some("b")), EndElement(None)];
  }

  /** Its tags balance, and they show the loss: what follows it is the outer end. */
  lemma MetatableInputBalances(code: CharCode)
    ensures var data := "<" + Declaring(METATABLE) + ">" + "<b></b></a>";
            Depth(data, 0) == Some(0) && Loss(data, [false], code) == Some("</a>") && EndComes("</a>")
  {
    hide Next, ParseTag;
    var elem := Declaring(METATABLE);
    NextShort("b", "</b></a>", "<b></b></a>");
    NextShort("/b", "</a>", "</b></a>");
    NextShort("/a", "", "</a>");
    Kinds();
    NothingYet();
    assert Depth("</b></a>", 2) == Some(0) by {
      assert Depth("</a>", 1) == Some(0);
    }
    assert Depth("<b></b></a>", 1) == Some(0);
    DeclaringStarts(METATABLE);
    DeclaringParses(METATABLE, code);
    DeclaringBinds(METATABLE);
    hide Declaring;
    NextTag(elem, "<b></b></a>");
    assert TagBinds(elem, METATABLE, code);
    assert [false] + [true] == [false, true] && [false, true] + [TagBinds("b", METATABLE, code)]
        == [false, true, TagBinds("b", METATABLE, code)];
    assert [false, true, TagBinds("b", METATABLE, code)][..2] == [false, true];
    assert Loss("</b></a>", [false, true, TagBinds("b", METATABLE, code)], code) == Some("</a>");
    assert Loss("<b></b></a>", [false, true], code) == Some("</a>");
  }

  lemma NextShort(elem: string, rest: string, data: string)
    requires '>' !in elem && elem != "" && data == "<" + elem + ">" + rest
    ensures Next(data) == Tag(elem, rest)
  {
    NextTag(elem, rest);
  }

  lemma Kinds()
    ensures KindOf("b") == Start("b") && KindOf("/b") == End && KindOf("/a") == End
  {
  }

  lemma InsideA(ns: Ns, a: Scope, cfg: Config)
    requires ns == Chain(Nothing, [ROOT, a]) && "" !in a.bindings && NEWINDEX !in a.bindings
    ensures Push("b", ns, cfg) == Some((Scope(map[], Some("b")), StartElement("b", [], map[])))
  {
    NothingBound(ns, "", cfg.library);
    PlainTag('b', ns, cfg);
  }

  /** An element inside one that binds __newindex is an error. */
  lemma NewindexIsAnError(cfg: Config)
    ensures Drain(START.(data := "<" + Declaring(NEWINDEX) + ">" + "<b>"), cfg)
            == (DEAD, [StartElement("a", [], map[])])
  {
    hide Next, Drain, ParseTag;
    var ns := Chain(Nothing, [ROOT, Scope(map[NEWINDEX := "x"], Some("a"))]);
    NextShort("b", "", "<b>");
    Kinds();
    DrainOnce("<b>", ns, cfg);
    assert [StartElement("a", [], map[])] + [] == [StartElement("a", [], map[])];
    ActDeclaring(NEWINDEX, "<b>", cfg);
    DrainToken("<" + Declaring(NEWINDEX) + ">" + "<b>", "<b>", START.ns, ns, [StartElement("a", [], map[])],
               DEAD, [], cfg);
  }
}
