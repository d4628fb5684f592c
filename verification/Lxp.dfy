/** The XML tokenizer of fallbacks/lxp.lua: a coroutine that takes its input in chunks. */
module Lxp {
  import opened Collections

  /** What the handlers are called with. */
  datatype Event =
    | StartElement(name: string, names: seq<string>, attributes: map<string, string>)
    | EndElement(tag: Option<string>)
    | CharacterData(text: string)

  /** One table of the ns chain; the tag is missing in the outermost one. */
  datatype Scope = Scope(bindings: map<string, string>, tag: Option<string>)

  const ROOT: Scope := Scope(map["xml" := "http://www.w3.org/XML/1998/namespace"], None)

  /** string.char(tonumber(digits, base)), or nothing when that is an error. */
  type CharCode = (string, nat) -> Option<char>

  /** The separator handed in, and what the Lua library decides: character codes, and the names of its string table. */
  datatype Config = Config(sep: string, code: CharCode, library: set<string>)

  // ---------- Text ----------

  /** Where c first is, or the length. */
  function Index(s: string, c: char): (n: nat)
    ensures n <= |s| && c !in s[..n] && (n < |s| ==> s[n] == c)
  {
    if s == [] || s[0] == c then 0
    else
      var n := 1 + Index(s[1..], c);
      assert s[..n] == [s[0]] + s[1..][..n - 1];
      n
  }

  predicate IsSpace(c: char) {
    c == ' ' || '\t' <= c <= '\r'
  }

  predicate IsWordChar(c: char) {
    !IsSpace(c)
  }

  predicate IsNameChar(c: char) {
    c != '=' && !IsSpace(c)
  }

  predicate IsValueChar(c: char) {
    !IsQuote(c)
  }

  /** How many characters at the front satisfy p. */
  function Span(s: string, p: char -> bool): (n: nat)
    ensures n <= |s|
  {
    if s == [] || !p(s[0]) then 0 else 1 + Span(s[1..], p)
  }

  /** What an entity stands for; an unknown one stays as it is, a bad number is an error. */
  function Entity(name: string, code: CharCode): Option<string> {
    match name
    case "amp" => Some("&")
    case "gt" => Some(">")
    case "lt" => Some("<")
    case "apos" => Some("'")
    case "quot" => Some("\"")
    case _ =>
      if name != [] && name[0] == '#' then
        var c := if |name| > 1 && name[1] == 'x' then code(name[2..], 16) else code(name[1..], 10);
        if c.Some? then Some([c.value]) else None
      else Some("&" + name + ";")
  }

  function Unescape(s: string, code: CharCode): Option<string> {
    var p := Index(s, '&');
    var q := if p < |s| then p + 1 + Index(s[p + 1..], ';') else p;
    if q >= |s| then Some(s)
    else Joined(s[..p], Entity(s[p + 1..q], code), Unescape(s[q + 1..], code))
  }

  function Joined(before: string, e: Option<string>, rest: Option<string>): Option<string> {
    if e.Some? && rest.Some? then Some(before + e.value + rest.value) else None
  }

  predicate IsQuote(c: char) {
    c == '\'' || c == '"'
  }

  /** A table with the key set, in order of first assignment. */
  function SetKey(attr: seq<(string, string)>, k: string, v: string): seq<(string, string)> {
    if attr == [] then [(k, v)]
    else if attr[0].0 == k then [(k, v)] + attr[1..]
    else [attr[0]] + SetKey(attr[1..], k, v)
  }

  /** The lengths of name and value of a name="value" at the front; the closing quote only has to be a quote. */
  function FrontAttribute(s: string): (r: Option<(nat, nat)>)
    ensures r.Some? ==> 0 < r.value.0 && r.value.0 + r.value.1 + 2 < |s|
  {
    var n := Span(s, IsNameChar);
    if n == 0 || n + 1 >= |s| || s[n] != '=' || !IsQuote(s[n + 1]) then None
    else
      var m := Span(s[n + 2..], IsValueChar);
      if n + 2 + m >= |s| then None else Some((n, m))
  }

  /** Every name="value" in s, from left to right. */
  function Attributes(s: string, attr: seq<(string, string)>, code: CharCode): Option<seq<(string, string)>>
    decreases |s|
  {
    if s == [] then Some(attr)
    else
      var front := FrontAttribute(s);
      if front.None? then Attributes(s[1..], attr, code)
      else
        var (n, m) := front.value;
        var v := Unescape(s[n + 2..n + 2 + m], code);
        if v.None? then None else Attributes(s[n + 3 + m..], SetKey(attr, s[..n], v.value), code)
  }

  /** The name and the attributes of a tag; without a name there is an error. */
  function ParseTag(s: string, code: CharCode): Option<(string, seq<(string, string)>)> {
    var i := Span(s, IsSpace);
    var n := Span(s[i..], IsWordChar);
    if n == 0 then None
    else
      var attr := Attributes(s[i + n..], [], code);
      if attr.None? then None else Some((s[i..i + n], attr.value))
  }

  // ---------- Namespaces ----------

  /** What the outermost table of the chain inherits from: nothing, or the table that strings inherit from. */
  datatype Bottom = Nothing | StringTable

  /** The ns variable: tables that inherit each from the one below it, or a text. A scope is pushed by making the
      current table the metatable of a new one, and popped by asking for the metatable, for which a metatable that has
      a __metatable key gives the value of that key. */
  datatype Ns = Chain(bottom: Bottom, scopes: seq<Scope>) | Text(text: string)

  const METATABLE := "__metatable"

  const NEWINDEX := "__newindex"

  predicate TopBinds(scopes: seq<Scope>, prefix: string) {
    scopes != [] && prefix in scopes[|scopes| - 1].bindings
  }

  datatype Lookup = Bound(uri: string) | Unbound | NotText

  /** The innermost binding of a prefix, or what is at the bottom. */
  function Enclosing(ns: Ns, prefix: string, library: set<string>): Lookup
    requires ns.Chain?
    decreases |ns.scopes|
  {
    if ns.scopes == [] then if ns.bottom.StringTable? && prefix in library then NotText else Unbound
    else if TopBinds(ns.scopes, prefix) then Bound(ns.scopes[|ns.scopes| - 1].bindings[prefix])
    else Enclosing(ns.(scopes := ns.scopes[..|ns.scopes| - 1]), prefix, library)
  }

  /** A prefix seen from a new scope; __index is the key by which the tables are chained. */
  function Resolve(bindings: map<string, string>, ns: Ns, prefix: string, library: set<string>): Lookup
    requires ns.Chain?
  {
    if prefix in bindings then Bound(bindings[prefix])
    else if ns.scopes != [] && prefix == "__index" then NotText
    else Enclosing(ns, prefix, library)
  }

  function ApplyNs(name: string, withDefault: bool, bindings: map<string, string>, ns: Ns, cfg: Config): Option<string>
    requires ns.Chain?
  {
    var n := Index(name, ':');
    var found := if n < |name| then Resolve(bindings, ns, name[..n], cfg.library) else Unbound;
    if found.NotText? then None
    else if found.Bound? then Some(found.uri + cfg.sep + name[n + 1..])
    else
      var default := if withDefault then Resolve(bindings, ns, "", cfg.library) else Unbound;
      if default.NotText? then None else Some(if default.Bound? then default.uri + cfg.sep + name else name)
  }

  /** The prefix an attribute binds. */
  function Declares(k: string): Option<string> {
    if k == "xmlns" then Some("") else if |k| >= 6 && k[..6] == "xmlns:" then Some(k[6..]) else None
  }

  function Bindings(attr: seq<(string, string)>, bound: map<string, string>): map<string, string> {
    if attr == [] then bound
    else
      var d := Declares(attr[0].0);
      Bindings(attr[1..], if d.Some? then bound[d.value := attr[0].1] else bound)
  }

  /** The remaining attributes under their full names: the names in order, and the values. */
  function Qualified(attr: seq<(string, string)>, bindings: map<string, string>, ns: Ns, cfg: Config,
                     names: seq<string>, values: map<string, string>): Option<(seq<string>, map<string, string>)>
    requires ns.Chain?
    decreases |attr|
  {
    if attr == [] then Some((names, values))
    else if Declares(attr[0].0).Some? then Qualified(attr[1..], bindings, ns, cfg, names, values)
    else
      var k := ApplyNs(attr[0].0, false, bindings, ns, cfg);
      if k.None? then None
      else Qualified(attr[1..], bindings, ns, cfg, names + [k.value], values[k.value := attr[0].1])
  }

  /** Where no scope can be pushed: a text is no metatable, and nothing can be stored in a new table whose metatable has
      a __newindex key that is a text. */
  predicate Blocked(ns: Ns) {
    ns.Text? || TopBinds(ns.scopes, NEWINDEX)
  }

  /** A start tag: one scope more, and the event. */
  function Push(elem: string, ns: Ns, cfg: Config): (r: Option<(Scope, Event)>)
    ensures r.Some? ==> ns.Chain? && r.value.1.StartElement? && r.value.0.tag == Some(r.value.1.name)
  {
    var parsed := ParseTag(elem, cfg.code);
    if parsed.None? || Blocked(ns) then None
    else
      var (tag, attr) := parsed.value;
      var bindings := Bindings(attr, map[]);
      var q := Qualified(attr, bindings, ns, cfg, [], map[]);
      var name := ApplyNs(tag, true, bindings, ns, cfg);
      if q.None? || name.None? then None
      else Some((Scope(bindings, name), StartElement(name.value, q.value.0, q.value.1)))
  }

  /** What getmetatable gives for a table on top of these scopes. */
  function Under(bottom: Bottom, scopes: seq<Scope>): Ns {
    if TopBinds(scopes, METATABLE) then Text(scopes[|scopes| - 1].bindings[METATABLE]) else Chain(bottom, scopes)
  }

  /** The tag at the top and what is below it. A text has no tag, and the table that strings inherit from below it. */
  function Pop(ns: Ns): Option<(Option<string>, Ns)> {
    match ns
    case Text(_) => Some((None, Chain(StringTable, [])))
    case Chain(bottom, scopes) =>
      if scopes != [] then Some((scopes[|scopes| - 1].tag, Under(bottom, scopes[..|scopes| - 1])))
      else if bottom.StringTable? then Some((None, Chain(Nothing, [])))
      else None
  }

  // ---------- Tokens ----------

  datatype Token = Wait | Tag(elem: string, rest: string) | Chars(text: string, rest: string)

  /** What stands at the front of the data, if all of it is there. */
  function Next(data: string): (t: Token)
    ensures !t.Wait? ==> |t.rest| < |data|
  {
    if data == [] then Wait
    else
      var pos := Index(data, if data[0] == '<' then '>' else '<');
      if pos == |data| then Wait
      else if data[0] == '<' then Tag(data[1..pos], data[pos + 1..])
      else Chars(data[..pos], data[pos..])
  }

  /** Comments and processing instructions, end tags, empty tags and start tags. */
  datatype Kind = Neglected | End | Empty(tag: string) | Start(tag: string)

  function KindOf(elem: string): Kind {
    if elem != [] && (elem[0] == '!' || elem[0] == '?') then Neglected
    else if elem != [] && elem[0] == '/' then End
    else if elem != [] && elem[|elem| - 1] == '/' then Empty(elem[..|elem| - 1])
    else Start(elem)
  }

  /** What one token does: the new scopes and the events, or an error. */
  function Act(t: Token, ns: Ns, cfg: Config): Option<(Ns, seq<Event>)>
    requires !t.Wait?
  {
    if t.Chars? then
      var text := Unescape(t.text, cfg.code);
      if text.None? then None else Some((ns, [CharacterData(text.value)]))
    else
      match KindOf(t.elem)
      case Neglected => Some((ns, []))
      case End =>
        var p := Pop(ns);
        if p.None? then None else Some((p.value.1, [EndElement(p.value.0)]))
      case Empty(tag) =>
        var p := Push(tag, ns, cfg);
        if p.None? then None
        else Some((Under(ns.bottom, ns.scopes), [p.value.1, EndElement(Some(p.value.1.name))]))
      case Start(tag) =>
        var p := Push(tag, ns, cfg);
        if p.None? then None else Some((ns.(scopes := ns.scopes + [p.value.0]), [p.value.1]))
  }

  /** What the tokenizer holds between two chunks. */
  datatype State = State(data: string, ns: Ns, alive: bool)

  const START: State := State("", Chain(Nothing, [ROOT]), true)

  const DEAD: State := State("", Chain(Nothing, []), false)

  /** Every whole token is taken, up to the first error. */
  function Drain(st: State, cfg: Config): (State, seq<Event>)
    decreases |st.data|
  {
    var t := Next(st.data);
    if !st.alive || t.Wait? then (st, [])
    else
      var r := Act(t, st.ns, cfg);
      if r.None? then (DEAD, [])
      else
        var (st', events) := Drain(State(t.rest, r.value.0, true), cfg);
        (st', r.value.1 + events)
  }

  /** One more chunk; a dead tokenizer stays dead. */
  function Feed(st: State, chunk: string, cfg: Config): (State, seq<Event>) {
    if st.alive then Drain(st.(data := st.data + chunk), cfg) else (st, [])
  }

  function FeedAll(st: State, chunks: seq<string>, cfg: Config): (State, seq<Event>)
    decreases |chunks|
  {
    if chunks == [] then (st, [])
    else
      var (st1, e1) := Feed(st, chunks[0], cfg);
      var (st2, e2) := FeedAll(st1, chunks[1..], cfg);
      (st2, e1 + e2)
  }

  // ---------- Chunk independence ----------

  lemma {:induction false} IndexOfLonger(s: string, more: string, c: char)
    requires Index(s, c) < |s|
    ensures Index(s + more, c) == Index(s, c)
  {
    if s[0] != c {
      assert (s + more)[1..] == s[1..] + more;
      IndexOfLonger(s[1..], more, c);
    }
  }

  /** A token that is there stays the same when more data follows. */
  lemma NextOfLonger(data: string, more: string)
    requires !Next(data).Wait?
    ensures Next(data + more) == Next(data).(rest := Next(data).rest + more)
  {
    var c := if data[0] == '<' then '>' else '<';
    IndexOfLonger(data, more, c);
    var pos := Index(data, c);
    assert (data + more)[pos + 1..] == data[pos + 1..] + more && (data + more)[pos..] == data[pos..] + more;
    assert (data + more)[1..][..pos - 1] == data[1..pos] || pos == 0;
    assert (data + more)[..pos] == data[..pos];
    assert pos > 0 ==> (data + more)[1..pos] == data[1..pos];
  }

  /** What is left to wait for is not a token. */
  lemma {:induction false} DrainWaits(st: State, cfg: Config)
    ensures var st' := Drain(st, cfg).0; st'.alive ==> Next(st'.data).Wait?
    decreases |st.data|
  {
    var t := Next(st.data);
    if st.alive && !t.Wait? {
      var r := Act(t, st.ns, cfg);
      if r.Some? {
        DrainWaits(State(t.rest, r.value.0, true), cfg);
      }
    }
  }

  /** Draining and then feeding more is draining it all at once. */
  lemma {:induction false} DrainThenFeed(st: State, more: string, cfg: Config)
    requires st.alive
    ensures var (st1, e1) := Drain(st, cfg);
            var (st2, e2) := Feed(st1, more, cfg);
            Feed(st, more, cfg) == (st2, e1 + e2)
    decreases |st.data|
  {
    hide Act, Next, Drain;
    DrainOnce(st.data, st.ns, cfg);
    DrainOnce(st.data + more, st.ns, cfg);
    var t := Next(st.data);
    var (st1, e1) := Drain(st, cfg);
    var (st2, e2) := Feed(st1, more, cfg);
    assert st == State(st.data, st.ns, true);
    if t.Wait? {
      assert [] + e2 == e2;
    } else {
      NextOfLonger(st.data, more);
      ActIgnoresRest(t, t.rest + more, st.ns, cfg);
      var r := Act(t, st.ns, cfg);
      if r.Some? {
        var next := State(t.rest, r.value.0, true);
        DrainThenFeed(next, more, cfg);
        var e := Drain(next, cfg).1;
        assert r.value.1 + (e + e2) == r.value.1 + e + e2;
        assert Feed(st, more, cfg) == (st2, r.value.1 + (e + e2));
      } else {
        assert e1 + e2 == [];
      }
    }
  }

  lemma DrainOnce(data: string, ns: Ns, cfg: Config)
    ensures var t := Next(data);
            Drain(State(data, ns, true), cfg)
            == if t.Wait? then (State(data, ns, true), [])
               else if Act(t, ns, cfg).None? then (DEAD, [])
               else
                 var (ns', e1) := Act(t, ns, cfg).value;
                 var (st', e2) := Drain(State(t.rest, ns', true), cfg);
                 (st', e1 + e2)
  {
  }

  lemma ActIgnoresRest(t: Token, rest: string, ns: Ns, cfg: Config)
    requires !t.Wait?
    ensures Act(t.(rest := rest), ns, cfg) == Act(t, ns, cfg)
  {
  }

  /** However the input is cut, the events and the state are those of the uncut input. */
  lemma {:induction false} ChunkIndependence(st: State, chunks: seq<string>, cfg: Config)
    requires st.alive ==> Next(st.data).Wait?
    ensures FeedAll(st, chunks, cfg) == Feed(st, Concat(chunks), cfg)
    decreases |chunks|
  {
    hide Act, Next;
    if chunks == [] {
      assert st.data + [] == st.data;
    } else if st.alive {
      var c, rest := chunks[0], chunks[1..];
      var all := st.(data := st.data + c);
      var (st1, e1) := Drain(all, cfg);
      DrainWaits(all, cfg);
      ChunkIndependence(st1, rest, cfg);
      DrainThenFeed(all, Concat(rest), cfg);
      assert st.data + (c + Concat(rest)) == st.data + c + Concat(rest);
    } else {
      ChunkIndependence(st, chunks[1..], cfg);
      assert [] + FeedAll(st, chunks[1..], cfg).1 == [];
    }
  }

  // ---------- The tokenizer ----------

  /** Where the coroutine waits for its next chunk. */
  datatype Pause = AtPeek | InTag | InText | Finished

  class Tokenizer {
    const cfg: Config
    var data: string
    var ns: Ns
    var pause: Pause
    /** The calls of the handlers so far. */
    var calls: seq<Event>

    /** A tag waits for its end, a text for the next tag, and nothing else is kept. */
    ghost predicate Valid()
      reads this
    {
      match pause
      case AtPeek => data == ""
      case InTag => data != "" && data[0] == '<' && Index(data, '>') == |data|
      case InText => data != "" && data[0] != '<' && Index(data, '<') == |data|
      case Finished => State(data, ns, false) == DEAD
    }

    ghost function Abstract(): State
      reads this
    {
      State(data, ns, !pause.Finished?)
    }

    constructor (cfg: Config)
      ensures Valid() && Abstract() == START && calls == [] && this.cfg == cfg
    {
      this.cfg := cfg;
      data, ns, pause, calls := "", START.ns, AtPeek, [];
    }

    /** No chunk is the end of input, after which everything is an error. */
    method Parse(chunk: Option<string>) returns (ok: bool)
      requires Valid()
      modifies this
      ensures Valid()
      ensures chunk.None? ==> ok && Abstract() == DEAD && calls == old(calls)
      ensures chunk.Some? ==>
                var (st, events) := Feed(old(Abstract()), chunk.value, cfg);
                Abstract() == st && calls == old(calls) + events && ok == st.alive
    {
      if chunk.None? {
        Stop();
        return true;
      }
      if pause.Finished? {
        assert calls == calls + [];
        return false;
      }
      data := if pause.AtPeek? then chunk.value else data + chunk.value;
      assert "" + chunk.value == chunk.value;
      Run();
      ok := !pause.Finished?;
    }

    method Stop()
      modifies `data, `ns, `pause
      ensures Abstract() == DEAD && Valid()
    {
      data, ns, pause := "", DEAD.ns, Finished;
    }

    /** Token after token until one is not all there. */
    method Run()
      requires !pause.Finished?
      modifies this
      ensures Valid()
      ensures var (st, events) := Drain(old(State(data, ns, true)), cfg);
              Abstract() == st && calls == old(calls) + events
    {
      hide Drain, Next, Act;
      ghost var (st, events) := Drain(State(data, ns, true), cfg);
      assert calls + events == old(calls) + events;
      while true
        invariant !pause.Finished?
        invariant Drain(State(data, ns, true), cfg).0 == st
        invariant calls + Drain(State(data, ns, true), cfg).1 == old(calls) + events
        decreases |data|
      {
        DrainOnce(data, ns, cfg);
        ghost var before := calls;
        if data == "" {
          NothingYet();
          pause := AtPeek;
          assert calls + [] == calls;
          return;
        }
        var pos := Index(data, if data[0] == '<' then '>' else '<');
        NextIs(data, pos);
        if pos == |data| {
          pause := if data[0] == '<' then InTag else InText;
          assert calls + [] == calls;
          return;
        }
        ghost var token := Next(data);
        ghost var e := Drained(token, ns, cfg);
        var ok;
        if data[0] == '<' {
          var elem := data[1..pos];
          data := data[pos + 1..];
          ok := HandleTag(elem, token.rest);
        } else {
          var text := data[..pos];
          data := data[pos..];
          ok := HandleText(text, token.rest);
        }
        if !ok {
          assert calls + [] == calls;
          Stop();
          return;
        }
        assert before + (e + Drain(State(data, ns, true), cfg).1)
            == calls + Drain(State(data, ns, true), cfg).1;
      }
    }

    /** One tag; false is an error. */
    method HandleTag(elem: string, ghost rest: string) returns (ok: bool)
      modifies `ns, `calls
      ensures Handled(Act(Tag(elem, rest), old(ns), cfg), ok, ns, old(calls), calls)
    {
      hide Push;
      if elem != "" && (elem[0] == '!' || elem[0] == '?') {
        ok := true;
        assert calls + [] == calls;
      } else if elem != "" && elem[0] == '/' {
        var popped, tag := PopScope();
        if !popped {
          return false;
        }
        calls := calls + [EndElement(tag)];
        ok := true;
      } else if elem != "" && elem[|elem| - 1] == '/' {
        var e := PushTag(elem[..|elem| - 1]);
        if e.None? {
          return false;
        }
        calls := calls + [e.value];
        var scopes := ns.scopes;
        var popped, tag := PopScope();
        assert scopes[..|scopes| - 1] == old(ns).scopes;
        calls := calls + [EndElement(tag)];
        ok := true;
      } else {
        var e := PushTag(elem);
        if e.None? {
          return false;
        }
        calls := calls + [e.value];
        ok := true;
      }
    }

    /** The tag at the top, and the metatable of the top for it; false is an error. */
    method PopScope() returns (ok: bool, tag: Option<string>)
      modifies `ns
      ensures ok == Pop(old(ns)).Some?
      ensures if ok then (tag, ns) == Pop(old(ns)).value else ns == old(ns)
    {
      ok, tag := true, None;
      if ns.Text? {
        ns := Chain(StringTable, []);
      } else if ns.scopes != [] {
        var below := ns.scopes[..|ns.scopes| - 1];
        tag := ns.scopes[|ns.scopes| - 1].tag;
        ns := if below != [] && METATABLE in below[|below| - 1].bindings
              then Text(below[|below| - 1].bindings[METATABLE])
              else Chain(ns.bottom, below);
      } else if ns.bottom.StringTable? {
        ns := Chain(Nothing, []);
      } else {
        ok := false;
      }
    }

    method HandleText(text: string, ghost rest: string) returns (ok: bool)
      modifies `calls
      ensures Handled(Act(Chars(text, rest), old(ns), cfg), ok, ns, old(calls), calls)
    {
      var t := Unescape(text, cfg.code);
      if t.None? {
        return false;
      }
      calls := calls + [CharacterData(t.value)];
      ok := true;
    }

    /** The scope of a start tag, or nothing on an error. */
    method PushTag(elem: string) returns (e: Option<Event>)
      modifies `ns
      ensures var r := Push(elem, old(ns), cfg);
              if r.None? then e.None? && ns == old(ns)
              else e == Some(r.value.1) && ns == old(ns).(scopes := old(ns).scopes + [r.value.0])
    {
      hide ParseTag, ApplyNs;
      var parsed := ParseTag(elem, cfg.code);
      if parsed.None? || Blocked(ns) {
        return None;
      }
      var (tag, attr) := parsed.value;
      var bindings: map<string, string> := map[];
      var i := 0;
      assert attr[0..] == attr;
      while i < |attr|
        invariant 0 <= i <= |attr| && Bindings(attr[i..], bindings) == Bindings(attr, map[])
      {
        var d := Declares(attr[i].0);
        if d.Some? {
          bindings := bindings[d.value := attr[i].1];
        }
        assert attr[i..][1..] == attr[i + 1..];
        i := i + 1;
      }
      var names: seq<string>, values: map<string, string> := [], map[];
      i := 0;
      while i < |attr|
        invariant 0 <= i <= |attr|
        invariant Qualified(attr[i..], bindings, ns, cfg, names, values)
                  == Qualified(attr, bindings, ns, cfg, [], map[])
      {
        assert attr[i..][1..] == attr[i + 1..];
        if Declares(attr[i].0).None? {
          var k := ApplyNs(attr[i].0, false, bindings, ns, cfg);
          if k.None? {
            return None;
          }
          names, values := names + [k.value], values[k.value := attr[i].1];
        }
        i := i + 1;
      }
      var name := ApplyNs(tag, true, bindings, ns, cfg);
      if name.None? {
        return None;
      }
      e := Some(StartElement(name.value, names, values));
      ns := ns.(scopes := ns.scopes + [Scope(bindings, name)]);
    }
  }

  /** What handling a token leaves: an error, or the new chain and the calls made. */
  predicate Handled(r: Option<(Ns, seq<Event>)>, ok: bool, ns: Ns, before: seq<Event>, calls: seq<Event>) {
    ok == r.Some? && calls == before + (if ok then r.value.1 else []) && (ok ==> ns == r.value.0)
  }

  function Drained(t: Token, ns: Ns, cfg: Config): seq<Event> {
    if t.Wait? || Act(t, ns, cfg).None? then [] else Act(t, ns, cfg).value.1
  }

  lemma NothingYet()
    ensures Next("").Wait?
  {
  }

  lemma NextIs(data: string, pos: nat)
    requires data != "" && pos == Index(data, if data[0] == '<' then '>' else '<')
    ensures Next(data) == if pos == |data| then Wait
                          else if data[0] == '<' then Tag(data[1..pos], data[pos + 1..])
                          else Chars(data[..pos], data[pos..])
  {
  }
}
