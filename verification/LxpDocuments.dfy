/** Documents as the server's own serializer writes them, and what fallbacks/lxp.lua reads in them: the tokenizer and
    the stack of its namespaces refine the meaning that namespaces have on the tree. */
module LxpDocuments {
  import opened Collections
  import opened Lxp
  import opened LxpLaws
  import opened LxpNames

  // ---------- Documents ----------

  datatype Name = Plain(local: string) | Prefixed(prefix: string, local: string)

  /** An attribute, or the declaration of a namespace; the empty prefix is the default. */
  datatype Attribute = Attribute(name: Name, value: string) | Declaration(prefix: string, uri: string)

  datatype Node = Element(name: Name, attributes: seq<Attribute>, children: seq<Node>) | Chars(text: string)

  function Raw(name: Name): string {
    match name
    case Plain(local) => local
    case Prefixed(prefix, local) => prefix + ":" + local
  }

  function Key(a: Attribute): string {
    match a
    case Attribute(name, _) => Raw(name)
    case Declaration(prefix, _) => if prefix == "" then "xmlns" else "xmlns:" + prefix
  }

  function ValueOf(a: Attribute): string {
    match a
    case Attribute(_, value) => value
    case Declaration(_, uri) => uri
  }

  // ---------- What the serializer writes ----------

  function WriteAttributes(attributes: seq<Attribute>): string {
    if attributes == [] then ""
    else " " + Key(attributes[0]) + "='" + Escape(ValueOf(attributes[0])) + "'" + WriteAttributes(attributes[1..])
  }

  function WriteTag(name: Name, attributes: seq<Attribute>): string {
    Raw(name) + WriteAttributes(attributes)
  }

  function Write(node: Node): string {
    match node
    case Chars(text) => Escape(text)
    case Element(name, attributes, children) =>
      if children == [] then "<" + (WriteTag(name, attributes) + "/") + ">"
      else "<" + WriteTag(name, attributes) + ">" + (WriteAll(children) + ("<" + ("/" + Raw(name)) + ">"))
  }

  function WriteAll(nodes: seq<Node>): string {
    if nodes == [] then "" else Write(nodes[0]) + WriteAll(nodes[1..])
  }

  // ---------- What a document means ----------

  /** The namespaces in force, by prefix. */
  type Env = map<string, string>

  function Inside(env: Env, attributes: seq<Attribute>): Env
    decreases |attributes|
  {
    if attributes == [] then env
    else if attributes[0].Declaration? then
      Inside(env[attributes[0].prefix := attributes[0].uri], attributes[1..])
    else Inside(env, attributes[1..])
  }

  /** The name with its namespace; the default namespace is for elements. A prefix that is not declared is a part of the
      name. */
  function FullName(name: Name, env: Env, isElement: bool, sep: string): string {
    if name.Prefixed? && name.prefix in env then env[name.prefix] + sep + name.local
    else if isElement && "" in env then env[""] + sep + Raw(name)
    else Raw(name)
  }

  function FullNames(attributes: seq<Attribute>, env: Env, sep: string): seq<string> {
    if attributes == [] then []
    else if attributes[0].Declaration? then FullNames(attributes[1..], env, sep)
    else [FullName(attributes[0].name, env, false, sep)] + FullNames(attributes[1..], env, sep)
  }

  function FullValues(attributes: seq<Attribute>, env: Env, sep: string, before: map<string, string>)
    : map<string, string>
  {
    if attributes == [] then before
    else if attributes[0].Declaration? then FullValues(attributes[1..], env, sep, before)
    else
      FullValues(attributes[1..], env, sep,
                 before[FullName(attributes[0].name, env, false, sep) := attributes[0].value])
  }

  /** The calls for a document: names with their namespaces, values and texts as they were before they were escaped, and
      declarations only where they matter. */
  function Meaning(node: Node, env: Env, sep: string): seq<Event> {
    match node
    case Chars(text) => [CharacterData(text)]
    case Element(name, attributes, children) =>
      var inner := Inside(env, attributes);
      var full := FullName(name, inner, true, sep);
      [StartElement(full, FullNames(attributes, inner, sep), FullValues(attributes, inner, sep, map[]))]
      + MeaningOfAll(children, inner, sep) + [EndElement(Some(full))]
  }

  function MeaningOfAll(nodes: seq<Node>, env: Env, sep: string): seq<Event> {
    if nodes == [] then [] else Meaning(nodes[0], env, sep) + MeaningOfAll(nodes[1..], env, sep)
  }

  // ---------- Which documents ----------

  /** Characters of names; XML has none of the others in names either. */
  predicate NameChar(c: char) {
    c > ' ' && c !in "=<>/'\"&:!?"
  }

  predicate NameText(s: string) {
    s != "" && forall i :: 0 <= i < |s| ==> NameChar(s[i])
  }

  predicate GoodName(name: Name) {
    NameText(name.local) && (name.Prefixed? ==> NameText(name.prefix) && name.prefix != "__index")
  }

  /** Names that declare nothing, and prefixes that the tokenizer does not trip over. */
  predicate GoodAttribute(a: Attribute) {
    match a
    case Attribute(name, _) =>
      GoodName(name) && name != Plain("xmlns") && (name.Prefixed? ==> name.prefix != "xmlns")
    case Declaration(prefix, _) =>
      (prefix == "" || NameText(prefix)) && prefix !in {METATABLE, NEWINDEX, "__index"}
  }

  predicate DistinctKeys(attributes: seq<Attribute>) {
    forall i, j :: 0 <= i < j < |attributes| ==> Key(attributes[i]) != Key(attributes[j])
  }

  /** Texts are not empty and do not touch. */
  predicate Good(node: Node) {
    match node
    case Chars(text) => text != ""
    case Element(name, attributes, children) =>
      && GoodName(name) && DistinctKeys(attributes)
      && (forall i :: 0 <= i < |attributes| ==> GoodAttribute(attributes[i]))
      && GoodAll(children)
  }

  predicate GoodAll(nodes: seq<Node>) {
    nodes == [] ||
    (Good(nodes[0]) && GoodAll(nodes[1..]) && (nodes[0].Chars? && |nodes| > 1 ==> nodes[1].Element?))
  }

  // ---------- A tag is read as it was written ----------

  function Pairs(attributes: seq<Attribute>): (r: seq<(string, string)>)
    ensures |r| == |attributes|
    ensures forall i :: 0 <= i < |attributes| ==> r[i] == (Key(attributes[i]), ValueOf(attributes[i]))
  {
    seq(|attributes|, i requires 0 <= i < |attributes| => (Key(attributes[i]), ValueOf(attributes[i])))
  }

  predicate RawChar(c: char) {
    NameChar(c) || c == ':'
  }

  lemma KeyIsText(a: Attribute)
    requires GoodAttribute(a)
    ensures Key(a) != "" && forall i :: 0 <= i < |Key(a)| ==> RawChar(Key(a)[i])
  {
    assert forall c :: c in "xmlns:" ==> RawChar(c);
    assert forall i :: 0 <= i < 5 ==> RawChar("xmlns"[i]);
  }

  lemma RawIsText(name: Name)
    requires GoodName(name)
    ensures Raw(name) != "" && forall i :: 0 <= i < |Raw(name)| ==> RawChar(Raw(name)[i])
  {
  }

  lemma {:induction false} SetNewKey(attr: seq<(string, string)>, k: string, v: string)
    requires forall i :: 0 <= i < |attr| ==> attr[i].0 != k
    ensures SetKey(attr, k, v) == attr + [(k, v)]
  {
    if attr != [] {
      SetNewKey(attr[1..], k, v);
      assert attr == [attr[0]] + attr[1..];
    }
  }

  /** Of an attribute that is written twice the later value counts, at the place of the first. */
  lemma {:induction false} LastValueCounts(attr: seq<(string, string)>, k: string, v: string, i: nat)
    requires i < |attr| && attr[i].0 == k && forall j :: 0 <= j < i ==> attr[j].0 != k
    ensures SetKey(attr, k, v) == attr[i := (k, v)]
  {
    if i > 0 {
      LastValueCounts(attr[1..], k, v, i - 1);
    }
  }

  lemma QuotedParts(k: string, v: string, more: string)
    ensures var s := k + "='" + v + "'" + more;
            && |s| > |k| + |v| + 2 && s[..|k|] == k && s[|k|] == '=' && s[|k| + 1] == '\''
            && s[|k| + 2..|k| + 2 + |v|] == v && s[|k| + 2 + |v|] == '\'' && s[|k| + 3 + |v|..] == more
  {
  }

  /** One attribute off the front, behind whitespace. */
  lemma ReadAttribute(space: char, k: string, v: string, more: string, attr: seq<(string, string)>, code: CharCode)
    requires space in " \t\n\r" && k != "" && forall i :: 0 <= i < |k| ==> RawChar(k[i])
    ensures Attributes([space] + k + "='" + Escape(v) + "'" + more, attr, code)
            == Attributes(more, SetKey(attr, k, v), code)
  {
    hide Attributes, Escape, Span, SetKey, Unescape, FrontAttribute;
    var e := Escape(v);
    var s := k + "='" + e + "'" + more;
    var s1 := [space] + k + "='" + e + "'" + more;
    assert s1[1..] == s && s1[0] == space;
    SpanIs(s1, IsNameChar, 0);
    SkipChar(s1, attr, code);
    QuotedParts(k, e, more);
    SpanIs(s, IsNameChar, |k|);
    EscapedIsSafe(v);
    assert forall i :: 0 <= i < |e| ==> s[|k| + 2..][i] == e[i];
    SpanIs(s[|k| + 2..], IsValueChar, |e|);
    AtFront(s, |k|, |e|);
    UnescapeEscape(v, code);
    TakeAttribute(s, attr, |k|, |e|, v, code);
  }

  /** Either quote opens a value, and either one closes it. */
  lemma EitherQuote(k: string, v: string, open: char, close: char, more: string)
    requires k != "" && forall i :: 0 <= i < |k| ==> RawChar(k[i])
    requires open in "'\"" && close in "'\"" && '\'' !in v && '"' !in v
    ensures FrontAttribute(k + ("=" + [open]) + v + [close] + more) == Some((|k|, |v|))
  {
    hide Span, FrontAttribute;
    var s := k + ("=" + [open]) + v + [close] + more;
    var t := s[|k| + 2..];
    assert t == v + [close] + more;
    SpanIs(s, IsNameChar, |k|);
    SpanIs(t, IsValueChar, |v|);
    AtFront(s, |k|, |v|);
  }

  lemma {:induction false} ReadAttributes(attributes: seq<Attribute>, done: seq<Attribute>, code: CharCode)
    requires forall i :: 0 <= i < |attributes| ==> GoodAttribute(attributes[i])
    requires DistinctKeys(done + attributes)
    ensures Attributes(WriteAttributes(attributes), Pairs(done), code) == Some(Pairs(done + attributes))
    decreases |attributes|
  {
    if attributes == [] {
      assert done + attributes == done;
    } else {
      var a, rest := attributes[0], attributes[1..];
      KeyIsText(a);
      assert forall i :: 0 <= i < |done| ==> (done + attributes)[i] == done[i];
      assert (done + attributes)[|done|] == a;
      assert done + attributes == (done + [a]) + rest;
      hide Attributes, SetKey, Escape, GoodAttribute;
      ReadAttribute(' ', Key(a), ValueOf(a), WriteAttributes(rest), Pairs(done), code);
      SetNewKey(Pairs(done), Key(a), ValueOf(a));
      assert Pairs(done) + [(Key(a), ValueOf(a))] == Pairs(done + [a]);
      ReadAttributes(rest, done + [a], code);
    }
  }

  /** Whitespace may stand before the name of a tag, and ends it. */
  lemma SpaceAroundName(before: char, name: string, after: char, more: string, code: CharCode)
    requires before in " \t\n\r" && after in " \t\n\r" && name != "" && forall i :: 0 <= i < |name| ==> RawChar(name[i])
    ensures var attr := Attributes([after] + more, [], code);
            ParseTag([before] + name + [after] + more, code) == if attr.Some? then Some((name, attr.value)) else None
  {
    hide Attributes;
    var s, n := [before] + name + [after] + more, |name|;
    SpanIs(s, IsSpace, 1);
    SpanIs(s[1..], IsWordChar, n);
    assert s[1..1 + n] == name && s[1 + n..] == [after] + more;
  }

  lemma ReadTag(name: Name, attributes: seq<Attribute>, code: CharCode)
    requires GoodName(name) && DistinctKeys(attributes)
    requires forall i :: 0 <= i < |attributes| ==> GoodAttribute(attributes[i])
    ensures ParseTag(WriteTag(name, attributes), code) == Some((Raw(name), Pairs(attributes)))
  {
    var s, n := WriteTag(name, attributes), |Raw(name)|;
    RawIsText(name);
    assert s[0..] == s && s[0..0 + n] == Raw(name) && s[0 + n..] == WriteAttributes(attributes);
    assert attributes != [] ==> WriteAttributes(attributes)[0] == ' ';
    hide Attributes, Escape, GoodAttribute, GoodName, Raw;
    assert forall i :: 0 <= i < n ==> s[i] == Raw(name)[i];
    SpanIs(s, IsSpace, 0);
    SpanIs(s, IsWordChar, n);
    assert [] + attributes == attributes && Pairs([]) == [];
    ReadAttributes(attributes, [], code);
  }

  // ---------- A tag means what it says ----------

  /** The namespaces that a stack of scopes holds, inner ones over outer ones. */
  function EnvOf(scopes: seq<Scope>): Env {
    if scopes == [] then map[] else EnvOf(scopes[..|scopes| - 1]) + scopes[|scopes| - 1].bindings
  }

  /** The tokenizer does not trip over the scopes. */
  predicate Sound(ns: Ns) {
    && ns.Chain? && ns.bottom.Nothing?
    && forall i, p :: 0 <= i < |ns.scopes| && p in ns.scopes[i].bindings ==> p !in {METATABLE, NEWINDEX, "__index"}
  }

  lemma {:induction false} EnclosingIsEnv(ns: Ns, prefix: string, library: set<string>)
    requires ns.Chain? && ns.bottom.Nothing?
    ensures var env := EnvOf(ns.scopes);
            Enclosing(ns, prefix, library) == if prefix in env then Bound(env[prefix]) else Unbound
    decreases |ns.scopes|
  {
    if ns.scopes != [] {
      EnclosingIsEnv(ns.(scopes := ns.scopes[..|ns.scopes| - 1]), prefix, library);
    }
  }

  lemma ResolveIsEnv(bindings: map<string, string>, ns: Ns, prefix: string, library: set<string>)
    requires ns.Chain? && ns.bottom.Nothing? && prefix != "__index"
    ensures var inner := EnvOf(ns.scopes) + bindings;
            Resolve(bindings, ns, prefix, library) == if prefix in inner then Bound(inner[prefix]) else Unbound
  {
    EnclosingIsEnv(ns, prefix, library);
    hide EnvOf, Enclosing;
  }

  lemma NameMeans(name: Name, isElement: bool, bindings: map<string, string>, ns: Ns, cfg: Config)
    requires GoodName(name) && ns.Chain? && ns.bottom.Nothing?
    ensures ApplyNs(Raw(name), isElement, bindings, ns, cfg)
            == Some(FullName(name, EnvOf(ns.scopes) + bindings, isElement, cfg.sep))
  {
    ResolveIsEnv(bindings, ns, "", cfg.library);
    match name
    case Plain(local) =>
      assert ':' !in local;
      hide ApplyNs, Resolve, EnvOf;
      PlainName(local, bindings, ns, cfg);
    case Prefixed(prefix, local) =>
      assert ':' !in prefix;
      ResolveIsEnv(bindings, ns, prefix, cfg.library);
      hide ApplyNs, Resolve, EnvOf;
      var inner := EnvOf(ns.scopes) + bindings;
      if prefix in inner {
        PrefixedName(prefix, local, inner[prefix], isElement, bindings, ns, cfg);
      } else {
        UnboundName(prefix, local, isElement, bindings, ns, cfg);
      }
  }

  lemma KeyDeclares(a: Attribute)
    requires GoodAttribute(a)
    ensures Declares(Key(a)) == if a.Declaration? then Some(a.prefix) else None
  {
    match a
    case Declaration(prefix, _) =>
      assert ("xmlns:" + prefix)[..6] == "xmlns:" && ("xmlns:" + prefix)[6..] == prefix;
    case Attribute(name, _) =>
      if name.Prefixed? {
        PrefixIsNotXmlns(name.prefix, name.local);
      } else {
        PlainIsNotXmlns(name.local);
      }
  }

  lemma XmlnsColon(k: string)
    requires |k| >= 6 && k[..6] == "xmlns:"
    ensures Index(k, ':') == 5 && k[..5] == "xmlns"
  {
    assert k[..5] == k[..6][..5] == "xmlns" && k[5] == k[..6][5];
    assert ':' !in "xmlns";
    IndexIs(k, ':', 5);
  }

  lemma PrefixIsNotXmlns(prefix: string, local: string)
    requires prefix != "xmlns" && NameText(prefix)
    ensures var k := prefix + ":" + local; k != "xmlns" && (|k| >= 6 ==> k[..6] != "xmlns:")
  {
    var k := prefix + ":" + local;
    assert k[..|prefix|] == prefix && k[|prefix|] == ':';
    assert ':' in k && ':' !in "xmlns";
    IndexIs(k, ':', |prefix|);
    if |k| >= 6 && k[..6] == "xmlns:" {
      XmlnsColon(k);
    }
  }

  lemma PlainIsNotXmlns(local: string)
    requires NameText(local)
    ensures |local| >= 6 ==> local[..6] != "xmlns:"
  {
    if |local| >= 6 {
      var front := local[..6];
      assert front[5] == local[5] && "xmlns:"[5] == ':';
    }
  }

  lemma {:induction false} BindingsMean(attributes: seq<Attribute>, env: Env, bound: map<string, string>)
    requires forall i :: 0 <= i < |attributes| ==> GoodAttribute(attributes[i])
    ensures env + Bindings(Pairs(attributes), bound) == Inside(env + bound, attributes)
    ensures (forall p :: p in bound ==> p !in {METATABLE, NEWINDEX, "__index"}) ==>
              forall p :: p in Bindings(Pairs(attributes), bound) ==> p !in {METATABLE, NEWINDEX, "__index"}
    decreases |attributes|
  {
    if attributes != [] {
      var a, rest := attributes[0], attributes[1..];
      KeyDeclares(a);
      assert Pairs(attributes)[1..] == Pairs(rest);
      if a.Declaration? {
        BindingsMean(rest, env, bound[a.prefix := a.uri]);
        assert (env + bound)[a.prefix := a.uri] == env + bound[a.prefix := a.uri];
      } else {
        BindingsMean(rest, env, bound);
      }
    }
  }

  lemma {:induction false} AttributesMean(attributes: seq<Attribute>, bindings: map<string, string>, ns: Ns,
                                          cfg: Config, names: seq<string>, values: map<string, string>)
    requires ns.Chain? && ns.bottom.Nothing? && forall i :: 0 <= i < |attributes| ==> GoodAttribute(attributes[i])
    ensures var inner := EnvOf(ns.scopes) + bindings;
            Qualified(Pairs(attributes), bindings, ns, cfg, names, values)
            == Some((names + FullNames(attributes, inner, cfg.sep), FullValues(attributes, inner, cfg.sep, values)))
    decreases |attributes|
  {
    if attributes == [] {
      assert names + [] == names;
    } else {
      var a, rest := attributes[0], attributes[1..];
      KeyDeclares(a);
      assert Pairs(attributes)[1..] == Pairs(rest);
      if a.Attribute? {
        NameMeans(a.name, false, bindings, ns, cfg);
      }
      hide ApplyNs, EnvOf, Declares, GoodAttribute, FullName, Key;
      var inner := EnvOf(ns.scopes) + bindings;
      if a.Declaration? {
        AttributesMean(rest, bindings, ns, cfg, names, values);
      } else {
        var full := FullName(a.name, inner, false, cfg.sep);
        AttributesMean(rest, bindings, ns, cfg, names + [full], values[full := a.value]);
        assert names + [full] + FullNames(rest, inner, cfg.sep) == names + ([full] + FullNames(rest, inner, cfg.sep));
      }
    }
  }

  /** A start tag pushes the namespaces that the element declares, and calls with its full names. */
  lemma TagMeans(name: Name, attributes: seq<Attribute>, ns: Ns, cfg: Config) returns (s: Scope)
    requires Sound(ns) && GoodName(name) && DistinctKeys(attributes)
    requires forall i :: 0 <= i < |attributes| ==> GoodAttribute(attributes[i])
    ensures var inner := Inside(EnvOf(ns.scopes), attributes);
            var full := FullName(name, inner, true, cfg.sep);
            && Push(WriteTag(name, attributes), ns, cfg)
               == Some((s, StartElement(full, FullNames(attributes, inner, cfg.sep),
                                        FullValues(attributes, inner, cfg.sep, map[]))))
            && s.tag == Some(full) && EnvOf(ns.scopes + [s]) == inner && Sound(ns.(scopes := ns.scopes + [s]))
  {
    var bindings := Bindings(Pairs(attributes), map[]);
    var env := EnvOf(ns.scopes);
    ReadTag(name, attributes, cfg.code);
    BindingsMean(attributes, env, map[]);
    assert env + map[] == env;
    assert (ns.scopes + [Scope(bindings, None)])[..|ns.scopes|] == ns.scopes;
    NameMeans(name, true, bindings, ns, cfg);
    AttributesMean(attributes, bindings, ns, cfg, [], map[]);
    s := Scope(bindings, Some(FullName(name, env + bindings, true, cfg.sep)));
    assert (ns.scopes + [s])[..|ns.scopes|] == ns.scopes;
    hide ParseTag, Bindings, Qualified, ApplyNs, FullName, FullNames, FullValues, Inside, WriteTag, Pairs;
    assert [] + FullNames(attributes, env + bindings, cfg.sep) == FullNames(attributes, env + bindings, cfg.sep);
  }

  // ---------- A document is read as it is meant ----------

  lemma {:induction false} AttributesHaveNoEnd(attributes: seq<Attribute>)
    requires forall i :: 0 <= i < |attributes| ==> GoodAttribute(attributes[i])
    ensures '>' !in WriteAttributes(attributes)
    ensures attributes != [] ==>
              var s := WriteAttributes(attributes); s != "" && s[|s| - 1] == '\''
    decreases |attributes|
  {
    if attributes != [] {
      var a := attributes[0];
      KeyIsText(a);
      EscapedIsSafe(ValueOf(a));
      AttributesHaveNoEnd(attributes[1..]);
      assert '>' !in Key(a) && '>' !in Escape(ValueOf(a));
      hide Key, Escape, ValueOf, GoodAttribute;
    }
  }

  /** The text of a tag is a start tag, and with a stroke behind it an empty one. */
  lemma TagIsStart(name: Name, attributes: seq<Attribute>)
    requires GoodName(name) && forall i :: 0 <= i < |attributes| ==> GoodAttribute(attributes[i])
    ensures var t := WriteTag(name, attributes);
            && '>' !in t && '>' !in t + "/" && KindOf(t) == Start(t) && KindOf(t + "/") == Empty(t)
    ensures '>' !in "/" + Raw(name) && KindOf("/" + Raw(name)) == End
  {
    RawIsText(name);
    AttributesHaveNoEnd(attributes);
    hide Raw, WriteAttributes, GoodName, GoodAttribute;
    TagShape(Raw(name), WriteAttributes(attributes));
  }

  lemma TagShape(raw: string, rest: string)
    requires raw != "" && (forall i :: 0 <= i < |raw| ==> RawChar(raw[i]))
    requires '>' !in rest && (rest != "" ==> rest[|rest| - 1] == '\'')
    ensures var t := raw + rest;
            && '>' !in t && '>' !in t + "/" && KindOf(t) == Start(t) && KindOf(t + "/") == Empty(t)
    ensures '>' !in "/" + raw && KindOf("/" + raw) == End
  {
    var t := raw + rest;
    assert '>' !in raw && t[0] == raw[0];
    assert t[|t| - 1] == if rest == "" then raw[|raw| - 1] else rest[|rest| - 1];
    assert (t + "/")[..|t|] == t && (t + "/")[0] == t[0];
  }

  lemma TextToken(text: string, rest: string, code: CharCode)
    requires text != "" && rest != "" && rest[0] == '<'
    ensures Next(Escape(text) + rest) == Token.Chars(Escape(text), rest) && Unescape(Escape(text), code) == Some(text)
  {
    var e := Escape(text);
    EscapedIsSafe(text);
    UnescapeEscape(text, code);
    hide Escape, Unescape;
    var data := e + rest;
    assert data[..|e|] == e && data[|e|..] == rest && data[0] == e[0];
    IndexIs(data, '<', |e|);
  }

  lemma SoundStays(ns: Ns)
    requires Sound(ns)
    ensures Under(ns.bottom, ns.scopes) == ns && !Blocked(ns)
  {
  }

  lemma WriteStarts(nodes: seq<Node>, rest: string)
    requires rest != "" && rest[0] == '<' && (nodes != [] ==> nodes[0].Element?)
    ensures (WriteAll(nodes) + rest) != "" && (WriteAll(nodes) + rest)[0] == '<'
  {
    if nodes != [] {
      assert Write(nodes[0])[0] == '<';
    }
  }

  /** One start tag, and then what is inside it. */
  lemma OpenToken(name: Name, attributes: seq<Attribute>, rest: string, ns: Ns, cfg: Config) returns (s: Scope)
    requires Sound(ns) && GoodName(name) && DistinctKeys(attributes)
    requires forall i :: 0 <= i < |attributes| ==> GoodAttribute(attributes[i])
    ensures var inner, tag := Inside(EnvOf(ns.scopes), attributes), WriteTag(name, attributes);
            var full := FullName(name, inner, true, cfg.sep);
            var start := StartElement(full, FullNames(attributes, inner, cfg.sep),
                                      FullValues(attributes, inner, cfg.sep, map[]));
            && Next("<" + tag + ">" + rest) == Tag(tag, rest)
            && Act(Tag(tag, rest), ns, cfg) == Some((ns.(scopes := ns.scopes + [s]), [start]))
            && Next("<" + (tag + "/") + ">" + rest) == Tag(tag + "/", rest)
            && Act(Tag(tag + "/", rest), ns, cfg) == Some((ns, [start, EndElement(Some(full))]))
            && s.tag == Some(full) && EnvOf(ns.scopes + [s]) == inner && Sound(ns.(scopes := ns.scopes + [s]))
  {
    var tag := WriteTag(name, attributes);
    TagIsStart(name, attributes);
    SoundStays(ns);
    hide *;
    s := TagMeans(name, attributes, ns, cfg);
    NextTag(tag, rest);
    NextTag(tag + "/", rest);
    ActStart(tag, rest, ns, cfg);
    ActEmpty(tag + "/", tag, rest, ns, cfg);
  }

  lemma ActStart(tag: string, rest: string, ns: Ns, cfg: Config)
    requires ns.Chain? && KindOf(tag) == Start(tag) && Push(tag, ns, cfg).Some?
    ensures var p := Push(tag, ns, cfg).value;
            Act(Tag(tag, rest), ns, cfg) == Some((ns.(scopes := ns.scopes + [p.0]), [p.1]))
  {
    hide Push, KindOf;
  }

  lemma ActEmpty(elem: string, tag: string, rest: string, ns: Ns, cfg: Config)
    requires ns.Chain? && KindOf(elem) == Empty(tag) && Push(tag, ns, cfg).Some? && Under(ns.bottom, ns.scopes) == ns
    ensures var p := Push(tag, ns, cfg).value;
            Act(Tag(elem, rest), ns, cfg) == Some((ns, [p.1, EndElement(Some(p.1.name))]))
  {
    hide Push, KindOf, Under;
  }

  lemma CloseToken(name: Name, rest: string, ns: Ns, s: Scope, cfg: Config)
    requires GoodName(name) && Sound(ns)
    ensures Next("<" + ("/" + Raw(name)) + ">" + rest) == Tag("/" + Raw(name), rest)
    ensures Act(Tag("/" + Raw(name), rest), ns.(scopes := ns.scopes + [s]), cfg) == Some((ns, [EndElement(s.tag)]))
  {
    TagIsStart(name, []);
    NextTag("/" + Raw(name), rest);
    SoundStays(ns);
    hide Next, Raw, Under, Sound;
    assert (ns.scopes + [s])[..|ns.scopes|] == ns.scopes;
  }

  /** Comments, declarations and processing instructions are passed over. */
  lemma NeglectedIsNothing(text: string, rest: string, ns: Ns, cfg: Config)
    requires text != "" && text[0] in "!?" && '>' !in text
    ensures Drain(State("<" + text + ">" + rest, ns, true), cfg) == Drain(State(rest, ns, true), cfg)
  {
    NextTag(text, rest);
    assert Act(Tag(text, rest), ns, cfg) == Some((ns, []));
    hide Next, Drain, Act;
    var (st', events) := Drain(State(rest, ns, true), cfg);
    DrainToken("<" + text + ">" + rest, rest, ns, ns, [], st', events, cfg);
    assert [] + events == events;
  }

  /** What is read of a written node before the rest. */
  lemma {:induction false} NodeIsRead(node: Node, rest: string, ns: Ns, cfg: Config)
    requires Good(node) && Sound(ns) && (node.Chars? ==> rest != "" && rest[0] == '<')
    ensures var (st', events) := Drain(State(rest, ns, true), cfg);
            Drain(State(Write(node) + rest, ns, true), cfg)
            == (st', Meaning(node, EnvOf(ns.scopes), cfg.sep) + events)
    decreases node, 1
  {
    match node
    case Chars(text) =>
      TextToken(text, rest, cfg.code);
      hide Next, Escape, Unescape, Drain;
      var (st', events) := Drain(State(rest, ns, true), cfg);
      DrainToken(Escape(text) + rest, rest, ns, ns, [CharacterData(text)], st', events, cfg);
    case Element(name, attributes, children) =>
      ElementIsRead(node, rest, ns, cfg);
  }

  /** The start of an element. */
  function StartOf(name: Name, attributes: seq<Attribute>, env: Env, sep: string): Event {
    var inner := Inside(env, attributes);
    StartElement(FullName(name, inner, true, sep), FullNames(attributes, inner, sep),
                 FullValues(attributes, inner, sep, map[]))
  }

  lemma ElementParts(name: Name, attributes: seq<Attribute>, children: seq<Node>, rest: string, env: Env, sep: string,
                     events: seq<Event>)
    ensures var node, tag := Element(name, attributes, children), WriteTag(name, attributes);
            var inner := Inside(env, attributes);
            var start, end := StartOf(name, attributes, env, sep), EndElement(Some(FullName(name, inner, true, sep)));
            && (children == [] ==>
                  && Write(node) + rest == "<" + (tag + "/") + ">" + rest
                  && Meaning(node, env, sep) + events == [start, end] + events)
            && (children != [] ==>
                  && Write(node) + rest
                     == "<" + tag + ">" + (WriteAll(children) + ("<" + ("/" + Raw(name)) + ">" + rest))
                  && Meaning(node, env, sep) + events
                     == [start] + (MeaningOfAll(children, inner, sep) + ([end] + events)))
  {
    hide WriteTag, Raw, FullName, FullNames, FullValues, Inside;
    if children == [] {
      assert MeaningOfAll(children, Inside(env, attributes), sep) == [];
    }
  }

  lemma EmptyIsRead(name: Name, attributes: seq<Attribute>, rest: string, ns: Ns, cfg: Config)
    requires Good(Element(name, attributes, [])) && Sound(ns)
    ensures var (st', events) := Drain(State(rest, ns, true), cfg);
            Drain(State(Write(Element(name, attributes, [])) + rest, ns, true), cfg)
            == (st', Meaning(Element(name, attributes, []), EnvOf(ns.scopes), cfg.sep) + events)
  {
    var (st', events) := Drain(State(rest, ns, true), cfg);
    var s := OpenToken(name, attributes, rest, ns, cfg);
    var tag, env := WriteTag(name, attributes), EnvOf(ns.scopes);
    var start := StartOf(name, attributes, env, cfg.sep);
    var end := EndElement(Some(start.name));
    hide *;
    ElementParts(name, attributes, [], rest, env, cfg.sep, events);
    DrainToken("<" + (tag + "/") + ">" + rest, rest, ns, ns, [start, end], st', events, cfg);
  }

  lemma {:induction false} ElementIsRead(node: Node, rest: string, ns: Ns, cfg: Config)
    requires Good(node) && Sound(ns) && node.Element?
    ensures var (st', events) := Drain(State(rest, ns, true), cfg);
            Drain(State(Write(node) + rest, ns, true), cfg)
            == (st', Meaning(node, EnvOf(ns.scopes), cfg.sep) + events)
    decreases node, 0
  {
    var Element(name, attributes, children) := node;
    if children == [] {
      hide *;
      EmptyIsRead(name, attributes, rest, ns, cfg);
      return;
    }
    var (st', events) := Drain(State(rest, ns, true), cfg);
    var close := "<" + ("/" + Raw(name)) + ">" + rest;
    var content := WriteAll(children) + close;
    var s := OpenToken(name, attributes, content, ns, cfg);
    var tag, env, ns1 := WriteTag(name, attributes), EnvOf(ns.scopes), ns.(scopes := ns.scopes + [s]);
    var start, middle := StartOf(name, attributes, env, cfg.sep), MeaningOfAll(children, EnvOf(ns1.scopes), cfg.sep);
    var end := EndElement(Some(start.name));
    assert close[0] == '<';
    hide *;
    CloseToken(name, rest, ns, s, cfg);
    DrainToken(close, rest, ns1, ns, [end], st', events, cfg);
    NodesAreRead(children, close, ns1, cfg);
    DrainToken("<" + tag + ">" + content, content, ns, ns1, [start], st', middle + ([end] + events), cfg);
    ElementParts(name, attributes, children, rest, env, cfg.sep, events);
  }

  lemma NodesParts(first: Node, more: seq<Node>, rest: string, env: Env, sep: string, events: seq<Event>)
    ensures WriteAll([first] + more) + rest == Write(first) + (WriteAll(more) + rest)
    ensures MeaningOfAll([first] + more, env, sep) + events
            == Meaning(first, env, sep) + (MeaningOfAll(more, env, sep) + events)
  {
    assert ([first] + more)[1..] == more;
    hide Write, Meaning;
    assert WriteAll([first] + more) == Write(first) + WriteAll(more);
    assert MeaningOfAll([first] + more, env, sep) == Meaning(first, env, sep) + MeaningOfAll(more, env, sep);
    hide *;
    Regroup(Write(first), WriteAll(more), rest);
    Regroup(Meaning(first, env, sep), MeaningOfAll(more, env, sep), events);
  }

  lemma Regroup<T>(a: seq<T>, b: seq<T>, c: seq<T>)
    ensures a + b + c == a + (b + c)
  {
  }

  lemma NoNodes(rest: string, env: Env, sep: string, events: seq<Event>)
    ensures WriteAll([]) + rest == rest && MeaningOfAll([], env, sep) + events == events
  {
  }

  lemma {:induction false} NodesAreRead(nodes: seq<Node>, rest: string, ns: Ns, cfg: Config)
    requires GoodAll(nodes) && Sound(ns) && rest != "" && rest[0] == '<'
    ensures var (st', events) := Drain(State(rest, ns, true), cfg);
            Drain(State(WriteAll(nodes) + rest, ns, true), cfg)
            == (st', MeaningOfAll(nodes, EnvOf(ns.scopes), cfg.sep) + events)
    decreases nodes
  {
    var (st', events) := Drain(State(rest, ns, true), cfg);
    assert nodes != [] ==> Good(nodes[0]) && GoodAll(nodes[1..])
                           && (nodes[0].Chars? && |nodes| > 1 ==> nodes[1].Element?);
    hide *;
    if nodes == [] {
      NoNodes(rest, EnvOf(ns.scopes), cfg.sep, events);
    } else {
      var first, more := nodes[0], nodes[1..];
      assert nodes == [first] + more;
      if first.Chars? {
        WriteStarts(more, rest);
      }
      NodesAreRead(more, rest, ns, cfg);
      NodeIsRead(first, WriteAll(more) + rest, ns, cfg);
      NodesParts(first, more, rest, EnvOf(ns.scopes), cfg.sep, events);
    }
  }

  /** However the text of a document comes in, the tokenizer makes exactly the calls that the document means, and is
      back where it started. */
  lemma DocumentIsRead(node: Node, chunks: seq<string>, cfg: Config)
    requires Good(node) && node.Element? && Concat(chunks) == Write(node)
    ensures FeedAll(START, chunks, cfg)
            == (START, Meaning(node, map["xml" := "http://www.w3.org/XML/1998/namespace"], cfg.sep))
  {
    StartsAtRoot(Write(node), cfg);
    hide *;
    ChunkIndependence(START, chunks, cfg);
    ElementIsRead(node, "", START.ns, cfg);
    NothingAfter(Write(node), Meaning(node, EnvOf([ROOT]), cfg.sep));
  }

  lemma NothingAfter(s: string, events: seq<Event>)
    ensures s + "" == s && events + [] == events
  {
  }

  /** The state before the first chunk. */
  lemma StartsAtRoot(s: string, cfg: Config)
    ensures START.ns.Chain? && START.ns.scopes == [ROOT] && Sound(START.ns) && Next(START.data).Wait?
    ensures Feed(START, s, cfg) == Drain(State(s, START.ns, true), cfg)
    ensures EnvOf([ROOT]) == map["xml" := "http://www.w3.org/XML/1998/namespace"]
    ensures Drain(State("", START.ns, true), cfg) == (START, [])
  {
    assert EnvOf([]) == map[] && [ROOT][..0] == [];
    assert START.data + s == s;
    DrainOnce("", START.ns, cfg);
    assert Next("").Wait?;
  }
}
