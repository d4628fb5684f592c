/** What the names in the calls of fallbacks/lxp.lua are: namespace, separator and local part. */
module LxpNames {
  import opened Collections
  import opened Lxp
  import opened LxpLaws

  // ---------- One name ----------

  /** A prefix that is bound gives way to its namespace and the separator, for elements and attributes alike. */
  lemma PrefixedName(prefix: string, local: string, uri: string, withDefault: bool, bindings: map<string, string>,
                     ns: Ns, cfg: Config)
    requires ns.Chain? && ':' !in prefix && Resolve(bindings, ns, prefix, cfg.library) == Bound(uri)
    ensures ApplyNs(prefix + ":" + local, withDefault, bindings, ns, cfg) == Some(uri + cfg.sep + local)
  {
    var name := prefix + ":" + local;
    assert name[..|prefix|] == prefix && name[|prefix| + 1..] == local;
    IndexIs(name, ':', |prefix|);
    hide Resolve, Index;
  }

  /** A prefix that is not bound is taken for a part of the name; the name then has no prefix. */
  lemma UnboundName(prefix: string, local: string, withDefault: bool, bindings: map<string, string>, ns: Ns,
                    cfg: Config)
    requires ns.Chain? && ':' !in prefix && Resolve(bindings, ns, prefix, cfg.library) == Unbound
    ensures var name, default := prefix + ":" + local, Resolve(bindings, ns, "", cfg.library);
            ApplyNs(name, withDefault, bindings, ns, cfg)
            == if !withDefault || default.Unbound? then Some(name)
               else if default.Bound? then Some(default.uri + cfg.sep + name)
               else None
  {
    var name := prefix + ":" + local;
    assert name[..|prefix|] == prefix;
    IndexIs(name, ':', |prefix|);
    hide Resolve, Index;
  }

  /** A name without a prefix: for an element the default namespace counts, for an attribute nothing does. */
  lemma PlainName(name: string, bindings: map<string, string>, ns: Ns, cfg: Config)
    requires ns.Chain? && ':' !in name
    ensures ApplyNs(name, false, bindings, ns, cfg) == Some(name)
    ensures var default := Resolve(bindings, ns, "", cfg.library);
            ApplyNs(name, true, bindings, ns, cfg)
            == if default.Unbound? then Some(name)
               else if default.Bound? then Some(default.uri + cfg.sep + name)
               else None
  {
    assert name[..|name|] == name;
    IndexIs(name, ':', |name|);
    hide Resolve, Index;
  }

  /** Two names with a namespace are the same only if namespace and local part are, as long as no namespace holds the
      character that the separator starts with. */
  lemma NamesAreApart(uri: string, local: string, uri': string, local': string, sep: string)
    requires sep != "" && sep[0] !in uri && sep[0] !in uri'
    ensures uri + sep + local == uri' + sep + local' <==> uri == uri' && local == local'
  {
    var s, t := uri + sep + local, uri' + sep + local';
    assert s[..|uri|] == uri && t[..|uri'|] == uri';
    IndexIs(s, sep[0], |uri|);
    IndexIs(t, sep[0], |uri'|);
    assert s[|uri| + |sep|..] == local && t[|uri'| + |sep|..] == local';
    hide Index;
  }

  // ---------- Escaped text ----------

  /** What the server writes for a character of a text or a value. */
  function EscapeChar(c: char): string {
    match c
    case '&' => "&amp;"
    case '<' => "&lt;"
    case '>' => "&gt;"
    case '\'' => "&apos;"
    case '"' => "&quot;"
    case _ => [c]
  }

  function Escape(s: string): string {
    if s == "" then "" else EscapeChar(s[0]) + Escape(s[1..])
  }

  predicate Safe(c: char) {
    c != '<' && c != '>' && c != '\'' && c != '"'
  }

  lemma {:induction false} EscapedIsSafe(s: string)
    ensures forall i :: 0 <= i < |Escape(s)| ==> Safe(Escape(s)[i])
    ensures s != "" ==> Escape(s) != ""
  {
    if s != "" {
      EscapedIsSafe(s[1..]);
      assert forall i :: 0 <= i < |EscapeChar(s[0])| ==> Safe(EscapeChar(s[0])[i]);
    }
  }

  function Before(s: string, r: Option<string>): Option<string> {
    if r.Some? then Some(s + r.value) else None
  }

  lemma UnescapeAt(s: string, p: nat, q: nat, code: CharCode)
    requires p == Index(s, '&') < |s| && q == p + 1 + Index(s[p + 1..], ';') < |s|
    ensures Unescape(s, code) == Joined(s[..p], Entity(s[p + 1..q], code), Unescape(s[q + 1..], code))
  {
    hide Index, Entity, Joined;
  }

  lemma UnescapeNone(s: string, code: CharCode)
    requires var p := Index(s, '&'); p == |s| || p + 1 + Index(s[p + 1..], ';') == |s|
    ensures Unescape(s, code) == Some(s)
  {
    hide Index, Entity;
  }

  lemma UnescapeChar(c: char, t: string, code: CharCode)
    requires c != '&'
    ensures Unescape([c] + t, code) == Before([c], Unescape(t, code))
  {
    hide Index, Entity, Unescape;
    var s, p := [c] + t, Index(t, '&');
    assert s[1..] == t && s[..p + 1] == [c] + t[..p];
    IndexIs(s, '&', p + 1);
    if p == |t| {
      UnescapeNone(t, code);
      UnescapeNone(s, code);
    } else {
      assert s[p + 2..] == t[p + 1..];
      var q := p + 1 + Index(t[p + 1..], ';');
      if q == |t| {
        UnescapeNone(t, code);
        UnescapeNone(s, code);
      } else {
        assert s[p + 2..q + 1] == t[p + 1..q] && s[q + 2..] == t[q + 1..];
        UnescapeAt(t, p, q, code);
        UnescapeAt(s, p + 1, q + 1, code);
        JoinedChar(c, t[..p], Entity(t[p + 1..q], code), Unescape(t[q + 1..], code));
      }
    }
  }

  lemma JoinedChar(c: char, before: string, e: Option<string>, rest: Option<string>)
    ensures Joined([c] + before, e, rest) == Before([c], Joined(before, e, rest))
  {
    if e.Some? && rest.Some? {
      assert [c] + before + e.value + rest.value == [c] + (before + e.value + rest.value);
    }
  }

  lemma UnescapeEntity(name: string, t: string, e: string, code: CharCode)
    requires ';' !in name && Entity(name, code) == Some(e)
    ensures Unescape("&" + name + ";" + t, code) == Before(e, Unescape(t, code))
  {
    var s := "&" + name + ";" + t;
    assert s[1..] == name + ";" + t && (name + ";" + t)[..|name|] == name;
    IndexIs(s, '&', 0);
    IndexIs(s[1..], ';', |name|);
    assert s[1..1 + |name|] == name && s[|name| + 2..] == t && s[..0] == "";
    hide Index, Entity, Unescape;
    UnescapeAt(s, 0, |name| + 1, code);
    JoinedNothing(e, Unescape(t, code));
  }

  lemma JoinedNothing(e: string, rest: Option<string>)
    ensures Joined("", Some(e), rest) == Before(e, rest)
  {
    assert "" + e == e;
  }

  /** Reading what was escaped gives the text back. */
  lemma {:induction false} UnescapeEscape(s: string, code: CharCode)
    ensures Unescape(Escape(s), code) == Some(s)
  {
    if s == "" {
      IndexIs("", '&', 0);
      UnescapeNone("", code);
      return;
    }
    var c, rest := s[0], Escape(s[1..]);
    assert Escape(s) == EscapeChar(c) + rest;
    hide *;
    UnescapeEscape(s[1..], code);
    UnescapeCharacter(c, rest, code);
    BeforeAll(s);
  }

  lemma BeforeAll(s: string)
    requires s != ""
    ensures Before([s[0]], Some(s[1..])) == Some(s)
  {
    assert [s[0]] + s[1..] == s;
  }

  lemma UnescapeCharacter(c: char, t: string, code: CharCode)
    ensures Unescape(EscapeChar(c) + t, code) == Before([c], Unescape(t, code))
  {
    hide Unescape, Before;
    if c == '&' {
      assert EscapeChar(c) == "&" + "amp" + ";";
      UnescapeEntity("amp", t, "&", code);
    } else if c == '<' {
      assert EscapeChar(c) == "&" + "lt" + ";";
      UnescapeEntity("lt", t, "<", code);
    } else if c == '>' {
      assert EscapeChar(c) == "&" + "gt" + ";";
      UnescapeEntity("gt", t, ">", code);
    } else if c == '\'' {
      assert EscapeChar(c) == "&" + "apos" + ";";
      UnescapeEntity("apos", t, "'", code);
    } else if c == '"' {
      assert EscapeChar(c) == "&" + "quot" + ";";
      UnescapeEntity("quot", t, "\"", code);
    } else {
      UnescapeChar(c, t, code);
    }
  }

  /** Character references in decimal and hexadecimal, and an entity that is not known, which stays as it is. */
  lemma References(digits: string, name: string, code: CharCode)
    requires ';' !in digits && ';' !in name
    requires name !in {"amp", "lt", "gt", "apos", "quot"} && (name != "" ==> name[0] != '#')
    ensures digits != "" && digits[0] != 'x' ==>
              Unescape("&" + ("#" + digits) + ";", code)
              == if code(digits, 10).Some? then Some([code(digits, 10).value]) else None
    ensures Unescape("&" + ("#x" + digits) + ";", code)
            == if code(digits, 16).Some? then Some([code(digits, 16).value]) else None
    ensures Unescape("&" + name + ";", code) == Some("&" + name + ";")
  {
    hide Unescape, Entity;
    OneEntity("#" + digits, code);
    OneEntity("#x" + digits, code);
    OneEntity(name, code);
    if digits != "" && digits[0] != 'x' {
      DecimalEntity(digits, code);
    }
    HexadecimalEntity(digits, code);
    UnknownEntity(name, code);
  }

  lemma DecimalEntity(digits: string, code: CharCode)
    requires digits != "" && digits[0] != 'x'
    ensures Entity("#" + digits, code) == if code(digits, 10).Some? then Some([code(digits, 10).value]) else None
  {
    var name := "#" + digits;
    assert name[0] == '#' && name[1..] == digits;
  }

  lemma HexadecimalEntity(digits: string, code: CharCode)
    ensures Entity("#x" + digits, code) == if code(digits, 16).Some? then Some([code(digits, 16).value]) else None
  {
    var name := "#x" + digits;
    assert name[0] == '#' && name[1] == 'x' && name[2..] == digits;
  }

  lemma UnknownEntity(name: string, code: CharCode)
    requires name !in {"amp", "lt", "gt", "apos", "quot"} && (name != "" ==> name[0] != '#')
    ensures Entity(name, code) == Some("&" + name + ";")
  {
  }

  lemma OneEntity(name: string, code: CharCode)
    requires ';' !in name
    ensures Unescape("&" + name + ";", code) == Entity(name, code)
  {
    var s := "&" + name + ";";
    assert s[1..][..|name|] == name && s[1..1 + |name|] == name && s[|name| + 2..] == "";
    IndexIs(s, '&', 0);
    IndexIs(s[1..], ';', |name|);
    UnescapeAt(s, 0, |name| + 1, code);
    IndexIs("", '&', 0);
    UnescapeNone("", code);
    hide Index, Entity, Unescape;
    var e := Entity(name, code);
    if e.Some? {
      assert s[..0] + e.value + "" == e.value;
    }
  }
}
