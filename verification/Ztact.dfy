/** The nested tables of net/dns.lua: values under paths of keys, with no empty table left inside. */
module Ztact {
  import opened Collections

  datatype Tree<K, V> = Leaf(value: V) | Table(entries: map<K, Tree<K, V>>)

  /** Values at one depth only, and no empty table below the top. */
  predicate Proper<K(!new), V>(t: Tree<K, V>, depth: nat)
    decreases depth
  {
    if depth == 0 then t.Leaf?
    else
      && t.Table?
      && forall k :: k in t.entries ==> Proper(t.entries[k], depth - 1) && t.entries[k] != Table(map[])
  }

  /** What stands under a path. */
  function Find<K, V>(t: Tree<K, V>, path: seq<K>): Option<Tree<K, V>>
    decreases |path|
  {
    if path == [] then Some(t)
    else if t.Table? && path[0] in t.entries then Find(t.entries[path[0]], path[1..])
    else None
  }

  predicate IsTable<K, V>(t: Tree<K, V>, path: seq<K>) {
    Find(t, path).Some? && Find(t, path).value.Table?
  }

  function TableAt<K, V>(t: Tree<K, V>, path: seq<K>): map<K, Tree<K, V>>
    requires IsTable(t, path)
  {
    Find(t, path).value.entries
  }

  // ---------- What set is for ----------

  /** The value put under the path, with the tables on the way. */
  function Put<K, V>(t: Tree<K, V>, path: seq<K>, v: V): Tree<K, V>
    decreases |path|
  {
    if path == [] then Leaf(v)
    else if t.Leaf? then t
    else
      var child := if path[0] in t.entries then t.entries[path[0]] else Table(map[]);
      Table(t.entries[path[0] := Put(child, path[1..], v)])
  }

  /** The path removed, and every table with it that this would leave empty. */
  function Remove<K, V>(t: Tree<K, V>, path: seq<K>): Tree<K, V>
    decreases |path|
  {
    if path == [] || t.Leaf? || path[0] !in t.entries then t
    else
      var k := path[0];
      var child := Remove(t.entries[k], path[1..]);
      if |path| == 1 || child == Table(map[]) then Table(t.entries - {k}) else Table(t.entries[k := child])
  }

  lemma {:induction false} FindAfterPut<K(!new), V>(t: Tree<K, V>, path: seq<K>, v: V, q: seq<K>)
    requires Proper(t, |path|) || (t == Table(map[]) && path != [])
    requires |q| == |path|
    ensures Find(Put(t, path, v), q) == if q == path then Some(Leaf(v)) else Find(t, q)
    ensures Proper(Put(t, path, v), |path|) && (path != [] ==> Put(t, path, v) != Table(map[]))
    decreases |path|
  {
    if path != [] {
      var k, rest := path[0], path[1..];
      var child := if k in t.entries then t.entries[k] else Table(map[]);
      if path == [k] && k !in t.entries {
        assert Put(child, rest, v) == Leaf(v);
      } else {
        FindAfterPut(child, rest, v, q[1..]);
      }
      assert Put(t, path, v) == Table(t.entries[k := Put(child, rest, v)]);
      assert q == [q[0]] + q[1..] && path == [k] + rest;
    }
  }

  lemma {:induction false} FindAfterRemove<K(!new), V>(t: Tree<K, V>, path: seq<K>, q: seq<K>)
    requires Proper(t, |path|) && path != [] && |q| == |path|
    ensures Find(Remove(t, path), q) == if q == path then None else Find(t, q)
    ensures Proper(Remove(t, path), |path|)
    decreases |path|
  {
    var k, rest := path[0], path[1..];
    assert q == [q[0]] + q[1..] && path == [k] + rest;
    if k in t.entries && rest != [] {
      FindAfterRemove(t.entries[k], rest, q[1..]);
    }
  }

  // ---------- What set does ----------

  /** The entry under a path replaced, where the tables up to it are there. */
  function Assign<K, V>(t: Tree<K, V>, path: seq<K>, sub: Tree<K, V>): Tree<K, V>
    requires path != [] && IsTable(t, path[..|path| - 1])
    decreases |path|
  {
    if |path| == 1 then assert path[..0] == []; Table(t.entries[path[0] := sub])
    else
      assert path[..|path| - 1][0] == path[0] && path[..|path| - 1][1..] == path[1..][..|path| - 2];
      Table(t.entries[path[0] := Assign(t.entries[path[0]], path[1..], sub)])
  }

  /** The entry under a path dropped, and nothing else. */
  function Drop<K, V>(t: Tree<K, V>, path: seq<K>): Tree<K, V>
    requires path != [] && IsTable(t, path[..|path| - 1])
    decreases |path|
  {
    if |path| == 1 then assert path[..0] == []; Table(t.entries - {path[0]})
    else
      assert path[..|path| - 1][0] == path[0] && path[..|path| - 1][1..] == path[1..][..|path| - 2];
      Table(t.entries[path[0] := Drop(t.entries[path[0]], path[1..])])
  }

  /** The key that deleting a path takes away: when the last table holds a single other key, that one. */
  ghost function Victim<K(!new), V>(t: Tree<K, V>, path: seq<K>): seq<K>
    requires path != []
  {
    var inner := path[..|path| - 1];
    if Astray(t, path) then
      var k :| k in TableAt(t, inner) && TableAt(t, inner).Keys == {k};
      inner + [k]
    else path
  }

  /** Deleting an absent key below the top from a table that holds just another one. */
  ghost predicate Astray<K, V>(t: Tree<K, V>, path: seq<K>)
    requires path != []
  {
    var inner := path[..|path| - 1];
    && inner != [] && IsTable(t, inner) && path[|path| - 1] !in TableAt(t, inner)
    && exists k :: k in TableAt(t, inner) && TableAt(t, inner).Keys == {k}
  }

  /** The table set leaves behind. */
  ghost function Result<K(!new), V>(t: Tree<K, V>, path: seq<K>, value: Option<V>): Tree<K, V>
    requires path != []
  {
    if value.Some? then Put(t, path, value.value) else Remove(t, Victim(t, path))
  }

  lemma {:induction false} FindSnoc<K, V>(t: Tree<K, V>, path: seq<K>, k: K)
    ensures Find(t, path + [k]) == if IsTable(t, path) && k in TableAt(t, path) then Some(TableAt(t, path)[k]) else None
    decreases |path|
  {
    if path == [] {
      assert [] + [k] == [k] && [k][1..] == [];
    } else {
      assert (path + [k])[0] == path[0] && (path + [k])[1..] == path[1..] + [k];
      if t.Table? && path[0] in t.entries {
        FindSnoc(t.entries[path[0]], path[1..], k);
      }
    }
  }

  /** Making the next table on the way does not change where the value ends up. */
  lemma {:induction false} PutThroughNew<K, V>(t: Tree<K, V>, path: seq<K>, k: K, rest: seq<K>, v: V)
    requires IsTable(t, path) && k !in TableAt(t, path) && rest != []
    ensures path + [k] != [] && (path + [k])[..|path|] == path
    ensures var t' := Assign(t, path + [k], Table(map[]));
            IsTable(t', path + [k]) && TableAt(t', path + [k]) == map[]
            && Put(t', path + [k] + rest, v) == Put(t, path + [k] + rest, v)
    decreases |path|
  {
    var p, whole := path + [k], path + [k] + rest;
    assert p[..|path|] == path;
    if path == [] {
      assert p[1..] == [] && whole[1..] == rest;
      assert Assign(t, p, Table(map[])) == Table(t.entries[k := Table(map[])]);
    } else {
      var c := t.entries[path[0]];
      PutThroughNew(c, path[1..], k, rest, v);
      assert p[1..] == path[1..] + [k] && whole[1..] == path[1..] + [k] + rest;
      var t' := Assign(t, p, Table(map[]));
      assert t' == Table(t.entries[path[0] := Assign(c, p[1..], Table(map[]))]);
    }
  }

  /** With every table there, putting is replacing one entry. */
  lemma {:induction false} PutIsAssign<K, V>(t: Tree<K, V>, path: seq<K>, v: V)
    requires path != [] && IsTable(t, path[..|path| - 1])
    ensures Put(t, path, v) == Assign(t, path, Leaf(v))
    decreases |path|
  {
    if |path| > 1 {
      assert path[..|path| - 1][0] == path[0] && path[..|path| - 1][1..] == path[1..][..|path| - 2];
      PutIsAssign(t.entries[path[0]], path[1..], v);
    }
  }

  /** The number of keys in the table above the j-th key of a path. */
  function Size<K, V>(t: Tree<K, V>, path: seq<K>, j: nat): nat
    requires j <= |path| && IsTable(t, path[..j])
  {
    |TableAt(t, path[..j]).Keys|
  }

  /** From the c-th key on, every table below holds nothing but the path, and the one above it holds more. */
  predicate CutAt<K, V>(t: Tree<K, V>, path: seq<K>, c: nat, to: nat) {
    && c <= to < |path|
    && (forall j :: 0 <= j <= to ==> IsTable(t, path[..j]))
    && (c == 0 || Size(t, path, c) >= 2)
    && forall j :: c < j <= to ==> Size(t, path, j) == 1
  }

  lemma Shift<K, V>(t: Tree<K, V>, path: seq<K>, j: nat)
    requires 0 < j <= |path| && t.Table? && path[0] in t.entries
    ensures Find(t, path[..j]) == Find(t.entries[path[0]], path[1..][..j - 1])
  {
    assert path[..j][0] == path[0] && path[..j][1..] == path[1..][..j - 1];
  }

  lemma CutBelow<K, V>(t: Tree<K, V>, path: seq<K>, c: nat)
    requires |path| > 1 && CutAt(t, path, c, |path| - 1) && t.Table? && path[0] in t.entries
    ensures CutAt(t.entries[path[0]], path[1..], if c == 0 then 0 else c - 1, |path| - 2)
  {
    forall j | 0 <= j <= |path| - 2
      ensures IsTable(t.entries[path[0]], path[1..][..j])
      ensures Size(t.entries[path[0]], path[1..], j) == Size(t, path, j + 1)
    {
      Shift(t, path, j + 1);
    }
  }

  /** Removing a path that is there drops one entry: the lowest whose table has others. */
  lemma {:induction false} RemoveIsDrop<K(!new), V>(t: Tree<K, V>, path: seq<K>, c: nat)
    requires Proper(t, |path|) && path != [] && Find(t, path).Some? && CutAt(t, path, c, |path| - 1)
    ensures path[..c + 1] != [] && IsTable(t, path[..c + 1][..c])
    ensures Remove(t, path) == Drop(t, path[..c + 1])
    ensures c > 0 ==> Remove(t, path) != Table(map[])
    ensures c == 0 ==> (Remove(t, path) == Table(map[]) <==> |t.entries.Keys| == 1)
    decreases |path|
  {
    hide CutAt, Size;
    var k := path[0];
    CutTables(t, path, c);
    assert path[..c + 1][..c] == path[..c] && path[..0] == [];
    if |path| > 1 {
      CutBelow(t, path, c);
      var child := t.entries[k];
      RemoveIsDrop(child, path[1..], if c == 0 then 0 else c - 1);
      if c > 0 {
        assert path[..c + 1][1..] == path[1..][..c];
        assert path[..c + 1][..c][1..] == path[1..][..c][..c - 1];
        assert k in Remove(t, path).entries;
      }
    }
    if c == 0 {
      assert Remove(t, path) == Table(t.entries - {k});
      OnlyKey(t.entries, k);
    }
  }

  lemma CutTables<K(!new), V>(t: Tree<K, V>, path: seq<K>, c: nat)
    requires Proper(t, |path|) && path != [] && Find(t, path).Some? && CutAt(t, path, c, |path| - 1)
    ensures c < |path| && IsTable(t, path[..c])
    ensures |path| > 1 ==> t.entries[path[0]].Table?
    ensures |path| > 1 && c == 0 ==> |t.entries[path[0]].entries.Keys| == 1
    ensures |path| > 1 && c == 1 ==> |t.entries[path[0]].entries.Keys| >= 2
  {
    if |path| > 1 {
      Shift(t, path, 1);
      assert path[1..][..0] == [];
      assert Size(t, path, 1) == |t.entries[path[0]].entries.Keys|;
    }
  }

  lemma OnlyKey<K, V>(m: map<K, V>, k: K)
    requires k in m
    ensures m - {k} == map[] <==> |m.Keys| == 1
    ensures |m.Keys| == 1 ==> m.Keys == {k}
  {
    assert (m - {k}).Keys == m.Keys - {k};
    assert |m.Keys - {k}| == |m.Keys| - 1;
    if |m.Keys| == 1 {
      assert m.Keys - {k} == {};
    }
  }

  lemma {:induction false} NothingThere<K(!new), V>(t: Tree<K, V>, path: seq<K>)
    requires Proper(t, |path|) && path != [] && Find(t, path).None?
    ensures Remove(t, path) == t
    ensures IsTable(t, path[..|path| - 1]) ==> Drop(t, path) == t
    decreases |path|
  {
    if path[0] in t.entries && |path| > 1 {
      NothingThere(t.entries[path[0]], path[1..]);
      Shift(t, path, |path| - 1);
    }
  }

  lemma SingleKey<K, V>(m: map<K, V>)
    requires |m.Keys| == 1
    ensures exists k :: k in m && m.Keys == {k}
  {
    var k :| k in m.Keys;
    OnlyKey(m, k);
  }

  lemma {:induction false} TablesOnTheWay<K(!new), V>(t: Tree<K, V>, path: seq<K>)
    requires Proper(t, |path|) && path != [] && Find(t, path).Some?
    ensures forall j :: 0 <= j < |path| ==> IsTable(t, path[..j])
    decreases |path|
  {
    forall j | 0 <= j < |path|
      ensures IsTable(t, path[..j])
    {
      if j > 0 {
        TablesOnTheWay(t.entries[path[0]], path[1..]);
        Shift(t, path, j);
      }
    }
  }

  lemma SameCut<K, V>(t: Tree<K, V>, path: seq<K>, other: seq<K>, c: nat)
    requires path != [] && CutAt(t, path, c, |path| - 1)
    requires |other| == |path| && other[..|path| - 1] == path[..|path| - 1]
    ensures CutAt(t, other, c, |path| - 1)
  {
    forall j | 0 <= j < |path|
      ensures other[..j] == path[..j]
    {
      assert other[..j] == other[..|path| - 1][..j];
      assert path[..j] == path[..|path| - 1][..j];
    }
    assert forall j :: 0 <= j < |path| ==> Size(t, path, j) == Size(t, other, j);
  }

  lemma DropIsResult<K(!new), V>(t: Tree<K, V>, path: seq<K>)
    requires Proper(t, |path|) && path != [] && IsTable(t, path[..|path| - 1])
    requires |path| == 1 || Size(t, path, |path| - 1) >= 2
    ensures Result(t, path, None) == Drop(t, path)
  {
    var inner, k := path[..|path| - 1], path[|path| - 1];
    assert path == inner + [k];
    FindSnoc(t, inner, k);
    assert !Astray(t, path);
    if k in TableAt(t, inner) {
      TablesOnTheWay(t, path);
      RemoveIsDrop(t, path, |path| - 1);
      assert path[..|path|] == path;
    } else {
      NothingThere(t, path);
    }
  }

  lemma CutIsResult<K(!new), V>(t: Tree<K, V>, path: seq<K>, c: nat)
    requires Proper(t, |path|) && path != [] && c < |path| - 1 && CutAt(t, path, c, |path| - 1)
    ensures IsTable(t, path[..c + 1][..c])
    ensures Result(t, path, None) == Drop(t, path[..c + 1])
  {
    var inner, k := path[..|path| - 1], path[|path| - 1];
    assert path == inner + [k];
    assert Size(t, path, |path| - 1) == 1;
    SingleKey(TableAt(t, inner));
    var victim := Victim(t, path);
    assert path[..c + 1][..c] == path[..c];
    assert victim[..|path| - 1] == inner;
    FindSnoc(t, inner, victim[|path| - 1]);
    assert victim == inner + [victim[|path| - 1]];
    SameCut(t, path, victim, c);
    RemoveIsDrop(t, victim, c);
    assert victim[..c + 1] == inner[..c + 1] == path[..c + 1];
  }

  /** Nothing happens when a table on the way is missing. */
  lemma MissingOnTheWay<K(!new), V>(t: Tree<K, V>, path: seq<K>, i: nat)
    requires Proper(t, |path|) && i < |path| - 1 && Find(t, path[..i + 1]).None?
    ensures Result(t, path, None) == t
  {
    NothingBelow(t, path, i + 1);
    assert path[..|path| - 1][..i + 1] == path[..i + 1];
    NothingBelow(t, path[..|path| - 1], i + 1);
    NothingThere(t, path);
  }

  lemma {:induction false} NothingBelow<K, V>(t: Tree<K, V>, path: seq<K>, i: nat)
    requires i <= |path| && Find(t, path[..i]).None?
    ensures Find(t, path).None?
    decreases |path|
  {
    if i > 0 && t.Table? && path[0] in t.entries {
      Shift(t, path, i);
      NothingBelow(t.entries[path[0]], path[1..], i - 1);
    }
  }

  lemma {:induction false} FoundIsProper<K(!new), V>(t: Tree<K, V>, path: seq<K>, depth: nat)
    requires Proper(t, depth) && |path| <= depth && Find(t, path).Some?
    ensures Proper(Find(t, path).value, depth - |path|)
    ensures path != [] ==> Find(t, path).value != Table(map[])
    decreases |path|
  {
    if |path| == 1 {
      assert path[1..] == [];
    }
    if path != [] {
      FoundIsProper(t.entries[path[0]], path[1..], depth - 1);
    }
  }

  /** What the loop knows of the first i tables below the top. */
  predicate Scanned<K, V>(t: Tree<K, V>, path: seq<K>, i: nat, cut: Option<nat>) {
    && i < |path|
    && (forall j :: 0 <= j <= i ==> IsTable(t, path[..j]))
    && (cut.None? ==> i == 0 || Size(t, path, i) >= 2)
    && (cut.Some? ==> cut.value < i && CutAt(t, path, cut.value, i))
  }

  lemma NotEmpty<K, V>(m: map<K, V>)
    requires m != map[]
    ensures |m.Keys| >= 1
  {
    assert m.Keys != {};
  }

  lemma NextTable<K(!new), V>(t: Tree<K, V>, path: seq<K>, i: nat)
    requires Proper(t, |path|) && i + 1 < |path| && Find(t, path[..i + 1]).Some?
    ensures IsTable(t, path[..i + 1]) && Size(t, path, i + 1) >= 1
  {
    FoundIsProper(t, path[..i + 1], |path|);
    NotEmpty(TableAt(t, path[..i + 1]));
  }

  lemma ScanNext<K(!new), V>(t: Tree<K, V>, path: seq<K>, i: nat, cut: Option<nat>)
    requires i + 1 < |path| && Scanned(t, path, i, cut) && IsTable(t, path[..i + 1]) && Size(t, path, i + 1) >= 1
    ensures Scanned(t, path, i + 1, if Size(t, path, i + 1) >= 2 then None else if cut.None? then Some(i) else cut)
  {
    hide Find, IsTable, Size;
  }

  lemma StartScan<K(!new), V>(t: Tree<K, V>, path: seq<K>)
    requires Proper(t, |path|) && path != []
    ensures Scanned(t, path, 0, None)
  {
    assert path[..0] == [];
  }

  lemma ScanDone<K, V>(t: Tree<K, V>, path: seq<K>, cut: Option<nat>)
    requires path != [] && Scanned(t, path, |path| - 1, cut)
    ensures IsTable(t, path[..|path| - 1])
    ensures cut.None? ==> |path| == 1 || Size(t, path, |path| - 1) >= 2
    ensures cut.Some? ==> cut.value < |path| - 1 && CutAt(t, path, cut.value, |path| - 1)
  {
  }

  lemma SizeIs<K, V>(t: Tree<K, V>, path: seq<K>, j: nat)
    requires j <= |path| && IsTable(t, path[..j])
    ensures Size(t, path, j) == |TableAt(t, path[..j]).Keys|
  {
  }

  /** A store of values under paths. */
  class Store<K(!new, ==), V> {
    var root: Tree<K, V>

    constructor ()
      ensures root == Table(map[])
    {
      root := Table(map[]);
    }

    /** What is under a path of any length, the value itself for a whole one. */
    method Get(path: seq<K>, ghost depth: nat) returns (r: Option<Tree<K, V>>)
      requires Proper(root, depth) && |path| <= depth
      ensures r == Find(root, path)
    {
      var parent := root;
      var i := 0;
      while i < |path|
        invariant 0 <= i <= |path| && Find(root, path) == Find(parent, path[i..]) && Proper(parent, depth - i)
      {
        if path[i] !in parent.entries {
          return None;
        }
        parent := parent.entries[path[i]];
        assert path[i..][1..] == path[i + 1..];
        i := i + 1;
      }
      r := Some(parent);
    }

    /** A value is put under the path; no value takes the path away. */
    method Set(path: seq<K>, value: Option<V>) returns (r: Option<V>)
      requires path != [] && Proper(root, |path|)
      modifies this
      ensures root == Result(old(root), path, value) && r == value
    {
      hide Put, Victim, Assign, Drop, Remove, CutAt, Size;
      StartScan(root, path);
      var cut: Option<nat> := None;
      var i: nat := 0;
      assert path[..0] == [];
      while i < |path| - 1
        invariant i <= |path| - 1 && IsTable(root, path[..i])
        invariant TableAt(root, path[..i]) == map[] || Proper(Table(TableAt(root, path[..i])), |path| - i)
        invariant value.Some? ==> Put(root, path, value.value) == Put(old(root), path, value.value)
        invariant value.None? ==> root == old(root) && Scanned(root, path, i, cut)
      {
        var parent := TableAt(root, path[..i]);
        assert path[..i + 1] == path[..i] + [path[i]];
        FindSnoc(root, path[..i], path[i]);
        if value.None? {
          if path[i] !in parent {
            MissingOnTheWay(root, path, i);
            return None;
          }
          NextTable(root, path, i);
          ScanNext(root, path, i, cut);
          SizeIs(root, path, i + 1);
          if |parent[path[i]].entries.Keys| >= 2 {
            cut := None;
          } else if cut.None? {
            cut := Some(i);
          }
        } else if path[i] !in parent {
          assert path == path[..i] + [path[i]] + path[i + 1..];
          PutThroughNew(root, path[..i], path[i], path[i + 1..], value.value);
          root := Assign(root, path[..i + 1], Table(map[]));
        }
        i := i + 1;
      }
      if value.None? {
        ScanDone(root, path, cut);
      }
      if value.None? && cut.Some? {
        CutIsResult(root, path, cut.value);
        root := Drop(root, path[..cut.value + 1]);
      } else if value.None? {
        DropIsResult(root, path);
        root := Drop(root, path);
      } else {
        PutIsAssign(root, path, value.value);
        root := Assign(root, path, Leaf(value.value));
      }
      r := value;
    }
  }

  // ---------- Set refines a finite map from paths ----------

  lemma VictimIsThere<K(!new), V>(t: Tree<K, V>, path: seq<K>)
    requires path != []
    ensures |Victim(t, path)| == |path|
    ensures Astray(t, path) ==> Victim(t, path) != path && Find(t, Victim(t, path)).Some?
    ensures Find(t, path).Some? ==> !Astray(t, path)
  {
    var inner, k := path[..|path| - 1], path[|path| - 1];
    assert path == inner + [k];
    FindSnoc(t, inner, k);
    if Astray(t, path) {
      FindSnoc(t, inner, Victim(t, path)[|path| - 1]);
    }
  }

  /** Setting changes one path and no other, and leaves no table empty. */
  lemma SetRefinesMap<K(!new), V>(t: Tree<K, V>, path: seq<K>, value: Option<V>, q: seq<K>)
    requires Proper(t, |path|) && path != [] && |q| == |path|
    ensures Proper(Result(t, path, value), |path|)
    ensures value.Some? ==>
              Find(Result(t, path, value), q) == if q == path then Some(Leaf(value.value)) else Find(t, q)
    ensures value.None? ==>
              Find(Result(t, path, value), q) == if q == Victim(t, path) then None else Find(t, q)
    ensures value.None? && Find(t, path).Some? ==> Victim(t, path) == path
  {
    VictimIsThere(t, path);
    if value.Some? {
      FindAfterPut(t, path, value.value, q);
    } else {
      FindAfterRemove(t, Victim(t, path), q);
    }
  }

  /** Deleting takes away the path and nothing else exactly when the path is not one absent beside a single other
      key. */
  lemma DeleteIsExact<K(!new), V>(t: Tree<K, V>, path: seq<K>)
    requires Proper(t, |path|) && path != []
    ensures (forall q :: |q| == |path| ==> Find(Result(t, path, None), q) == if q == path then None else Find(t, q))
            <==> !Astray(t, path)
  {
    hide Find, Proper, Result, Astray, Victim;
    VictimIsThere(t, path);
    var victim := Victim(t, path);
    forall q: seq<K> | |q| == |path|
      ensures Find(Result(t, path, None), q) == if q == victim then None else Find(t, q)
    {
      SetRefinesMap(t, path, None, q);
    }
    if !Astray(t, path) {
      VictimIsPath(t, path);
    }
  }

  lemma VictimIsPath<K(!new), V>(t: Tree<K, V>, path: seq<K>)
    requires path != [] && !Astray(t, path)
    ensures Victim(t, path) == path
  {
  }

  /** Deleting b beside a alone takes a away. */
  lemma DeletingTheAbsentTakesTheOther(v: int)
    ensures var t: Tree<int, int> := Table(map[0 := Table(map[1 := Leaf(v)])]);
            Proper(t, 2) && Find(t, [0, 1]) == Some(Leaf(v)) && Find(t, [0, 2]) == None
            && Result(t, [0, 2], None) == Table(map[])
  {
    var m: map<int, Tree<int, int>> := map[1 := Leaf(v)];
    var t: Tree<int, int> := Table(map[0 := Table(m)]);
    assert [0, 2][..1] == [0] && [0, 2][1..] == [2] && [0, 1][1..] == [1];
    assert Find(t, [0]) == Some(Table(m));
    assert m.Keys == {1};
    assert 1 in m;
    assert Astray(t, [0, 2]);
    var victim := Victim(t, [0, 2]);
    assert victim == [0] + [1] == [0, 1];
    assert m - {1} == map[];
    assert Remove(Table(m), [1]) == Table(map[]);
    assert t.entries - {0} == map[];
  }
}
