/** The map-store shim of core/storagemanager.lua: single keys of a row are changed by
    reading the whole row from a key-value driver, editing it and writing it back. */
module Storage {

  /** What `set_keys` is asked to do with one key; `Remove` is the shim's `remove` sentinel. */
  datatype Change<V> = Remove | Put(value: V)

  /** How the driver behaves during one shim call. */
  datatype Io = Io(readFails: bool, writeFails: bool)
  {
    predicate Works() { !readFails && !writeFails }
  }

  /** The row after a set of changes, key by key. */
  function Apply<K, V>(row: map<K, V>, changes: map<K, Change<V>>): map<K, V> {
    map k | k in row.Keys + changes.Keys && (k in changes ==> changes[k].Put?)
      :: if k in changes then changes[k].value else row[k]
  }

  ghost function Restrict<K, V>(m: map<K, V>, keys: set<K>): map<K, V>
    requires keys <= m.Keys
  {
    map k | k in keys :: m[k]
  }

  lemma NothingApplied<K, V>(row: map<K, V>, changes: map<K, Change<V>>)
    ensures Apply(row, Restrict(changes, {})) == row
  {
  }

  lemma OneKeyMore<K, V>(row: map<K, V>, changes: map<K, Change<V>>, done: set<K>, k: K)
    requires done <= changes.Keys && k in changes && k !in done
    ensures var current := Apply(row, Restrict(changes, done));
            Apply(row, Restrict(changes, done + {k}))
            == if changes[k].Put? then current[k := changes[k].value] else current - {k}
  {
  }

  lemma AppliesKeyByKey<K, V>(row: map<K, V>, changes: map<K, Change<V>>)
    ensures var r := Apply(row, changes);
            && (forall k :: k in changes && changes[k].Put? ==> k in r && r[k] == changes[k].value)
            && (forall k :: k in changes && changes[k].Remove? ==> k !in r)
            && (forall k :: k !in changes && k in row ==> k in r && r[k] == row[k])
            && (forall k :: k !in changes && k !in row ==> k !in r)
  {
  }

  class MapShim<K(==), V> {
    /** The contents of the underlying key-value driver. */
    var rows: map<string, map<K, V>>

    constructor ()
      ensures rows == map[]
    {
      rows := map[];
    }

    /** The row of a user; an absent row reads as an empty one. */
    function Row(user: string): map<K, V>
      reads this
    {
      if user in rows then rows[user] else map[]
    }

    /** The whole row at once. */
    method SetRow(user: string, row: map<K, V>, io: Io) returns (ok: bool)
      modifies this
      ensures ok == !io.writeFails
      ensures rows == if ok then old(rows)[user := row] else old(rows)
    {
      if io.writeFails {
        return false;
      }
      rows := rows[user := row];
      ok := true;
    }

    method SetKeys(user: string, keydatas: map<K, Change<V>>, io: Io) returns (ok: bool)
      modifies this
      ensures ok == io.Works()
      ensures rows == if ok then old(rows)[user := Apply(old(Row(user)), keydatas)] else old(rows)
      ensures ok ==> forall k :: k in keydatas && keydatas[k].Put? ==>
                                   k in Row(user) && Row(user)[k] == keydatas[k].value
      ensures ok ==> forall k :: k in keydatas && keydatas[k].Remove? ==> k !in Row(user)
      ensures ok ==> forall k :: k !in keydatas && k in old(Row(user)) ==>
                                   k in Row(user) && Row(user)[k] == old(Row(user))[k]
      ensures ok ==> forall k :: k !in keydatas && k !in old(Row(user)) ==> k !in Row(user)
    {
      hide Apply;
      if io.readFails {
        return false;
      }
      var current := Row(user);
      NothingApplied(current, keydatas);
      var todo := keydatas.Keys;
      while todo != {}
        invariant todo <= keydatas.Keys && rows == old(rows)
        invariant current == Apply(Row(user), Restrict(keydatas, keydatas.Keys - todo))
      {
        var k :| k in todo;
        ghost var before := keydatas.Keys - todo;
        OneKeyMore(Row(user), keydatas, before, k);
        match keydatas[k] {
          case Remove => current := current - {k};
          case Put(v) => current := current[k := v];
        }
        todo := todo - {k};
        assert keydatas.Keys - todo == before + {k};
      }
      assert Restrict(keydatas, keydatas.Keys - todo) == keydatas;
      if io.writeFails {
        return false;
      }
      AppliesKeyByKey(old(Row(user)), keydatas);
      rows := rows[user := current];
      return true;
    }
  }
}
