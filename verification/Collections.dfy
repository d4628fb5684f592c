/** What several components share: optional values, and sequences of sequences. */
module Collections {

  datatype Option<+T> = None | Some(value: T)

  /** The parts one after the other. */
  function Concat<T>(parts: seq<seq<T>>): seq<T> {
    if parts == [] then [] else parts[0] + Concat(parts[1..])
  }

  lemma {:induction false} ConcatSnoc<T>(parts: seq<seq<T>>, part: seq<T>)
    ensures Concat(parts + [part]) == Concat(parts) + part
  {
    if parts == [] {
      assert [part][1..] == [] && part + [] == part;
    } else {
      assert (parts + [part])[1..] == parts[1..] + [part];
      ConcatSnoc(parts[1..], part);
      assert parts[0] + (Concat(parts[1..]) + part) == parts[0] + Concat(parts[1..]) + part;
    }
  }
}
