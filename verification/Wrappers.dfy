/** What several modules share: nullable values, identifiers, and facts about finite sets and maps. */
module Wrappers {
  /** The nullable column and the missing dictionary key of the source. */
  datatype Option<+T> = None | Some(value: T)

  /** Identifiers carry nothing but their identity and order. */
  type Uuid = nat

  ghost predicate Extends<K(!new), V>(old_: map<K, V>, new_: map<K, V>) {
    forall k | k in old_ :: k in new_ && new_[k] == old_[k]
  }

  /** One element moves from what is left to what is done. */
  lemma MoveOver<T>(all: set<T>, left: set<T>, done: set<T>, x: T)
    requires done == all - left && x in left && left <= all
    ensures done + {x} == all - (left - {x})
  {
  }

  lemma {:induction false} SubsetSize<T>(a: set<T>, b: set<T>)
    requires a <= b
    ensures |a| <= |b|
  {
    if a != {} {
      var x :| x in a;
      SubsetSize(a - {x}, b - {x});
    }
  }

  lemma {:induction false} FreshBound(used: set<Uuid>) returns (bound: Uuid)
    ensures forall id | id in used :: id < bound
  {
    bound := 0;
    if used != {} {
      var x :| x in used;
      var b := FreshBound(used - {x});
      bound := if b > x then b else x + 1;
      assert forall id | id in used :: id == x || id in used - {x};
    }
  }

  /** `gen_random_uuid()` and `uuid4()`: some id that is not in use. */
  method NewUuid(used: set<Uuid>) returns (id: Uuid)
    ensures id !in used
  {
    ghost var bound := FreshBound(used);
    assert bound !in used;
    id :| id !in used;
  }
}
