/**
 * The list operations both frontend hooks perform on records carrying a
 * string id: append a new record, rewrite the records with a given id
 * (`list.map(x => x.id === id ? {...x, ...updates} : x)`) and drop them
 * (`list.filter(x => x.id !== id)`). `idOf` reads a record's id.
 */
module IdLists {

  /** `[...xs, x]` */
  function Add<T>(xs: seq<T>, x: T): (r: seq<T>)
    ensures |r| == |xs| + 1 && r[|xs|] == x
    ensures forall i | 0 <= i < |xs| :: r[i] == xs[i]
  {
    xs + [x]
  }

  /** `xs.map(x => idOf(x) === id ? change(x) : x)` */
  function Update<T>(xs: seq<T>, idOf: T -> string, id: string, change: T -> T): (r: seq<T>)
    ensures |r| == |xs|
    ensures forall i | 0 <= i < |xs| && idOf(xs[i]) != id :: r[i] == xs[i]
    ensures forall i | 0 <= i < |xs| && idOf(xs[i]) == id :: r[i] == change(xs[i])
  {
    if |xs| == 0 then []
    else [if idOf(xs[0]) == id then change(xs[0]) else xs[0]] + Update(xs[1..], idOf, id, change)
  }

  /** `xs.filter(x => idOf(x) !== id)` */
  function Remove<T>(xs: seq<T>, idOf: T -> string, id: string): (r: seq<T>)
    ensures |r| <= |xs|
    ensures forall i | 0 <= i < |r| :: r[i] in xs && idOf(r[i]) != id
    ensures forall i | 0 <= i < |xs| && idOf(xs[i]) != id :: xs[i] in r
  {
    if |xs| == 0 then []
    else (if idOf(xs[0]) == id then [] else [xs[0]]) + Remove(xs[1..], idOf, id)
  }

  /** Filtering a concatenation filters each part, so the kept records stay in their order. */
  lemma {:induction false} RemoveAppend<T>(a: seq<T>, b: seq<T>, idOf: T -> string, id: string)
    ensures Remove(a + b, idOf, id) == Remove(a, idOf, id) + Remove(b, idOf, id)
  {
    if |a| > 0 {
      assert (a + b)[0] == a[0];
      assert (a + b)[1..] == a[1..] + b;
      RemoveAppend(a[1..], b, idOf, id);
    } else {
      assert a + b == b;
    }
  }

  /** Removing an id no record carries changes nothing. */
  lemma {:induction false} RemoveAbsent<T>(xs: seq<T>, idOf: T -> string, id: string)
    requires forall i | 0 <= i < |xs| :: idOf(xs[i]) != id
    ensures Remove(xs, idOf, id) == xs
  {
    if |xs| > 0 {
      RemoveAbsent(xs[1..], idOf, id);
      assert [xs[0]] + xs[1..] == xs;
    }
  }

  /** Removing an id twice is removing it once. */
  lemma RemoveIdempotent<T>(xs: seq<T>, idOf: T -> string, id: string)
    ensures Remove(Remove(xs, idOf, id), idOf, id) == Remove(xs, idOf, id)
  {
    var r := Remove(xs, idOf, id);
    RemoveAbsent(r, idOf, id);
  }

  /** Adding a record and then removing its id is removing that id from the old list. */
  lemma AddThenRemove<T>(xs: seq<T>, x: T, idOf: T -> string)
    ensures Remove(Add(xs, x), idOf, idOf(x)) == Remove(xs, idOf, idOf(x))
  {
    RemoveAppend(xs, [x], idOf, idOf(x));
    assert Remove([x], idOf, idOf(x)) == [];
  }

  /** Rewriting the records with an id and then dropping that id is just dropping it. */
  lemma {:induction false} UpdateThenRemove<T>(xs: seq<T>, idOf: T -> string, id: string, change: T -> T)
    requires forall x :: idOf(change(x)) == idOf(x)
    ensures Remove(Update(xs, idOf, id, change), idOf, id) == Remove(xs, idOf, id)
  {
    if |xs| > 0 {
      var u := Update(xs, idOf, id, change);
      assert u[1..] == Update(xs[1..], idOf, id, change);
      UpdateThenRemove(xs[1..], idOf, id, change);
    }
  }

  /** A change that keeps ids keeps the id of every position. */
  lemma UpdateKeepsIds<T>(xs: seq<T>, idOf: T -> string, id: string, change: T -> T)
    requires forall x :: idOf(change(x)) == idOf(x)
    ensures var r := Update(xs, idOf, id, change);
            forall i | 0 <= i < |xs| :: idOf(r[i]) == idOf(xs[i])
  {
  }
}
