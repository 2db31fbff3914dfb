/** Types shared by every part of the model. */
module Common {

  /** A ULID in its text form; the model only ever compares ids for equality. */
  type Id = string

  datatype Option<+T> = None | Some(value: T)

  datatype Result<+T, +E> = Ok(value: T) | Err(error: E)

  predicate IsDigit(c: char) {
    '0' <= c <= '9'
  }

  /** The rows of a finite query result, in an order the store is free to choose. */
  method RowsOf<T(==)>(rows: set<T>) returns (list: seq<T>)
    ensures forall x :: x in list <==> x in rows
    ensures forall i, j :: 0 <= i < j < |list| ==> list[i] != list[j]
  {
    list := [];
    var left := rows;
    while left != {}
      invariant left <= rows
      invariant forall x :: x in list <==> x in rows - left
      invariant forall i, j :: 0 <= i < j < |list| ==> list[i] != list[j]
      decreases |left|
    {
      var x :| x in left;
      ghost var before := list;
      assert x !in before;
      left := left - {x};
      list := list + [x];
      assert forall y :: y in list <==> y in before || y == x;
    }
  }

  // ----- ORDER BY id -----

  predicate IdBefore(a: Id, b: Id) {
    b != [] && (a == [] || a[0] < b[0] || (a[0] == b[0] && IdBefore(a[1..], b[1..])))
  }

  /** A strict total order. */
  lemma {:induction false} IdsAreOrdered(a: Id, b: Id, c: Id)
    ensures IdBefore(a, b) ==> a != b && !IdBefore(b, a)
    ensures a != b ==> IdBefore(a, b) || IdBefore(b, a)
    ensures IdBefore(a, b) && IdBefore(b, c) ==> IdBefore(a, c)
  {
    if a != [] && b != [] && a[0] == b[0] {
      assert a == [a[0]] + a[1..] && b == [b[0]] + b[1..];
      IdsAreOrdered(a[1..], b[1..], if c == [] then [] else c[1..]);
    }
  }

  /** After `k` equal characters, `a` ends or its next character is the smaller one. */
  predicate ComesFirstAt(a: Id, b: Id, k: nat) {
    k <= |a| && k < |b| && a[..k] == b[..k] && (k == |a| || a[k] < b[k])
  }

  /** A proper prefix comes first; otherwise the smaller character where the two first differ. */
  lemma {:induction false} IdBeforeIff(a: Id, b: Id)
    ensures IdBefore(a, b) <==> exists k: nat :: ComesFirstAt(a, b, k)
  {
    if a != [] && b != [] && a[0] == b[0] {
      IdBeforeIff(a[1..], b[1..]);
      if k: nat :| ComesFirstAt(a, b, k) {
        assert a[1..][..k - 1] == a[..k][1..] && b[1..][..k - 1] == b[..k][1..];
        assert ComesFirstAt(a[1..], b[1..], k - 1);
      }
      if k: nat :| ComesFirstAt(a[1..], b[1..], k) {
        assert a[..k + 1] == [a[0]] + a[1..][..k] && b[..k + 1] == [b[0]] + b[1..][..k];
        assert ComesFirstAt(a, b, k + 1);
      }
    } else if IdBefore(a, b) {
      assert ComesFirstAt(a, b, 0);
    }
  }

  predicate IsFirst(rows: set<Id>, x: Id) {
    x in rows && forall y :: y in rows && y != x ==> IdBefore(x, y)
  }

  lemma {:induction false} FirstExists(rows: set<Id>)
    requires rows != {}
    ensures exists x :: IsFirst(rows, x)
  {
    var z :| z in rows;
    if rows == {z} {
      assert IsFirst(rows, z);
    } else {
      FirstExists(rows - {z});
      var x :| IsFirst(rows - {z}, x);
      var first := if IdBefore(x, z) then x else z;
      forall y | y in rows && y != first
        ensures IdBefore(first, y)
      {
        IdsAreOrdered(x, z, y);
        IdsAreOrdered(z, x, y);
      }
      assert IsFirst(rows, first);
    }
  }

  ghost predicate Ascending(list: seq<Id>) {
    forall i, j :: 0 <= i < j < |list| ==> IdBefore(list[i], list[j])
  }

  /** The rows of a query result ordered by id. */
  method RowsById(rows: set<Id>) returns (list: seq<Id>)
    ensures forall x :: x in list <==> x in rows
    ensures Ascending(list)
  {
    list := [];
    var left := rows;
    while left != {}
      invariant left <= rows
      invariant forall x :: x in list <==> x in rows - left
      invariant forall i, y :: 0 <= i < |list| && y in left ==> IdBefore(list[i], y)
      invariant Ascending(list)
      decreases |left|
    {
      FirstExists(left);
      var x :| IsFirst(left, x);
      ghost var before := list;
      left := left - {x};
      list := list + [x];
      assert forall y :: y in list <==> y in before || y == x;
    }
  }
}
