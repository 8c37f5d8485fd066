/**
  The record store the service talks to, as an abstract value: rows keyed by
  id, the order a full scan returns them in, and the next id the identity
  column will hand out. Ids are assigned in increasing order and never
  reused, so scan order is both insertion order and ascending-id order.
 */
module RecordStore {
  import opened Nullable
  import opened Entity

  predicate Increasing(xs: seq<int>) {
    forall i, j :: 0 <= i < j < |xs| ==> xs[i] < xs[j]
  }

  datatype Store = Store(rows: map<int, Employee>, order: seq<int>, nextId: int) {

    /** The representation invariant every store value keeps. */
    predicate Valid() {
      && (forall k :: k in rows ==> rows[k].id == NonNull(k) && k < nextId)
      && Increasing(order)
      && (forall i :: 0 <= i < |order| ==> order[i] in rows)
      && (forall k :: k in rows ==> k in order)
    }
  }

  /** A store with no rows; identity columns start at 1. */
  const Empty := Store(map[], [], 1)

  /** Some stored row has the given email (`findByEmail` returns non-null; a null email matches null). */
  predicate EmailTaken(s: Store, email: Nullable<string>) {
    exists k :: k in s.rows && s.rows[k].email == email
  }

  /** No two stored rows share an email. */
  predicate UniqueEmails(s: Store) {
    forall a, b :: a in s.rows && b in s.rows && a != b ==> s.rows[a].email != s.rows[b].email
  }

  /** `xs` without the element `x`. */
  function Without(xs: seq<int>, x: int): (r: seq<int>)
    ensures forall y :: y in r <==> y in xs && y != x
    ensures |r| <= |xs|
    ensures Increasing(xs) ==> Increasing(r)
  {
    if xs == [] then []
    else if xs[0] == x then Without(xs[1..], x)
    else
      var rest := Without(xs[1..], x);
      assert Increasing(xs) ==> Increasing([xs[0]] + rest) by {
        if Increasing(xs) {
          forall y | y in rest ensures xs[0] < y {
            var j :| 0 <= j < |xs| && xs[j] == y;
            assert j != 0;
          }
          assert Increasing(xs[1..]);
          var r := [xs[0]] + rest;
          forall i, j | 0 <= i < j < |r| ensures r[i] < r[j] {
            assert r[j] == rest[j - 1] && rest[j - 1] in rest;
            if i > 0 {
              assert r[i] == rest[i - 1];
            }
          }
        }
      }
      [xs[0]] + rest
  }

  /** Persists a new entity under the next identity value and returns that id with the new store. */
  function Insert(s: Store, e: Employee): (r: (int, Store))
    requires s.Valid()
    ensures r.1.Valid()
    ensures r.0 == s.nextId && r.0 !in s.rows
    ensures r.1.rows.Keys == s.rows.Keys + {r.0}
    ensures r.1.rows[r.0] == e.(id := NonNull(r.0))
    ensures forall k :: k in s.rows ==> r.1.rows[k] == s.rows[k]
    ensures r.1.order == s.order + [r.0]
  {
    var id := s.nextId;
    (id, Store(s.rows[id := e.(id := NonNull(id))], s.order + [id], id + 1))
  }

  /** Writes an existing row back with new field values under the same id. */
  function Replace(s: Store, e: Employee): (s': Store)
    requires s.Valid()
    requires e.id.NonNull? && e.id.value in s.rows
    ensures s'.Valid()
    ensures s'.rows.Keys == s.rows.Keys && s'.order == s.order && s'.nextId == s.nextId
    ensures s'.rows[e.id.value] == e
    ensures forall k :: k in s.rows && k != e.id.value ==> s'.rows[k] == s.rows[k]
  {
    s.(rows := s.rows[e.id.value := e])
  }

  /** Removes a row permanently; its id is not handed out again. */
  function Remove(s: Store, id: int): (s': Store)
    requires s.Valid()
    ensures s'.Valid()
    ensures s'.rows.Keys == s.rows.Keys - {id}
    ensures s'.nextId == s.nextId
    ensures forall k :: k in s'.rows ==> s'.rows[k] == s.rows[k]
    ensures forall k :: k in s'.order <==> k in s.order && k != id
  {
    var order := Without(s.order, id);
    assert forall i :: 0 <= i < |order| ==> order[i] in s.order && order[i] != id;
    Store(s.rows - {id}, order, s.nextId)
  }

  function Min(a: int, b: int): int {
    if a <= b then a else b
  }

  /** How many rows a page of `size` starting at scan position `offset` holds, out of `total`. */
  function PageLength(total: nat, offset: nat, size: nat): (n: nat)
    ensures n <= size && (n == 0 || offset + n <= total)
  {
    if offset >= total then 0 else Min(size, total - offset)
  }

  /** The scan position at which a 0-based page of `size` rows starts. */
  function Offset(pageIndex: nat, size: nat): nat {
    pageIndex * size
  }

  /** `findAll` with a 0-based page request: the rows at scan positions `Offset(pageIndex, size)` onward, at most `size` of them. */
  function FindAll(s: Store, pageIndex: nat, size: nat): (r: seq<Employee>)
    requires s.Valid()
    ensures |r| == PageLength(|s.order|, Offset(pageIndex, size), size)
    ensures forall i :: 0 <= i < |r| ==>
      s.order[Offset(pageIndex, size) + i] in s.rows && r[i] == s.rows[s.order[Offset(pageIndex, size) + i]]
  {
    var offset := Offset(pageIndex, size);
    var n := PageLength(|s.order|, offset, size);
    seq(n, i requires 0 <= i < n => s.rows[s.order[offset + i]])
  }
}
