/** Properties that relate several calls of the employee service. */
module ServiceProperties {
  import opened Nullable
  import opened Model
  import opened Mapper
  import opened RecordStore
  import opened EmployeeService

  /** A successful create is visible: fetching the assigned id returns the request unchanged. */
  lemma SaveThenGet(s: Store, dto: EmployeeDto)
    requires s.Valid()
    requires !EmailTaken(s, dto.email)
    ensures GetEmployeeById(SaveEmployee(s, dto).store, s.nextId) == Ok(dto)
  {
  }

  /** Creating twice with the same email: the second call is refused and no second row appears. */
  lemma SaveSameEmailTwice(s: Store, first: EmployeeDto, second: EmployeeDto)
    requires s.Valid()
    requires SaveEmployee(s, first).result.Ok?
    requires second.email == first.email
    ensures var s1 := SaveEmployee(s, first).store;
      && SaveEmployee(s1, second).result == Err(DuplicateResource)
      && SaveEmployee(s1, second).store == s1
      && |s1.rows| == |s.rows| + 1
  {
  }

  /** After an update, fetching the id returns exactly the request. */
  lemma UpdateThenGet(s: Store, dto: EmployeeDto, id: int)
    requires s.Valid()
    requires id in s.rows
    ensures GetEmployeeById(UpdateEmployee(s, dto, id).store, id) == Ok(dto)
  {
  }

  /**
    Update does not re-check email uniqueness: giving one row another row's
    email succeeds, and the store then holds two rows with that email.
   */
  lemma UpdateMayDuplicateEmail(s: Store, dto: EmployeeDto, id: int, other: int)
    requires s.Valid()
    requires id in s.rows && other in s.rows && id != other
    requires dto.email == s.rows[other].email
    ensures UpdateEmployee(s, dto, id).result == Ok(dto)
    ensures !UniqueEmails(UpdateEmployee(s, dto, id).store)
  {
  }

  /** A concrete store whose emails are unique before, and not after, one successful update. */
  lemma UpdateBreaksUniquenessExample()
    ensures var a := EmployeeDto(NonNull("Ann"), NonNull("Lee"), NonNull("a@x.io"), NonNull("IT"), NonNull(1.0));
      var b := EmployeeDto(NonNull("Bo"), NonNull("Kim"), NonNull("b@x.io"), NonNull("HR"), NonNull(2.0));
      var s := SaveEmployee(SaveEmployee(Empty, a).store, b).store;
      && UniqueEmails(s)
      && UpdateEmployee(s, a, 2).result.Ok?
      && !UniqueEmails(UpdateEmployee(s, a, 2).store)
  {
  }

  /** A deleted id can no longer be fetched, and deleting it again fails with not-found. */
  lemma DeleteThenGetAndDelete(s: Store, id: int)
    requires s.Valid()
    requires id in s.rows
    ensures var s1 := DeleteEmployee(s, id).store;
      && GetEmployeeById(s1, id) == Err(NotFound)
      && DeleteEmployee(s1, id).result == Err(NotFound)
      && DeleteEmployee(s1, id).store == s1
  {
  }

  /** Identity values are never reused: a create after a delete stores the new row under a different id. */
  lemma DeletedIdNotReused(s: Store, id: int, dto: EmployeeDto)
    requires s.Valid()
    requires id in s.rows
    ensures var s1 := DeleteEmployee(s, id).store;
      SaveEmployee(s1, dto).result.Ok? ==> s1.nextId != id && s1.nextId in SaveEmployee(s1, dto).store.rows
  {
  }

  /** Listing an empty store yields an empty page, whatever page is asked for. */
  lemma ListEmptyStore(page: int, size: int)
    requires page >= 1 && size >= 1
    ensures GetEmployees(Empty, page, size).content == []
  {
  }

  /**
    When every row fits in one page, the first page lists all of them, in
    scan order, each wrapped on its own.
   */
  lemma ListSmallStore(s: Store, size: int)
    requires s.Valid()
    requires 1 <= size && |s.order| <= size
    ensures |GetEmployees(s, 1, size).content| == |s.rows|
    ensures forall i :: 0 <= i < |s.order| ==>
      GetEmployees(s, 1, size).content[i] == EmployeePageDto([ToDto(s.rows[s.order[i]])])
  {
    KeysMatchOrder(s);
    var c := GetEmployees(s, 1, size).content;
    forall i | 0 <= i < |s.order|
      ensures c[i] == EmployeePageDto([ToDto(s.rows[s.order[i]])])
    {
      SameFieldsDetermineView(c[i].employees[0], ToDto(s.rows[s.order[i]]), s.rows[s.order[i]]);
      assert c[i].employees == [c[i].employees[0]];
    }
  }

  /** A valid store's scan order lists each stored id exactly once. */
  lemma KeysMatchOrder(s: Store)
    requires s.Valid()
    ensures |s.rows| == |s.order|
  {
    var ks := set i | 0 <= i < |s.order| :: s.order[i];
    forall k | k in s.rows ensures k in ks {
      var i :| 0 <= i < |s.order| && s.order[i] == k;
    }
    assert ks == s.rows.Keys;
    IncreasingCardinality(s.order);
  }

  /** A strictly increasing sequence has as many distinct elements as positions. */
  lemma {:induction false} IncreasingCardinality(xs: seq<int>)
    requires Increasing(xs)
    ensures |set i | 0 <= i < |xs| :: xs[i]| == |xs|
  {
    if xs != [] {
      var init := xs[..|xs| - 1];
      assert Increasing(init);
      IncreasingCardinality(init);
      var last := xs[|xs| - 1];
      var a := set i | 0 <= i < |init| :: init[i];
      var b := set i | 0 <= i < |xs| :: xs[i];
      assert b == a + {last} by {
        forall y | y in b ensures y in a + {last} {
          var i :| 0 <= i < |xs| && xs[i] == y;
          if i < |xs| - 1 {
            assert init[i] == y;
          }
        }
      }
      assert last !in a;
    }
  }

  /**
    Every stored row is listed exactly where paging puts it: the row at scan
    position `j` is element `j % size` of page `j / size + 1`.
   */
  lemma ListCoversEveryRow(s: Store, size: int, j: int)
    requires s.Valid()
    requires size >= 1 && 0 <= j < |s.order|
    ensures var c := GetEmployees(s, j / size + 1, size).content;
      && j % size < |c|
      && c[j % size].employees == [ToDto(s.rows[s.order[j]])]
  {
    var p := j / size + 1;
    assert Offset(p - 1, size) + j % size == j;
    var c := GetEmployees(s, p, size).content;
    assert j % size < |c|;
    SameFieldsDetermineView(c[j % size].employees[0], ToDto(s.rows[s.order[j]]), s.rows[s.order[j]]);
    assert c[j % size].employees == [c[j % size].employees[0]];
  }
}
