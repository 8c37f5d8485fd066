/**
  The employee service: create, fetch, full-replace update, delete and paged
  listing over the record store. Each operation that may change the store
  takes the store and returns its outcome together with the store it leaves
  behind; read-only operations take the store and return only the outcome.
  Domain exceptions become the error variants of `Result`.
 */
module EmployeeService {
  import opened Nullable
  import opened Model
  import opened Entity
  import opened Mapper
  import opened RecordStore

  /** The service's two domain errors: the argument exception on a duplicate email, and the not-found exception. */
  datatype Error = DuplicateResource | NotFound

  /** The fixed text each error carries to the caller. */
  function Message(e: Error): string {
    match e
    case DuplicateResource => "Employee already exists"
    case NotFound => "Employee not found"
  }

  datatype Result<+T> = Ok(value: T) | Err(error: Error)

  /** An operation's outcome and the store after it. */
  datatype Response<+T> = Response(result: Result<T>, store: Store)

  /** A page of results: the 0-based page index asked of the store, the page size, and the elements in scan order. */
  datatype Page<+T> = Page(number: nat, size: nat, content: seq<T>)

  /** `saveEmployee`: refuses a request whose email is already stored, otherwise inserts it under a fresh id. */
  function SaveEmployee(s: Store, dto: EmployeeDto): (r: Response<()>)
    requires s.Valid()
    ensures r.store.Valid()
    ensures r.result.Ok? <==> !EmailTaken(s, dto.email)
    ensures r.result.Err? ==>
      && r.result.error == DuplicateResource && Message(r.result.error) == "Employee already exists"
      && r.store == s
    ensures r.result.Ok? ==>
      && s.nextId !in s.rows
      && r.store.rows.Keys == s.rows.Keys + {s.nextId}
      && r.store.rows[s.nextId].id == NonNull(s.nextId)
      && SameFields(dto, r.store.rows[s.nextId])
      && (forall k :: k in s.rows ==> r.store.rows[k] == s.rows[k])
      && r.store.order == s.order + [s.nextId]
    ensures UniqueEmails(s) ==> UniqueEmails(r.store)
  {
    if EmailTaken(s, dto.email) then
      Response(Err(DuplicateResource), s)
    else
      var (_, s') := Insert(s, ToEntity(dto));
      Response(Ok(()), s')
  }

  /** `getEmployeeByEmployeeId`: the view of the stored row, or not-found. */
  function GetEmployeeById(s: Store, id: int): (r: Result<EmployeeDto>)
    ensures r.Ok? <==> id in s.rows
    ensures r.Err? ==> r.error == NotFound && Message(r.error) == "Employee not found"
    ensures r.Ok? ==> SameFields(r.value, s.rows[id])
  {
    if id in s.rows then Ok(ToDto(s.rows[id])) else Err(NotFound)
  }

  /**
    `updateEmployee`: overwrites every field of the stored row from the
    request and returns the view of the updated row. The email is not checked
    against other rows.

    Modelling assumption: `updateEmployee` mutates the loaded entity and never
    saves it explicitly, so whether the change reaches the database depends
    on persistence-context state that is not part of this model. The model
    gives the intended semantics: the updated row replaces the stored one.
   */
  function UpdateEmployee(s: Store, dto: EmployeeDto, id: int): (r: Response<EmployeeDto>)
    requires s.Valid()
    ensures r.store.Valid()
    ensures r.result.Ok? <==> id in s.rows
    ensures r.result.Err? ==>
      && r.result.error == NotFound && Message(r.result.error) == "Employee not found"
      && r.store == s
    ensures r.result.Ok? ==>
      && r.result.value == dto
      && r.store.rows.Keys == s.rows.Keys
      && r.store.rows[id].id == NonNull(id)
      && SameFields(dto, r.store.rows[id])
      && (forall k :: k in s.rows && k != id ==> r.store.rows[k] == s.rows[k])
      && r.store.order == s.order && r.store.nextId == s.nextId
  {
    if id !in s.rows then
      Response(Err(NotFound), s)
    else
      var e := CopyOnto(dto, s.rows[id]);
      RoundTrip(dto, s.rows[id]);
      Response(Ok(ToDto(e)), Replace(s, e))
  }

  /** `deleteEmployee`: removes the row, or fails with not-found when there is none. */
  function DeleteEmployee(s: Store, id: int): (r: Response<()>)
    requires s.Valid()
    ensures r.store.Valid()
    ensures r.result.Ok? <==> id in s.rows
    ensures r.result.Err? ==>
      && r.result.error == NotFound && Message(r.result.error) == "Employee not found"
      && r.store == s
    ensures r.result.Ok? ==>
      && r.store.rows.Keys == s.rows.Keys - {id}
      && r.store.nextId == s.nextId
      && (forall k :: k in r.store.rows ==> r.store.rows[k] == s.rows[k])
      && (forall k :: k in r.store.order <==> k in s.order && k != id)
    ensures UniqueEmails(s) ==> UniqueEmails(r.store)
  {
    if id !in s.rows then Response(Err(NotFound), s) else Response(Ok(()), Remove(s, id))
  }

  /** Each entity as its view, alone in a one-element list. */
  function WrapEach(entities: seq<Employee>): (r: seq<EmployeePageDto>)
    ensures |r| == |entities|
    ensures forall i :: 0 <= i < |r| ==> |r[i].employees| == 1 && SameFields(r[i].employees[0], entities[i])
  {
    if entities == [] then [] else [EmployeePageDto([ToDto(entities[0])])] + WrapEach(entities[1..])
  }

  /**
    `getEmployees`: asks the store for 0-based page `page - 1` of `size`
    rows and wraps each row's view in its own one-element list. The store's
    page request accepts only a non-negative index and a positive size.
   */
  function GetEmployees(s: Store, page: int, size: int): (r: Page<EmployeePageDto>)
    requires s.Valid()
    requires page >= 1 && size >= 1
    ensures r.number == page - 1 && r.size == size
    ensures |r.content| <= size
    ensures |r.content| == PageLength(|s.order|, Offset(page - 1, size), size)
    ensures forall i :: 0 <= i < |r.content| ==>
      && s.order[Offset(page - 1, size) + i] in s.rows
      && |r.content[i].employees| == 1
      && SameFields(r.content[i].employees[0], s.rows[s.order[Offset(page - 1, size) + i]])
  {
    var offset := Offset(page - 1, size);
    var entities := FindAll(s, page - 1, size);
    var content := WrapEach(entities);
    assert forall i :: 0 <= i < |content| ==>
      s.order[offset + i] in s.rows && entities[i] == s.rows[s.order[offset + i]];
    Page(page - 1, size, content)
  }
}
