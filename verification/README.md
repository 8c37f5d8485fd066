# Employee service model

A Dafny model of the service layer of a small employee-management REST
service. The service keeps employee records in a relational store and offers
five operations: create (refused on a duplicate email), fetch by id, full-replace
update, delete, and paged listing. Its decisions are the email-uniqueness check
on create, the existence checks on fetch/update/delete, the mapping between the
request shape and the persisted entity, and the 1-based to 0-based page
translation. The model covers those decisions and proves what the service guarantees:
each error leaves the store unchanged, create keeps emails unique, and every
successful write changes only its target record. It also proves the
guarantee the service lacks: update can break email uniqueness.

Layout, one module per part of the program:

- `nullable.dfy` (`Nullable`): Java's nullable references as `Null | NonNull(value)`.
- `model.dfy` (`Model`): the request/response shape `EmployeeDto`, the listing
  slot `EmployeePageDto`, and the bean-validation rules (`@NotBlank` as
  `String.trim()` leaving something, `@Email` as a parameter predicate, `@NotNull`).
- `entity.dfy` (`Entity`): the persisted `Employee` row, which adds a nullable id
  that the store assigns.
- `mapper.dfy` (`Mapper`): explicit field copies in place of reflective mapping.
- `store.dfy` (`RecordStore`): the repository as a value. It holds rows keyed by id,
  the scan order, and the next identity value, with a representation invariant `Valid`.
- `employee_service.dfy` (`EmployeeService`): the five operations, with domain
  exceptions as the error variants `DuplicateResource` and `NotFound` of `Result`.
- `service_properties.dfy` (`ServiceProperties`): lemmas relating several calls.

Operations that write take a store and return a `Response`, which holds the result
and the store afterwards. Read-only operations return only the result. Every
operation that returns a store requires `Store.Valid()` and re-establishes it;
`GetEmployees` also requires it. `Valid` is the model's own representation invariant, not a
demand on callers. It says that each row's id is its key and is below the next
identity value, and that the scan order lists the stored ids in strictly
increasing order.

Decisions taken from the code:

- The service does not re-validate requests. The API layer applies the `EmployeeDTO`
  constraints. So no service operation requires `IsValid`, and null fields pass
  through the mapper like any other value.
- Create looks the email up with `findByEmail`. A derived query given a null email
  asks for `email IS NULL`, so the model compares nullable emails for equality.
- Listing hands `page - 1` and `size` to the store's page request. That request
  accepts only a non-negative index and a positive size. These bounds are the
  preconditions of `GetEmployees`. The cap of 100 on the size is applied by the
  controller, not the service, and is not required.
- Update is modelled as replacing the stored row. `updateEmployee` mutates the loaded
  entity and never calls `save`, so whether the change reaches the database depends
  on persistence-context state outside the model. This assumption is also written
  beside `EmployeeService.UpdateEmployee`.
- `EmployeeDTO.java:30-31` puts no range on the salary, so a negative salary is valid
  (`Model.SalaryUnconstrained`).
- A duplicate email raises `IllegalArgumentException` ("Employee already exists",
  `EmployeeServiceImpl.java:37`). It is modelled as `DuplicateResource`, kept separate
  from `NotFound`, which stands for `EmployeeNotFoundException` ("Employee not found",
  lines 49, 55 and 77). Each operation's contract states the message its error carries.

## Model

| member | source | states |
|---|---|---|
| Model.TrimNonEmptyIffHasText | employee-management/src/main/java/com/poc/employee_management/model/EmployeeDTO.java:17-28 | the `@NotBlank` test (trim leaves a non-empty string) holds exactly when some character is above U+0020 |
| Model.NotBlankMeans | employee-management/src/main/java/com/poc/employee_management/model/EmployeeDTO.java:17-18 | a field is not blank iff it is non-null and has a character above U+0020 (one `String.trim` keeps) |
| Model.ValidRequestFields | employee-management/src/main/java/com/poc/employee_management/model/EmployeeDTO.java:15-31 | a request is valid iff first name, last name, email and department are non-null with a character above U+0020 (one `String.trim` keeps), the email passes the email check, and the salary is non-null |
| Model.SalaryUnconstrained | employee-management/src/main/java/com/poc/employee_management/model/EmployeeDTO.java:30-31 | a valid request stays valid with any salary value, negative included: only presence is checked |
| Mapper.ToEntity | employee-management/src/main/java/com/poc/employee_management/service/impl/EmployeeServiceImpl.java:39 | the new entity has a null id and the request's five field values |
| Mapper.ToDto | employee-management/src/main/java/com/poc/employee_management/service/impl/EmployeeServiceImpl.java:47 | the outbound view carries the entity's five field values |
| Mapper.CopyOnto | employee-management/src/main/java/com/poc/employee_management/service/impl/EmployeeServiceImpl.java:57 | mapping a request onto an entity sets all five fields from the request and never changes the entity's id, since the request shape has no id |
| Mapper.RoundTrip | employee-management/src/main/java/com/poc/employee_management/service/impl/EmployeeServiceImpl.java:57-58 | mapping a request to an entity (new, or copied onto an existing one) and back yields the request unchanged |
| RecordStore.Insert | employee-management/src/main/java/com/poc/employee_management/service/impl/EmployeeServiceImpl.java:40 | saving a new entity stores it under an id not previously present, appends it to scan order, keeps every other row, and preserves the store invariant |
| RecordStore.Remove | employee-management/src/main/java/com/poc/employee_management/service/impl/EmployeeServiceImpl.java:79 | deleting by id removes exactly that key from the rows and the scan order, keeps every other row and the next identity value, and preserves the store invariant |
| RecordStore.FindAll | employee-management/src/main/java/com/poc/employee_management/service/impl/EmployeeServiceImpl.java:65 | a page request returns the rows at scan positions `index*size` onward, at most `size` of them, in scan order |
| EmployeeService.SaveEmployee | employee-management/src/main/java/com/poc/employee_management/service/impl/EmployeeServiceImpl.java:32-41 | fails with DuplicateResource ("Employee already exists"), store unchanged, iff some stored row has the email; otherwise adds exactly one row under a fresh id with the request's fields, keeps all other rows, and preserves email uniqueness |
| EmployeeService.GetEmployeeById | employee-management/src/main/java/com/poc/employee_management/service/impl/EmployeeServiceImpl.java:43-51 | fails with NotFound ("Employee not found") iff the id is absent; otherwise returns a view whose fields equal the stored row's |
| EmployeeService.UpdateEmployee | employee-management/src/main/java/com/poc/employee_management/service/impl/EmployeeServiceImpl.java:53-59 | fails with NotFound ("Employee not found"), store unchanged, iff the id is absent; otherwise overwrites all five fields, keeps the id, changes no other row, and returns a view equal to the request |
| EmployeeService.DeleteEmployee | employee-management/src/main/java/com/poc/employee_management/service/impl/EmployeeServiceImpl.java:75-80 | fails with NotFound ("Employee not found"), store unchanged, iff the id is absent; otherwise removes exactly that key, keeps every other row and the next identity value, and preserves email uniqueness |
| EmployeeService.WrapEach | employee-management/src/main/java/com/poc/employee_management/service/impl/EmployeeServiceImpl.java:67-70 | each entity becomes a slot holding a one-element list with that entity's view, in the same order and number |
| EmployeeService.GetEmployees | employee-management/src/main/java/com/poc/employee_management/service/impl/EmployeeServiceImpl.java:61-73 | requests 0-based page `page - 1` of `size`; element i is a one-element list holding the view of the row at scan position `(page-1)*size + i`, and the length is that page's share of the rows |
| ServiceProperties.SaveThenGet | employee-management/src/main/java/com/poc/employee_management/service/impl/EmployeeServiceImpl.java:32-51 | after a successful create, fetching the assigned id returns the request unchanged |
| ServiceProperties.SaveSameEmailTwice | employee-management/src/main/java/com/poc/employee_management/service/impl/EmployeeServiceImpl.java:34-38 | a second create with an email just created fails with DuplicateResource and leaves the row count one above the original |
| ServiceProperties.UpdateThenGet | employee-management/src/main/java/com/poc/employee_management/service/impl/EmployeeServiceImpl.java:53-58 | after an update, fetching the id returns exactly the request |
| ServiceProperties.UpdateMayDuplicateEmail | employee-management/src/main/java/com/poc/employee_management/service/impl/EmployeeServiceImpl.java:53-58 | updating a row with another row's email succeeds and leaves two rows sharing that email, so update does not preserve email uniqueness |
| ServiceProperties.UpdateBreaksUniquenessExample | employee-management/src/main/java/com/poc/employee_management/service/impl/EmployeeServiceImpl.java:53-58 | a concrete two-row store with unique emails loses that property after one successful update |
| ServiceProperties.DeleteThenGetAndDelete | employee-management/src/main/java/com/poc/employee_management/service/impl/EmployeeServiceImpl.java:75-80 | after a delete, fetching the id fails with NotFound, and a second delete fails with NotFound and changes nothing |
| ServiceProperties.DeletedIdNotReused | employee-management/src/main/java/com/poc/employee_management/service/impl/EmployeeServiceImpl.java:75-80 | after a delete, a successful create stores its row under an id different from the deleted one |
| ServiceProperties.ListEmptyStore | employee-management/src/main/java/com/poc/employee_management/service/impl/EmployeeServiceImpl.java:61-73 | listing an empty store gives an empty page for every page and size |
| ServiceProperties.ListSmallStore | employee-management/src/main/java/com/poc/employee_management/service/impl/EmployeeServiceImpl.java:61-73 | when all rows fit in one page, page 1 holds every row, in scan order, each wrapped alone |
| ServiceProperties.ListCoversEveryRow | employee-management/src/main/java/com/poc/employee_management/service/impl/EmployeeServiceImpl.java:63-70 | the row at scan position j is element `j % size` of page `j / size + 1` |

## Left out

- HTTP routing, status codes (201/200/204/404) and the controller's `@Positive` and `@Max(100)` checks on listing parameters: they belong to the web layer, not the service.
- The `@Email` syntax check: it is the parameter `isEmail` of `Model.IsValid`, because its regular expression lives in the validation library.
- Persistence machinery: transactions, how the identity column generates values, and storage failures. The store is a value, ids come from a counter starting at 1, and a failing store call has no counterpart. Ids are unbounded integers, so 64-bit overflow of the id is not modelled.
- `findByEmail` when the store already holds several rows with one email (it raises a result-size error): the model reports DuplicateResource for any matching row. Only an update can create such a state.
- Email comparison is exact. The database's collation, which may compare case-insensitively, is not modelled.
- Page envelope metadata (total elements, total pages) computed by the paging library: only the page index, the size and the content are modelled.
- Scan order without an explicit sort key is unspecified in the program. The model fixes it as ascending id, which for monotone identity values is insertion order.
- Concurrency: the check-then-insert race between two concurrent creates with one email.
- Salary is a `real` that is never computed on. Double rounding, NaN and infinities are not modelled.
- Null arguments: a null id or a null request makes the program throw (a dereference in `saveEmployee`, a rejected argument in the mapper or the repository). The controller never passes null, so ids are `int` and the request is a value.
- EmployeeService.UpdateEmployee: assumes the mutated entity is written back to the store. `updateEmployee` never calls `save` after mutating it, and whether the change persists depends on persistence-context state outside the model.
