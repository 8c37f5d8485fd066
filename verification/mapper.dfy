/**
  Hand-written field copies between the request shape and the entity, in
  place of the reflective property mapper: fields are matched by name, null
  values are copied like any other, and the entity's id, which the request
  shape does not have, is never written from a request.
 */
module Mapper {
  import opened Nullable
  import opened Model
  import opened Entity

  /** The five shared fields of a view and an entity agree. */
  predicate SameFields(dto: EmployeeDto, e: Employee) {
    && dto.firstName == e.firstName
    && dto.lastName == e.lastName
    && dto.email == e.email
    && dto.department == e.department
    && dto.salary == e.salary
  }

  /** A fresh entity built from a request; the store has not assigned an id yet. */
  function ToEntity(dto: EmployeeDto): (e: Employee)
    ensures e.id == Null
    ensures SameFields(dto, e)
  {
    Employee(Null, dto.firstName, dto.lastName, dto.email, dto.department, dto.salary)
  }

  /** The outbound view of an entity; the id is dropped. */
  function ToDto(e: Employee): (dto: EmployeeDto)
    ensures SameFields(dto, e)
  {
    EmployeeDto(e.firstName, e.lastName, e.email, e.department, e.salary)
  }

  /** Overwrites every field of an existing entity from a request; the id is kept. */
  function CopyOnto(dto: EmployeeDto, e: Employee): (e': Employee)
    ensures e'.id == e.id
    ensures SameFields(dto, e')
  {
    e.(firstName := dto.firstName, lastName := dto.lastName, email := dto.email,
       department := dto.department, salary := dto.salary)
  }

  /** An entity determines its view: any two views whose fields agree with it are equal. */
  lemma SameFieldsDetermineView(d1: EmployeeDto, d2: EmployeeDto, e: Employee)
    requires SameFields(d1, e) && SameFields(d2, e)
    ensures d1 == d2
  {
  }

  /** Mapping a request to an entity and back loses and changes nothing. */
  lemma RoundTrip(dto: EmployeeDto, e: Employee)
    ensures ToDto(ToEntity(dto)) == dto
    ensures ToDto(CopyOnto(dto, e)) == dto
  {
  }
}
