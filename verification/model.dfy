/**
  The request/response shape of the service (the `model` package): the five
  client-supplied fields of an employee, the one-element wrapper used in
  listings, and the bean-validation rules a request must satisfy before the
  API layer hands it to the service.
 */
module Model {
  import opened Nullable

  /** A Java `Double` that the service only stores and copies, never computes on. */
  type Salary = real

  datatype EmployeeDto = EmployeeDto(
    firstName: Nullable<string>,
    lastName: Nullable<string>,
    email: Nullable<string>,
    department: Nullable<string>,
    salary: Nullable<Salary>)

  /** One listing slot: a list that always holds exactly one employee view. */
  datatype EmployeePageDto = EmployeePageDto(employees: seq<EmployeeDto>)

  /** `String.trim` strips every leading and trailing code unit at or below U+0020. */
  predicate Trimmable(c: char) {
    c <= ' '
  }

  /** Drops leading trimmable characters. */
  function TrimStart(s: string): (r: string)
    ensures |r| <= |s| && r == s[|s| - |r|..]
    ensures forall i :: 0 <= i < |s| - |r| ==> Trimmable(s[i])
    ensures |r| > 0 ==> !Trimmable(r[0])
  {
    if |s| > 0 && Trimmable(s[0]) then TrimStart(s[1..]) else s
  }

  /** Drops trailing trimmable characters. */
  function TrimEnd(s: string): (r: string)
    ensures |r| <= |s| && r == s[..|r|]
    ensures forall i :: |r| <= i < |s| ==> Trimmable(s[i])
    ensures |r| > 0 ==> !Trimmable(r[|r| - 1])
  {
    if |s| > 0 && Trimmable(s[|s| - 1]) then TrimEnd(s[..|s| - 1]) else s
  }

  /** Java's `String.trim()`. */
  function Trim(s: string): string {
    TrimEnd(TrimStart(s))
  }

  /** `@NotBlank`: not null, and non-empty once trimmed. */
  predicate NotBlank(s: Nullable<string>) {
    s.NonNull? && |Trim(s.value)| > 0
  }

  /**
    The constraints declared on the request's fields. The syntax check of
    `@Email` is not modelled: it is the parameter `isEmail`, applied only to a
    non-null address (the annotation accepts null, which `@NotBlank` rejects).
   */
  predicate IsValid(dto: EmployeeDto, isEmail: string -> bool) {
    && NotBlank(dto.firstName)
    && NotBlank(dto.lastName)
    && NotBlank(dto.email) && isEmail(dto.email.value)
    && NotBlank(dto.department)
    && dto.salary.NonNull?
  }

  /** A string has some character that `trim` would keep. */
  predicate HasText(s: string) {
    exists i :: 0 <= i < |s| && !Trimmable(s[i])
  }

  /** Trimming leaves something exactly when some character is above U+0020 (one `String.trim` keeps). */
  lemma TrimNonEmptyIffHasText(s: string)
    ensures |Trim(s)| > 0 <==> HasText(s)
  {
  }

  /** `@NotBlank` holds of a field exactly when it is non-null and has a character above U+0020 (one `String.trim` keeps). */
  lemma NotBlankMeans(s: Nullable<string>)
    ensures NotBlank(s) <==> s.NonNull? && HasText(s.value)
  {
  }

  /** What a valid request guarantees about each of its five fields, and nothing more. */
  lemma ValidRequestFields(dto: EmployeeDto, isEmail: string -> bool)
    ensures IsValid(dto, isEmail) <==>
      && dto.firstName.NonNull? && HasText(dto.firstName.value)
      && dto.lastName.NonNull? && HasText(dto.lastName.value)
      && dto.email.NonNull? && HasText(dto.email.value) && isEmail(dto.email.value)
      && dto.department.NonNull? && HasText(dto.department.value)
      && dto.salary.NonNull?
  {
  }

  /** No range is imposed on the salary: any value, negative included, keeps a valid request valid. */
  lemma SalaryUnconstrained(dto: EmployeeDto, isEmail: string -> bool, salary: Salary)
    requires IsValid(dto, isEmail)
    ensures IsValid(dto.(salary := NonNull(salary)), isEmail)
  {
  }
}
