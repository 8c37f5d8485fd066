/** The persisted employee row (the `entity` package). */
module Entity {
  import opened Nullable
  import opened Model

  /**
    The id is null until the store assigns one on insertion; the other five
    fields mirror the request shape one for one.
   */
  datatype Employee = Employee(
    id: Nullable<int>,
    firstName: Nullable<string>,
    lastName: Nullable<string>,
    email: Nullable<string>,
    department: Nullable<string>,
    salary: Nullable<Salary>)
}
