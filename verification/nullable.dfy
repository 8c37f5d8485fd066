/** A Java object reference that may be null. */
module Nullable {

  datatype Nullable<+T> = Null | NonNull(value: T)
}
