/** The `User` record the component keeps in its list. */
module Records {

  /** Ids are the millisecond timestamps `Date.now()` returned when the record was added. */
  type UserId = int

  datatype User = User(id: UserId, name: string, email: string)
}
