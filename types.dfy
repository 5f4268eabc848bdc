/** The records the display helpers receive: a user as the frontend sees it,
    and a content record (album or quote) that carries its owner. */
module Types {

  datatype Option<T> = None | Some(value: T)

  /** A user's display fields. The empty string stands for a field that is
      absent as well as for one that is empty: the helpers only ever test
      these fields for truthiness, and both are falsy. */
  datatype User = User(
    email: string,
    firstName: string,
    username: string,
    lastName: string,
    dateOfBirth: string)

  /** An album or a quote, reduced to the one thing the helpers read of it. */
  datatype Owned = Owned(owner: User)
}
