/** Identities and the optional-value wrapper shared by every part of the model. */
module Common {

  /** The acting user. Users live in the authentication layer; the core knows them by key only. */
  type UserId = nat

  /** A nullable reference or an absent query result. */
  datatype Option<+T> = None | Some(value: T)
}
