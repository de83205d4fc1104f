/** The user-service's account record and the shape of an HTTP reply, shared
    by the account controllers. */
module Accounts {
  import opened Wrappers

  /** A stored account. `tempEmail` is an address awaiting verification;
      `passwordHash` is the bcrypt hash; `profileImage` is the default
      image's name or the extension of the uploaded file; `history` holds
      the ids of past attempts and `createdAt` the creation time in
      milliseconds. */
  datatype User = User(
    id: string,
    username: string,
    email: string,
    tempEmail: Option<string>,
    passwordHash: string,
    isVerified: bool,
    isAdmin: bool,
    profileImage: string,
    history: seq<string>,
    createdAt: nat)

  /** A status code and a message. */
  datatype Reply = Reply(status: nat, message: string)

  /** JavaScript truthiness of a string field that may be undefined. */
  predicate Present(s: Option<string>) {
    s.Some? && s.value != ""
  }
}
