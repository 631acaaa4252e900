/** The domain record of the member registry. */
module Domain {

  /**
   * A member: an identifier assigned by the repository when the member is
   * saved, and a display name supplied by the caller. Java's `Member` is a
   * mutable bean; here it is a value, and saving yields a copy with the id set.
   */
  datatype Member = Member(id: int, name: string)

  /**
   * The one business error: a member with the same name is already stored
   * (an `IllegalStateException` with the message "member already exists").
   */
  datatype JoinError = DuplicateMember
}
