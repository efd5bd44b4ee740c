/** The Todo record and the values the repository hands back to its callers. */
module TodoModel {

  /** A point in time as the clock reports it; the model only compares times. */
  type Time = int

  /** One document of the `todo` table (keys id, title, description, created_at, updated_at). */
  datatype Todo = Todo(id: string, title: string, description: string, createdAt: Time, updatedAt: Time)

  /** The fields an update writes: title, description and updated_at. */
  datatype Patch = Patch(title: string, description: string, updatedAt: Time)

  datatype Error =
    | EmptyResult   // the cursor held no row at all
    | NotFound      // a count by id came back zero
    | StorageError  // the database refused the query or the driver failed

  datatype Option<T> = None | Some(value: T)

  datatype Result<T> = Ok(value: T) | Err(error: Error)

  /**
   * The title match `matches(title, keyword)` the database evaluates for a keyword pattern
   * is a parameter of the model: its semantics belong to the database. The one fact the
   * repository relies on is this one: the empty keyword matches every title.
   */
  ghost predicate EmptyKeywordMatchesAll(matches: (string, string) -> bool)
  {
    forall title :: matches(title, "")
  }
}
