/** Vocabulary shared by the server and client models: optional values and the
    HTTP status codes the Express handlers answer with. */
module Common {

  /** A value that may be absent: a missing request field, a null reference, an
      unset document field. */
  datatype Option<+T> = None | Some(value: T)

  const OK: nat := 200
  const Created: nat := 201
  const BadRequest: nat := 400
  const NotFound: nat := 404
  const ServerError: nat := 500

  /** JavaScript truthiness of an optional string: present and not "". */
  predicate Truthy(s: Option<string>)
  {
    s.Some? && s.value != ""
  }
}
