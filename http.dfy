/** The status-tagged JSON responses the handlers send. */
module Http {

  const OK: nat := 200
  const CREATED: nat := 201
  const FORBIDDEN: nat := 403
  const NOT_FOUND: nat := 404

  /** A response: a status with a JSON payload, or a status with `{ message }`. */
  datatype Response<T> = Ok(status: nat, body: T) | Err(status: nat, message: string)
}
