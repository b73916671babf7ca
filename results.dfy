/** Outcomes of the service layer: a value, or the kind of exception a
    service method raises before touching the stores. */
module Results {

  datatype Option<+T> = None | Some(value: T)

  /** The entity a NotFound exception names ("Media not found", ...). */
  datatype Entity = MediaEntity | PostEntity | PublicationEntity

  /** A service method either returns a value or raises one of the HTTP
      exceptions the services throw. */
  datatype Result<+T> =
    | Ok(value: T)
    | NotFound(entity: Entity)
    | Conflict
    | Forbidden
    | BadRequest
}
