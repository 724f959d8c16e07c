/** Optional values, the error kinds of the document store, and the outcome of an operation. */
module Results {

  datatype Option<+T> = None | Some(value: T) {
    function GetOr(default: T): T {
      match this
      case Some(v) => v
      case None => default
    }
  }

  /** Every error value the store revisions return, one constructor per distinct error. */
  datatype Error =
    | CollectionAlreadyExists
    | CollectionNotFound
    | DocumentNotFound
    | NoDocuments                     // Lesson9 GetAll on a collection whose map was never made
    | MissingPrimaryKey(field: string)
    | InvalidKeyType
    | NonStringKey(field: string)     // tagged String but the value is not a string (Lesson11)
    | EmptyKey
    | IndexExists
    | IndexNotFound
    | UnsupportedDocumentField

  /** What a call produces: a value, a returned error, or a Go runtime panic. */
  datatype Result<+T> = Ok(value: T) | Err(error: Error) | Panic
}
