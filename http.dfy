/**
 * What a handler sends back: a status with a JSON body, a status with a
 * `ResponseError` code, or a panic that the recover middleware turns into a
 * bare 500.
 */
module Http {

  const StatusOK := 200
  const StatusCreated := 201
  const StatusBadRequest := 400
  const StatusNotFound := 404
  const StatusInternalServerError := 500

  /** The `code` field of a `ResponseError`. */
  datatype ErrorCode =
    | ToyNotFound
    | ExchangeNotFound
    | InvalidArgument
    | InvalidCursor
    | ErrorSaveFile
    | InvalidCreateToy
    | InvalidUpdateToyStatus
    | InvalidUpdateToy
    | InvalidToysList
    | InvalidExchangeList
    | InvalidGetExchange
    | InvalidUpdateExchangeStatus
  {
    /** The text a client receives. */
    function Text(): string
    {
      match this
      case ToyNotFound => "Toy not found"
      case ExchangeNotFound => "Exchange not found"
      case InvalidArgument => "Invalid argument"
      case InvalidCursor => "Invalid cursor"
      case ErrorSaveFile => "File is not save"
      case InvalidCreateToy => "Invalid create toy"
      case InvalidUpdateToyStatus => "Invalid update toy status"
      case InvalidUpdateToy => "Invalid update toy"
      case InvalidToysList => "Invalid toys list"
      case InvalidExchangeList => "Invalid exchange list"
      case InvalidGetExchange => "Invalid get exchange"
      case InvalidUpdateExchangeStatus => "Invalid update exchange status"
    }
  }

  datatype Response<T> =
    | Reply(status: int, body: T)
    | Refuse(status: int, code: ErrorCode)
    | Crash
}
