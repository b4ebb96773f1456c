/** The data the quote service works on: the quote record, the in-memory store
    and the outcome of a request (a body, or an HTTP error with its detail). */
module Quotes {

  /** One record of the dataset: `{id, quote, author}`. */
  datatype Quote = Quote(id: int, quote: string, author: string)

  /** The store is loaded once at start-up and never changed afterwards, so
      every handler takes it as a value. */
  type Store = seq<Quote>

  /** What a handler produces: a 200 response with a body, or one of the two
      errors the service raises, each with its `detail` message. */
  datatype Response<T> =
    | Ok(value: T)
    | NotFound(detail: string)
    | InvalidArgument(detail: string)
  {
    /** The HTTP status code the framework sends for this outcome. */
    function StatusCode(): (code: int)
      ensures code == 200 <==> Ok?
      ensures code == 404 <==> NotFound?
      ensures code == 400 <==> InvalidArgument?
    {
      match this
      case Ok(_) => 200
      case NotFound(_) => 404
      case InvalidArgument(_) => 400
    }
  }

  const NoQuotesAvailable: string := "No quotes available"
  const CountMustBePositive: string := "Count must be greater than zero"
  const NoQuotesForAuthor: string := "No quotes found for author: "
}
