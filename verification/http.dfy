/** The HTTP status codes the bookstore handlers answer with. */
module Http {

  datatype Status = Ok200 | AlreadyReported208 | BadRequest400 | NotFound404 | Conflict409
  {
    /** The numeric code sent on the wire. */
    function Code(): (code: int)
      ensures 200 <= code < 500
      ensures code < 300 <==> this in {Ok200, AlreadyReported208}
    {
      match this
      case Ok200 => 200
      case AlreadyReported208 => 208
      case BadRequest400 => 400
      case NotFound404 => 404
      case Conflict409 => 409
    }
  }
}
