/**
 * The six failures the service raises and the boundary that turns each into an
 * HTTP error response (GlobalExceptionHandler).
 */
module Errors {

  /** One variant per exception class; each carries the exception's message. */
  datatype Failure =
    | DuplicateData(message: string)
    | NegativeValue(message: string)
    | NoRecord(message: string)
    | NullInput(message: string)
    | InvalidInput(message: string)
    | IdNotFound(message: string)

  /** The JSON error body: `{statusCode, error, message}`. */
  datatype ErrorStructure = ErrorStructure(statusCode: int, error: string, message: string)

  /** The HTTP status of the response together with its body. */
  datatype ErrorResponse = ErrorResponse(status: int, body: ErrorStructure)

  const BAD_REQUEST := 400
  const NOT_FOUND := 404
  const CONFLICT := 409

  /** The HTTP status each failure is answered with. */
  function StatusOf(f: Failure): int {
    match f
    case DuplicateData(_) => CONFLICT
    case NegativeValue(_) => BAD_REQUEST
    case NoRecord(_) => NOT_FOUND
    case NullInput(_) => BAD_REQUEST
    case InvalidInput(_) => BAD_REQUEST
    case IdNotFound(_) => NOT_FOUND
  }

  /** The short label put in the body's `error` field. */
  function LabelOf(f: Failure): string {
    match f
    case DuplicateData(_) => "Duplicate Data"
    case NegativeValue(_) => "Negative Value"
    case NoRecord(_) => "Data not found"
    case NullInput(_) => "Null Values"
    case InvalidInput(_) => "Invalid input"
    case IdNotFound(_) => "Invalid ID"
  }

  /**
   * The exception handlers, one per failure kind: every failure gets a client-error
   * status, the body repeats that status, and the message passes through unchanged.
   */
  function Handle(f: Failure): (r: ErrorResponse)
    ensures 400 <= r.status < 500
    ensures r.body.statusCode == r.status
    ensures r.body.message == f.message
    ensures r.status == CONFLICT <==> f.DuplicateData?
    ensures r.status == NOT_FOUND <==> f.NoRecord? || f.IdNotFound?
    ensures r.status == BAD_REQUEST <==> f.NegativeValue? || f.NullInput? || f.InvalidInput?
    ensures f.DuplicateData? ==> r.body.error == "Duplicate Data"
    ensures f.NegativeValue? ==> r.body.error == "Negative Value"
    ensures f.NoRecord? ==> r.body.error == "Data not found"
    ensures f.NullInput? ==> r.body.error == "Null Values"
    ensures f.InvalidInput? ==> r.body.error == "Invalid input"
    ensures f.IdNotFound? ==> r.body.error == "Invalid ID"
  {
    var status := StatusOf(f);
    ErrorResponse(status, ErrorStructure(status, LabelOf(f), f.message))
  }

  /** Same kind of failure: the handler that applies depends only on the kind. */
  predicate SameKind(f: Failure, g: Failure) {
    (f.DuplicateData? && g.DuplicateData?) || (f.NegativeValue? && g.NegativeValue?)
    || (f.NoRecord? && g.NoRecord?) || (f.NullInput? && g.NullInput?)
    || (f.InvalidInput? && g.InvalidInput?) || (f.IdNotFound? && g.IdNotFound?)
  }

  /**
   * A client can tell every failure kind apart from the body alone: the labels
   * of the six handlers are pairwise different, and apart from the message two
   * failures of the same kind get the same response.
   */
  lemma LabelIdentifiesKind(f: Failure, g: Failure)
    ensures Handle(f).body.error == Handle(g).body.error <==> SameKind(f, g)
    ensures SameKind(f, g) ==> Handle(f).status == Handle(g).status
    ensures SameKind(f, g) && f.message == g.message ==> Handle(f) == Handle(g)
  {
    match f
    case DuplicateData(_) => assert "Duplicate Data"[0] == 'D';
    case NegativeValue(_) => assert "Negative Value"[1] == 'e';
    case NoRecord(_) => assert "Data not found"[1] == 'a';
    case NullInput(_) => assert "Null Values"[0] == 'N';
    case InvalidInput(_) => assert "Invalid input"[2] == 'v';
    case IdNotFound(_) => assert "Invalid ID"[8] == 'I';
  }
}
