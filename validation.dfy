/** What the ASP.NET validation attributes of the core see and answer: the
    value handed to `IsValid`, the uploaded file it may be, and a
    `ValidationResult`. */
module Validation {

  /** The parts of an `IFormFile` the validators read. */
  datatype FormFile = FormFile(fileName: string, contentType: string, length: int)

  /** The `object value` given to `IsValid`, by its run-time type. */
  datatype Value =
    | Null
    | File(file: FormFile)
    | Bool(flag: bool)
    | Str(text: string)
    | Other

  /** `ValidationResult.Success`, or a result carrying an error message. */
  datatype ValidationResult = Success | Failure(message: string)
}
