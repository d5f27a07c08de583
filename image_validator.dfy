/** `ImageValidatorAttribute` (namespace `ExtendAllTheThings.CustomValidators`): an optional or required image
    upload of at most 8 MB with one of four web-friendly content types. */
module ImageValidator {
  import opened Common
  import opened Validation

  /** The accepted content types, compared exactly. */
  const ContentTypes: seq<string> := ["image/jpeg", "image/jpg", "image/png", "image/gif"]

  /** The size limit `IsValid` passes on: 8 MB. */
  const MaximumImageSize: int := 1024 * 1024 * 8

  const RequiredMessage: string := "You must upload an image."

  /** `FileIsWebFriendlyImage(image)`: the content type is one of the list. */
  function FileIsWebFriendlyImage(image: FormFile): (r: bool)
    ensures r <==> exists i :: 0 <= i < |ContentTypes| && ContentTypes[i] == image.contentType
  {
    image.contentType in ContentTypes
  }

  /** `FileIsWebFriendlyImage(image, size)`: the file is no longer than `size`
      and of a web-friendly type. */
  function FileIsWebFriendlyImageWithin(image: FormFile, size: int): (r: bool)
    ensures r ==> image.length <= size
    ensures image.length <= size ==> (r <==> FileIsWebFriendlyImage(image))
  {
    image.length <= size && FileIsWebFriendlyImage(image)
  }

  /** The answer of `IsValid(value)` for a given `Required` setting: null
      passes unless an image is required; a file passes within 8 MB and with a
      listed type; any other value fails the cast to `IFormFile`. */
  function Decide(required: bool, value: Value): (r: Result<bool>)
    ensures value.Null? ==> r == Ok(!required)
    ensures value.File? ==> r.Ok? && (r.value <==> value.file.length <= MaximumImageSize
                                                   && FileIsWebFriendlyImage(value.file))
    ensures !value.Null? && !value.File? ==> r == Throw(InvalidCast)
  {
    match value
    case Null => Ok(!required)
    case File(image) => Ok(FileIsWebFriendlyImageWithin(image, MaximumImageSize))
    case _ => Throw(InvalidCast)
  }

  class ImageValidatorAttribute {
    /** `Required`. */
    var required: bool
    /** `ErrorMessage`, null until set. */
    var errorMessage: NullableString

    constructor ()
      ensures !required && errorMessage == None
    {
      required := false;
      errorMessage := None;
    }

    /** `IsValid(value)`: answers as `Decide` does and records the "must upload"
        message only when a required image is missing. */
    method IsValid(value: Value) returns (r: Result<bool>)
      modifies this
      ensures r == Decide(required, value)
      ensures required == old(required)
      ensures errorMessage == if value.Null? && required then Some(RequiredMessage) else old(errorMessage)
    {
      if value.Null? {
        if !required {
          return Ok(true);
        }
        errorMessage := Some(RequiredMessage);
        return Ok(false);
      }
      if !value.File? {
        return Throw(InvalidCast);
      }
      var size := 1024 * 1024 * 8;
      var retval := FileIsWebFriendlyImageWithin(value.file, size);
      return Ok(retval);
    }
  }

  /** Content types are compared exactly: upper case is not accepted. */
  lemma ContentTypeIsCaseSensitive(fileName: string, length: int)
    ensures FileIsWebFriendlyImage(FormFile(fileName, "image/png", length))
    ensures !FileIsWebFriendlyImage(FormFile(fileName, "IMAGE/PNG", length))
  {
    assert ContentTypes[2] == "image/png";
    assert forall i :: 0 <= i < |ContentTypes| ==> ContentTypes[i][0] != 'I';
  }

  /** The 8 MB limit is inclusive: 8388608 bytes pass and one more byte fails. */
  lemma SizeLimitIsInclusive(required: bool, fileName: string)
    ensures Decide(required, File(FormFile(fileName, "image/gif", 8388608))) == Ok(true)
    ensures Decide(required, File(FormFile(fileName, "image/gif", 8388609))) == Ok(false)
  {
    assert ContentTypes[3] == "image/gif";
  }
}
