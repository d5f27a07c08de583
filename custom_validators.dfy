/** The second `ImageValidatorAttribute` (in the root namespace): the same
    rules as the one in `Validators`, which this model proves. */
module CustomValidators {
  import opened Common
  import opened Validation
  import ImageValidator

  /** The content-type test, written as the four comparisons the list stands for: it accepts
      exactly the files the list in `ImageValidator` accepts. */
  function FileIsWebFriendlyImage(image: FormFile): (r: bool)
    ensures r <==> ImageValidator.FileIsWebFriendlyImage(image)
  {
    assert ImageValidator.ContentTypes == ["image/jpeg", "image/jpg", "image/png", "image/gif"];
    image.contentType == "image/jpeg" || image.contentType == "image/jpg"
    || image.contentType == "image/png" || image.contentType == "image/gif"
  }

  /** `FileIsWebFriendlyImage(image, size)`. */
  function FileIsWebFriendlyImageWithin(image: FormFile, size: int): (r: bool)
    ensures r <==> ImageValidator.FileIsWebFriendlyImageWithin(image, size)
  {
    image.length <= size && FileIsWebFriendlyImage(image)
  }

  class ImageValidatorAttribute {
    var required: bool
    var errorMessage: NullableString

    constructor ()
      ensures !required && errorMessage == None
    {
      required := false;
      errorMessage := None;
    }

    /** `IsValid(value)`: null passes unless required, in which case the message
        is recorded; a file passes within 8 MB and with a listed type. It
        answers exactly as the `Validators` attribute does. */
    method IsValid(value: Value) returns (r: Result<bool>)
      modifies this
      ensures value.Null? ==> r == Ok(!required)
      ensures value.File? ==> r == Ok(value.file.length <= ImageValidator.MaximumImageSize
                                      && FileIsWebFriendlyImage(value.file))
      ensures r == ImageValidator.Decide(required, value)
      ensures required == old(required)
      ensures errorMessage == if value.Null? && required then Some(ImageValidator.RequiredMessage)
                              else old(errorMessage)
    {
      if value.Null? {
        if !required {
          return Ok(true);
        }
        errorMessage := Some("You must upload an image.");
        return Ok(false);
      }
      if !value.File? {
        return Throw(InvalidCast);
      }
      var size := 1024 * 1024 * 8;
      var retval := FileIsWebFriendlyImageWithin(value.file, size);
      return Ok(retval);
    }
  }
}
