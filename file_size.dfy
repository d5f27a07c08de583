/** `FileSizeAttribute`: an upload must lie between a minimum and a maximum
    size, both configured in megabytes and compared in bytes. */
module FileSize {
  import opened Common
  import opened Validation

  const BytesPerMegabyte: int := 1024 * 1024

  /** `x * 1024 * 1024` evaluated in unchecked 32-bit `int` arithmetic, one
      multiplication at a time. Arguments from 2048 MB upwards no longer fit. */
  function Megabytes(x: int): (r: int)
    requires IsInt32(x)
    ensures IsInt32(r)
    ensures -2048 <= x < 2048 ==> r == x * BytesPerMegabyte
    ensures 2048 <= x < 4096 ==> r == x * BytesPerMegabyte - TwoTo32 && r < 0
  {
    Wrap32(Wrap32(x * 1024) * 1024)
  }

  /** `x / 1024 / 1024` with C#'s truncating division: bytes back to whole megabytes. */
  function InMegabytes(x: int): (r: int)
    ensures 0 <= x ==> r == x / BytesPerMegabyte
  {
    CDiv(CDiv(x, 1024), 1024)
  }

  /** The message with the maximum only (`{0}` is the member name, `{1}` the maximum in MB). */
  function MaximumMessage(name: string, maximumMB: int): string {
    "The " + name + " must be less than " + IntToString(maximumMB) + " MB in size."
  }

  /** The message with both limits. */
  function RangeMessage(name: string, maximumMB: int, minimumMB: int): string {
    "The " + name + " must be less than " + IntToString(maximumMB) + " MB and greater than "
    + IntToString(minimumMB) + " MB in size."
  }

  class FileSizeAttribute {
    /** `MaximumSize`, in bytes; fixed by the constructor. */
    const maximumSize: int
    /** `_minimumSize`: the raw value last given to the `MinimumSize` setter. */
    var minimumSizeMB: int

    ghost predicate Valid()
      reads this
    {
      IsInt32(maximumSize) && IsInt32(minimumSizeMB)
    }

    /** The maximum is given in MB and stored in bytes; the minimum starts at 0. */
    constructor (maximumSizeMB: int)
      requires IsInt32(maximumSizeMB)
      ensures Valid()
      ensures maximumSize == Megabytes(maximumSizeMB)
      ensures minimumSizeMB == 0 && MinimumSize() == 0
    {
      maximumSize := Megabytes(maximumSizeMB);
      minimumSizeMB := 0;
    }

    /** The `MinimumSize` getter: the stored value converted to bytes. */
    function MinimumSize(): (r: int)
      requires Valid()
      reads this
      ensures IsInt32(r)
      ensures -2048 <= minimumSizeMB < 2048 ==> r == minimumSizeMB * BytesPerMegabyte
    {
      Megabytes(minimumSizeMB)
    }

    /** The `MinimumSize` setter stores its argument without conversion. */
    method SetMinimumSize(value: int)
      requires Valid() && IsInt32(value)
      modifies this
      ensures Valid()
      ensures minimumSizeMB == value
      ensures MinimumSize() == Megabytes(value)
    {
      minimumSizeMB := value;
    }

    /** `EnsureLegalSizes`: an `InvalidOperationException` unless the maximum is
        non-negative and not below the minimum. */
    function EnsureLegalSizes(): (r: Result<()>)
      requires Valid()
      reads this
      ensures r.Ok? ==> 0 <= maximumSize && MinimumSize() <= maximumSize
      ensures r.Throw? ==> r.error == InvalidOperation && (maximumSize < 0 || maximumSize < MinimumSize())
    {
      if maximumSize < 0 then Throw(InvalidOperation)
      else if maximumSize < MinimumSize() then Throw(InvalidOperation)
      else Ok(())
    }

    /** `IsValid(object)`: the legality check comes first; null passes; a file
        passes iff its length lies in the inclusive byte range; any other
        value fails the cast to `IFormFile`. */
    function IsValid(value: Value): (r: Result<bool>)
      requires Valid()
      reads this
      ensures EnsureLegalSizes().Throw? ==> r == Throw(InvalidOperation)
      ensures EnsureLegalSizes().Ok? && value.Null? ==> r == Ok(true)
      ensures EnsureLegalSizes().Ok? && value.File? ==>
                r.Ok? && (r.value <==> MinimumSize() <= value.file.length <= maximumSize)
      ensures EnsureLegalSizes().Ok? && !value.Null? && !value.File? ==> r == Throw(InvalidCast)
    {
      match EnsureLegalSizes()
      case Throw(e) => Throw(e)
      case Ok(_) =>
        match value
        case Null => Ok(true)
        case File(f) => Ok(f.length >= MinimumSize() && f.length <= maximumSize)
        case _ => Throw(InvalidCast)
    }

    /** `FormatErrorMessage(name)`: the legality check first; the message names
        the minimum only when it is not zero, and both limits are divided back
        to MB with C#'s truncating division. */
    function FormatErrorMessage(name: string): (r: Result<string>)
      requires Valid()
      reads this
      ensures r.Throw? <==> EnsureLegalSizes().Throw?
      ensures r.Throw? ==> r.error == InvalidOperation
      ensures r.Ok? && MinimumSize() == 0 ==>
                r.value == MaximumMessage(name, InMegabytes(maximumSize))
      ensures r.Ok? && MinimumSize() != 0 ==>
                r.value == RangeMessage(name, InMegabytes(maximumSize), InMegabytes(MinimumSize()))
    {
      match EnsureLegalSizes()
      case Throw(e) => Throw(e)
      case Ok(_) =>
        var maximumMB := InMegabytes(maximumSize);
        var minimumMB := InMegabytes(MinimumSize());
        if MinimumSize() != 0 then Ok(RangeMessage(name, maximumMB, minimumMB))
        else Ok(MaximumMessage(name, maximumMB))
    }
  }

  /** Reading `MinimumSize` back after setting it does not give the value set:
      the getter converts to bytes and the setter does not. */
  lemma SetThenGetScales(value: int)
    requires 0 < value < 2048
    ensures Megabytes(value) == value * BytesPerMegabyte
    ensures Megabytes(value) != value
  {
  }

  /** With limits configured below 2048 MB, a file passes exactly when its
      length lies between the two limits converted to bytes. */
  lemma ConfiguredRangeDecides(a: FileSizeAttribute, maximumMB: int, minimumMB: int, f: FormFile)
    requires a.Valid()
    requires 0 <= minimumMB <= maximumMB < 2048
    requires a.maximumSize == Megabytes(maximumMB) && a.minimumSizeMB == minimumMB
    ensures a.IsValid(File(f)) == Ok(minimumMB * BytesPerMegabyte <= f.length <= maximumMB * BytesPerMegabyte)
    ensures a.IsValid(Null) == Ok(true)
  {
  }

  /** A maximum of 2048 MB or more (below 4096) wraps to a negative byte count,
      so the attribute is ill-formed and every check throws. */
  lemma WrappedMaximumThrows(a: FileSizeAttribute, maximumMB: int, value: Value, name: string)
    requires a.Valid()
    requires 2048 <= maximumMB < 4096 && a.maximumSize == Megabytes(maximumMB)
    ensures a.IsValid(value) == Throw(InvalidOperation)
    ensures a.FormatErrorMessage(name) == Throw(InvalidOperation)
  {
  }

  /** With legal limits configured below 2048 MB, the message reports exactly
      the configured megabytes. */
  lemma MessageReportsConfiguredSizes(a: FileSizeAttribute, maximumMB: int, minimumMB: int, name: string)
    requires a.Valid()
    requires 0 <= minimumMB <= maximumMB < 2048
    requires a.maximumSize == Megabytes(maximumMB) && a.minimumSizeMB == minimumMB
    ensures minimumMB == 0 ==> a.FormatErrorMessage(name) == Ok(MaximumMessage(name, maximumMB))
    ensures minimumMB != 0 ==> a.FormatErrorMessage(name) == Ok(RangeMessage(name, maximumMB, minimumMB))
  {
    assert InMegabytes(maximumMB * BytesPerMegabyte) == maximumMB;
    assert InMegabytes(minimumMB * BytesPerMegabyte) == minimumMB;
  }
}
