/** `Strings`, the older string helper class. It cuts with `Substring`, which refuses a negative
    length or one past the end, where `StringExtensions` slices with `[0..]`. Its `Reverse`,
    `Repeat`, `GetBetween`, `GetAfter`, `Right`, `SubstringFrom`, `ReplaceAll` overloads and
    `Slugify` do exactly what their `StringExtensions` namesakes (`GenerateSlug` for `Slugify`)
    do, and are those members; what differs is modelled here. */
module Strings {
  import opened Common
  import opened Text
  import StringExtensions

  // ---------------------------------------------------------------------
  // Substring
  // ---------------------------------------------------------------------

  /** `value.Substring(0, length)`: the first `length` characters; a negative length or one past
      the end throws `ArgumentOutOfRangeException`. */
  function Prefix(value: string, length: int): (r: Result<string>)
    ensures r.Ok? <==> 0 <= length <= |value|
    ensures r.Throw? ==> r.error == ArgumentOutOfRange
    ensures r.Ok? ==> |r.value| == length && StartsWith(value, r.value)
  {
    if 0 <= length <= |value| then Ok(value[..length]) else Throw(ArgumentOutOfRange)
  }

  // ---------------------------------------------------------------------
  // TrimToMaxLength, PadBoth
  // ---------------------------------------------------------------------

  /** `TrimToMaxLength(value, maxLength)`: null or short enough comes back as it is; a longer value
      is cut to its first `maxLength` characters, which a negative `maxLength` makes throw. */
  function TrimToMaxLength(value: NullableString, maxLength: int): (r: Result<NullableString>)
    ensures (value.None? || |value.value| <= maxLength) ==> r == Ok(value)
    ensures value.Some? && |value.value| > maxLength ==> (r.Throw? <==> maxLength < 0)
    ensures r.Throw? ==> r.error == ArgumentOutOfRange
    ensures r.Ok? && value.Some? && |value.value| > maxLength ==>
      r.value.Some? && |r.value.value| == maxLength && StartsWith(value.value, r.value.value)
  {
    if value.None? || |value.value| <= maxLength then Ok(value)
    else
      var cut := Prefix(value.value, maxLength);
      if cut.Throw? then Throw(cut.error) else Ok(Some(cut.value))
  }

  /** `TrimToMaxLength(value, maxLength, suffix)`: as above, with the suffix (null adds nothing)
      after the cut. */
  function TrimToMaxLengthWithSuffix(value: NullableString, maxLength: int, suffix: NullableString)
    : (r: Result<NullableString>)
    ensures (value.None? || |value.value| <= maxLength) ==> r == Ok(value)
    ensures value.Some? && |value.value| > maxLength ==> (r.Throw? <==> maxLength < 0)
    ensures r.Throw? ==> r.error == ArgumentOutOfRange
    ensures r.Ok? && value.Some? && |value.value| > maxLength ==>
      r.value.Some? && |r.value.value| == maxLength + |OrEmpty(suffix)|
      && StartsWith(value.value, r.value.value[..maxLength])
      && r.value.value[maxLength..] == OrEmpty(suffix)
  {
    if value.None? || |value.value| <= maxLength then Ok(value)
    else
      var cut := Prefix(value.value, maxLength);
      if cut.Throw? then Throw(cut.error) else Ok(Some(cut.value + OrEmpty(suffix)))
  }

  /** The suffix overload with a null suffix is the plain overload. */
  lemma TrimToMaxLengthNullSuffix(value: NullableString, maxLength: int)
    ensures TrimToMaxLengthWithSuffix(value, maxLength, None) == TrimToMaxLength(value, maxLength)
  {
    if value.Some? && |value.value| > maxLength && maxLength >= 0 {
      assert value.value[..maxLength] + "" == value.value[..maxLength];
    }
  }

  /** `PadBoth(value, width, padChar, truncate)`: a wider `width` centres the value with the odd pad
      character on the left; a narrower one returns the value, or with `truncate` its first
      `width` characters (`Substring(0, width)`, which a negative width makes throw). As in
      `StringExtensions.PadBoth`, a width past the maximum string length, or a 32-bit `diff` that
      wraps around, reaches the padding branch and throws OutOfMemoryException. */
  function PadBoth(value: string, width: int, padChar: char, truncate: bool): (r: Result<string>)
    requires IsInt32(width) && |value| <= MaxStringLength
    ensures |value| < width <= MaxStringLength ==>
      var diff := width - |value|;
      r == Ok(RepeatChar(padChar, diff - diff / 2) + value + RepeatChar(padChar, diff / 2))
      && |r.value| == width
    ensures width > MaxStringLength ==> r == Throw(OutOfMemory)
    ensures IsInt32(width - |value|) && (width == |value| || (width < |value| && !truncate)) ==> r == Ok(value)
    ensures width < |value| && truncate ==> (r.Throw? <==> width < 0)
    ensures !IsInt32(width - |value|) ==> r == Throw(OutOfMemory)
    ensures r.Throw? ==> r.error == if IsInt32(width - |value|) && width <= MaxStringLength
                                    then ArgumentOutOfRange else OutOfMemory
    ensures r.Ok? && width < |value| && truncate ==> |r.value| == width && StartsWith(value, r.value)
  {
    var diff := Wrap32(width - |value|);
    if diff == 0 || (diff < 0 && !truncate) then Ok(value)
    else if diff < 0 then Prefix(value, width)
    else StringExtensions.PadCentred(value, width, diff, padChar)
  }

  // ---------------------------------------------------------------------
  // GetBefore, Left
  // ---------------------------------------------------------------------

  /** `GetBefore(value, x)`: the untrimmed text before the first `x`, or "" when `x` is absent. */
  function GetBefore(value: string, x: string): (r: string)
    ensures IndexOf(value, x) == -1 ==> r == ""
    ensures IndexOf(value, x) != -1 ==>
      StartsWith(value, r) && OccursAt(value, x, |r|)
      && forall i :: 0 <= i < |r| ==> !OccursAt(value, x, i)
  {
    var xPos := IndexOf(value, x);
    if xPos == -1 then "" else value[..xPos]
  }

  /** `Left(value, characterCount)`: the first `characterCount` characters. A null value throws
      `ArgumentNullException`; a count not below the length, or a negative one
      (`Substring(0, characterCount)`), throws `ArgumentOutOfRangeException`. */
  function Left(value: NullableString, characterCount: int): (r: Result<string>)
    ensures value.None? ==> r == Throw(ArgumentNull)
    ensures value.Some? ==> (r.Ok? <==> 0 <= characterCount < |value.value|)
    ensures r.Throw? && value.Some? ==> r.error == ArgumentOutOfRange
    ensures r.Ok? ==> |r.value| == characterCount && StartsWith(value.value, r.value)
  {
    if value.None? then Throw(ArgumentNull)
    else if characterCount >= |value.value| then Throw(ArgumentOutOfRange)
    else Prefix(value.value, characterCount)
  }

  /** The left `k` characters followed by the right `|value| - k` characters give the value back. */
  lemma LeftRightSplit(value: string, k: int)
    requires 0 < k < |value|
    ensures Left(Some(value), k).Ok? && StringExtensions.Right(Some(value), |value| - k).Ok?
    ensures Left(Some(value), k).value + StringExtensions.Right(Some(value), |value| - k).value == value
  {
    assert value[..k] + value[k..] == value;
  }

  // ---------------------------------------------------------------------
  // ToPlural
  // ---------------------------------------------------------------------

  /** `ToPlural(singular)`: for "A of B", with the last " of " after the start, the result is A
      followed by the plural of " of B" (`Substring(0, index)` and `Remove(0, index)`); any other
      text takes the single-word rules. Either way the result is longer, keeps all but the last
      character and ends in "s". */
  function ToPlural(singular: string): (r: string)
    ensures |r| > |singular|
    ensures |singular| > 0 ==> StartsWith(r, singular[..|singular| - 1])
    ensures EndsWith(r, "s")
    decreases |singular|
  {
    var index := LastIndexOf(singular, " of ");
    if index > 0 then singular[..index] + ToPlural(singular[index..])
    else StringExtensions.SingleWordPlural(singular)
  }

  /** "A of B" becomes A followed by the single-word plural of " of B": the rules reach the last
      word B, not A. */
  lemma ToPluralPhrase(singular: string)
    ensures var index := LastIndexOf(singular, " of ");
      ToPlural(singular) == if index > 0 then singular[..index] + StringExtensions.SingleWordPlural(singular[index..])
                            else StringExtensions.SingleWordPlural(singular)
  {
    var index := LastIndexOf(singular, " of ");
    if index > 0 {
      LastOccurrenceSuffix(singular, " of ");
    }
  }

  /** What the comment on `ToPlural` asks for: in "A of B" only A is made plural and " of B" is
      kept as it is. */
  function ToPluralFirstPart(singular: string): (r: string)
    ensures var index := LastIndexOf(singular, " of ");
      index > 0 ==>
        EndsWith(r, singular[index..])
        && r[..|r| - (|singular| - index)] == StringExtensions.SingleWordPlural(singular[..index])
    ensures LastIndexOf(singular, " of ") <= 0 ==> r == StringExtensions.SingleWordPlural(singular)
  {
    var index := LastIndexOf(singular, " of ");
    if index > 0 then
      var a := StringExtensions.SingleWordPlural(singular[..index]);
      var r := a + singular[index..];
      assert r[..|r| - (|singular| - index)] == a;
      r
    else StringExtensions.SingleWordPlural(singular)
  }

  /** "cup of tea" comes out as "cup of teas"; the first part alone gives "cups of tea". The
      phrase is a parameter so that the proof goes through the general lemmas rather than by
      evaluating the recursion on a literal. */
  lemma ToPluralCupOfTea(phrase: string)
    requires phrase == "cup of tea"
    ensures ToPlural(phrase) == "cup" + " of teas"
    ensures ToPluralFirstPart(phrase) == "cups" + " of tea"
  {
    LastOfInCupOfTea();
    assert phrase[..3] == "cup" && phrase[3..] == " of tea";
    PluralOfTea();
    PluralOfCup();
    ToPluralPhrase(phrase);
    assert ToPlural(phrase) == phrase[..3] + StringExtensions.SingleWordPlural(phrase[3..]);
    assert ToPluralFirstPart(phrase) == StringExtensions.SingleWordPlural(phrase[..3]) + phrase[3..];
  }

  lemma LastOfInCupOfTea()
    ensures LastIndexOf("cup of tea", " of ") == 3
  {
    assert OccursAt("cup of tea", " of ", 3);
    assert "cup of tea"[4..8][0] != " of "[0];
    assert "cup of tea"[5..9][0] != " of "[0];
    assert "cup of tea"[6..10][1] != " of "[1];
  }

  lemma PluralOfTea()
    ensures StringExtensions.SingleWordPlural(" of tea") == " of teas"
  {
    assert !EndsWith(" of tea", "sh") && !EndsWith(" of tea", "ch") && !EndsWith(" of tea", "us");
    assert !EndsWith(" of tea", "ss") && !EndsWith(" of tea", "y") && !EndsWith(" of tea", "o");
  }

  lemma PluralOfCup()
    ensures StringExtensions.SingleWordPlural("cup") == "cups"
  {
    assert !EndsWith("cup", "sh") && !EndsWith("cup", "ch") && !EndsWith("cup", "us");
    assert !EndsWith("cup", "ss") && !EndsWith("cup", "y") && !EndsWith("cup", "o");
  }

  /** The `[0..]` version repeats the " of B" part; the `Substring` version does not. */
  lemma ToPluralRepeatsTail(singular: string)
    requires LastIndexOf(singular, " of ") > 0
    ensures var index := LastIndexOf(singular, " of ");
      StringExtensions.ToPlural(singular) == singular[..index] + singular[index..] + ToPlural(singular)[index..]
  {
    var index := LastIndexOf(singular, " of ");
    var head, w := singular[..index], StringExtensions.SingleWordPlural(singular[index..]);
    ToPluralPhrase(singular);
    StringExtensions.ToPluralPhrase(singular);
    assert ToPlural(singular) == head + w;
    assert StringExtensions.ToPlural(singular) == singular + w;
    assert head + singular[index..] == singular;
    assert (head + w)[index..] == w;
  }

  // ---------------------------------------------------------------------
  // GetNumbers, Truncate
  // ---------------------------------------------------------------------

  /** `GetNumbers(text)`: the digits of `text`, in order and in number; null counts as "". */
  function GetNumbers(text: NullableString): (r: string)
    ensures forall c :: c in r <==> c in OrEmpty(text) && IsDigit(c)
    ensures text.None? ==> r == ""
    ensures text.Some? ==> StringExtensions.ExtractDigits(text) == Ok(r)
    ensures r == Digits(OrEmpty(text))
  {
    Digits(OrEmpty(text))
  }

  /** Cleansing keeps the digits in order and in number: "5a51" gives "551". */
  lemma GetNumbersKeepsOrder()
    ensures GetNumbers(Some("5a51")) == "551"
  {
    assert "5a51" == ['5'] + ['a'] + ['5'] + ['1'];
    DigitsAppend(['5'] + ['a'] + ['5'], ['1']);
    DigitsAppend(['5'] + ['a'], ['5']);
    DigitsAppend(['5'], ['a']);
    DigitsOfChar('5');
    DigitsOfChar('a');
    DigitsOfChar('1');
  }

  /** `Truncate(text, maxCharacters, trailingText)`: null, empty, short enough or a non-positive
      bound leave the text alone; otherwise its first `maxCharacters` characters are followed by
      the trailing text (null adds nothing). */
  function Truncate(text: NullableString, maxCharacters: int, trailingText: NullableString): (r: NullableString)
    ensures IsNullOrEmpty(text) || maxCharacters <= 0 || |text.value| <= maxCharacters ==> r == text
    ensures !(IsNullOrEmpty(text) || maxCharacters <= 0 || |text.value| <= maxCharacters) ==>
      r.Some? && |r.value| == maxCharacters + |OrEmpty(trailingText)|
      && StartsWith(text.value, r.value[..maxCharacters])
      && r.value[maxCharacters..] == OrEmpty(trailingText)
  {
    if IsNullOrEmpty(text) || maxCharacters <= 0 || |text.value| <= maxCharacters then text
    else Some(text.value[..maxCharacters] + OrEmpty(trailingText))
  }

  /** `Truncate(text, maxCharacters)`, which passes a null trailing text: with a positive bound the
      result is never longer than the bound, and a changed text is a prefix of the original. */
  function TruncateTo(text: NullableString, maxCharacters: int): (r: NullableString)
    ensures r.None? <==> text.None?
    ensures maxCharacters > 0 && r.Some? && !IsNullOrEmpty(text) && |text.value| > maxCharacters ==>
      |r.value| == maxCharacters && StartsWith(text.value, r.value)
    ensures maxCharacters > 0 && r.Some? ==> |r.value| <= maxCharacters || r == text
  {
    Truncate(text, maxCharacters, None)
  }

  // ---------------------------------------------------------------------
  // Where the `[0..]` slices of StringExtensions keep the whole value
  // ---------------------------------------------------------------------

  /** `TrimToMaxLength`, `PadBoth`, `GetBefore`, `Left` and `Truncate` of `StringExtensions` return
      the whole value where the `Substring` versions here cut it. */
  lemma WholeValueSlices()
    ensures StringExtensions.TrimToMaxLength(Some("abcdef"), 3) == Some("abcdef")
    ensures TrimToMaxLength(Some("abcdef"), 3) == Ok(Some("abc"))
    ensures StringExtensions.PadBoth("abcdef", 3, ' ', true) == Ok("abcdef")
    ensures PadBoth("abcdef", 3, ' ', true) == Ok("abc")
    ensures StringExtensions.GetBefore("key=value", "=") == "key=value"
    ensures GetBefore("key=value", "=") == "key"
    ensures StringExtensions.Left(Some("abcdef"), 3) == Ok("abcdef")
    ensures Left(Some("abcdef"), 3) == Ok("abc")
  {
    assert "abcdef"[..3] == "abc";
    assert "abcdef"[0..] == "abcdef";
    assert "key=value"[0..] == "key=value";
    FirstEqualsInKeyValue();
    assert "key=value"[..3] == "key";
  }

  lemma FirstEqualsInKeyValue()
    ensures IndexOf("key=value", "=") == 3
  {
    assert OccursAt("key=value", "=", 3);
    assert "key=value"[0..1][0] != "="[0];
    assert "key=value"[1..2][0] != "="[0];
    assert "key=value"[2..3][0] != "="[0];
  }
}
