/** `StringExtensions`, the newer string helper class. Several of its slices are
    written `value[0..]`, which in C# is the whole string; they are modelled as
    written, so those helpers hand their input back unshortened. Comparisons are
    ordinal and the character classes are those of `Text`. */
module StringExtensions {
  import opened Common
  import opened Text

  // ---------------------------------------------------------------------
  // Choosing, trimming, padding, reversing
  // ---------------------------------------------------------------------

  /** `Coalesce(str, strings)`: the first of `str, strings...` that is neither null nor empty,
      or null when there is none (`FirstOrDefault`). */
  function Coalesce(str: NullableString, strings: seq<NullableString>): (r: NullableString)
    ensures !IsNullOrEmpty(str) ==> r == str
    ensures r.None? <==> IsNullOrEmpty(str) && forall i :: 0 <= i < |strings| ==> IsNullOrEmpty(strings[i])
    ensures r.Some? && IsNullOrEmpty(str) ==>
      exists i :: 0 <= i < |strings| && strings[i] == r && !IsNullOrEmpty(r)
        && forall j :: 0 <= j < i ==> IsNullOrEmpty(strings[j])
    decreases |strings|
  {
    if !IsNullOrEmpty(str) then str
    else if |strings| == 0 then None
    else
      var r := Coalesce(strings[0], strings[1..]);
      assert forall j :: 1 <= j < |strings| ==> strings[j] == strings[1..][j - 1];
      r
  }

  /** `TrimToMaxLength(value, maxLength)`: the "trimmed" branch returns `value[0..]`, the whole
      string, so the value comes back as it was whatever its length. */
  function TrimToMaxLength(value: NullableString, maxLength: int): (r: NullableString)
    ensures r == value
  {
    if value.None? || |value.value| <= maxLength then value else Some(value.value[0..])
  }

  /** `TrimToMaxLength(value, maxLength, suffix)`: a value longer than `maxLength` gets the suffix
      appended to the whole of it (a null suffix adds nothing). */
  function TrimToMaxLengthWithSuffix(value: NullableString, maxLength: int, suffix: NullableString): (r: NullableString)
    ensures value.None? <==> r.None?
    ensures value.Some? ==> StartsWith(r.value, value.value)
    ensures value.Some? && |value.value| <= maxLength ==> r == value
    ensures value.Some? && |value.value| > maxLength ==> r.value[|value.value|..] == OrEmpty(suffix)
  {
    if value.None? || |value.value| <= maxLength then value
    else Some(value.value[0..] + OrEmpty(suffix))
  }

  /** A `width - value.Length` that wraps around makes the left width of `PadBoth` wrap too, to at
      least 2^30: wider than the value and than the longest string .NET can allocate. */
  lemma WrappedLeftWidth(width: int, length: int)
    requires IsInt32(width) && 0 <= length <= MaxStringLength && !IsInt32(width - length)
    ensures Wrap32(width - length) == width - length + TwoTo32 > 0
    ensures var diff := width - length + TwoTo32;
      Wrap32(width - diff / 2) == width - diff / 2 + TwoTo32
      && Wrap32(width - diff / 2) > MaxStringLength && Wrap32(width - diff / 2) > length
  {
    WrapBelowMinimum(width - length);
    var diff := width - length + TwoTo32;
    WrapBelowMinimum(width - diff / 2);
  }

  /** The padding branch of `PadBoth`, taken when the 32-bit `diff` is positive:
      `value.PadLeft(width - diff / 2, padChar).PadRight(width, padChar)`. Without wrap-around the
      value is centred, unless `width` is past the maximum string length; with it, the left width
      wraps past that maximum as well, so `PadLeft` throws OutOfMemoryException. */
  function PadCentred(value: string, width: int, diff: int, padChar: char): (r: Result<string>)
    requires IsInt32(width) && |value| <= MaxStringLength
    requires diff == Wrap32(width - |value|) && diff > 0
    ensures IsInt32(width - |value|) && width <= MaxStringLength ==>
      r == Ok(RepeatChar(padChar, diff - diff / 2) + value + RepeatChar(padChar, diff / 2))
      && |r.value| == width
    ensures IsInt32(width - |value|) && width > MaxStringLength ==> r == Throw(OutOfMemory)
    ensures !IsInt32(width - |value|) ==> r == Throw(OutOfMemory)
  {
    var leftWidth := Wrap32(width - diff / 2);
    assert !IsInt32(width - |value|) ==> leftWidth > MaxStringLength && leftWidth > |value| by {
      if !IsInt32(width - |value|) {
        WrappedLeftWidth(width, |value|);
      }
    }
    var left := PadLeft(value, leftWidth, padChar);
    if left.Throw? then Throw(left.error)
    else
      assert IsInt32(width - |value|) && width <= MaxStringLength ==>
        left.value == RepeatChar(padChar, diff - diff / 2) + value;
      assert diff / 2 == 0 ==> left.value + RepeatChar(padChar, diff / 2) == left.value;
      PadRight(left.value, width, padChar)
  }

  /** `PadBoth(value, width, padChar, truncate)`: a wider `width` centres the value, with the odd
      pad character on the left; a narrower one returns the value, in the truncate branch too,
      since that branch returns `value[0..]`. `diff = width - value.Length` is a 32-bit `int`:
      a very negative width wraps it to a positive number, and the padding branch then throws
      OutOfMemoryException, as it does for a width past the maximum string length. */
  function PadBoth(value: string, width: int, padChar: char, truncate: bool): (r: Result<string>)
    requires IsInt32(width) && |value| <= MaxStringLength
    ensures |value| < width <= MaxStringLength ==>
      var diff := width - |value|;
      r == Ok(RepeatChar(padChar, diff - diff / 2) + value + RepeatChar(padChar, diff / 2))
      && |r.value| == width
    ensures width > MaxStringLength ==> r == Throw(OutOfMemory)
    ensures width <= |value| && IsInt32(width - |value|) ==> r == Ok(value)
    ensures !IsInt32(width - |value|) ==> r == Throw(OutOfMemory)
  {
    var diff := Wrap32(width - |value|);
    if diff == 0 || (diff < 0 && !truncate) then Ok(value)
    else if diff < 0 then Ok(value[0..])
    else PadCentred(value, width, diff, padChar)
  }

  /** Near `int.MinValue` the width difference wraps around: `PadBoth("ab", -2147483647, ' ', false)`
      throws OutOfMemoryException instead of returning "ab". */
  lemma PadBothWrapsAround()
    ensures PadBoth("ab", -2147483647, ' ', false) == Throw(OutOfMemory)
  {
  }

  /** `Reverse(value)`: null, empty and one-character strings come back as they are; any other
      string is mirrored. */
  function Reverse(value: NullableString): (r: NullableString)
    ensures value.None? <==> r.None?
    ensures value.Some? ==> (|r.value| == |value.value|
      && forall i :: 0 <= i < |value.value| ==> r.value[i] == value.value[|value.value| - 1 - i])
  {
    if IsNullOrEmpty(value) || |value.value| == 1 then value
    else Some(Reversed(value.value))
  }

  /** Reversing twice gives the string back. */
  lemma ReverseInvolution(value: NullableString)
    ensures Reverse(Reverse(value)) == value
  {
    if value.Some? {
      var s := value.value;
      var t := Reverse(Reverse(value)).value;
      assert |t| == |s|;
      assert forall i :: 0 <= i < |s| ==> t[i] == s[i];
      assert t == s;
    }
  }

  /** `EnsureStartsWith(value, prefix)`: the prefix is added unless the value already starts with it. */
  function EnsureStartsWith(value: string, prefix: string): (r: string)
    ensures StartsWith(r, prefix)
    ensures StartsWith(value, prefix) ==> r == value
    ensures !StartsWith(value, prefix) ==> r == prefix + value
  {
    if StartsWith(value, prefix) then value else prefix + value
  }

  /** `EnsureEndsWith(value, suffix)`: the suffix is added unless the value already ends with it. */
  function EnsureEndsWith(value: string, suffix: string): (r: string)
    ensures EndsWith(r, suffix)
    ensures EndsWith(value, suffix) ==> r == value
    ensures !EndsWith(value, suffix) ==> r == value + suffix
  {
    if EndsWith(value, suffix) then value else value + suffix
  }

  /** Ensuring a prefix or a suffix a second time changes nothing. */
  lemma EnsureIdempotent(value: string, affix: string)
    ensures EnsureStartsWith(EnsureStartsWith(value, affix), affix) == EnsureStartsWith(value, affix)
    ensures EnsureEndsWith(EnsureEndsWith(value, affix), affix) == EnsureEndsWith(value, affix)
  {
    var p := EnsureStartsWith(value, affix);
    assert StartsWith(p, affix);
    var q := EnsureEndsWith(value, affix);
    assert EndsWith(q, affix);
  }

  // ---------------------------------------------------------------------
  // Repeat
  // ---------------------------------------------------------------------

  /** `Repeat(value, repeatCount)`. A one-character value becomes `new string(value[0], repeatCount)`.
      Otherwise a `StringBuilder` is created with capacity `repeatCount * value.Length`, computed in
      unchecked 32-bit arithmetic: a negative capacity is refused and one past the largest array
      cannot be allocated. Then `value` is appended while `repeatCount-- > 0`; an append that would
      take the builder past `int.MaxValue` characters is refused, and `ToString` cannot allocate a
      result past the maximum string length. */
  method Repeat(value: string, repeatCount: int) returns (r: Result<string>)
    requires IsInt32(repeatCount) && |value| <= MaxStringLength
    ensures |value| == 1 ==> r == if repeatCount < 0 then Throw(ArgumentOutOfRange)
                                  else if repeatCount > MaxStringLength then Throw(OutOfMemory)
                                  else Ok(Repeated(value, repeatCount))
    ensures var capacity := Wrap32(repeatCount * |value|);
      var total := if repeatCount > 0 then repeatCount * |value| else 0;
      |value| != 1 ==>
        r == if capacity < 0 then Throw(ArgumentOutOfRange)
             else if capacity > MaxArrayLength then Throw(OutOfMemory)
             else if total > Int32Max then Throw(ArgumentOutOfRange)
             else if total > MaxStringLength then Throw(OutOfMemory)
             else Ok(Repeated(value, repeatCount))
    ensures r.Ok? ==> r.value == Repeated(value, repeatCount) && |r.value| <= MaxStringLength
  {
    if |value| == 1 {
      var s := NewString(value[0], repeatCount);
      if s.Ok? {
        RepeatedSingleChar(value[0], repeatCount);
        assert value == [value[0]];
      }
      return s;
    }
    var capacity := Wrap32(repeatCount * |value|);
    if capacity < 0 {
      return Throw(ArgumentOutOfRange);
    }
    if capacity > MaxArrayLength {
      return Throw(OutOfMemory);
    }
    var sb := "";
    var remaining := repeatCount;
    while remaining > 0
      invariant repeatCount <= 0 ==> remaining == repeatCount && sb == ""
      invariant repeatCount > 0 ==> 0 <= remaining <= repeatCount && sb == Repeated(value, repeatCount - remaining)
      invariant |sb| == (if repeatCount > 0 then repeatCount - remaining else 0) * |value| <= Int32Max
      decreases remaining
    {
      remaining := remaining - 1;
      if |sb| + |value| > Int32Max {
        TotalPastCount(repeatCount, remaining, |value|);
        return Throw(ArgumentOutOfRange);
      }
      RepeatedLength(value, repeatCount - remaining);
      sb := sb + value;
    }
    if |sb| > MaxStringLength {
      return Throw(OutOfMemory);
    }
    return Ok(sb);
  }

  /** Appending copy number `n - k` of a value of `len` characters reaches at most the total
      of `n` copies. */
  lemma TotalPastCount(n: int, k: int, len: nat)
    requires 0 <= k < n
    ensures (n - k - 1) * len + len <= n * len
  {
    assert (n - k - 1) * len + len == (n - k) * len;
  }

  /** `n` copies of a one-character string is the character repeated `n` times. */
  lemma {:induction false} RepeatedSingleChar(c: char, n: nat)
    ensures Repeated([c], n) == RepeatChar(c, n)
    decreases n
  {
    if n > 0 {
      RepeatedSingleChar(c, n - 1);
      assert RepeatChar(c, n) == RepeatChar(c, n - 1) + [c];
    }
  }

  /** `n` copies of `v` have `n * |v|` characters. */
  lemma {:induction false} RepeatedLength(v: string, n: nat)
    ensures |Repeated(v, n)| == n * |v|
    decreases n
  {
    if n > 0 {
      RepeatedLength(v, n - 1);
      assert n * |v| == (n - 1) * |v| + |v|;
    }
  }

  /** `a + b` copies are `a` copies followed by `b` copies. */
  lemma {:induction false} RepeatedSplit(v: string, a: nat, b: nat)
    ensures Repeated(v, a + b) == Repeated(v, a) + Repeated(v, b)
    decreases b
  {
    if b > 0 {
      RepeatedSplit(v, a, b - 1);
      assert Repeated(v, a + b) == Repeated(v, a + b - 1) + v;
    }
  }

  // ---------------------------------------------------------------------
  // Extracting parts
  // ---------------------------------------------------------------------

  /** `ExtractDigits(value)`: the digits of the value, in order and each as often as it occurs
      (`Digits`, characterised by `Text.DigitsAppend` and `Text.DigitsOfChar`). LINQ's `Where`
      throws on a null source. */
  function ExtractDigits(value: NullableString): (r: Result<string>)
    ensures value.None? <==> r.Throw?
    ensures r.Throw? ==> r.error == ArgumentNull
    ensures r.Ok? ==> forall c :: c in r.value <==> c in value.value && IsDigit(c)
    ensures r.Ok? ==> r.value == Digits(value.value)
  {
    if value.None? then Throw(ArgumentNull) else Ok(Digits(value.value))
  }

  /** Extracting the digits a second time changes nothing. */
  lemma {:induction false} DigitsIdempotent(s: string)
    ensures Digits(Digits(s)) == Digits(s)
    decreases |s|
  {
    if |s| > 0 {
      DigitsIdempotent(s[1..]);
      if IsDigit(s[0]) {
        assert Digits(s) == [s[0]] + Digits(s[1..]);
        assert Digits(s)[1..] == Digits(s[1..]);
      }
    }
  }

  /** `GetBefore(value, x)`: the slice `value[0..]` makes the result the whole value whenever `x`
      occurs in it, and "" otherwise. */
  function GetBefore(value: string, x: string): (r: string)
    ensures Contains(value, x) ==> r == value
    ensures !Contains(value, x) ==> r == ""
  {
    var xPos := IndexOf(value, x);
    if xPos == -1 then "" else value[0..]
  }

  /** `GetBetween(value, x, y)`: "" when `x` is missing, when `y` is missing, or when the last `y`
      starts before the end of the first `x`; any other result is trimmed. The null test at the top
      checks `xPos` twice and never `yPos`, but a missing `y` gives `yPos == -1`, below any start
      index, so the result is "" then too. */
  function GetBetween(value: string, x: string, y: string): (r: string)
    ensures IndexOf(value, x) == -1 ==> r == ""
    ensures LastIndexOf(value, y) == -1 ==> r == ""
    ensures IndexOf(value, x) + |x| >= LastIndexOf(value, y) ==> r == ""
    ensures |r| > 0 ==> !IsWhiteSpace(r[0]) && !IsWhiteSpace(r[|r| - 1])
  {
    var xPos := IndexOf(value, x);
    var yPos := LastIndexOf(value, y);
    if xPos == -1 || xPos == -1 then ""
    else
      var startIndex := xPos + |x|;
      if startIndex >= yPos then "" else Trim(value[startIndex..yPos])
  }

  /** In every other case `GetBetween` is the trimmed text from the end of the first `x` to the
      start of the last `y`. */
  lemma GetBetweenText(value: string, x: string, y: string)
    requires IndexOf(value, x) != -1 && IndexOf(value, x) + |x| < LastIndexOf(value, y)
    ensures var start := IndexOf(value, x) + |x|; var stop := LastIndexOf(value, y);
      GetBetween(value, x, y) == Trim(value[start..stop])
  {
  }

  /** `GetAfter(value, x)`: the trimmed text after the last `x`, or "" when `x` does not occur. */
  function GetAfter(value: string, x: string): (r: string)
    ensures LastIndexOf(value, x) == -1 ==> r == ""
    ensures LastIndexOf(value, x) != -1 ==> r == Trim(value[LastIndexOf(value, x) + |x|..])
  {
    var xPos := LastIndexOf(value, x);
    if xPos == -1 then ""
    else
      var startIndex := xPos + |x|;
      if startIndex >= |value| then ""
      else Trim(value[startIndex..])
  }

  /** `Left(value, characterCount)`: the count is checked against the length, then `value[0..]`,
      the whole value, is returned. */
  function Left(value: NullableString, characterCount: int): (r: Result<string>)
    ensures value.None? ==> r == Throw(ArgumentNull)
    ensures value.Some? ==> (r.Ok? <==> characterCount < |value.value|)
    ensures r.Throw? && value.Some? ==> r.error == ArgumentOutOfRange
    ensures r.Ok? ==> r.value == value.value
  {
    if value.None? then Throw(ArgumentNull)
    else if characterCount >= |value.value| then Throw(ArgumentOutOfRange)
    else Ok(value.value[0..])
  }

  /** `Right(value, characterCount)`: the last `characterCount` characters (`value[^characterCount..]`,
      whose index refuses a negative count). */
  function Right(value: NullableString, characterCount: int): (r: Result<string>)
    ensures value.None? ==> r == Throw(ArgumentNull)
    ensures value.Some? ==> (r.Ok? <==> 0 <= characterCount < |value.value|)
    ensures r.Throw? && value.Some? ==> r.error == ArgumentOutOfRange
    ensures r.Ok? ==> |r.value| == characterCount && EndsWith(value.value, r.value)
  {
    if value.None? then Throw(ArgumentNull)
    else if characterCount >= |value.value| then Throw(ArgumentOutOfRange)
    else if characterCount < 0 then Throw(ArgumentOutOfRange)
    else Ok(value.value[|value.value| - characterCount..])
  }

  /** `SubstringFrom(value, index)`: a negative index returns the value, one past the end throws. */
  function SubstringFrom(value: string, index: int): (r: Result<string>)
    ensures r.Throw? <==> index > |value|
    ensures r.Throw? ==> r.error == ArgumentOutOfRange
    ensures r.Ok? ==> EndsWith(value, r.value)
    ensures r.Ok? && index >= 0 ==> |r.value| == |value| - index
    ensures index < 0 ==> r == Ok(value)
  {
    if index < 0 then Ok(value)
    else if index > |value| then Throw(ArgumentOutOfRange)
    else Ok(value[index..])
  }

  // ---------------------------------------------------------------------
  // Plurals
  // ---------------------------------------------------------------------

  /** The single-word rules of `ToPlural`, tried in order: a sibilant ending takes "es", a final
      "y" becomes "ies", a final "o" becomes "oes", anything else takes "s". Every rule keeps all
      but the last character and ends the word in "s". */
  function SingleWordPlural(singular: string): (r: string)
    ensures |r| > |singular|
    ensures |singular| > 0 ==> StartsWith(r, singular[..|singular| - 1])
    ensures EndsWith(r, "s")
  {
    if EndsWith(singular, "sh") then singular + "es"
    else if EndsWith(singular, "ch") then singular + "es"
    else if EndsWith(singular, "us") then singular + "es"
    else if EndsWith(singular, "ss") then singular + "es"
    else if EndsWith(singular, "y") then singular[..|singular| - 1] + "ies"
    else if EndsWith(singular, "o") then singular[..|singular| - 1] + "oes"
    else singular + "s"
  }

  /** `ToPlural(singular)`: for "A of B", with the last " of " after the start, the result is
      `singular[0..]` (all of "A of B") followed by the plural of " of B". Like every single-word
      rule, the result is longer, keeps all but the last character and ends in "s". */
  function ToPlural(singular: string): (r: string)
    ensures |r| > |singular|
    ensures |singular| > 0 ==> StartsWith(r, singular[..|singular| - 1])
    ensures EndsWith(r, "s")
    decreases |singular|
  {
    var index := LastIndexOf(singular, " of ");
    if index > 0 then singular[0..] + ToPlural(singular[index..])
    else SingleWordPlural(singular)
  }

  /** A phrase "A of B" keeps all of itself and gains the plural of its " of B" part;
      a text without an inner " of " takes the single-word rules. */
  lemma ToPluralPhrase(singular: string)
    ensures var index := LastIndexOf(singular, " of ");
      ToPlural(singular) == if index > 0 then singular + SingleWordPlural(singular[index..])
                            else SingleWordPlural(singular)
  {
    var index := LastIndexOf(singular, " of ");
    if index > 0 {
      LastOccurrenceSuffix(singular, " of ");
    }
  }

  /** "x of b" becomes "x of b of bs". */
  lemma ToPluralRepeatsPhrase()
    ensures ToPlural("x of b") == "x of b" + " of bs"
  {
    var phrase := "x of b";
    LastOfInExample();
    ToPluralPhrase(phrase);
    assert phrase[1..] == " of b";
    PluralOfTailExample();
  }

  lemma LastOfInExample()
    ensures LastIndexOf("x of b", " of ") == 1
  {
    assert "x of b"[2..6][0] != " of "[0];
    assert OccursAt("x of b", " of ", 1);
  }

  lemma PluralOfTailExample()
    ensures SingleWordPlural(" of b") == " of bs"
  {
    assert !EndsWith(" of b", "sh") && !EndsWith(" of b", "ch") && !EndsWith(" of b", "us");
    assert !EndsWith(" of b", "ss") && !EndsWith(" of b", "y") && !EndsWith(" of b", "o");
  }

  // ---------------------------------------------------------------------
  // Truncation
  // ---------------------------------------------------------------------

  /** `Truncate(value, length, useElipses)`: `length` must exceed the number of dots (3 or 0),
      compared through the 32-bit difference `length - e`, which wraps to a large positive number
      for a length within 3 of `int.MinValue`; a longer value is returned whole (`value[0..]`)
      followed by the dots. */
  function Truncate(value: NullableString, length: int, useElipses: bool): (r: Result<NullableString>)
    requires IsInt32(length)
    ensures var e := if useElipses then 3 else 0;
      IsInt32(length - e) ==> (r.Throw? <==> length <= e)
    ensures var e := if useElipses then 3 else 0;
      !IsInt32(length - e) ==> r.Ok?
    ensures r.Throw? ==> r.error == InvalidOperation
    ensures r.Ok? && (IsNullOrEmpty(value) || |value.value| <= length) ==> r.value == value
    ensures r.Ok? && !IsNullOrEmpty(value) && |value.value| > length ==>
      r.value == Some(value.value + RepeatChar('.', if useElipses then 3 else 0))
  {
    var e := if useElipses then 3 else 0;
    if Wrap32(length - e) <= 0 then Throw(InvalidOperation)
    else if IsNullOrEmpty(value) || |value.value| <= length then Ok(value)
    else Ok(Some(value.value[0..] + RepeatChar('.', e)))
  }

  /** At `int.MinValue` with ellipses nothing is thrown: "abcd" comes back as "abcd...". */
  lemma TruncateWrapsAround()
    ensures Truncate(Some("abcd"), Int32Min, true) == Ok(Some("abcd..."))
  {
    assert Wrap32(Int32Min - 3) == Int32Max - 2;
    assert RepeatChar('.', 3) == "...";
    assert "abcd"[0..] + "..." == "abcd...";
  }

  /** `Truncate` with the slice it evidently means, `value[0..(length - e)]`: the result is then
      never longer than `length`. */
  function TruncateToLength(value: NullableString, length: int, useElipses: bool): (r: Result<NullableString>)
    ensures r.Throw? <==> length - (if useElipses then 3 else 0) <= 0
    ensures r.Ok? && r.value.Some? ==> |r.value.value| <= length
    ensures r.Ok? && !IsNullOrEmpty(value) && |value.value| > length ==>
      var e := if useElipses then 3 else 0;
      r.value.Some? && |r.value.value| == length && StartsWith(value.value, r.value.value[..length - e])
  {
    var e := if useElipses then 3 else 0;
    if length - e <= 0 then Throw(InvalidOperation)
    else if IsNullOrEmpty(value) || |value.value| <= length then Ok(value)
    else Ok(Some(value.value[..length - e] + RepeatChar('.', e)))
  }

  /** A long value comes back longer than the requested length. */
  lemma TruncateKeepsLongValue()
    ensures Truncate(Some("abcdefgh"), 5, true) == Ok(Some("abcdefgh..."))
    ensures TruncateToLength(Some("abcdefgh"), 5, true) == Ok(Some("ab..."))
  {
    assert RepeatChar('.', 3) == "...";
    assert "abcdefgh"[0..] == "abcdefgh";
    assert "abcdefgh"[..2] == "ab";
    assert "abcdefgh" + "..." == "abcdefgh...";
    assert "ab" + "..." == "ab...";
  }

  // ---------------------------------------------------------------------
  // ReplaceAll (a loop of StringBuilder.Replace calls)
  // ---------------------------------------------------------------------

  /** The pairs `(oldValue, newValue(oldValue))`, one per old value, in list order. */
  function PairBy(oldValues: seq<string>, newValue: string -> string): (pairs: seq<(string, string)>)
    ensures |pairs| == |oldValues|
    ensures forall i :: 0 <= i < |oldValues| ==> pairs[i] == (oldValues[i], newValue(oldValues[i]))
  {
    seq(|oldValues|, i requires 0 <= i < |oldValues| => (oldValues[i], newValue(oldValues[i])))
  }

  /** The pairs `(oldValues[i], newValues[i])` of two lists of the same length. */
  function Zip(oldValues: seq<string>, newValues: seq<string>): (pairs: seq<(string, string)>)
    requires |oldValues| == |newValues|
    ensures |pairs| == |oldValues|
    ensures forall i :: 0 <= i < |oldValues| ==> pairs[i] == (oldValues[i], newValues[i])
  {
    seq(|oldValues|, i requires 0 <= i < |oldValues| => (oldValues[i], newValues[i]))
  }

  /** `ReplaceAll(value, oldValues, replacePredicate)`: each old value, in list order, is replaced
      by `replacePredicate(oldValue)` in the text the earlier replacements produced; an empty old
      value makes the builder throw. */
  method ReplaceAllBy(value: string, oldValues: seq<string>, replacePredicate: string -> string)
    returns (r: Result<string>)
    ensures r == ReplaceEach(value, PairBy(oldValues, replacePredicate))
    ensures r.Throw? <==> exists i :: 0 <= i < |oldValues| && oldValues[i] == ""
    ensures r.Throw? ==> r.error == Argument
  {
    ghost var pairs := PairBy(oldValues, replacePredicate);
    ReplaceEachThrows(value, pairs);
    var sbStr := value;
    var i := 0;
    while i < |oldValues|
      invariant 0 <= i <= |oldValues|
      invariant ReplaceEach(sbStr, pairs[i..]) == ReplaceEach(value, pairs)
    {
      var oldValue := oldValues[i];
      if |oldValue| == 0 {
        return Throw(Argument);
      }
      assert pairs[i..][1..] == pairs[i + 1..];
      sbStr := Replace(sbStr, oldValue, replacePredicate(oldValue));
      i := i + 1;
    }
    return Ok(sbStr);
  }

  /** `ReplaceAll(value, oldValues, newValue)`: every old value, in list order, is replaced by the
      same `newValue`. */
  method ReplaceAllWith(value: string, oldValues: seq<string>, newValue: string) returns (r: Result<string>)
    ensures r == ReplaceEach(value, PairBy(oldValues, _ => newValue))
    ensures r.Throw? <==> exists i :: 0 <= i < |oldValues| && oldValues[i] == ""
    ensures r.Throw? ==> r.error == Argument
  {
    ghost var pairs := PairBy(oldValues, _ => newValue);
    ReplaceEachThrows(value, pairs);
    var sbStr := value;
    var i := 0;
    while i < |oldValues|
      invariant 0 <= i <= |oldValues|
      invariant ReplaceEach(sbStr, pairs[i..]) == ReplaceEach(value, pairs)
    {
      var oldValue := oldValues[i];
      if |oldValue| == 0 {
        return Throw(Argument);
      }
      assert pairs[i..][1..] == pairs[i + 1..];
      sbStr := Replace(sbStr, oldValue, newValue);
      i := i + 1;
    }
    return Ok(sbStr);
  }

  /** `ReplaceAll(value, oldValues, newValues)`: the i-th old value is replaced by the i-th new
      value. Walking both lists together, running out of new values first throws
      `ArgumentOutOfRangeException` at that step, an empty old value throws `ArgumentException`
      at its step, and new values left over once the old values are done throw
      `ArgumentOutOfRangeException` at the end. */
  method ReplaceAllPaired(value: string, oldValues: seq<string>, newValues: seq<string>)
    returns (r: Result<string>)
    ensures (exists j :: 0 <= j < |oldValues| && j < |newValues| && oldValues[j] == "") ==>
      r == Throw(Argument)
    ensures ((forall j :: 0 <= j < |oldValues| && j < |newValues| ==> oldValues[j] != "") &&
             |oldValues| != |newValues|) ==> r == Throw(ArgumentOutOfRange)
    ensures |oldValues| == |newValues| ==> r == ReplaceEach(value, Zip(oldValues, newValues))
  {
    var sbStr := value;
    var i := 0;
    while i < |oldValues|
      invariant 0 <= i <= |oldValues| && i <= |newValues|
      invariant forall j :: 0 <= j < i ==> oldValues[j] != ""
      invariant ReplaceEach(value, Zip(oldValues[..i], newValues[..i])) == Ok(sbStr)
    {
      if i >= |newValues| {
        return Throw(ArgumentOutOfRange);
      }
      var oldValue := oldValues[i];
      if |oldValue| == 0 {
        if |oldValues| == |newValues| {
          ReplaceEachThrows(value, Zip(oldValues, newValues));
        }
        return Throw(Argument);
      }
      var next := Replace(sbStr, oldValue, newValues[i]);
      assert Zip(oldValues[..i + 1], newValues[..i + 1])
          == Zip(oldValues[..i], newValues[..i]) + [(oldValue, newValues[i])];
      ReplaceEachAppend(value, Zip(oldValues[..i], newValues[..i]), [(oldValue, newValues[i])]);
      sbStr := next;
      i := i + 1;
    }
    if i < |newValues| {
      return Throw(ArgumentOutOfRange);
    }
    assert oldValues[..i] == oldValues && newValues[..i] == newValues;
    return Ok(sbStr);
  }

  // ---------------------------------------------------------------------
  // Template patterns (GetRegexPattern)
  // ---------------------------------------------------------------------

  /** `ComparisonTemplateOptions`: where the compiled pattern is anchored. */
  datatype ComparisonTemplateOptions = Default | FromStart | AtTheEnd | Whole

  /** The characters of `_reservedRegexOperators`, in its order: the backslash comes first. */
  const RegexOperators: string := "\\^$*+?.()"

  /** `_reservedRegexOperators`, one one-character string per operator. */
  const ReservedRegexOperators: seq<string> := ["\\", "^", "$", "*", "+", "?", ".", "(", ")"]

  /** One of the characters of `_reservedRegexOperators`. */
  predicate IsRegexOperator(c: char) {
    c == '\\' || c == '^' || c == '$' || c == '*' || c == '+' || c == '?' || c == '.' || c == '(' || c == ')'
  }

  lemma OperatorMembership(c: char)
    ensures c in RegexOperators <==> IsRegexOperator(c)
  {
    if IsRegexOperator(c) {
      assert c == RegexOperators[0] || c == RegexOperators[1] || c == RegexOperators[2] ||
             c == RegexOperators[3] || c == RegexOperators[4] || c == RegexOperators[5] ||
             c == RegexOperators[6] || c == RegexOperators[7] || c == RegexOperators[8];
    }
  }

  /** A character as it stands in a pattern that matches it literally. */
  function EscapeChar(c: char): (r: string)
    ensures |r| > 0 && r[|r| - 1] == c
  {
    if IsRegexOperator(c) then ['\\', c] else [c]
  }

  /** Every reserved operator of `t` preceded by a backslash, everything else unchanged. */
  function Escaped(t: string): string
    decreases |t|
  {
    if |t| == 0 then "" else EscapeChar(t[0]) + Escaped(t[1..])
  }

  /** The escaping step of `GetRegexPattern` as written: one `Replace(op, "\\" + op)` per operator. */
  function EscapePairs(): (pairs: seq<(string, string)>)
    ensures |pairs| == |ReservedRegexOperators|
  {
    PairBy(ReservedRegexOperators, EscapeOperator)
  }

  /** The replacement `GetRegexPattern` gives each operator: the operator preceded by a backslash. */
  function EscapeOperator(v: string): (r: string)
    ensures |r| == |v| + 1 && r[0] == '\\' && r[1..] == v
  {
    "\\" + v
  }

  /** `t` with only the first `k` operators escaped. */
  function EscapedUpTo(t: string, k: nat): string
    requires k <= |RegexOperators|
    decreases |t|
  {
    if |t| == 0 then ""
    else (if t[0] in RegexOperators[..k] then ['\\', t[0]] else [t[0]]) + EscapedUpTo(t[1..], k)
  }

  lemma {:induction false} EscapedUpToNone(t: string)
    ensures EscapedUpTo(t, 0) == t
    decreases |t|
  {
    if |t| > 0 {
      EscapedUpToNone(t[1..]);
      assert t == [t[0]] + t[1..];
    }
  }

  lemma {:induction false} EscapedUpToAll(t: string)
    ensures EscapedUpTo(t, |RegexOperators|) == Escaped(t)
    decreases |t|
  {
    if |t| > 0 {
      EscapedUpToAll(t[1..]);
      assert RegexOperators[..|RegexOperators|] == RegexOperators;
      OperatorMembership(t[0]);
    }
  }

  /** Escaping operator `k` in a text whose first `k` operators are escaped: no backslash added
      before is touched again unless `k` is the backslash itself, which comes first. */
  lemma {:induction false} EscapeStep(t: string, k: nat)
    requires k < |RegexOperators|
    ensures Replace(EscapedUpTo(t, k), [RegexOperators[k]], "\\" + [RegexOperators[k]]) == EscapedUpTo(t, k + 1)
    decreases |t|
  {
    var c := RegexOperators[k];
    var rep := "\\" + [c];
    ReplaceSingleChar(EscapedUpTo(t, k), c, rep);
    MapCharEscaped(t, k);
  }

  lemma {:induction false} MapCharEscaped(t: string, k: nat)
    requires k < |RegexOperators|
    ensures MapChar(EscapedUpTo(t, k), RegexOperators[k], "\\" + [RegexOperators[k]]) == EscapedUpTo(t, k + 1)
    decreases |t|
  {
    if |t| > 0 {
      var c := RegexOperators[k];
      var rep := "\\" + [c];
      var head := if t[0] in RegexOperators[..k] then ['\\', t[0]] else [t[0]];
      MapCharEscaped(t[1..], k);
      MapCharAppend(head, EscapedUpTo(t[1..], k), c, rep);
      assert RegexOperators[..k + 1] == RegexOperators[..k] + [c];
      if t[0] in RegexOperators[..k] {
        assert t[0] != c;
        assert k > 0 && c != '\\';
        assert MapChar(head, c, rep) == ['\\', t[0]];
      } else if t[0] == c {
        assert MapChar(head, c, rep) == ['\\', t[0]];
      } else {
        assert MapChar(head, c, rep) == [t[0]];
      }
    }
  }

  lemma {:induction false} EscapeRemaining(t: string, k: nat)
    requires k <= |RegexOperators|
    ensures ReplaceEach(EscapedUpTo(t, k), EscapePairs()[k..]) == Ok(Escaped(t))
    decreases |RegexOperators| - k
  {
    var pairs := EscapePairs();
    if k == |RegexOperators| {
      EscapedUpToAll(t);
    } else {
      assert ReservedRegexOperators[k] == [RegexOperators[k]];
      assert pairs[k..][0] == ([RegexOperators[k]], "\\" + [RegexOperators[k]]);
      assert pairs[k..][1..] == pairs[k + 1..];
      EscapeStep(t, k);
      EscapeRemaining(t, k + 1);
    }
  }

  /** Replacing the operators one after another, backslash first, escapes each operator exactly
      once: the result is the character-by-character escape. */
  lemma EscapeBySequentialReplace(t: string)
    ensures ReplaceEach(t, EscapePairs()) == Ok(Escaped(t))
  {
    EscapedUpToNone(t);
    EscapeRemaining(t, 0);
  }

  /** The length of the run of ASCII digits `s` starts with. */
  function DigitRun(s: string): (n: nat)
    ensures n <= |s|
    ensures forall i :: 0 <= i < n ==> IsAsciiDigit(s[i])
    ensures n < |s| ==> !IsAsciiDigit(s[n])
    decreases |s|
  {
    if |s| > 0 && IsAsciiDigit(s[0]) then 1 + DigitRun(s[1..]) else 0
  }

  /** The number of digits of the `{n}` placeholder `t` starts with (a match of `\{[0-9]+\}`),
      or 0 when it starts with none. */
  function PlaceholderDigits(t: string): (d: nat)
    ensures d > 0 ==> d + 2 <= |t| && t[0] == '{' && t[d + 1] == '}'
    ensures d > 0 ==> forall i :: 1 <= i <= d ==> IsAsciiDigit(t[i])
  {
    if |t| > 0 && t[0] == '{' then
      var d := DigitRun(t[1..]);
      if d > 0 && d + 1 < |t| && t[d + 1] == '}' then d else 0
    else 0
  }

  /** The named group `(?<n+1>.*?)` a placeholder with digits `digits` becomes: `int.Parse` refuses a
      number beyond `int.MaxValue` with an `OverflowException`, and `+ 1` wraps in 32 bits. */
  function GroupFor(digits: string): (r: Result<string>)
    requires forall i :: 0 <= i < |digits| ==> IsAsciiDigit(digits[i])
    ensures r.Throw? <==> ParseDigits(digits) > Int32Max
    ensures r.Throw? ==> r.error == Overflow
  {
    var n := ParseDigits(digits);
    if n > Int32Max then Throw(Overflow) else Ok("(?<" + IntToString(Wrap32(n + 1)) + ">.*?)")
  }

  /** `x` in front of a successful result; an exception passes through. */
  function Prepend(x: string, r: Result<string>): Result<string> {
    if r.Ok? then Ok(x + r.value) else r
  }

  /** `Regex.Replace(t, @"\{[0-9]+\}", m => "(?<" + (int.Parse(digits) + 1) + ">.*?)")`: scanning left
      to right, each placeholder is replaced by its group and every other character is kept. */
  function ReplacePlaceholders(t: string): (r: Result<string>)
    ensures r.Throw? ==> r.error == Overflow
    decreases |t|
  {
    if |t| == 0 then Ok("")
    else
      var d := PlaceholderDigits(t);
      if d > 0 then
        var g := GroupFor(t[1..d + 1]);
        if g.Throw? then g else Prepend(g.value, ReplacePlaceholders(t[d + 2..]))
      else Prepend([t[0]], ReplacePlaceholders(t[1..]))
  }

  /** What a template means as a pattern, read token by token on the template itself: a
      placeholder `{n}` becomes the group `(?<n+1>.*?)`, any other character its escaped form. */
  function CompileTemplate(t: string): (r: Result<string>)
    ensures r.Throw? ==> r.error == Overflow
    decreases |t|
  {
    if |t| == 0 then Ok("")
    else
      var d := PlaceholderDigits(t);
      if d > 0 then
        var g := GroupFor(t[1..d + 1]);
        if g.Throw? then g else Prepend(g.value, CompileTemplate(t[d + 2..]))
      else Prepend(EscapeChar(t[0]), CompileTemplate(t[1..]))
  }

  lemma {:induction false} EscapedAppend(a: string, b: string)
    ensures Escaped(a + b) == Escaped(a) + Escaped(b)
    decreases |a|
  {
    if |a| == 0 {
      assert a + b == b;
    } else {
      calc {
        Escaped(a + b);
        { assert (a + b)[1..] == a[1..] + b; assert (a + b)[0] == a[0]; }
        EscapeChar(a[0]) + Escaped(a[1..] + b);
        { EscapedAppend(a[1..], b); }
        EscapeChar(a[0]) + (Escaped(a[1..]) + Escaped(b));
        (EscapeChar(a[0]) + Escaped(a[1..])) + Escaped(b);
      }
    }
  }

  /** Escaping keeps the last character: it is `}` after escaping exactly when it was before. */
  lemma EscapedLast(t: string)
    ensures |Escaped(t)| > 0 <==> |t| > 0
    ensures |t| > 0 ==> Escaped(t)[|Escaped(t)| - 1] == t[|t| - 1]
  {
    if |t| > 0 {
      EscapedAppend(t[..|t| - 1], [t[|t| - 1]]);
      assert t == t[..|t| - 1] + [t[|t| - 1]];
    }
  }

  /** Escaping neither adds nor hides a placeholder: substituting the placeholders of the escaped
      template compiles the original template. */
  lemma {:induction false} PlaceholdersAfterEscape(t: string)
    ensures ReplacePlaceholders(Escaped(t)) == CompileTemplate(t)
    decreases |t|
  {
    if |t| > 0 {
      var d := PlaceholderDigits(t);
      if d > 0 {
        PlaceholdersAfterEscape(t[d + 2..]);
        PlaceholderSurvivesEscape(t, d);
      } else {
        PlaceholdersAfterEscape(t[1..]);
        if IsRegexOperator(t[0]) {
          EscapedOperatorStep(t);
        } else {
          var e := Escaped(t);
          assert e == EscapeChar(t[0]) + Escaped(t[1..]);
          assert e[1..] == Escaped(t[1..]);
          NoNewPlaceholder(t, e);
        }
      }
    }
  }

  /** `{`, the digits and `}` are no operators, so a placeholder at the head survives escaping. */
  lemma PlaceholderSurvivesEscape(t: string, d: nat)
    requires d > 0 && PlaceholderDigits(t) == d
    requires ReplacePlaceholders(Escaped(t[d + 2..])) == CompileTemplate(t[d + 2..])
    ensures ReplacePlaceholders(Escaped(t)) == CompileTemplate(t)
  {
    var p := t[..d + 2];
    var rest := t[d + 2..];
    assert t == p + rest;
    EscapedAppend(p, rest);
    PlaceholderEscapesToItself(t, d);
    var e := p + Escaped(rest);
    assert e[..d + 2] == p;
    assert e[d + 2..] == Escaped(rest);
    SamePlaceholderHead(t, e, d);
  }

  /** Two texts that start with the same placeholder substitute it alike. */
  lemma SamePlaceholderHead(t: string, e: string, d: nat)
    requires d > 0 && PlaceholderDigits(t) == d
    requires |e| >= d + 2 && e[..d + 2] == t[..d + 2]
    requires ReplacePlaceholders(e[d + 2..]) == CompileTemplate(t[d + 2..])
    ensures ReplacePlaceholders(e) == CompileTemplate(t)
  {
    PlaceholderDigitsPrefix(t, e, d);
    assert e[1..d + 1] == t[1..d + 1] by {
      forall i | 1 <= i < d + 1 ensures e[i] == t[i] {
        assert e[..d + 2][i] == t[..d + 2][i];
      }
    }
    SubstitutedAtPlaceholder(e, d);
    CompiledAtPlaceholder(t, d);
  }

  lemma SubstitutedAtPlaceholder(u: string, d: nat)
    requires d > 0 && PlaceholderDigits(u) == d
    ensures ReplacePlaceholders(u) == (var g := GroupFor(u[1..d + 1]);
      if g.Throw? then g else Prepend(g.value, ReplacePlaceholders(u[d + 2..])))
  {
  }

  lemma CompiledAtPlaceholder(u: string, d: nat)
    requires d > 0 && PlaceholderDigits(u) == d
    ensures CompileTemplate(u) == (var g := GroupFor(u[1..d + 1]);
      if g.Throw? then g else Prepend(g.value, CompileTemplate(u[d + 2..])))
  {
  }

  /** A placeholder contains no operator, so escaping leaves it as it is. */
  lemma PlaceholderEscapesToItself(t: string, d: nat)
    requires d > 0 && PlaceholderDigits(t) == d
    ensures Escaped(t[..d + 2]) == t[..d + 2]
  {
    var p := t[..d + 2];
    forall i | 0 <= i < |p| ensures !IsRegexOperator(p[i]) {
      assert p[i] == t[i];
    }
    NoOperatorsEscaped(p);
  }

  /** An operator at the head becomes a backslash and itself, neither of which opens a placeholder. */
  lemma EscapedOperatorStep(t: string)
    requires |t| > 0 && PlaceholderDigits(t) == 0 && IsRegexOperator(t[0])
    requires ReplacePlaceholders(Escaped(t[1..])) == CompileTemplate(t[1..])
    ensures ReplacePlaceholders(Escaped(t)) == CompileTemplate(t)
  {
    assert Escaped(t) == ['\\', t[0]] + Escaped(t[1..]);
    BackslashPair(t[0], Escaped(t[1..]));
    CompiledCharacter(t);
  }

  /** A backslash and the character it escapes are copied by the substitution. */
  lemma BackslashPair(c: char, rest: string)
    requires c != '{'
    ensures ReplacePlaceholders(['\\', c] + rest) == Prepend(['\\', c], ReplacePlaceholders(rest))
  {
    var u := ['\\', c] + rest;
    KeptCharacter(u);
    assert u[1..] == [c] + rest;
    KeptCharacter([c] + rest);
    assert ([c] + rest)[1..] == rest;
    PrependPrepend("\\", [c], ReplacePlaceholders(rest));
    assert ['\\', c] == "\\" + [c];
  }

  lemma CompiledCharacter(t: string)
    requires |t| > 0 && PlaceholderDigits(t) == 0
    ensures CompileTemplate(t) == Prepend(EscapeChar(t[0]), CompileTemplate(t[1..]))
  {
  }

  /** A character that opens no placeholder is copied by the substitution. */
  lemma KeptCharacter(u: string)
    requires |u| > 0 && u[0] != '{'
    ensures ReplacePlaceholders(u) == Prepend([u[0]], ReplacePlaceholders(u[1..]))
  {
  }

  lemma PrependPrepend(x: string, y: string, r: Result<string>)
    ensures Prepend(x, Prepend(y, r)) == Prepend(x + y, r)
  {
    if r.Ok? {
      assert x + (y + r.value) == (x + y) + r.value;
    }
  }

  /** A text without operators escapes to itself. */
  lemma {:induction false} NoOperatorsEscaped(p: string)
    requires forall i :: 0 <= i < |p| ==> !IsRegexOperator(p[i])
    ensures Escaped(p) == p
    decreases |p|
  {
    if |p| > 0 {
      NoOperatorsEscaped(p[1..]);
      assert p == [p[0]] + p[1..];
    }
  }

  lemma PlaceholderDigitsPrefix(t: string, e: string, d: nat)
    requires d > 0 && PlaceholderDigits(t) == d
    requires |e| >= d + 2 && e[..d + 2] == t[..d + 2]
    ensures PlaceholderDigits(e) == d
  {
    assert t[0] == '{' && t[d + 1] == '}';
    assert e[0] == e[..d + 2][0] == t[..d + 2][0];
    assert e[d + 1] == e[..d + 2][d + 1] == t[..d + 2][d + 1];
    assert DigitRun(t[1..]) == d;
    assert e[1..][..d + 1] == t[1..][..d + 1] by {
      forall i | 1 <= i < d + 2 ensures e[i] == t[i] {
        assert e[..d + 2][i] == t[..d + 2][i];
      }
    }
    DigitRunPrefix(t[1..], e[1..], d);
  }

  lemma {:induction false} DigitRunPrefix(s: string, u: string, d: nat)
    requires DigitRun(s) == d < |s| && d < |u| && u[..d + 1] == s[..d + 1]
    ensures DigitRun(u) == d
    decreases d
  {
    if d > 0 {
      assert u[0] == s[0];
      assert u[1..][..d] == s[1..][..d];
      DigitRunPrefix(s[1..], u[1..], d - 1);
    } else {
      assert u[0] == s[0];
    }
  }

  /** Where the template has no placeholder at its head, its escaped form has none either. */
  lemma NoNewPlaceholder(t: string, e: string)
    requires |t| > 0 && PlaceholderDigits(t) == 0 && !IsRegexOperator(t[0])
    requires e == [t[0]] + Escaped(t[1..])
    ensures PlaceholderDigits(e) == 0
  {
    if t[0] == '{' {
      var d := DigitRun(e[1..]);
      if d > 0 && d + 1 < |e| && e[d + 1] == '}' {
        EscapedDigitRun(t[1..], d);
        assert false;
      }
    }
  }

  /** A run of `d` digits closed by `}` in the escaped text was the same run in the original. */
  lemma {:induction false} EscapedDigitRun(s: string, d: nat)
    requires d > 0 && DigitRun(Escaped(s)) == d && d < |Escaped(s)| && Escaped(s)[d] == '}'
    ensures DigitRun(s) == d && d < |s| && s[d] == '}'
    decreases |s|
  {
    var e := Escaped(s);
    assert |s| > 0;
    assert IsAsciiDigit(e[0]);
    assert !IsRegexOperator(s[0]);
    assert e == [s[0]] + Escaped(s[1..]);
    assert e[1..] == Escaped(s[1..]);
    if d == 1 {
      assert |s| > 1;
      assert Escaped(s[1..]) == EscapeChar(s[1]) + Escaped(s[2..]);
      assert s[1] == '}';
    } else {
      EscapedDigitRun(s[1..], d - 1);
    }
  }

  /** The anchor at the head of the pattern: `^` when comparing from the start or the whole text. */
  function StartAnchor(options: ComparisonTemplateOptions): string {
    if options == FromStart || options == Whole then "^" else ""
  }

  /** The anchor at the tail of the pattern: `$` when comparing at the end or the whole text, or
      by default when the template ends with a `}`. */
  function EndAnchor(template: string, options: ComparisonTemplateOptions): string {
    if options == AtTheEnd || options == Whole ||
       (options == Default && |template| > 0 && template[|template| - 1] == '}')
    then "$" else ""
  }

  /** `GetRegexPattern(template, options)`: the reserved operators are escaped, `^` is added when
      comparing from the start or the whole text, every `{n}` becomes `(?<n+1>.*?)`, and `$` is
      added when comparing at the end or the whole text, or by default when the template ends
      with `}`. */
  method GetRegexPattern(template: string, compareTemplateOptions: ComparisonTemplateOptions)
    returns (pattern: Result<string>)
    ensures pattern.Throw? <==> CompileTemplate(template).Throw?
    ensures pattern.Throw? ==> pattern.error == Overflow
    ensures pattern.Ok? ==>
      pattern.value == StartAnchor(compareTemplateOptions) + CompileTemplate(template).value
                       + EndAnchor(template, compareTemplateOptions)
  {
    var escaped := ReplaceAllBy(template, ReservedRegexOperators, EscapeOperator);
    EscapeBySequentialReplace(template);
    assert escaped == Ok(Escaped(template));
    var t := escaped.value;
    EscapedLast(template);
    PlaceholdersAfterEscape(template);
    ghost var compiled := CompileTemplate(template);
    var comparingFromStart := compareTemplateOptions == FromStart || compareTemplateOptions == Whole;
    var comparingAtTheEnd := compareTemplateOptions == AtTheEnd || compareTemplateOptions == Whole;
    var sb := "";
    if comparingFromStart {
      sb := sb + "^";
    }
    assert sb == StartAnchor(compareTemplateOptions);
    var body := ReplacePlaceholders(t);
    assert body == compiled;
    if body.Throw? {
      return Throw(body.error);
    }
    sb := sb + body.value;
    if comparingAtTheEnd || (|t| > 0 && t[|t| - 1] == '}' && compareTemplateOptions == Default) {
      sb := sb + "$";
    }
    assert sb == StartAnchor(compareTemplateOptions) + compiled.value + EndAnchor(template, compareTemplateOptions);
    return Ok(sb);
  }

  /** A placeholder `{n}` with `n < int.MaxValue` compiles to the group named `n + 1`. */
  lemma PlaceholderGroup(n: nat, rest: string)
    requires n < Int32Max
    ensures CompileTemplate("{" + NatToString(n) + "}" + rest)
         == Prepend("(?<" + NatToString(n + 1) + ">.*?)", CompileTemplate(rest))
  {
    var digits := NatToString(n);
    var t := "{" + digits + "}" + rest;
    var d := |digits|;
    assert t[1..][..d] == digits;
    assert t[1..][d] == '}';
    DigitRunExact(t[1..], d);
    assert PlaceholderDigits(t) == d;
    assert t[1..d + 1] == digits;
    ParseNatToString(n);
    assert t[d + 2..] == rest;
  }

  lemma {:induction false} DigitRunExact(s: string, d: nat)
    requires d < |s| && !IsAsciiDigit(s[d]) && forall i :: 0 <= i < d ==> IsAsciiDigit(s[i])
    ensures DigitRun(s) == d
    decreases d
  {
    if d > 0 {
      DigitRunExact(s[1..], d - 1);
    }
  }

  /** A template without placeholders compiles to its escaped text. */
  lemma {:induction false} NoPlaceholderCompilesEscaped(t: string)
    requires forall i :: 0 <= i < |t| ==> t[i] != '{'
    ensures CompileTemplate(t) == Ok(Escaped(t))
    decreases |t|
  {
    if |t| > 0 {
      NoPlaceholderCompilesEscaped(t[1..]);
    }
  }

  // ---------------------------------------------------------------------
  // Slugs (GenerateSlug)
  // ---------------------------------------------------------------------

  /** A character a slug may contain: a lower-case ASCII letter, an ASCII digit or a hyphen. */
  predicate IsSlugChar(c: char) {
    ('a' <= c <= 'z') || IsAsciiDigit(c) || c == '-'
  }

  /** No two neighbouring characters of `s` are both white space or hyphens. */
  predicate NoDoubledSeparators(s: string) {
    forall i :: 0 <= i < |s| - 1 ==> !(IsSpaceOrHyphen(s[i]) && IsSpaceOrHyphen(s[i + 1]))
  }

  /** What a slug is: slug characters only, no doubled hyphens. */
  predicate IsSlug(s: string) {
    (forall i :: 0 <= i < |s| ==> IsSlugChar(s[i])) && NoDoubledSeparators(s)
  }

  /** The text a slug is cut from: lower-cased, stripped of everything outside `[a-z0-9\s-]`,
      every run of two or more `[\s-]` collapsed to one space, and trimmed. */
  function SlugSource(phrase: string): string {
    Trim(CollapseRuns(KeepSlugSource(ToLower(phrase))))
  }

  /** `GenerateSlug(phrase, maxLength)`: the slug source cut to at most `maxLength` characters
      (`Substring(0, maxLength)` refuses a negative length), trimmed again, with every white-space
      character turned into a hyphen. */
  function GenerateSlug(phrase: string, maxLength: int): (r: Result<string>)
    ensures r.Throw? <==> maxLength < 0
    ensures r.Throw? ==> r.error == ArgumentOutOfRange
  {
    var str := SlugSource(phrase);
    if maxLength < 0 then Throw(ArgumentOutOfRange)
    else Ok(SpacesToHyphens(Trim(str[..if |str| <= maxLength then |str| else maxLength])))
  }

  /** Collapsing the runs leaves only slug-source characters and no two neighbouring separators;
      a non-empty text keeps whether it starts with a separator. */
  lemma {:induction false} CollapseRunsShape(s: string)
    requires AllSlugSource(s)
    ensures AllSlugSource(CollapseRuns(s)) && NoDoubledSeparators(CollapseRuns(s))
    ensures |s| > 0 ==> |CollapseRuns(s)| > 0 && (IsSpaceOrHyphen(CollapseRuns(s)[0]) <==> IsSpaceOrHyphen(s[0]))
    decreases |s|
  {
    if |s| > 0 {
      var n := SpaceRun(s);
      if n >= 2 {
        CollapseRunsShape(s[n..]);
        var rest := CollapseRuns(s[n..]);
        assert CollapseRuns(s) == " " + rest;
        assert |s[n..]| > 0 ==> !IsSpaceOrHyphen(s[n..][0]);
      } else {
        CollapseRunsShape(s[1..]);
        var rest := CollapseRuns(s[1..]);
        assert CollapseRuns(s) == [s[0]] + rest;
        assert n == 1 && |s| > 1 ==> !IsSpaceOrHyphen(s[1..][0]);
      }
    }
  }

  /** A text without neighbouring separators has no run to collapse. */
  lemma {:induction false} CollapseRunsIdentity(s: string)
    requires NoDoubledSeparators(s)
    ensures CollapseRuns(s) == s
    decreases |s|
  {
    if |s| > 0 {
      assert SpaceRun(s) <= 1;
      CollapseRunsIdentity(s[1..]);
      assert s == [s[0]] + s[1..];
    }
  }

  /** The slug source is made of slug-source characters, has no neighbouring separators, and
      neither starts nor ends with white space. */
  lemma SlugSourceShape(phrase: string)
    ensures AllSlugSource(SlugSource(phrase)) && NoDoubledSeparators(SlugSource(phrase))
  {
    var c := CollapseRuns(KeepSlugSource(ToLower(phrase)));
    CollapseRunsShape(KeepSlugSource(ToLower(phrase)));
    TrimShape(c);
  }

  /** A slug is made of `[a-z0-9-]` only, has no doubled hyphens and is at most `maxLength` long. */
  lemma SlugShape(phrase: string, maxLength: int)
    requires maxLength >= 0
    ensures IsSlug(GenerateSlug(phrase, maxLength).value)
    ensures |GenerateSlug(phrase, maxLength).value| <= maxLength
  {
    var str := SlugSource(phrase);
    SlugSourceShape(phrase);
    var cut := str[..if |str| <= maxLength then |str| else maxLength];
    TrimmedCutShape(str, cut);
    HyphenatedShape(Trim(cut));
  }

  /** Cutting and trimming keep the characters and the separation of the source. */
  lemma TrimmedCutShape(str: string, cut: string)
    requires AllSlugSource(str) && NoDoubledSeparators(str)
    requires cut <= str
    ensures AllSlugSource(Trim(cut)) && NoDoubledSeparators(Trim(cut))
  {
    SliceShape(str, 0, |cut|);
    assert str[0..|cut|] == cut;
    TrimShape(cut);
  }

  /** Trimming keeps the characters and the separation of a text. */
  lemma TrimShape(c: string)
    requires AllSlugSource(c) && NoDoubledSeparators(c)
    ensures AllSlugSource(Trim(c)) && NoDoubledSeparators(Trim(c))
  {
    var t := Trim(c);
    var a := |c| - |TrimStart(c)|;
    assert t == c[a..a + |t|];
    SliceShape(c, a, a + |t|);
  }

  /** A stretch of a text keeps its characters and its separation. */
  lemma SliceShape(s: string, a: int, b: int)
    requires 0 <= a <= b <= |s|
    requires AllSlugSource(s) && NoDoubledSeparators(s)
    ensures AllSlugSource(s[a..b]) && NoDoubledSeparators(s[a..b])
  {
    forall i | 0 <= i < b - a ensures s[a..b][i] == s[a + i] { }
  }

  /** Turning white space into hyphens makes slug characters of slug-source characters. */
  lemma HyphenatedShape(t: string)
    requires AllSlugSource(t) && NoDoubledSeparators(t)
    ensures IsSlug(SpacesToHyphens(t))
  {
    var slug := SpacesToHyphens(t);
    forall i | 0 <= i < |slug| ensures IsSlugChar(slug[i]) {
      assert IsSlugSourceChar(t[i]);
    }
  }

  /** A slug is its own slug source. */
  lemma SlugIsOwnSource(slug: string)
    requires IsSlug(slug)
    ensures SlugSource(slug) == slug
  {
    assert ToLower(slug) == slug;
    assert AllSlugSource(slug);
    CollapseRunsIdentity(slug);
    forall i | 0 <= i < |slug| ensures !IsWhiteSpace(slug[i]) {
      assert IsSlugChar(slug[i]);
    }
    TrimNoWhiteSpace(slug);
  }

  /** A slug no longer than `maxLength` is its own slug. */
  lemma SlugFixpoint(slug: string, maxLength: int)
    requires IsSlug(slug) && 0 <= |slug| <= maxLength
    ensures GenerateSlug(slug, maxLength) == Ok(slug)
  {
    SlugIsOwnSource(slug);
    SlugKeptWhole(slug);
    assert slug[..|slug|] == slug;
  }

  /** A slug has no white space, so trimming it and hyphenating its white space leave it alone. */
  lemma SlugKeptWhole(slug: string)
    requires IsSlug(slug)
    ensures SpacesToHyphens(Trim(slug)) == slug
  {
    forall i | 0 <= i < |slug| ensures !IsWhiteSpace(slug[i]) {
      assert IsSlugChar(slug[i]);
    }
    TrimNoWhiteSpace(slug);
    assert SpacesToHyphens(slug) == slug;
  }

  /** Slugging a slug again with the same bound changes nothing. */
  lemma SlugIdempotent(phrase: string, maxLength: int)
    requires maxLength >= 0
    ensures GenerateSlug(GenerateSlug(phrase, maxLength).value, maxLength) == GenerateSlug(phrase, maxLength)
  {
    SlugShape(phrase, maxLength);
    SlugFixpoint(GenerateSlug(phrase, maxLength).value, maxLength);
  }
}
