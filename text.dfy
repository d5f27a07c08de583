/** The .NET string and character primitives the core relies on, stated on
    `seq<char>`, a sequence of Unicode scalar values, with ordinal (character by
    character) comparison. */
module Text {
  import opened Common

  // ---------------------------------------------------------------------
  // Character classes
  // ---------------------------------------------------------------------

  /** `char.IsWhiteSpace`, which is also the set the regular-expression class `\s` denotes:
      U+0009..U+000D, U+0020, U+0085, U+00A0, U+1680, U+2000..U+200A, U+2028, U+2029,
      U+202F, U+205F and U+3000. */
  predicate IsWhiteSpace(c: char) {
    var n := c as int;
    (0x09 <= n <= 0x0D) || n == 0x20 || n == 0x85 || n == 0xA0 || n == 0x1680
    || (0x2000 <= n <= 0x200A) || n == 0x2028 || n == 0x2029 || n == 0x202F
    || n == 0x205F || n == 0x3000
  }

  /** `char.IsDigit`, restricted to the ASCII digits. */
  predicate IsDigit(c: char) {
    IsAsciiDigit(c)
  }

  /** `char.IsLetter`, restricted to the ASCII letters. */
  predicate IsLetter(c: char) {
    ('a' <= c <= 'z') || ('A' <= c <= 'Z')
  }

  function ToLowerChar(c: char): (r: char)
    ensures 'A' <= c <= 'Z' ==> 'a' <= r <= 'z'
    ensures !('A' <= c <= 'Z') ==> r == c
  {
    if 'A' <= c <= 'Z' then (c as int + 32) as char else c
  }

  function ToUpperChar(c: char): (r: char)
    ensures 'a' <= c <= 'z' ==> 'A' <= r <= 'Z'
    ensures !('a' <= c <= 'z') ==> r == c
  {
    if 'a' <= c <= 'z' then (c as int - 32) as char else c
  }

  /** `string.ToLower()` on the ASCII letters. */
  function ToLower(s: string): (r: string)
    ensures |r| == |s|
    ensures forall i :: 0 <= i < |s| ==> r[i] == ToLowerChar(s[i])
  {
    seq(|s|, i requires 0 <= i < |s| => ToLowerChar(s[i]))
  }

  /** Ordinal comparison that ignores the case of ASCII letters. */
  predicate EqualsIgnoreCase(a: string, b: string) {
    |a| == |b| && forall i :: 0 <= i < |a| ==> ToUpperChar(a[i]) == ToUpperChar(b[i])
  }

  /** `string.IsNullOrEmpty`. */
  predicate IsNullOrEmpty(s: NullableString) {
    s.None? || |s.value| == 0
  }

  /** What `string.Concat` reads for a possibly null argument: null counts as "". */
  function OrEmpty(s: NullableString): string {
    if s.None? then "" else s.value
  }

  // ---------------------------------------------------------------------
  // Prefixes, suffixes, occurrences
  // ---------------------------------------------------------------------

  predicate StartsWith(s: string, prefix: string) {
    |prefix| <= |s| && s[..|prefix|] == prefix
  }

  predicate EndsWith(s: string, suffix: string) {
    |suffix| <= |s| && s[|s| - |suffix|..] == suffix
  }

  /** `EndsWith(suffix, StringComparison.OrdinalIgnoreCase)`. */
  predicate EndsWithIgnoreCase(s: string, suffix: string) {
    |suffix| <= |s| && EqualsIgnoreCase(s[|s| - |suffix|..], suffix)
  }

  /** `x` occurs in `s` starting at index `i`. */
  predicate OccursAt(s: string, x: string, i: int) {
    0 <= i && i + |x| <= |s| && s[i..i + |x|] == x
  }

  predicate Contains(s: string, x: string) {
    exists i :: 0 <= i <= |s| - |x| && OccursAt(s, x, i)
  }

  function IndexFrom(s: string, x: string, k: nat): (r: int)
    requires k <= |s|
    ensures r == -1 || (k <= r && OccursAt(s, x, r))
    ensures forall i :: k <= i && (r == -1 || i < r) ==> !OccursAt(s, x, i)
    decreases |s| - k
  {
    if k + |x| > |s| then -1
    else if s[k..k + |x|] == x then k
    else IndexFrom(s, x, k + 1)
  }

  /** `s.IndexOf(x)`: the first index at which `x` occurs, or -1. */
  function IndexOf(s: string, x: string): (r: int)
    ensures r == -1 <==> !Contains(s, x)
    ensures r != -1 ==> OccursAt(s, x, r) && forall i :: 0 <= i < r ==> !OccursAt(s, x, i)
  {
    IndexFrom(s, x, 0)
  }

  function LastIndexFrom(s: string, x: string, k: int): (r: int)
    requires k < |s| + 1
    ensures r == -1 || (0 <= r <= k && OccursAt(s, x, r))
    ensures forall i :: i <= k && r < i ==> !OccursAt(s, x, i)
    decreases k + 1
  {
    if k < 0 then -1
    else if OccursAt(s, x, k) then k
    else LastIndexFrom(s, x, k - 1)
  }

  /** `s.LastIndexOf(x)`: the last index at which `x` occurs, or -1
      (for an empty `x` that is `|s|`). */
  function LastIndexOf(s: string, x: string): (r: int)
    ensures r == -1 <==> !Contains(s, x)
    ensures r != -1 ==> OccursAt(s, x, r) && forall i :: r < i ==> !OccursAt(s, x, i)
  {
    LastIndexFrom(s, x, |s| - |x|)
  }

  /** The text from the last occurrence of `x` on has that occurrence as its only one. */
  lemma LastOccurrenceSuffix(s: string, x: string)
    requires Contains(s, x)
    ensures LastIndexOf(s[LastIndexOf(s, x)..], x) == 0
  {
    var k := LastIndexOf(s, x);
    var t := s[k..];
    assert t[0..|x|] == s[k..k + |x|];
    assert OccursAt(t, x, 0);
    var j := LastIndexOf(t, x);
    if j > 0 {
      assert t[j..j + |x|] == s[k + j..k + j + |x|];
      assert OccursAt(s, x, k + j);
    }
  }

  // ---------------------------------------------------------------------
  // Trimming
  // ---------------------------------------------------------------------

  function TrimStart(s: string): (r: string)
    ensures |r| <= |s| && r == s[|s| - |r|..]
    ensures forall i :: 0 <= i < |s| - |r| ==> IsWhiteSpace(s[i])
    ensures |r| > 0 ==> !IsWhiteSpace(r[0])
    decreases |s|
  {
    if |s| > 0 && IsWhiteSpace(s[0]) then TrimStart(s[1..]) else s
  }

  function TrimEnd(s: string): (r: string)
    ensures |r| <= |s| && r == s[..|r|]
    ensures forall i :: |r| <= i < |s| ==> IsWhiteSpace(s[i])
    ensures |r| > 0 ==> !IsWhiteSpace(r[|r| - 1])
    decreases |s|
  {
    if |s| > 0 && IsWhiteSpace(s[|s| - 1]) then TrimEnd(s[..|s| - 1]) else s
  }

  /** `s.Trim()`: leading and trailing white space removed; what is left is the
      stretch of `s` that starts after the leading white space. */
  function Trim(s: string): (r: string)
    ensures |r| <= |TrimStart(s)| <= |s|
    ensures r == s[|s| - |TrimStart(s)|..|s| - |TrimStart(s)| + |r|]
    ensures |r| > 0 ==> !IsWhiteSpace(r[0]) && !IsWhiteSpace(r[|r| - 1])
  {
    var t := TrimStart(s);
    var r := TrimEnd(t);
    TrimEnds(s, t, r);
    r
  }

  /** Cutting white space off the end of a suffix that starts with no white space leaves a
      slice of the text with no white space at either end. */
  lemma TrimEnds(s: string, t: string, r: string)
    requires |t| <= |s| && t == s[|s| - |t|..]
    requires |r| <= |t| && r == t[..|r|]
    requires |t| > 0 ==> !IsWhiteSpace(t[0])
    requires |r| > 0 ==> !IsWhiteSpace(r[|r| - 1])
    ensures r == s[|s| - |t|..|s| - |t| + |r|]
    ensures |r| > 0 ==> !IsWhiteSpace(r[0]) && !IsWhiteSpace(r[|r| - 1])
  {
    if |r| > 0 {
      assert r[0] == t[0];
    }
    PrefixOfSuffix(s, |s| - |t|, r);
  }

  /** A text without white space is its own trim. */
  lemma TrimNoWhiteSpace(s: string)
    requires forall i :: 0 <= i < |s| ==> !IsWhiteSpace(s[i])
    ensures Trim(s) == s
  {
    assert TrimStart(s) == s;
  }

  /** A prefix of the suffix from `a` is the slice that starts at `a`. */
  lemma PrefixOfSuffix(s: string, a: int, r: string)
    requires 0 <= a <= |s| && |r| <= |s| - a && r == s[a..][..|r|]
    ensures r == s[a..a + |r|]
  {
  }

  // ---------------------------------------------------------------------
  // Building strings
  // ---------------------------------------------------------------------

  /** `new string(c, n)`. */
  function RepeatChar(c: char, n: nat): (r: string)
    ensures |r| == n && forall i :: 0 <= i < n ==> r[i] == c
  {
    seq(n, _ => c)
  }

  /** The characters of `s` in reverse order (`Array.Reverse` on `s.ToCharArray()`). */
  function Reversed(s: string): (r: string)
    ensures |r| == |s|
    ensures forall i :: 0 <= i < |s| ==> r[i] == s[|s| - 1 - i]
  {
    seq(|s|, i requires 0 <= i < |s| => s[|s| - 1 - i])
  }

  /** `n` copies of `v` one after the other (none when `n <= 0`). */
  function Repeated(v: string, n: int): string
    decreases n
  {
    if n <= 0 then "" else Repeated(v, n - 1) + v
  }

  /** `new string(c, count)`: a negative count is refused and a count past the maximum string
      length cannot be allocated. */
  function NewString(c: char, count: int): (r: Result<string>)
    ensures count < 0 ==> r == Throw(ArgumentOutOfRange)
    ensures count > MaxStringLength ==> r == Throw(OutOfMemory)
    ensures r.Ok? ==> |r.value| == count && forall i :: 0 <= i < count ==> r.value[i] == c
  {
    if count < 0 then Throw(ArgumentOutOfRange)
    else if count > MaxStringLength then Throw(OutOfMemory)
    else Ok(RepeatChar(c, count))
  }

  /** `s.PadLeft(totalWidth, c)`: a negative width is refused, a width within the length returns
      `s`, and a wider one allocates a string of `totalWidth` characters. */
  function PadLeft(s: string, totalWidth: int, c: char): (r: Result<string>)
    ensures totalWidth < 0 ==> r == Throw(ArgumentOutOfRange)
    ensures 0 <= totalWidth <= |s| ==> r == Ok(s)
    ensures |s| < totalWidth && totalWidth > MaxStringLength ==> r == Throw(OutOfMemory)
    ensures |s| < totalWidth <= MaxStringLength ==> r == Ok(RepeatChar(c, totalWidth - |s|) + s)
  {
    if totalWidth < 0 then Throw(ArgumentOutOfRange)
    else if totalWidth <= |s| then Ok(s)
    else if totalWidth > MaxStringLength then Throw(OutOfMemory)
    else Ok(RepeatChar(c, totalWidth - |s|) + s)
  }

  /** `s.PadRight(totalWidth, c)`, the same with the padding after `s`. */
  function PadRight(s: string, totalWidth: int, c: char): (r: Result<string>)
    ensures totalWidth < 0 ==> r == Throw(ArgumentOutOfRange)
    ensures 0 <= totalWidth <= |s| ==> r == Ok(s)
    ensures |s| < totalWidth && totalWidth > MaxStringLength ==> r == Throw(OutOfMemory)
    ensures |s| < totalWidth <= MaxStringLength ==> r == Ok(s + RepeatChar(c, totalWidth - |s|))
  {
    if totalWidth < 0 then Throw(ArgumentOutOfRange)
    else if totalWidth <= |s| then Ok(s)
    else if totalWidth > MaxStringLength then Throw(OutOfMemory)
    else Ok(s + RepeatChar(c, totalWidth - |s|))
  }

  /** The characters of `s` that satisfy `char.IsDigit`, in order. */
  function Digits(s: string): (r: string)
    ensures |r| <= |s|
    ensures forall c :: c in r <==> c in s && IsDigit(c)
    decreases |s|
  {
    if |s| == 0 then ""
    else if IsDigit(s[0]) then [s[0]] + Digits(s[1..])
    else Digits(s[1..])
  }

  /** The digits of a concatenation are the digits of each part, in order: with `DigitsOfChar`
      and `Digits("") == ""` this fixes `Digits` completely, order and number included. */
  lemma {:induction false} DigitsAppend(a: string, b: string)
    ensures Digits(a + b) == Digits(a) + Digits(b)
    decreases |a|
  {
    if |a| == 0 {
      assert a + b == b;
    } else {
      assert (a + b)[0] == a[0];
      assert (a + b)[1..] == a[1..] + b;
      DigitsAppend(a[1..], b);
    }
  }

  /** One character contributes itself when it is a digit and nothing otherwise. */
  lemma DigitsOfChar(c: char)
    ensures Digits([c]) == if IsDigit(c) then [c] else []
  {
    assert [c][1..] == "";
  }

  /** `s.Split(sep)`: the pieces between the separators, in order. */
  function Split(s: string, sep: char): (parts: seq<string>)
    ensures |parts| >= 1
    ensures forall i :: 0 <= i < |parts| ==> sep !in parts[i]
    decreases |s|
  {
    if |s| == 0 then [""]
    else
      var rest := Split(s[1..], sep);
      if s[0] == sep then [""] + rest else [[s[0]] + rest[0]] + rest[1..]
  }

  /** `string.Join(sep, parts)`. */
  function Join(parts: seq<string>, sep: string): string
    decreases |parts|
  {
    if |parts| == 0 then ""
    else if |parts| == 1 then parts[0]
    else parts[0] + sep + Join(parts[1..], sep)
  }

  /** Joining the pieces of a split with the separator gives back the original string. */
  lemma {:induction false} JoinSplit(s: string, sep: char)
    ensures Join(Split(s, sep), [sep]) == s
    decreases |s|
  {
    if |s| > 0 {
      var rest := Split(s[1..], sep);
      JoinSplit(s[1..], sep);
      if s[0] == sep {
        assert Split(s, sep) == [""] + rest;
        assert Join([""] + rest, [sep]) == "" + [sep] + Join(rest, [sep]);
        assert s == [s[0]] + s[1..];
      } else {
        var parts := Split(s, sep);
        assert parts == [[s[0]] + rest[0]] + rest[1..];
        if |rest| == 1 {
          assert Join(parts, [sep]) == [s[0]] + rest[0];
        } else {
          assert Join(parts, [sep]) == [s[0]] + rest[0] + [sep] + Join(rest[1..], [sep]);
          assert Join(rest, [sep]) == rest[0] + [sep] + Join(rest[1..], [sep]);
        }
        assert s == [s[0]] + s[1..];
      }
    }
  }

  // ---------------------------------------------------------------------
  // Replacement (StringBuilder.Replace, string.Replace)
  // ---------------------------------------------------------------------

  /** `StringBuilder.Replace(oldValue, newValue)`: every occurrence of `oldValue`, found left to right
      without overlap, is replaced by `newValue`. .NET refuses an empty `oldValue`. */
  function Replace(s: string, oldValue: string, newValue: string): string
    requires |oldValue| > 0
    decreases |s|
  {
    if |s| < |oldValue| then s
    else if s[..|oldValue|] == oldValue then newValue + Replace(s[|oldValue|..], oldValue, newValue)
    else [s[0]] + Replace(s[1..], oldValue, newValue)
  }

  /** Replacing a single character `c` by `rep` everywhere. */
  function MapChar(s: string, c: char, rep: string): string
    decreases |s|
  {
    if |s| == 0 then "" else (if s[0] == c then rep else [s[0]]) + MapChar(s[1..], c, rep)
  }

  lemma {:induction false} MapCharAppend(a: string, b: string, c: char, rep: string)
    ensures MapChar(a + b, c, rep) == MapChar(a, c, rep) + MapChar(b, c, rep)
    decreases |a|
  {
    if |a| == 0 {
      assert a + b == b;
    } else {
      var head := if a[0] == c then rep else [a[0]];
      assert (a + b)[1..] == a[1..] + b;
      assert (a + b)[0] == a[0];
      assert MapChar(a + b, c, rep) == head + MapChar(a[1..] + b, c, rep);
      MapCharAppend(a[1..], b, c, rep);
      assert MapChar(a, c, rep) + MapChar(b, c, rep)
          == head + (MapChar(a[1..], c, rep) + MapChar(b, c, rep));
    }
  }

  /** Replacing a one-character string is a per-character substitution. */
  lemma {:induction false} ReplaceSingleChar(s: string, c: char, rep: string)
    ensures Replace(s, [c], rep) == MapChar(s, c, rep)
    decreases |s|
  {
    if |s| > 0 {
      ReplaceSingleChar(s[1..], c, rep);
    }
  }

  /** Replacing a value by itself changes nothing. */
  lemma {:induction false} ReplaceIdentity(s: string, oldValue: string)
    requires |oldValue| > 0
    ensures Replace(s, oldValue, oldValue) == s
    decreases |s|
  {
    if |s| >= |oldValue| {
      if s[..|oldValue|] == oldValue {
        ReplaceIdentity(s[|oldValue|..], oldValue);
        assert s == s[..|oldValue|] + s[|oldValue|..];
      } else {
        ReplaceIdentity(s[1..], oldValue);
        assert s == [s[0]] + s[1..];
      }
    }
  }

  /** A value that does not occur is not replaced. */
  lemma {:induction false} ReplaceAbsent(s: string, oldValue: string, newValue: string)
    requires |oldValue| > 0
    requires !Contains(s, oldValue)
    ensures Replace(s, oldValue, newValue) == s
    decreases |s|
  {
    if |s| >= |oldValue| {
      assert !OccursAt(s, oldValue, 0);
      assert s[..|oldValue|] != oldValue;
      forall i | OccursAt(s[1..], oldValue, i) ensures false {
        assert s[1..][i..i + |oldValue|] == s[i + 1..i + 1 + |oldValue|];
        assert OccursAt(s, oldValue, i + 1);
      }
      ReplaceAbsent(s[1..], oldValue, newValue);
      assert s == [s[0]] + s[1..];
    }
  }

  // ---------------------------------------------------------------------
  // A list of replacements (a loop of StringBuilder.Replace calls)
  // ---------------------------------------------------------------------

  /** The replacements `(oldValue, newValue)` applied one after another, each to the text the
      ones before it produced; the first empty `oldValue` makes `StringBuilder.Replace` throw
      `ArgumentException`. */
  function ReplaceEach(s: string, pairs: seq<(string, string)>): Result<string>
    decreases |pairs|
  {
    if |pairs| == 0 then Ok(s)
    else if |pairs[0].0| == 0 then Throw(Argument)
    else ReplaceEach(Replace(s, pairs[0].0, pairs[0].1), pairs[1..])
  }

  /** Running two lists of replacements one after the other is running their concatenation. */
  lemma {:induction false} ReplaceEachAppend(s: string, p: seq<(string, string)>, q: seq<(string, string)>)
    ensures ReplaceEach(s, p + q)
         == (match ReplaceEach(s, p) case Ok(t) => ReplaceEach(t, q) case Throw(e) => Throw(e))
    decreases |p|
  {
    if |p| == 0 {
      assert p + q == q;
    } else {
      assert (p + q)[0] == p[0];
      assert (p + q)[1..] == p[1..] + q;
      if |p[0].0| > 0 {
        ReplaceEachAppend(Replace(s, p[0].0, p[0].1), p[1..], q);
      }
    }
  }

  /** A list of replacements fails exactly when one of its old values is empty. */
  lemma {:induction false} ReplaceEachThrows(s: string, pairs: seq<(string, string)>)
    ensures ReplaceEach(s, pairs).Throw? <==> exists i :: 0 <= i < |pairs| && pairs[i].0 == ""
    ensures ReplaceEach(s, pairs).Throw? ==> ReplaceEach(s, pairs).error == Argument
    decreases |pairs|
  {
    if |pairs| > 0 && |pairs[0].0| > 0 {
      ReplaceEachThrows(Replace(s, pairs[0].0, pairs[0].1), pairs[1..]);
      if exists i :: 0 <= i < |pairs| && pairs[i].0 == "" {
        var i :| 0 <= i < |pairs| && pairs[i].0 == "";
        assert pairs[1..][i - 1] == pairs[i];
      }
      if exists i :: 0 <= i < |pairs| - 1 && pairs[1..][i].0 == "" {
        var i :| 0 <= i < |pairs| - 1 && pairs[1..][i].0 == "";
        assert pairs[i + 1] == pairs[1..][i];
      }
    }
  }

  // ---------------------------------------------------------------------
  // The regular-expression rewrites behind slug generation
  // ---------------------------------------------------------------------

  /** The class `[\s-]`: white space or a hyphen. */
  predicate IsSpaceOrHyphen(c: char) {
    IsWhiteSpace(c) || c == '-'
  }

  /** The characters the class `[^a-z0-9\s-]` does NOT match. */
  predicate IsSlugSourceChar(c: char) {
    ('a' <= c <= 'z') || IsAsciiDigit(c) || IsSpaceOrHyphen(c)
  }

  predicate AllSlugSource(s: string) {
    forall i :: 0 <= i < |s| ==> IsSlugSourceChar(s[i])
  }

  /** `Regex.Replace(s, "[^a-z0-9\\s-]", "")`: every other character is dropped. */
  function KeepSlugSource(s: string): (r: string)
    ensures AllSlugSource(r)
    ensures AllSlugSource(s) ==> r == s
    decreases |s|
  {
    if |s| == 0 then ""
    else if IsSlugSourceChar(s[0]) then [s[0]] + KeepSlugSource(s[1..])
    else KeepSlugSource(s[1..])
  }

  /** The length of the run of `[\s-]` characters that `s` starts with. */
  function SpaceRun(s: string): (n: nat)
    ensures n <= |s|
    ensures forall i :: 0 <= i < n ==> IsSpaceOrHyphen(s[i])
    ensures n < |s| ==> !IsSpaceOrHyphen(s[n])
    decreases |s|
  {
    if |s| > 0 && IsSpaceOrHyphen(s[0]) then 1 + SpaceRun(s[1..]) else 0
  }

  /** `Regex.Replace(s, "[\\s-]{2,}", " ")`: scanning left to right, every maximal run of two or
      more `[\s-]` characters becomes one space; a lone one is kept. */
  function CollapseRuns(s: string): string
    decreases |s|
  {
    if |s| == 0 then ""
    else
      var n := SpaceRun(s);
      if n >= 2 then " " + CollapseRuns(s[n..]) else [s[0]] + CollapseRuns(s[1..])
  }

  /** `Regex.Replace(s, "\\s", "-")`: every white-space character becomes a hyphen. */
  function SpacesToHyphens(s: string): (r: string)
    ensures |r| == |s|
    ensures forall i :: 0 <= i < |s| ==> r[i] == (if IsWhiteSpace(s[i]) then '-' else s[i])
  {
    seq(|s|, i requires 0 <= i < |s| => if IsWhiteSpace(s[i]) then '-' else s[i])
  }
}
