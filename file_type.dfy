/** `FileTypeAttribute`: an uploaded file must end with one of a
    comma-separated list of extensions, compared ordinally without regard to
    case. */
module FileType {
  import opened Common
  import opened Text
  import opened Validation

  const MessagePrefix: string := "Only the following file types are allowed: "

  /** The state the constructor leaves: `ValidTypes` and `ErrorMessage`. */
  datatype FileTypeAttribute = FileTypeAttribute(validTypes: seq<string>, errorMessage: string)

  /** The constructor: the argument split at commas, each piece trimmed, and a
      message listing the pieces joined with " or ". */
  function New(validTypes: string): (a: FileTypeAttribute)
    ensures |a.validTypes| == |Split(validTypes, ',')|
    ensures forall i :: 0 <= i < |a.validTypes| ==> a.validTypes[i] == Trim(Split(validTypes, ',')[i])
    ensures a.errorMessage == MessagePrefix + Join(a.validTypes, " or ")
  {
    var pieces := Split(validTypes, ',');
    var types := seq(|pieces|, i requires 0 <= i < |pieces| => Trim(pieces[i]));
    FileTypeAttribute(types, MessagePrefix + Join(types, " or "))
  }

  /** A trimmed text holds no character the text lacks. */
  lemma TrimKeepsCharacters(s: string, c: char)
    requires c in Trim(s)
    ensures c in s
  {
    var t, a := Trim(s), |s| - |TrimStart(s)|;
    var j :| 0 <= j < |t| && t[j] == c;
    assert t[j] == s[a + j];
  }

  /** `file.FileName.EndsWith(e, OrdinalIgnoreCase)` for some valid type `e`. */
  predicate EndsWithAny(fileName: string, types: seq<string>) {
    exists i :: 0 <= i < |types| && EndsWithIgnoreCase(fileName, types[i])
  }

  /** `IsValid(value, context)`: only a file whose name ends with none of the
      valid types fails, with the constructor's message; null and every
      value that is not a file pass. */
  function IsValid(a: FileTypeAttribute, value: Value): (r: ValidationResult)
    ensures r.Failure? ==> value.File? && r.message == a.errorMessage
    ensures value.File? ==> (r.Success? <==> EndsWithAny(value.file.fileName, a.validTypes))
  {
    if value.File? && !EndsWithAny(value.file.fileName, a.validTypes) then Failure(a.errorMessage)
    else Success
  }

  /** Every name ends with the empty text. */
  lemma EndsWithEmpty(fileName: string)
    ensures EndsWithIgnoreCase(fileName, "")
  {
    assert fileName[|fileName|..] == "";
  }

  /** A list with an empty type accepts every file. */
  lemma EmptyTypeAcceptsAll(a: FileTypeAttribute, value: Value)
    requires "" in a.validTypes
    ensures IsValid(a, value) == Success
  {
    if value.File? {
      var i :| 0 <= i < |a.validTypes| && a.validTypes[i] == "";
      EndsWithEmpty(value.file.fileName);
    }
  }

  /** Splitting a text with a separator appended adds one empty piece. */
  lemma {:induction false} SplitTrailingSeparator(s: string, sep: char)
    ensures Split(s + [sep], sep) == Split(s, sep) + [""]
    decreases |s|
  {
    if |s| > 0 {
      assert (s + [sep])[1..] == s[1..] + [sep];
      SplitTrailingSeparator(s[1..], sep);
    }
  }

  /** A list that ends with a comma has an empty last type, so every file passes. */
  lemma TrailingCommaAcceptsAll(validTypes: string, value: Value)
    ensures IsValid(New(validTypes + ","), value) == Success
  {
    var a := New(validTypes + ",");
    SplitTrailingSeparator(validTypes, ',');
    var n := |Split(validTypes, ',')|;
    assert Split(validTypes + ",", ',')[n] == "";
    assert a.validTypes[n] == Trim("") == "";
    EmptyTypeAcceptsAll(a, value);
  }

  /** Every piece of a split is made of characters of the text. */
  lemma {:induction false} SplitPieceFromText(s: string, sep: char, i: nat)
    requires i < |Split(s, sep)|
    ensures forall c :: c in Split(s, sep)[i] ==> c in s
    decreases |s|
  {
    if |s| > 0 {
      var rest := Split(s[1..], sep);
      assert forall c :: c in s[1..] ==> c in s;
      if s[0] == sep {
        if i > 0 {
          SplitPieceFromText(s[1..], sep, i - 1);
        }
      } else if i == 0 {
        SplitPieceFromText(s[1..], sep, 0);
      } else {
        SplitPieceFromText(s[1..], sep, i);
      }
    }
  }

  /** No valid type contains a comma. */
  lemma NoCommaInTypes(validTypes: string)
    ensures forall i :: 0 <= i < |New(validTypes).validTypes| ==> ',' !in New(validTypes).validTypes[i]
  {
    var a := New(validTypes);
    forall i | 0 <= i < |a.validTypes|
      ensures ',' !in a.validTypes[i]
    {
      if ',' in a.validTypes[i] {
        TrimKeepsCharacters(Split(validTypes, ',')[i], ',');
      }
    }
  }

  /** A piece made of characters of a text without white space is its own trim. */
  lemma PieceWithoutSpaces(s: string, piece: string)
    requires forall i :: 0 <= i < |s| ==> !IsWhiteSpace(s[i])
    requires forall c :: c in piece ==> c in s
    ensures Trim(piece) == piece
  {
    forall k | 0 <= k < |piece|
      ensures !IsWhiteSpace(piece[k])
    {
      assert piece[k] in piece;
    }
    TrimNoWhiteSpace(piece);
  }

  /** A list written without spaces is kept as written: joining the valid
      types with commas gives the constructor's argument back. */
  lemma TypesWithoutSpacesKept(validTypes: string)
    requires forall i :: 0 <= i < |validTypes| ==> !IsWhiteSpace(validTypes[i])
    ensures New(validTypes).validTypes == Split(validTypes, ',')
    ensures Join(New(validTypes).validTypes, ",") == validTypes
  {
    var pieces := Split(validTypes, ',');
    var types := New(validTypes).validTypes;
    forall i | 0 <= i < |pieces|
      ensures types[i] == pieces[i]
    {
      SplitPieceFromText(validTypes, ',', i);
      PieceWithoutSpaces(validTypes, pieces[i]);
    }
    assert types == pieces;
    JoinSplit(validTypes, ',');
  }

  /** A text without the separator splits into itself alone. */
  lemma {:induction false} SplitWithoutSeparator(s: string, sep: char)
    requires sep !in s
    ensures Split(s, sep) == [s]
    decreases |s|
  {
    if |s| > 0 {
      SplitWithoutSeparator(s[1..], sep);
      assert s == [s[0]] + s[1..];
    }
  }

  /** The first separator ends the first piece. */
  lemma {:induction false} SplitAtFirstSeparator(a: string, b: string, sep: char)
    requires sep !in a
    ensures Split(a + [sep] + b, sep) == [a] + Split(b, sep)
    decreases |a|
  {
    if |a| > 0 {
      assert (a + [sep] + b)[1..] == a[1..] + [sep] + b;
      SplitAtFirstSeparator(a[1..], b, sep);
      assert a == [a[0]] + a[1..];
    } else {
      assert a + [sep] + b == [sep] + b;
    }
  }

  /** Two pieces around one comma split into the two pieces. */
  lemma SplitTwo(x: string, y: string)
    requires ',' !in x && ',' !in y
    ensures Split(x + [','] + y, ',') == [x, y]
  {
    SplitAtFirstSeparator(x, y, ',');
    SplitWithoutSeparator(y, ',');
  }

  lemma JoinedWithoutSpaces(x: string, y: string)
    requires forall i :: 0 <= i < |x| ==> !IsWhiteSpace(x[i])
    requires forall i :: 0 <= i < |y| ==> !IsWhiteSpace(y[i])
    ensures forall i :: 0 <= i < |x + [','] + y| ==> !IsWhiteSpace((x + [','] + y)[i])
  {
    var s := x + [','] + y;
    forall i | 0 <= i < |s|
      ensures !IsWhiteSpace(s[i])
    {
      if i > |x| {
        assert s[i] == y[i - |x| - 1];
      }
    }
  }

  /** Two types written without spaces around one comma are kept as written. */
  lemma TwoTypes(x: string, y: string)
    requires ',' !in x && ',' !in y
    requires forall i :: 0 <= i < |x| ==> !IsWhiteSpace(x[i])
    requires forall i :: 0 <= i < |y| ==> !IsWhiteSpace(y[i])
    ensures New(x + [','] + y).validTypes == [x, y]
  {
    JoinedWithoutSpaces(x, y);
    TypesWithoutSpacesKept(x + [','] + y);
    SplitTwo(x, y);
  }

  /** "photo.JPG" ends with "jpg" when case is ignored. */
  lemma UpperCaseExtensionMatches()
    ensures EndsWithIgnoreCase("photo.JPG", "jpg")
  {
    var tail := "photo.JPG"[6..];
    assert tail == "JPG";
    assert ToUpperChar('j') == 'J' && ToUpperChar('p') == 'P' && ToUpperChar('g') == 'G';
    assert forall i :: 0 <= i < 3 ==> ToUpperChar(tail[i]) == ToUpperChar("jpg"[i]);
  }

  /** Extensions match without regard to case: "photo.JPG" passes a "jpg,png" list. */
  lemma CaseIsIgnored()
    ensures IsValid(New("jpg,png"), File(FormFile("photo.JPG", "image/jpeg", 1))) == Success
  {
    assert "jpg,png" == "jpg" + [','] + "png";
    TwoTypes("jpg", "png");
    var a := New("jpg,png");
    UpperCaseExtensionMatches();
    assert EndsWithIgnoreCase("photo.JPG", a.validTypes[0]);
  }
}
