/** ISBN syntax, the application's error payload and the URL converter.
    genbog/util.py and its older copy app/util.py hold the same code; this
    module models both. */
module IsbnUtil {

  /** A value or the error a Python function would have raised instead. */
  datatype Result<T, E> = Ok(value: T) | Err(error: E)

  /** The digit test of str.isdigit, restricted to ASCII. */
  predicate IsAsciiDigit(c: char)
  {
    '0' <= c <= '9'
  }

  /** Scans s character by character. */
  function AllDigits(s: string): (b: bool)
    ensures b <==> forall i :: 0 <= i < |s| ==> IsAsciiDigit(s[i])
  {
    if s == [] then true else IsAsciiDigit(s[0]) && AllDigits(s[1..])
  }

  /** str.isdigit: false on the empty string, otherwise every character a digit. */
  predicate IsDigitString(s: string)
  {
    |s| > 0 && AllDigits(s)
  }

  /** `len(isbn) == 13 and isbn.isdigit()`: validate_isbn in app/genbog.py and
      the test inside both parse_isbn. No check digit is computed. */
  function ValidateIsbn(s: string): (b: bool)
    ensures b <==> |s| == 13 && forall i :: 0 <= i < |s| ==> IsAsciiDigit(s[i])
  {
    |s| == 13 && IsDigitString(s)
  }

  /** An ApplicationError: the message and the JSON payload shown to API users. */
  datatype ApplicationError = ApplicationError(msg: string, data: map<string, string>)

  /** `ApplicationError(msg, **kwargs)`: the payload is the keyword data with
      key "error" set to the message (overwriting a keyword of that name). */
  function NewApplicationError(msg: string, kwargs: map<string, string>): (e: ApplicationError)
    ensures e.msg == msg
    ensures e.data.Keys == kwargs.Keys + {"error"}
    ensures e.data["error"] == msg
    ensures forall k :: k in kwargs && k != "error" ==> e.data[k] == kwargs[k]
  {
    ApplicationError(msg, kwargs["error" := msg])
  }

  /** The message of ISBNError: the offending value between quotes. */
  function IsbnErrorMessage(isbn: string): (m: string)
  {
    "Value '" + isbn + "' is not a valid ISBN."
  }

  /** `ISBNError(isbn)`: payload {"isbn": isbn, "error": message}. */
  function IsbnError(isbn: string): (e: ApplicationError)
    ensures e.msg == IsbnErrorMessage(isbn)
    ensures e.data.Keys == {"isbn", "error"}
    ensures e.data["isbn"] == isbn && e.data["error"] == e.msg
  {
    NewApplicationError(IsbnErrorMessage(isbn), map["isbn" := isbn])
  }

  /** parse_isbn: the input itself when it is 13 digits, otherwise ISBNError. */
  function ParseIsbn(s: string): (r: Result<string, ApplicationError>)
    ensures r.Ok? <==> |s| == 13 && forall i :: 0 <= i < |s| ==> IsAsciiDigit(s[i])
    ensures r.Ok? ==> r.value == s
    ensures r.Err? ==> r.error == IsbnError(s)
  {
    if ValidateIsbn(s) then Ok(s) else Err(IsbnError(s))
  }

  /** A successful parse is a fixed point: parsing its result again gives the same. */
  lemma ParseIsbnIdempotent(s: string)
    requires ParseIsbn(s).Ok?
    ensures ParseIsbn(ParseIsbn(s).value) == ParseIsbn(s)
  {
  }

  /** The lengths 3 and 14 and thirteen letters are refused. */
  lemma ParseIsbnRejects()
    ensures ParseIsbn("123") == Err(IsbnError("123"))
    ensures ParseIsbn("12345678901234") == Err(IsbnError("12345678901234"))
    ensures ParseIsbn("abcdefghijkln") == Err(IsbnError("abcdefghijkln"))
  {
    assert !IsAsciiDigit("abcdefghijkln"[0]);
  }

  /** Thirteen digits are accepted unchanged. */
  lemma ParseIsbnAccepts()
    ensures ParseIsbn("1234567890123") == Ok("1234567890123")
  {
  }

  /** ISBNConverter.to_python: delegates to parse_isbn. */
  function ToPython(value: string): (r: Result<string, ApplicationError>)
    ensures r.Ok? <==> ValidateIsbn(value)
    ensures r.Ok? ==> r.value == value
    ensures r.Err? ==> r.error == IsbnError(value)
  {
    ParseIsbn(value)
  }

  /** ISBNConverter.to_url: the identity. */
  function ToUrl(value: string): (u: string)
    ensures ValidateIsbn(value) ==> ToPython(u) == Ok(value)
  {
    value
  }

  /** The converter round-trips every valid ISBN in both directions, and refuses
      an invalid one with the ISBNError that names it. */
  lemma ConverterRoundTrip(value: string)
    ensures ValidateIsbn(value) ==> ToPython(value).Ok? && ToUrl(ToPython(value).value) == value
    ensures ValidateIsbn(value) ==> ToPython(ToUrl(value)) == Ok(value)
    ensures !ValidateIsbn(value) ==> ToPython(value) == Err(IsbnError(value))
  {
  }

  /** Every element of a request body is a valid ISBN. */
  predicate AllValid(xs: seq<string>)
  {
    forall i :: 0 <= i < |xs| ==> ValidateIsbn(xs[i])
  }

  /** Position i holds the first invalid element of xs. */
  predicate FirstInvalidAt(xs: seq<string>, i: int)
  {
    0 <= i < |xs| && !ValidateIsbn(xs[i]) && AllValid(xs[..i])
  }

  /** A body that is not all valid has exactly one first invalid position. */
  lemma {:induction false} FirstInvalidExists(xs: seq<string>)
    requires !AllValid(xs)
    ensures exists i :: FirstInvalidAt(xs, i)
    ensures forall i, j :: FirstInvalidAt(xs, i) && FirstInvalidAt(xs, j) ==> i == j
  {
    if ValidateIsbn(xs[0]) {
      FirstInvalidExists(xs[1..]);
      var i :| FirstInvalidAt(xs[1..], i);
      assert xs[..i + 1] == [xs[0]] + xs[1..][..i];
      assert FirstInvalidAt(xs, i + 1);
    } else {
      assert FirstInvalidAt(xs, 0);
    }
  }
}
