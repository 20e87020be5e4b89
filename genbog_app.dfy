/** The request handlers of the packaged service (genbog/app.py). create_app
    builds one repository that the handlers share; here it is the `repository`
    field of an App object. The `<isbn:isbn>` path converter runs before any
    handler, and its ISBNError surfaces through handle_500 as a 400. */
module GenbogApp {
  import opened IsbnUtil
  import opened Counting
  import opened Repository
  import opened Http

  /** What handle_500 finds in `exception.original_exception`: no such
      attribute, an ApplicationError, or any other exception (by its repr). */
  datatype Cause = NoCause | AppCause(error: ApplicationError) | OtherCause(repr: string)

  /** handle_500: an ApplicationError becomes 400 with its payload; everything
      else stays 500 with an "error" message. */
  function Handle500(cause: Cause): (r: Response)
    ensures r.status == 400 <==> cause.AppCause?
    ensures r.status == 500 <==> !cause.AppCause?
    ensures cause.AppCause? ==> r.body == Error(cause.error.data)
    ensures !cause.AppCause? ==> r.body.Error? && "error" in r.body.fields
    ensures cause.OtherCause? ==> r.body.fields["error"] == cause.repr
  {
    match cause
    case NoCause => Response(500, Error(map["error" := "An internal server error occured"]))
    case AppCause(e) => Response(400, Error(e.data))
    case OtherCause(repr) => Response(500, Error(map["error" := repr]))
  }

  /** A malformed ISBN, in the path or in a batch body, answers 400 with the
      offending value and the message. */
  lemma InvalidIsbnResponse(raw: string)
    requires !ValidateIsbn(raw)
    ensures ToPython(raw).Err?
    ensures Handle500(AppCause(ToPython(raw).error))
            == Response(400, Error(map["isbn" := raw, "error" := IsbnErrorMessage(raw)]))
  {
    var data := IsbnError(raw).data;
    assert data == map["isbn" := raw, "error" := IsbnErrorMessage(raw)];
  }

  /** `list(map(parse_isbn, request_isbns))`: the whole body, or the ISBNError
      of its first invalid element. */
  function ParseAll(isbns: seq<string>): (r: Result<seq<string>, ApplicationError>)
    ensures r.Ok? <==> AllValid(isbns)
    ensures r.Ok? ==> r.value == isbns
    ensures r.Err? ==> exists i :: FirstInvalidAt(isbns, i) && r.error == IsbnError(isbns[i])
    decreases |isbns|
  {
    if isbns == [] then Ok([])
    else
      match ParseIsbn(isbns[0])
      case Err(e) =>
        assert FirstInvalidAt(isbns, 0);
        Err(e)
      case Ok(v) =>
        match ParseAll(isbns[1..])
        case Err(e) =>
          FirstInvalidShift(isbns, e);
          Err(e)
        case Ok(vs) =>
          assert isbns == [v] + vs;
          Ok([v] + vs)
  }

  /** A first invalid element of the tail, behind a valid head, is the first
      invalid element of the whole body. */
  lemma FirstInvalidShift(isbns: seq<string>, e: ApplicationError)
    requires |isbns| > 0 && ValidateIsbn(isbns[0])
    requires exists i :: FirstInvalidAt(isbns[1..], i) && e == IsbnError(isbns[1..][i])
    ensures exists i :: FirstInvalidAt(isbns, i) && e == IsbnError(isbns[i])
  {
    var i :| FirstInvalidAt(isbns[1..], i) && e == IsbnError(isbns[1..][i]);
    assert isbns[..i + 1] == [isbns[0]] + isbns[1..][..i];
    assert FirstInvalidAt(isbns, i + 1);
  }

  class App {
    /** The repository created once in create_app and shared by every handler. */
    const repository: InMemoryRepository

    ghost predicate Valid()
      reads this, repository
    {
      repository.Valid()
    }

    /** create_app: a fresh, empty repository. */
    constructor ()
      ensures Valid() && fresh(repository) && repository.isbns == map[]
    {
      repository := new InMemoryRepository();
    }

    /** get_book: read-only; a valid untracked ISBN reports count 0 with 200. */
    method GetBook(isbn: string) returns (r: Response)
      requires Valid()
      ensures r.status == 200 && r.body == Entry(BookCount(isbn, repository.Count(isbn)))
      ensures r.body.entry.count >= 0
      ensures isbn !in repository.isbns ==> r.body.entry.count == 0
    {
      r := Response(200, Entry(BookCount(isbn, repository.Count(isbn))));
    }

    /** post_book: add, then report the post-increment count. */
    method PostBook(isbn: string) returns (r: Response)
      requires Valid()
      modifies repository
      ensures Valid()
      ensures repository.isbns == AddOne(old(repository.isbns), isbn)
      ensures r == Response(200, Entry(BookCount(isbn, old(repository.Count(isbn)) + 1)))
    {
      repository.Add(isbn);
      r := Response(200, Entry(BookCount(isbn, repository.Count(isbn))));
    }

    /** test_get_data_equal_to_post_data: k successive posts of one ISBN report
        c + 1, ..., c + k, where c is its count before the first. */
    method PostRepeatedly(isbn: string, k: nat) returns (reported: seq<int>)
      requires Valid()
      modifies repository
      ensures Valid()
      ensures repository.isbns == AddN(old(repository.isbns), isbn, k)
      ensures |reported| == k
      ensures forall i :: 0 <= i < k ==> reported[i] == old(repository.Count(isbn)) + i + 1
    {
      reported := [];
      var n := 0;
      while n < k
        invariant 0 <= n <= k && Valid()
        invariant repository.isbns == AddN(old(repository.isbns), isbn, n)
        invariant |reported| == n
        invariant forall i :: 0 <= i < n ==> reported[i] == old(repository.Count(isbn)) + i + 1
      {
        var r := PostBook(isbn);
        reported := reported + [r.body.entry.count];
        n := n + 1;
      }
    }

    /** delete_book: remove, then report the post-decrement count, floored at 0. */
    method DeleteBook(isbn: string) returns (r: Response)
      requires Valid()
      modifies repository
      ensures Valid()
      ensures repository.isbns == RemoveOne(old(repository.isbns), isbn)
      ensures r == Response(200, Entry(BookCount(isbn,
                    if old(repository.Count(isbn)) == 0 then 0 else old(repository.Count(isbn)) - 1)))
    {
      repository.Remove(isbn);
      r := Response(200, Entry(BookCount(isbn, repository.Count(isbn))));
    }

    /** get_books: one entry per stored ISBN, none with count below 1. */
    method GetBooks() returns (r: Response)
      requires Valid()
      ensures r.status == 200 && r.body.Listing?
      ensures forall e :: e in r.body.listing <==> e.isbn in repository.isbns && repository.isbns[e.isbn] == e.count
      ensures |r.body.listing| == |repository.isbns|
      ensures forall e :: e in r.body.listing ==> e.count >= 1
    {
      r := Response(200, Listing(repository.ListAll()));
    }

    /** The `/books/<isbn:isbn>` routes: the converter parses the path first;
        on failure no handler runs and handle_500 answers 400. */
    method Book(verb: Verb, raw: string) returns (r: Response)
      requires Valid()
      modifies repository
      ensures Valid()
      ensures !ValidateIsbn(raw) ==>
                repository.isbns == old(repository.isbns) && r == Response(400, Error(IsbnError(raw).data))
      ensures ValidateIsbn(raw) && (verb == Get || verb == Head) ==>
                repository.isbns == old(repository.isbns)
                && r == Response(200, Entry(BookCount(raw, CountOf(repository.isbns, raw))))
      ensures ValidateIsbn(raw) && verb == Post ==>
                repository.isbns == AddOne(old(repository.isbns), raw)
                && r == Response(200, Entry(BookCount(raw, CountOf(repository.isbns, raw))))
      ensures ValidateIsbn(raw) && verb == Delete ==>
                repository.isbns == RemoveOne(old(repository.isbns), raw)
                && r == Response(200, Entry(BookCount(raw, CountOf(repository.isbns, raw))))
    {
      match ToPython(raw)
      case Err(e) =>
        r := Handle500(AppCause(e));
      case Ok(isbn) =>
        match verb
        case Get => r := GetBook(isbn);
        case Head => r := GetBook(isbn);
        case Post => r := PostBook(isbn);
        case Delete => r := DeleteBook(isbn);
    }

    /** post_books: parse every element before the first add. An invalid
        element leaves the repository untouched and answers 400 naming the
        first offender; otherwise every element is added in order, and the
        response, built after all adds, gives each element its final count. */
    method PostBooks(body: seq<string>) returns (r: Response)
      requires Valid()
      modifies repository
      ensures Valid()
      ensures !AllValid(body) ==> repository.isbns == old(repository.isbns)
      ensures !AllValid(body) ==>
                exists i :: FirstInvalidAt(body, i) && r == Response(400, Error(IsbnError(body[i]).data))
      ensures AllValid(body) ==> repository.isbns == AddAll(old(repository.isbns), body)
      ensures AllValid(body) ==> r == Response(200, Entries(Reported(body, repository.isbns)))
    {
      var parsed := ParseAll(body);
      if parsed.Err? {
        ghost var k :| FirstInvalidAt(body, k) && parsed.error == IsbnError(body[k]);
        r := Handle500(AppCause(parsed.error));
        assert r == Response(400, Error(IsbnError(body[k]).data));
        return;
      }
      AddEach(parsed.value);
      var entries := Report(body);
      r := Response(200, Entries(entries));
    }

    /** The `for isbn in ...: repository.add(isbn)` loop of post_books. */
    method AddEach(isbns: seq<string>)
      requires Valid()
      modifies repository
      ensures Valid()
      ensures repository.isbns == AddAll(old(repository.isbns), isbns)
    {
      var i := 0;
      while i < |isbns|
        invariant 0 <= i <= |isbns|
        invariant repository.Valid()
        invariant repository.isbns == AddAll(old(repository.isbns), isbns[..i])
      {
        assert isbns[..i + 1][..i] == isbns[..i];
        repository.Add(isbns[i]);
        i := i + 1;
      }
      assert isbns[..i] == isbns;
    }

    /** The response list of post_books: every element of the body, in order,
        with the count the repository holds for it now. */
    method Report(isbns: seq<string>) returns (entries: seq<BookCount>)
      ensures entries == Reported(isbns, repository.isbns)
    {
      entries := [];
      var j := 0;
      while j < |isbns|
        invariant 0 <= j <= |isbns|
        invariant entries == Reported(isbns[..j], repository.isbns)
      {
        assert isbns[..j + 1][..j] == isbns[..j];
        entries := entries + [BookCount(isbns[j], repository.Count(isbns[j]))];
        j := j + 1;
      }
      assert isbns[..j] == isbns;
    }
  }

  /** test_delete_idempotent, followed request by request: three posts report
      1, 2, 3; two deletes report 2, 1; every further delete reports 0. */
  method DeleteIdempotentScenario()
  {
    var app := new App();
    var isbn := "1234567890123";
    var r := app.PostBook(isbn);
    assert r == Response(200, Entry(BookCount(isbn, 1)));
    r := app.PostBook(isbn);
    assert r == Response(200, Entry(BookCount(isbn, 2)));
    r := app.PostBook(isbn);
    assert r == Response(200, Entry(BookCount(isbn, 3)));
    r := app.DeleteBook(isbn);
    assert r == Response(200, Entry(BookCount(isbn, 2)));
    r := app.DeleteBook(isbn);
    assert r == Response(200, Entry(BookCount(isbn, 1)));
    var n := 0;
    while n < 100
      invariant app.Valid()
      invariant app.repository.isbns == if n == 0 then map[isbn := 1] else map[]
    {
      r := app.DeleteBook(isbn);
      assert r == Response(200, Entry(BookCount(isbn, 0)));
      n := n + 1;
    }
  }

  /** test_post_list_invalid_isbn_atomic: a batch with "123" in the middle is
      refused with 400 and the listing stays empty. */
  method BatchAtomicScenario()
  {
    var app := new App();
    var body := ["1231231231234", "123", "1112223334444"];
    ParseIsbnRejects();
    assert !ValidateIsbn(body[1]);
    var r := app.PostBooks(body);
    assert r.status == 400;
    var listing := app.GetBooks();
    assert listing.body.listing == {};
  }

  /** test_post_list_add_all_same, for any valid ISBN: a batch naming it twice
      leaves one entry with count 2. */
  method BatchSameScenario(isbn: string)
    requires ValidateIsbn(isbn)
  {
    var app := new App();
    var body := [isbn, isbn];
    var r := app.PostBooks(body);
    assert app.repository.isbns == map[isbn := 2] by {
      assert multiset(body)[isbn] == 2;
      forall k | k != isbn ensures CountOf(app.repository.isbns, k) == 0 {
        assert multiset(body)[k] == 0;
      }
      PositiveExtensionality(app.repository.isbns, map[isbn := 2]);
    }
    assert r.body.entries == [BookCount(isbn, 2), BookCount(isbn, 2)] by {
      assert r.body.entries[0] == BookCount(isbn, 2);
      assert r.body.entries[1] == BookCount(isbn, 2);
    }
    var listing := app.GetBooks();
    assert |listing.body.listing| == 1 && BookCount(isbn, 2) in listing.body.listing;
  }
}
