/** The older single-file service (app/genbog.py): a module-level dictionary,
    updated in place by add_book and remove_book, behind two views. The
    dictionary is the `isbns` field of a Service object. */
module LegacyApp {
  import opened IsbnUtil
  import opened Counting
  import opened Http

  /** The validation loop of the batch POST: the index of the first invalid
      element, or |isbns| when every element is valid. */
  method FirstInvalid(isbns: seq<string>) returns (i: int)
    ensures 0 <= i <= |isbns|
    ensures i < |isbns| ==> FirstInvalidAt(isbns, i)
    ensures i == |isbns| ==> AllValid(isbns)
  {
    i := 0;
    while i < |isbns|
      invariant 0 <= i <= |isbns|
      invariant AllValid(isbns[..i])
    {
      if !ValidateIsbn(isbns[i]) {
        return;
      }
      assert isbns[..i + 1] == isbns[..i] + [isbns[i]];
      i := i + 1;
    }
    assert isbns[..i] == isbns;
  }

  class Service {
    /** The module-level `isbns` dictionary. */
    var isbns: Store

    ghost predicate Valid()
      reads this
    {
      Positive(isbns)
    }

    /** Module load: `isbns = {}`. */
    constructor ()
      ensures Valid() && isbns == map[]
    {
      isbns := map[];
    }

    /** add_book: insert with 1 or increment. */
    method AddBook(isbn: string)
      requires Valid()
      modifies this
      ensures Valid()
      ensures isbns == AddOne(old(isbns), isbn)
    {
      if isbn in isbns {
        isbns := isbns[isbn := isbns[isbn] + 1];
      } else {
        isbns := isbns[isbn := 1];
      }
    }

    /** remove_book: no-op when absent, delete at count 1, otherwise decrement. */
    method RemoveBook(isbn: string)
      requires Valid()
      modifies this
      ensures Valid()
      ensures isbns == RemoveOne(old(isbns), isbn)
    {
      if isbn in isbns {
        if isbns[isbn] == 1 {
          isbns := isbns - {isbn};
        } else {
          isbns := isbns[isbn := isbns[isbn] - 1];
        }
      }
    }

    /** The `/books/<isbn>` view. An invalid ISBN answers 400 before the
        dictionary is touched; GET of an untracked ISBN answers 404; HEAD,
        which Flask dispatches here as well, falls to the final branch. */
    method Book(verb: Verb, isbn: string) returns (r: Response)
      requires Valid()
      modifies this
      ensures Valid()
      ensures !ValidateIsbn(isbn) ==>
                isbns == old(isbns) && r == Response(400, Error(map["error" := "Invalid ISBN"]))
      ensures ValidateIsbn(isbn) && verb == Get && isbn in old(isbns) ==>
                isbns == old(isbns) && r == Response(200, Entry(BookCount(isbn, isbns[isbn])))
      ensures ValidateIsbn(isbn) && verb == Get && isbn !in old(isbns) ==>
                isbns == old(isbns)
                && r == Response(404, Error(map["error" := "ISBN not found", "isbn" := isbn]))
      ensures ValidateIsbn(isbn) && verb == Post ==>
                isbns == AddOne(old(isbns), isbn)
                && r == Response(200, Entry(BookCount(isbn, CountOf(old(isbns), isbn) + 1)))
      ensures ValidateIsbn(isbn) && verb == Delete ==>
                isbns == RemoveOne(old(isbns), isbn)
                && r == Response(200, Entry(BookCount(isbn,
                          if CountOf(old(isbns), isbn) == 0 then 0 else CountOf(old(isbns), isbn) - 1)))
      ensures ValidateIsbn(isbn) && verb == Head ==>
                isbns == old(isbns) && r == Response(500, Error(map["error" := "Not yet implemented"]))
    {
      if !ValidateIsbn(isbn) {
        r := Response(400, Error(map["error" := "Invalid ISBN"]));
        return;
      }
      match verb
      case Get =>
        if isbn in isbns {
          r := Response(200, Entry(BookCount(isbn, isbns[isbn])));
        } else {
          r := Response(404, Error(map["error" := "ISBN not found", "isbn" := isbn]));
        }
      case Post =>
        AddBook(isbn);
        r := Response(200, Entry(BookCount(isbn, isbns[isbn])));
      case Delete =>
        RemoveBook(isbn);
        r := Response(200, Entry(BookCount(isbn, if isbn in isbns then isbns[isbn] else 0)));
      case Head =>
        r := Response(500, Error(map["error" := "Not yet implemented"]));
    }

    /** The `/books` view: GET lists, POST adds a batch. Flask routes only
        these two methods (and HEAD, left out) here. */
    method Books(verb: Verb, body: seq<string>) returns (r: Response)
      requires Valid()
      requires verb == Get || verb == Post
      modifies this
      ensures Valid()
      ensures verb == Get ==> isbns == old(isbns) && r == Response(200, Listing(Items(isbns)))
      ensures verb == Post && !AllValid(body) ==>
                isbns == old(isbns)
                && exists i :: FirstInvalidAt(body, i)
                               && r == Response(400, Error(map["error" := "Invalid ISBN", "isbn" := body[i]]))
      ensures verb == Post && AllValid(body) ==>
                isbns == AddAll(old(isbns), body) && r == Response(200, Entries(Reported(body, isbns)))
    {
      if verb == Get {
        r := ListBooks();
      } else {
        r := PostBooks(body);
      }
    }

    /** GET `/books`: one entry per key of the dictionary, none with count below 1. */
    method ListBooks() returns (r: Response)
      requires Valid()
      ensures r == Response(200, Listing(Items(isbns)))
      ensures |r.body.listing| == |isbns|
      ensures forall e :: e in r.body.listing <==> e.isbn in isbns && isbns[e.isbn] == e.count
      ensures forall e :: e in r.body.listing ==> e.count >= 1
    {
      ItemsCardinality(isbns);
      r := Response(200, Listing(Items(isbns)));
    }

    /** POST `/books`: a first loop checks every element and returns 400 naming
        the first invalid one; only then a second loop adds them all, and the
        response, built after the adds, gives each element its final count. */
    method PostBooks(body: seq<string>) returns (r: Response)
      requires Valid()
      modifies this
      ensures Valid()
      ensures !AllValid(body) ==>
                isbns == old(isbns)
                && exists i :: FirstInvalidAt(body, i)
                               && r == Response(400, Error(map["error" := "Invalid ISBN", "isbn" := body[i]]))
      ensures AllValid(body) ==>
                isbns == AddAll(old(isbns), body) && r == Response(200, Entries(Reported(body, isbns)))
    {
      var bad := FirstInvalid(body);
      if bad < |body| {
        r := Response(400, Error(map["error" := "Invalid ISBN", "isbn" := body[bad]]));
        return;
      }
      AddEach(body);
      forall i | 0 <= i < |body| ensures body[i] in isbns {
        assert body[i] in multiset(body);
      }
      var entries := Report(body);
      r := Response(200, Entries(entries));
    }

    /** The `for isbn in request_isbns: add_book(isbn)` loop. */
    method AddEach(body: seq<string>)
      requires Valid()
      modifies this
      ensures Valid()
      ensures isbns == AddAll(old(isbns), body)
    {
      var i := 0;
      while i < |body|
        invariant 0 <= i <= |body|
        invariant Valid()
        invariant isbns == AddAll(old(isbns), body[..i])
      {
        assert body[..i + 1][..i] == body[..i];
        AddBook(body[i]);
        i := i + 1;
      }
      assert body[..i] == body;
    }

    /** The response comprehension: every element, in order, with its count. */
    method Report(body: seq<string>) returns (entries: seq<BookCount>)
      requires forall i :: 0 <= i < |body| ==> body[i] in isbns
      ensures entries == Reported(body, isbns)
    {
      entries := [];
      var j := 0;
      while j < |body|
        invariant 0 <= j <= |body|
        invariant entries == Reported(body[..j], isbns)
      {
        assert body[..j + 1][..j] == body[..j];
        entries := entries + [BookCount(body[j], isbns[body[j]])];
        j := j + 1;
      }
      assert body[..j] == body;
    }
  }
}
