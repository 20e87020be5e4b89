/** InMemoryRepository (genbog/repository.py): the counting dictionary as an
    object whose methods update its field in place. */
module Repository {
  import opened Counting

  class InMemoryRepository {
    /** `self.isbns`: ISBN -> count. */
    var isbns: Store

    /** The object invariant: no stored count is below 1. */
    ghost predicate Valid()
      reads this
    {
      Positive(isbns)
    }

    /** `__init__`: an empty dictionary. */
    constructor ()
      ensures Valid() && isbns == map[]
    {
      isbns := map[];
    }

    /** `has`: the ISBN is a key; under the invariant, exactly when its count is positive. */
    function Has(isbn: string): (b: bool)
      reads this
      ensures b <==> isbn in isbns
      ensures Valid() ==> (b <==> Count(isbn) > 0)
    {
      isbn in isbns
    }

    /** `count`: the stored value, or 0 when absent; never negative under the invariant. */
    function Count(isbn: string): (n: int)
      reads this
      ensures n == CountOf(isbns, isbn)
      ensures Valid() ==> n >= 0
    {
      if isbn in isbns then isbns[isbn] else 0
    }

    /** `add`: insert with 1 or increment; every other entry is untouched. */
    method Add(isbn: string)
      requires Valid()
      modifies this
      ensures Valid()
      ensures isbns == AddOne(old(isbns), isbn)
      ensures Count(isbn) == old(Count(isbn)) + 1
    {
      if isbn in isbns {
        isbns := isbns[isbn := isbns[isbn] + 1];
      } else {
        isbns := isbns[isbn := 1];
      }
    }

    /** `remove`: no-op when absent, delete at count 1, otherwise decrement. */
    method Remove(isbn: string)
      requires Valid()
      modifies this
      ensures Valid()
      ensures isbns == RemoveOne(old(isbns), isbn)
      ensures Count(isbn) == if old(Count(isbn)) == 0 then 0 else old(Count(isbn)) - 1
      ensures old(Count(isbn)) <= 1 ==> !Has(isbn)
    {
      if isbn in isbns {
        if isbns[isbn] == 1 {
          isbns := isbns - {isbn};
        } else {
          isbns := isbns[isbn := isbns[isbn] - 1];
        }
      }
    }

    /** `list_all`: one (isbn, count) entry per stored key, none with count 0. */
    function ListAll(): (items: set<BookCount>)
      reads this
      ensures forall e :: e in items <==> e.isbn in isbns && isbns[e.isbn] == e.count
      ensures |items| == |isbns|
      ensures Valid() ==> forall e :: e in items ==> e.count >= 1
    {
      ItemsCardinality(isbns);
      Items(isbns)
    }
  }
}
