/** The counting dictionary that both versions of the service keep: ISBN to the
    number of copies held. Pure functions over the dictionary value; the
    classes in Repository and LegacyApp update a field of this type in place
    and are specified by these functions. */
module Counting {

  /** ISBN -> count. Python ints, so nothing in the type keeps a count positive. */
  type Store = map<string, int>

  /** One `{"isbn": ..., "count": ...}` entry of a response or a listing. */
  datatype BookCount = BookCount(isbn: string, count: int)

  /** The store invariant: every stored count is at least 1. */
  predicate Positive(s: Store)
  {
    forall k :: k in s ==> s[k] >= 1
  }

  /** The count read for an ISBN, 0 when it is absent. */
  function CountOf(s: Store, isbn: string): (n: int)
  {
    if isbn in s then s[isbn] else 0
  }

  /** Under the invariant an ISBN is stored exactly when its count is positive. */
  lemma PositiveCount(s: Store, isbn: string)
    requires Positive(s)
    ensures CountOf(s, isbn) >= 0
    ensures isbn in s <==> CountOf(s, isbn) > 0
  {
  }

  /** Two stores that keep the invariant and agree on every count are equal. */
  lemma PositiveExtensionality(a: Store, b: Store)
    requires Positive(a) && Positive(b)
    requires forall k :: CountOf(a, k) == CountOf(b, k)
    ensures a == b
  {
    assert forall k :: k in a <==> k in b by {
      forall k ensures k in a <==> k in b {
        assert CountOf(a, k) == CountOf(b, k);
      }
    }
    assert a.Keys == b.Keys;
    forall k | k in a ensures a[k] == b[k] {
      assert CountOf(a, k) == CountOf(b, k);
    }
  }

  /** `add`: insert with count 1, or increment. */
  function AddOne(s: Store, isbn: string): (r: Store)
    ensures r.Keys == s.Keys + {isbn}
    ensures CountOf(r, isbn) == CountOf(s, isbn) + 1
    ensures forall k :: k != isbn ==> CountOf(r, k) == CountOf(s, k)
    ensures Positive(s) ==> Positive(r)
  {
    if isbn in s then s[isbn := s[isbn] + 1] else s[isbn := 1]
  }

  /** `remove`: nothing when absent, delete the entry at count 1, otherwise decrement. */
  function RemoveOne(s: Store, isbn: string): (r: Store)
    ensures isbn !in s ==> r == s
    ensures isbn in s && s[isbn] == 1 ==> isbn !in r
    ensures Positive(s) ==> CountOf(r, isbn) == if CountOf(s, isbn) == 0 then 0 else CountOf(s, isbn) - 1
    ensures forall k :: k != isbn ==> CountOf(r, k) == CountOf(s, k)
    ensures r.Keys <= s.Keys
    ensures Positive(s) ==> Positive(r)
  {
    if isbn in s then
      if s[isbn] == 1 then s - {isbn} else s[isbn := s[isbn] - 1]
    else
      s
  }

  /** Under the invariant, a remove undoes an add. */
  lemma AddThenRemove(s: Store, isbn: string)
    requires Positive(s)
    ensures RemoveOne(AddOne(s, isbn), isbn) == s
  {
    PositiveExtensionality(RemoveOne(AddOne(s, isbn), isbn), s);
  }

  /** Under the invariant, an add undoes a remove of a stored ISBN. */
  lemma RemoveThenAdd(s: Store, isbn: string)
    requires Positive(s) && isbn in s
    ensures AddOne(RemoveOne(s, isbn), isbn) == s
  {
    PositiveExtensionality(AddOne(RemoveOne(s, isbn), isbn), s);
  }

  /** n successive adds of one ISBN. */
  function AddN(s: Store, isbn: string, n: nat): (r: Store)
    ensures CountOf(r, isbn) == CountOf(s, isbn) + n
    ensures forall k :: k != isbn ==> CountOf(r, k) == CountOf(s, k)
    ensures Positive(s) ==> Positive(r)
  {
    if n == 0 then s else AddOne(AddN(s, isbn, n - 1), isbn)
  }

  /** n successive removes of one ISBN. */
  function RemoveN(s: Store, isbn: string, n: nat): (r: Store)
    ensures Positive(s) ==> Positive(r)
    ensures Positive(s) ==> CountOf(r, isbn) == if CountOf(s, isbn) >= n then CountOf(s, isbn) - n else 0
    ensures forall k :: k != isbn ==> CountOf(r, k) == CountOf(s, k)
  {
    if n == 0 then s else RemoveN(RemoveOne(s, isbn), isbn, n - 1)
  }

  /** n adds followed by n removes of the same ISBN restore the store. */
  lemma {:induction false} AddNThenRemoveN(s: Store, isbn: string, n: nat)
    requires Positive(s)
    ensures RemoveN(AddN(s, isbn, n), isbn, n) == s
  {
    PositiveExtensionality(RemoveN(AddN(s, isbn, n), isbn, n), s);
  }

  /** Removing an absent ISBN any number of times changes nothing. */
  lemma {:induction false} RemoveAbsent(s: Store, isbn: string, n: nat)
    requires isbn !in s
    ensures RemoveN(s, isbn, n) == s
  {
    if n > 0 {
      RemoveAbsent(RemoveOne(s, isbn), isbn, n - 1);
    }
  }

  /** Adds every element of isbns, in order. */
  function AddAll(s: Store, isbns: seq<string>): (r: Store)
    ensures forall k :: CountOf(r, k) == CountOf(s, k) + multiset(isbns)[k]
    ensures Positive(s) ==> Positive(r)
    decreases |isbns|
  {
    if isbns == [] then s
    else
      var n := |isbns| - 1;
      assert isbns == isbns[..n] + [isbns[n]];
      AddOne(AddAll(s, isbns[..n]), isbns[n])
  }

  /** Each element of isbns, in order, with the count s holds for it. */
  function Reported(isbns: seq<string>, s: Store): (out: seq<BookCount>)
    ensures |out| == |isbns|
    ensures forall i :: 0 <= i < |isbns| ==> out[i] == BookCount(isbns[i], CountOf(s, isbns[i]))
    decreases |isbns|
  {
    if isbns == [] then []
    else
      var n := |isbns| - 1;
      Reported(isbns[..n], s) + [BookCount(isbns[n], CountOf(s, isbns[n]))]
  }

  /** After a batch add, every element of the batch is reported with its final
      count: the count before plus its number of occurrences in the batch, so
      two occurrences of one ISBN report the same count. */
  lemma {:induction false} BatchReportsFinalCount(s: Store, isbns: seq<string>, i: nat, j: nat)
    requires Positive(s)
    requires i < |isbns| && j < |isbns|
    ensures Reported(isbns, AddAll(s, isbns))[i].count == CountOf(s, isbns[i]) + multiset(isbns)[isbns[i]]
    ensures Reported(isbns, AddAll(s, isbns))[i].count >= 1
    ensures isbns[i] == isbns[j] ==> Reported(isbns, AddAll(s, isbns))[i] == Reported(isbns, AddAll(s, isbns))[j]
  {
    assert isbns[i] in multiset(isbns);
  }

  /** The listing: one entry per stored ISBN. */
  function Items(s: Store): (items: set<BookCount>)
    ensures forall e :: e in items <==> e.isbn in s && s[e.isbn] == e.count
  {
    set k | k in s :: BookCount(k, s[k])
  }

  /** The listing has as many entries as the store has keys, and under the
      invariant none of them has a count below 1. */
  lemma {:induction false} ItemsCardinality(s: Store)
    ensures |Items(s)| == |s|
    ensures Positive(s) ==> forall e :: e in Items(s) ==> e.count >= 1
    decreases |s|
  {
    if |s| == 0 {
      assert s == map[];
      assert Items(s) == {};
    } else {
      var k :| k in s;
      var t := s - {k};
      assert t.Keys == s.Keys - {k};
      assert |t| == |s| - 1;
      ItemsCardinality(t);
      assert Items(s) == Items(t) + {BookCount(k, s[k])};
      assert BookCount(k, s[k]) !in Items(t);
    }
  }
}
