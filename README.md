# genbog-api in Dafny

A model of genbog-api, a small Flask service that counts how many copies of
each book it holds, keyed by 13-digit ISBN. The repository contains the
service twice: the packaged version (`genbog/`) and an older single-file
version (`app/`). Both are modelled:

- `isbn_util.dfy`, module `IsbnUtil`: the ISBN syntax check (`parse_isbn`,
  `validate_isbn`), the error payload of `ApplicationError`/`ISBNError`, and
  the URL converter. `genbog/util.py` and `app/util.py` are the same code, so
  one module models both.
- `counting.dfy`, module `Counting`: the ISBN → count dictionary as a value,
  with the insert-or-increment and decrement-or-delete updates, repeated and
  batch adds, the listing, and the invariant that every stored count is at
  least 1. Both classes below are specified by these functions.
- `repository.dfy`, module `Repository`: class `InMemoryRepository`, whose
  `Add` and `Remove` update its `isbns` map in place.
- `http.dfy`, module `Http`: request methods and the status/JSON-body shapes
  the handlers return.
- `genbog_app.dfy`, module `GenbogApp`: the handlers of `genbog/app.py` as
  methods of an `App` that owns the repository built by `create_app`, the
  `<isbn:isbn>` converter step in front of them, and `handle_500`.
- `legacy_app.dfy`, module `LegacyApp`: `app/genbog.py`, its module-level
  dictionary held by a `Service` object, `add_book`, `remove_book` and the
  two views.

Each mutating method states its whole new state as a function of the old one
(`isbns == AddOne(old(isbns), isbn)`); what those functions guarantee (the
count invariant, "nothing else changes", add/remove inverses, batch counts by
multiplicity) is proved once, in `Counting`.

The model follows the code on one point where one might expect otherwise: a
batch POST builds its response only after every add, so two occurrences of
one ISBN in the body both report the final count, not escalating counts (`genbog/app.py:52-57`, `app/genbog.py:57-60`);
`Counting.BatchReportsFinalCount` states this.

The two versions differ on GET of a valid but untracked ISBN: the packaged
version answers 200 with count 0, the older one 404 with `error` and `isbn`.
They also differ on an invalid path ISBN: the packaged version answers 400
with the `ISBNError` payload (`error` and `isbn`); the older one answers 400
with only `{"error": "Invalid ISBN"}`.

`GenbogApp.DeleteIdempotentScenario`, `BatchAtomicScenario` and
`BatchSameScenario` are request sequences whose asserted responses follow
`test/test_app.py`; they carry no contract of their own.

## Model

| member | source | states |
|---|---|---|
| `IsbnUtil.AllDigits` | genbog/util.py:24 | the character scan accepts exactly the strings whose every character is a digit |
| `IsbnUtil.ValidateIsbn` | app/genbog.py:6-7 | true iff the string has length 13 and every character is a digit; no check digit |
| `IsbnUtil.NewApplicationError` | app/util.py:10-15 | the payload is the keyword data plus key `error` holding the message, which overrides a keyword of that name; other keywords are kept |
| `IsbnUtil.IsbnError` | genbog/util.py:38-42 | the payload has exactly the keys `isbn` (the offending value) and `error` (the message naming it) |
| `IsbnUtil.ParseIsbn` | genbog/util.py:20-26 | succeeds iff length 13 and all digits, then returns the input unchanged; otherwise fails with the ISBNError of the input |
| `IsbnUtil.ParseIsbnIdempotent` | app/util.py:4-7 | parsing a successfully parsed value again gives the same result |
| `IsbnUtil.ParseIsbnRejects` | test/test_app.py:123-131 | "123", a 14-digit string and 13 letters are refused with an ISBNError naming them |
| `IsbnUtil.ParseIsbnAccepts` | test/test_app.py:62-71 | a 13-digit string is accepted unchanged |
| `IsbnUtil.ToPython` | genbog/util.py:49-50 | delegates to `parse_isbn`: the value itself exactly when it is a valid ISBN, its ISBNError otherwise (also app/util.py:26-27) |
| `IsbnUtil.ToUrl` | genbog/util.py:52-53 | gives back a valid value so that `to_python` accepts it unchanged (also app/util.py:29-30) |
| `IsbnUtil.ConverterRoundTrip` | genbog/util.py:45-53 | `to_python` accepts every valid ISBN and `to_url` gives it back, in both orders; an invalid value is refused with its ISBNError (also app/util.py:24-30) |
| `IsbnUtil.FirstInvalidExists` | app/genbog.py:54-56 | a body that is not all valid has one and only one first invalid position |
| `Counting.PositiveCount` | genbog/repository.py:16-37 | under the invariant a count is never negative and an ISBN is stored iff its count is positive |
| `Counting.AddOne` | genbog/repository.py:39-47 | the key set gains the ISBN, its count rises by exactly 1 (absent counts as 0), every other count is unchanged, the invariant is kept |
| `Counting.RemoveOne` | genbog/repository.py:55-65 | absent: nothing changes; count 1: the key is deleted; under the invariant the count falls by 1 floored at 0; other counts unchanged; no key is added; the invariant is kept |
| `Counting.AddThenRemove` | genbog/repository.py:39-65 | under the invariant a remove exactly undoes an add |
| `Counting.RemoveThenAdd` | genbog/repository.py:39-65 | under the invariant an add exactly undoes a remove of a stored ISBN |
| `Counting.AddN` | test/test_app.py:74-90 | n adds raise the ISBN's count by n and leave every other count and the invariant intact |
| `Counting.RemoveN` | test/test_app.py:15-48 | under the invariant n removes lower the count by n, floored at 0, and leave other counts intact |
| `Counting.AddNThenRemoveN` | test/test_app.py:110-120 | n adds followed by n removes of one ISBN restore the original dictionary |
| `Counting.RemoveAbsent` | genbog/repository.py:61 | any number of removes of an absent ISBN change nothing |
| `Counting.AddAll` | genbog/app.py:52-53 | after a batch add every ISBN's count has risen by its number of occurrences in the batch; the invariant is kept |
| `Counting.Reported` | genbog/app.py:54-57 | the response list has one entry per body element, in order, each with the count held for it |
| `Counting.BatchReportsFinalCount` | genbog/app.py:51-57 | after a batch add each element reports its old count plus its multiplicity, at least 1, and duplicates report the same final count |
| `Counting.Items` | genbog/repository.py:49-53 | an entry is listed iff it is a stored key with its stored count |
| `Counting.ItemsCardinality` | genbog/app.py:42-47 | the listing has exactly as many entries as stored keys, and under the invariant none has count below 1 |
| `Repository.InMemoryRepository.constructor` | genbog/repository.py:13-14 | a new repository is empty and keeps the invariant |
| `Repository.InMemoryRepository.Has` | genbog/repository.py:16-23 | true iff the ISBN is a key; under the invariant iff its count is positive |
| `Repository.InMemoryRepository.Count` | genbog/repository.py:25-37 | the stored value, 0 when absent, never negative under the invariant |
| `Repository.InMemoryRepository.Add` | genbog/repository.py:39-47 | the new map is `AddOne` of the old; the count rises by 1; the invariant is kept |
| `Repository.InMemoryRepository.Remove` | genbog/repository.py:55-65 | the new map is `RemoveOne` of the old; the count falls by 1 floored at 0; a count of at most 1 leaves the ISBN absent |
| `Repository.InMemoryRepository.ListAll` | genbog/repository.py:49-53 | one entry per stored key with its count, as many entries as keys, none below 1 |
| `GenbogApp.Handle500` | genbog/app.py:59-67 | an ApplicationError cause answers 400 with its payload; no cause answers 500 with a generic message; any other cause answers 500 with its repr |
| `GenbogApp.InvalidIsbnResponse` | genbog/app.py:64-65 | a malformed ISBN ends as 400 with body `{"isbn": value, "error": message}` |
| `GenbogApp.ParseAll` | genbog/app.py:52 | succeeds iff every element is valid, returning the body unchanged; otherwise fails with the ISBNError of the first invalid element |
| `GenbogApp.App.constructor` | genbog/app.py:17-26 | `create_app` starts with a fresh, empty repository |
| `GenbogApp.App.GetBook` | genbog/app.py:28-30 | read-only; answers 200 with the ISBN and its count, 0 for an untracked ISBN |
| `GenbogApp.App.PostRepeatedly` | test/test_app.py:74-90 | k successive posts report the counts c+1 … c+k and leave the store at `AddN` of the old one |
| `GenbogApp.App.PostBook` | genbog/app.py:32-35 | adds, then answers 200 with the post-increment count |
| `GenbogApp.App.DeleteBook` | genbog/app.py:37-40 | removes, then answers 200 with the post-decrement count floored at 0 |
| `GenbogApp.App.GetBooks` | genbog/app.py:42-47 | read-only; answers 200 with one entry per stored key, none below 1 |
| `GenbogApp.App.Book` | genbog/app.py:28-40 | an invalid path ISBN answers 400 with its ISBNError payload and changes nothing; otherwise GET/HEAD read, POST adds and DELETE removes, each reporting the new count |
| `GenbogApp.App.PostBooks` | genbog/app.py:49-57 | an invalid element leaves the store unchanged and answers 400 naming the first offender; otherwise the store becomes `AddAll` of the old one and the response lists each element, in order, with its final count |
| `GenbogApp.App.AddEach` | genbog/app.py:52-53 | the add loop leaves the store at `AddAll` of the old one, keeping the invariant |
| `GenbogApp.App.Report` | genbog/app.py:54-57 | the response comprehension yields `Reported` of the body against the current store |
| `LegacyApp.FirstInvalid` | app/genbog.py:54-56 | the validation loop stops at the first invalid element, or runs to the end exactly when all are valid |
| `LegacyApp.Service.constructor` | app/genbog.py:10 | the module-level dictionary starts empty |
| `LegacyApp.Service.AddBook` | app/genbog.py:13-17 | the new dictionary is `AddOne` of the old; the invariant is kept |
| `LegacyApp.Service.RemoveBook` | app/genbog.py:20-25 | the new dictionary is `RemoveOne` of the old; the invariant is kept |
| `LegacyApp.Service.Book` | app/genbog.py:28-44 | invalid ISBN: 400 and no change; GET: 200 with the count if tracked, else 404 with `error` and `isbn`; POST: post-increment count; DELETE: remaining count or 0; HEAD: 500 "Not yet implemented" |
| `LegacyApp.Service.Books` | app/genbog.py:47-60 | GET lists every entry unchanged; POST behaves as `PostBooks` |
| `LegacyApp.Service.ListBooks` | app/genbog.py:49-51 | one entry per key, as many entries as keys, none below 1 |
| `LegacyApp.Service.PostBooks` | app/genbog.py:52-60 | an invalid element answers 400 naming the first offender and leaves the dictionary unchanged; otherwise every element is added and each is reported with its final count, in input order |
| `LegacyApp.Service.AddEach` | app/genbog.py:57-58 | the add loop leaves the dictionary at `AddAll` of the old one |
| `LegacyApp.Service.Report` | app/genbog.py:59-60 | the response comprehension yields `Reported` of the body against the current dictionary |

## Left out

- Flask and Werkzeug plumbing: app construction, route registration, `jsonify`, response objects and `handle_http_exception` (`genbog/app.py:69-79`) are library calls; handlers return a status and a body datatype instead.
- The 404/405 answers Flask gives for unknown paths or methods, and `handle_404` in `app/genbog.py:63-65`, which returns a malformed tuple: framework error plumbing.
- JSON body parsing (`request.get_json`): the batch body is taken to be a sequence of strings. A string body (iterated character by character), a number, or non-string elements are not modelled.
- HEAD on `/books` in `app/genbog.py`: the view returns `None`, which Flask turns into its own 500 page; `LegacyApp.Service.Books` therefore only takes GET and POST.
- Unicode digits: Python's `str.isdigit` also accepts non-ASCII digits such as '²'; the model accepts only ASCII '0'..'9'.
- Dictionary iteration order: listings are sets of `(isbn, count)` entries; no ordering is stated.
- Concurrency: requests are taken one at a time; the source has no locking.
- `GenbogApp.Handle500`: the cause is one of "no `original_exception` attribute", an ApplicationError, or another exception given by its repr; an attribute that is present but `None` is the third case with repr "None", and producing a repr is not modelled.
