/** What a handler hands back to Flask: a status and a JSON body, reduced to
    the shapes the service produces. */
module Http {
  import opened Counting

  /** The request methods Flask dispatches to the book views (HEAD goes to the
      view registered for GET). */
  datatype Verb = Get | Head | Post | Delete

  datatype Body =
    | Entry(entry: BookCount)              // {"isbn": ..., "count": ...}
    | Entries(entries: seq<BookCount>)      // a JSON array, in input order
    | Listing(listing: set<BookCount>)     // the JSON array; its dictionary order is not kept
    | Error(fields: map<string, string>)   // {"error": ..., ...}

  datatype Response = Response(status: int, body: Body)
}
