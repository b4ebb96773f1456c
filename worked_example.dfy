/** What each handler answers on the three-quote store `X, Y, X`, stated and
    proved from the handlers' definitions and contracts. */
module WorkedExample {
  import opened Quotes
  import opened RandomQuotes
  import opened AuthorFilter
  import opened AuthorStats

  function SmallStore(): Store
  {
    [Quote(1, "A", "X"), Quote(2, "B", "Y"), Quote(3, "C", "X")]
  }

  /** `/random-quotes/5` answers the whole store in order, `/random-quotes/0`
      is a 400, `/random-quote` answers the drawn quote, and on an empty store
      both random routes are 404s. */
  lemma RandomRoutesOnSmallStore(draw: seq<nat>, pick: nat)
    ensures GetRandomQuotes(SmallStore(), 5, draw) == Ok(SmallStore())
    ensures GetRandomQuotes(SmallStore(), 0, draw).StatusCode() == 400
    ensures GetSingleRandomQuote(SmallStore(), 1) == Ok(Quote(2, "B", "Y"))
    ensures GetRandomQuotes([], 0, draw).StatusCode() == 404
    ensures GetSingleRandomQuote([], pick).StatusCode() == 404
  {
  }

  /** `/quotes-by-author/x` answers the two quotes by `X`, in store order. */
  lemma QuotesByAuthorOnSmallStore()
    ensures GetQuotesByAuthor(SmallStore(), "x") == Ok([SmallStore()[0], SmallStore()[2]])
  {
    var s := SmallStore();
    assert ToLower("X")[0] == 'x';
    assert ToLower("X") == "x" && ToLower("x") == "x";
    assert ToLower("Y")[0] == 'y';
    assert ToLower("Y") != "x";
    assert s[1..] == [s[1], s[2]] && s[1..][1..] == [s[2]] && s[1..][1..][1..] == [];
    assert FilterByAuthor(s[1..][1..], "x") == [s[2]];
    assert FilterByAuthor(s[1..], "x") == [s[2]];
    assert FilterByAuthor(s, "x") == [s[0], s[2]];
  }

  /** `/authors` answers `X` with two quotes, then `Y` with one. */
  method AuthorsOnSmallStore() returns (r: seq<AuthorCount>)
    ensures r == [AuthorCount("X", 2), AuthorCount("Y", 1)]
  {
    var s := SmallStore();
    r := GetAuthorsWithQuoteCount(s);
    assert s[..2] == [s[0], s[1]] && s[..2][..1] == [s[0]] && s[..2][..1][..0] == [];
    assert FirstOccurrenceOrder(s[..2][..1]) == ["X"];
    assert FirstOccurrenceOrder(s[..2]) == ["X", "Y"];
    assert FirstOccurrenceOrder(s) == ["X", "Y"];
    assert Count(s[..2][..1], "X") == 1 && Count(s[..2][..1], "Y") == 0;
    assert Count(s, "X") == 2 && Count(s, "Y") == 1;
  }
}
