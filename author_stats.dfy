/** The `/authors` handler: every distinct author string with the number of
    quotes attributed to it, in the order the authors first appear in the
    store. Authors are grouped by their exact string, with no case folding. */
module AuthorStats {
  import opened Quotes

  /** One element of the response: `{"author": ..., "quote_count": ...}`. */
  datatype AuthorCount = AuthorCount(author: string, quoteCount: nat)

  /** The author field of every quote, in store order. */
  function AuthorColumn(quotes: Store): (r: seq<string>)
    ensures |r| == |quotes|
    ensures forall i :: 0 <= i < |quotes| ==> r[i] == quotes[i].author
  {
    seq(|quotes|, i requires 0 <= i < |quotes| => quotes[i].author)
  }

  /** Position of the first quote by `author`, or `|quotes|` when there is
      none. */
  function FirstIndex(quotes: Store, author: string): (i: nat)
    ensures i <= |quotes|
    ensures i < |quotes| ==> quotes[i].author == author
  {
    if quotes == [] then 0
    else if quotes[0].author == author then 0
    else 1 + FirstIndex(quotes[1..], author)
  }

  /** No quote before the first position carries the author. */
  lemma {:induction false} FirstIndexIsFirst(quotes: Store, author: string)
    ensures forall j :: 0 <= j < FirstIndex(quotes, author) && j < |quotes| ==> quotes[j].author != author
  {
    if quotes != [] && quotes[0].author != author {
      FirstIndexIsFirst(quotes[1..], author);
      forall j | 0 < j < FirstIndex(quotes, author) && j < |quotes|
        ensures quotes[j].author != author
      {
        assert quotes[j] == quotes[1..][j - 1];
      }
    }
  }

  /** Appending a quote leaves the first position of an author already
      present where it was; an absent author is found at the new quote or not
      at all. */
  lemma FirstIndexAppend(p: Store, q: Quote, author: string)
    ensures FirstIndex(p + [q], author) ==
      if FirstIndex(p, author) < |p| then FirstIndex(p, author)
      else if q.author == author then |p|
      else |p| + 1
  {
    var i, i' := FirstIndex(p, author), FirstIndex(p + [q], author);
    FirstIndexIsFirst(p, author);
    FirstIndexIsFirst(p + [q], author);
    if i < |p| {
      assert (p + [q])[i] == p[i];
    } else {
      assert (p + [q])[|p|] == q;
    }
  }

  /** How many quotes carry exactly `author`: the step the loop takes for
      each quote, `author_count[quote["author"]] += 1`. */
  function Count(quotes: Store, author: string): nat
  {
    if quotes == [] then 0
    else Count(quotes[..|quotes| - 1], author) + (if quotes[|quotes| - 1].author == author then 1 else 0)
  }

  /** The count is the multiplicity of the author in the author column. */
  lemma {:induction false} CountIsMultiplicity(quotes: Store, author: string)
    ensures Count(quotes, author) == multiset(AuthorColumn(quotes))[author]
  {
    if quotes != [] {
      var p, q := quotes[..|quotes| - 1], quotes[|quotes| - 1];
      assert quotes == p + [q];
      assert AuthorColumn(quotes) == AuthorColumn(p) + [q.author];
      CountIsMultiplicity(p, author);
    }
  }

  /** An author has a quote exactly when a first position for it exists. */
  lemma {:induction false} CountPositive(quotes: Store, author: string)
    ensures Count(quotes, author) > 0 <==> FirstIndex(quotes, author) < |quotes|
  {
    if quotes != [] {
      var p, q := quotes[..|quotes| - 1], quotes[|quotes| - 1];
      assert quotes == p + [q];
      FirstIndexAppend(p, q, author);
      CountPositive(p, author);
    }
  }

  /** Appending a quote adds one to the count of its author and leaves every
      other count as it was. */
  lemma CountAppend(p: Store, q: Quote, author: string)
    ensures Count(p + [q], author) == Count(p, author) + (if q.author == author then 1 else 0)
  {
    assert (p + [q])[..|p|] == p;
  }

  /** Authors listed in order of first occurrence, each found in the store. */
  ghost predicate IsFirstOccurrenceOrder(quotes: Store, r: seq<string>)
  {
    && (forall j :: 0 <= j < |quotes| ==> quotes[j].author in r)
    && (forall k :: 0 <= k < |r| ==> FirstIndex(quotes, r[k]) < |quotes|)
    && (forall k, l :: 0 <= k < l < |r| ==> FirstIndex(quotes, r[k]) < FirstIndex(quotes, r[l]))
  }

  /** The distinct authors in the order the store first mentions them, as the
      keys of the insertion-ordered dictionary end up. */
  function FirstOccurrenceOrder(quotes: Store): seq<string>
  {
    if quotes == [] then []
    else
      var order := FirstOccurrenceOrder(quotes[..|quotes| - 1]);
      var author := quotes[|quotes| - 1].author;
      if author in order then order else order + [author]
  }

  /** The listing holds every author of the store, and only those, in the
      order of their first quotes. */
  lemma {:induction false} FirstOccurrenceOrderIsOrdered(quotes: Store)
    ensures IsFirstOccurrenceOrder(quotes, FirstOccurrenceOrder(quotes))
  {
    if quotes != [] {
      var p, q := quotes[..|quotes| - 1], quotes[|quotes| - 1];
      assert quotes == p + [q];
      FirstOccurrenceOrderIsOrdered(p);
      FirstOccurrenceOrderStep(p, q, FirstOccurrenceOrder(p));
    }
  }

  /** The listing grows only at its end, and only by a new author. */
  lemma FirstOccurrenceOrderAppend(p: Store, q: Quote)
    ensures FirstOccurrenceOrder(p + [q]) ==
      if q.author in FirstOccurrenceOrder(p) then FirstOccurrenceOrder(p) else FirstOccurrenceOrder(p) + [q.author]
  {
    assert (p + [q])[..|p|] == p;
  }

  /** One step of the scan: a quote whose author is already listed changes
      nothing, a new author goes to the end. */
  lemma FirstOccurrenceOrderStep(p: Store, q: Quote, order: seq<string>)
    requires IsFirstOccurrenceOrder(p, order)
    ensures IsFirstOccurrenceOrder(p + [q], if q.author in order then order else order + [q.author])
  {
    ListedKeepFirstIndex(p, q, order);
    StepCoversStore(p, q, order);
    if q.author !in order {
      NewAuthorFirstIndex(p, q, order);
      AppendKeepsRankOrder(order, q.author, a => FirstIndex(p + [q], a), |p| + 1);
    }
  }

  /** Appending an element ranked after all listed ones keeps a listing
      strictly increasing in rank (here, the rank is the first position in
      the store). */
  lemma AppendKeepsRankOrder(order: seq<string>, author: string, rank: string -> nat, bound: nat)
    requires rank(author) < bound
    requires forall k :: 0 <= k < |order| ==> rank(order[k]) < rank(author)
    requires forall k, l :: 0 <= k < l < |order| ==> rank(order[k]) < rank(order[l])
    ensures forall k :: 0 <= k < |order| + 1 ==> rank((order + [author])[k]) < bound
    ensures forall k, l :: 0 <= k < l < |order| + 1 ==> rank((order + [author])[k]) < rank((order + [author])[l])
  {
    var r := order + [author];
    forall k | 0 <= k < |r|
      ensures rank(r[k]) < bound
    {
      if k < |order| { assert r[k] == order[k]; } else { assert r[k] == author; }
    }
    forall k, l | 0 <= k < l < |r|
      ensures rank(r[k]) < rank(r[l])
    {
      assert r[k] == order[k];
      if l < |order| { assert r[l] == order[l]; } else { assert r[l] == author; }
    }
  }

  /** After the step every author of the longer store is listed. */
  lemma StepCoversStore(p: Store, q: Quote, order: seq<string>)
    requires forall j :: 0 <= j < |p| ==> p[j].author in order
    ensures forall j :: 0 <= j < |p| + 1 ==>
      (p + [q])[j].author in (if q.author in order then order else order + [q.author])
  {
    var r := if q.author in order then order else order + [q.author];
    forall j | 0 <= j < |p| + 1
      ensures (p + [q])[j].author in r
    {
      if j < |p| { assert (p + [q])[j] == p[j]; }
    }
  }

  /** An author already listed keeps its first position when a quote is
      appended. */
  lemma ListedKeepFirstIndex(p: Store, q: Quote, order: seq<string>)
    requires forall k :: 0 <= k < |order| ==> FirstIndex(p, order[k]) < |p|
    ensures forall k :: 0 <= k < |order| ==> FirstIndex(p + [q], order[k]) == FirstIndex(p, order[k])
  {
    forall k | 0 <= k < |order|
      ensures FirstIndex(p + [q], order[k]) == FirstIndex(p, order[k])
    {
      FirstIndexAppend(p, q, order[k]);
    }
  }

  /** An author not yet listed is first found at the appended quote. */
  lemma NewAuthorFirstIndex(p: Store, q: Quote, order: seq<string>)
    requires forall j :: 0 <= j < |p| ==> p[j].author in order
    requires forall k :: 0 <= k < |order| ==> FirstIndex(p, order[k]) < |p|
    requires q.author !in order
    ensures FirstIndex(p + [q], q.author) == |p|
    ensures forall k :: 0 <= k < |order| ==> FirstIndex(p + [q], order[k]) < |p|
  {
    FirstIndexAppend(p, q, q.author);
    ListedKeepFirstIndex(p, q, order);
  }

  /** An author missing from the listing has no quote. */
  lemma UnlistedCountZero(quotes: Store, author: string)
    requires author !in FirstOccurrenceOrder(quotes)
    ensures Count(quotes, author) == 0
  {
    FirstOccurrenceOrderIsOrdered(quotes);
    CountPositive(quotes, author);
  }

  /** Listing authors in order of first occurrence lists each one once. */
  lemma FirstOccurrenceOrderDistinct(quotes: Store)
    ensures forall k, l :: 0 <= k < l < |FirstOccurrenceOrder(quotes)| ==>
      FirstOccurrenceOrder(quotes)[k] != FirstOccurrenceOrder(quotes)[l]
  {
    var r := FirstOccurrenceOrder(quotes);
    FirstOccurrenceOrderIsOrdered(quotes);
    forall k, l | 0 <= k < l < |r| ensures r[k] != r[l] {
      assert FirstIndex(quotes, r[k]) < FirstIndex(quotes, r[l]);
    }
  }

  /** Sum of the quote counts of the listed authors. */
  function SumCounts(quotes: Store, authors: seq<string>): nat
  {
    if authors == [] then 0 else Count(quotes, authors[0]) + SumCounts(quotes, authors[1..])
  }

  /** Sum of the `quote_count` fields of a response. */
  function TotalQuotes(r: seq<AuthorCount>): nat
  {
    if r == [] then 0 else r[0].quoteCount + TotalQuotes(r[1..])
  }

  /** A new quote adds one to the sum over distinct authors exactly when its
      author is among them. */
  lemma {:induction false} SumCountsAppendQuote(p: Store, q: Quote, authors: seq<string>)
    requires forall k, l :: 0 <= k < l < |authors| ==> authors[k] != authors[l]
    ensures SumCounts(p + [q], authors) == SumCounts(p, authors) + (if q.author in authors then 1 else 0)
  {
    if authors != [] {
      assert (p + [q])[..|p|] == p;
      SumCountsAppendQuote(p, q, authors[1..]);
      assert q.author in authors <==> q.author == authors[0] || q.author in authors[1..];
      assert authors[0] !in authors[1..];
    }
  }

  /** The sum over `authors + [a]` adds the count of `a`. */
  lemma {:induction false} SumCountsAppendAuthor(quotes: Store, authors: seq<string>, a: string)
    ensures SumCounts(quotes, authors + [a]) == SumCounts(quotes, authors) + Count(quotes, a)
  {
    if authors != [] {
      assert (authors + [a])[1..] == authors[1..] + [a];
      SumCountsAppendAuthor(quotes, authors[1..], a);
    }
  }

  /** The counts of all distinct authors add up to the size of the store. */
  lemma {:induction false} CountsSumToStoreSize(quotes: Store)
    ensures SumCounts(quotes, FirstOccurrenceOrder(quotes)) == |quotes|
  {
    if quotes != [] {
      var p, q := quotes[..|quotes| - 1], quotes[|quotes| - 1];
      assert quotes == p + [q];
      var order := FirstOccurrenceOrder(p);
      CountsSumToStoreSize(p);
      FirstOccurrenceOrderDistinct(p);
      SumCountsAppendQuote(p, q, order);
      if q.author !in order {
        SumCountsAppendAuthor(quotes, order, q.author);
        UnlistedCountZero(p, q.author);
        CountAppend(p, q, q.author);
      }
    }
  }

  /** A response whose entries are the listed authors with their counts adds
      up to the sum of those counts. */
  lemma {:induction false} TotalQuotesIsSumCounts(quotes: Store, r: seq<AuthorCount>, authors: seq<string>)
    requires |r| == |authors|
    requires forall k :: 0 <= k < |r| ==> r[k].author == authors[k] && r[k].quoteCount == Count(quotes, authors[k])
    ensures TotalQuotes(r) == SumCounts(quotes, authors)
  {
    if r != [] {
      TotalQuotesIsSumCounts(quotes, r[1..], authors[1..]);
    }
  }

  /** The state of the loop after scanning `seen`: `order` lists the keys of
      the dictionary in insertion order and `counts` maps each to its count. */
  ghost predicate IsAuthorTally(seen: Store, order: seq<string>, counts: map<string, nat>)
  {
    && order == FirstOccurrenceOrder(seen)
    && (forall a :: a in counts <==> a in order)
    && (forall a :: a in counts ==> counts[a] == Count(seen, a))
  }

  /** One iteration, `author_count[quote["author"]] += 1`, keeps the tally
      right for the scanned prefix extended by one quote. */
  lemma TallyStep(seen: Store, q: Quote, order: seq<string>, counts: map<string, nat>)
    requires IsAuthorTally(seen, order, counts)
    ensures
      var c := if q.author in counts then counts[q.author] else 0;
      IsAuthorTally(seen + [q],
                    if q.author in counts then order else order + [q.author],
                    counts[q.author := c + 1])
  {
    var a := q.author;
    var c := if a in counts then counts[a] else 0;
    var order' := if a in counts then order else order + [a];
    var counts' := counts[a := c + 1];
    FirstOccurrenceOrderAppend(seen, q);
    assert order' == FirstOccurrenceOrder(seen + [q]);
    if a !in counts {
      UnlistedCountZero(seen, a);
    }
    forall b | b in counts'
      ensures counts'[b] == Count(seen + [q], b)
    {
      CountAppend(seen, q, b);
      if b != a {
        assert b in counts;
      }
    }
    assert forall b :: b in counts' <==> b in order';
    assert IsAuthorTally(seen + [q], order', counts');
  }

  /** What the handler answers, computed from the scan order and the counts:
      each distinct author in order of first occurrence, with its count. */
  function AuthorCounts(quotes: Store): seq<AuthorCount>
  {
    var order := FirstOccurrenceOrder(quotes);
    seq(|order|, k requires 0 <= k < |order| => AuthorCount(order[k], Count(quotes, order[k])))
  }

  /** Every author of the store is listed. */
  lemma AuthorCountsCoverStore(quotes: Store)
    ensures forall j :: 0 <= j < |quotes| ==>
      exists k :: 0 <= k < |AuthorCounts(quotes)| && AuthorCounts(quotes)[k].author == quotes[j].author
  {
    var order, r := FirstOccurrenceOrder(quotes), AuthorCounts(quotes);
    FirstOccurrenceOrderIsOrdered(quotes);
    forall j | 0 <= j < |quotes|
      ensures exists k :: 0 <= k < |r| && r[k].author == quotes[j].author
    {
      var k :| 0 <= k < |order| && order[k] == quotes[j].author;
      assert r[k].author == quotes[j].author;
    }
  }

  /** Authors are listed once each, in the order of their first quotes. */
  lemma AuthorCountsInFirstOccurrenceOrder(quotes: Store)
    ensures forall k, l :: 0 <= k < l < |AuthorCounts(quotes)| ==>
      && AuthorCounts(quotes)[k].author != AuthorCounts(quotes)[l].author
      && FirstIndex(quotes, AuthorCounts(quotes)[k].author) < FirstIndex(quotes, AuthorCounts(quotes)[l].author)
  {
    var order, r := FirstOccurrenceOrder(quotes), AuthorCounts(quotes);
    FirstOccurrenceOrderIsOrdered(quotes);
    FirstOccurrenceOrderDistinct(quotes);
    forall k, l | 0 <= k < l < |r|
      ensures r[k].author != r[l].author
      ensures FirstIndex(quotes, r[k].author) < FirstIndex(quotes, r[l].author)
    {
      assert r[k].author == order[k] && r[l].author == order[l];
    }
  }

  /** Each count is positive and is the number of quotes whose author is
      exactly the listed string. */
  lemma AuthorCountsAreMultiplicities(quotes: Store)
    ensures forall k :: 0 <= k < |AuthorCounts(quotes)| ==>
      && AuthorCounts(quotes)[k].quoteCount >= 1
      && AuthorCounts(quotes)[k].quoteCount == multiset(AuthorColumn(quotes))[AuthorCounts(quotes)[k].author]
  {
    var order, r := FirstOccurrenceOrder(quotes), AuthorCounts(quotes);
    FirstOccurrenceOrderIsOrdered(quotes);
    forall k | 0 <= k < |r|
      ensures r[k].quoteCount >= 1 && r[k].quoteCount == multiset(AuthorColumn(quotes))[r[k].author]
    {
      CountPositive(quotes, order[k]);
      CountIsMultiplicity(quotes, order[k]);
    }
  }

  /** The counts add up to the number of quotes in the store. */
  lemma AuthorCountsTotal(quotes: Store)
    ensures TotalQuotes(AuthorCounts(quotes)) == |quotes|
  {
    TotalQuotesIsSumCounts(quotes, AuthorCounts(quotes), FirstOccurrenceOrder(quotes));
    CountsSumToStoreSize(quotes);
  }

  /** `get_authors_with_quote_count()`: the loop fills an insertion-ordered
      dictionary, here a map from author to count beside the sequence of its
      keys in insertion order; the final comprehension turns it into the
      response. It never fails. */
  method GetAuthorsWithQuoteCount(quotes: Store) returns (r: seq<AuthorCount>)
    ensures r == AuthorCounts(quotes)
  {
    var order: seq<string> := [];
    var counts: map<string, nat> := map[];
    for i := 0 to |quotes|
      invariant IsAuthorTally(quotes[..i], order, counts)
    {
      var a := quotes[i].author;
      assert quotes[..i + 1] == quotes[..i] + [quotes[i]];
      TallyStep(quotes[..i], quotes[i], order, counts);
      var c := if a in counts then counts[a] else 0;
      if a !in counts {
        order := order + [a];
      }
      counts := counts[a := c + 1];
    }
    assert quotes[..|quotes|] == quotes;
    r := seq(|order|, k requires 0 <= k < |order| => AuthorCount(order[k], counts[order[k]]));
  }
}
