/** The `/quotes-by-author/{author_name}` handler: the quotes whose author
    equals the requested name once both are lower-cased, in store order. */
module AuthorFilter {
  import opened Quotes

  predicate IsAsciiUpper(c: char)
  {
    'A' <= c <= 'Z'
  }

  /** Python's `str.lower()`, restricted to ASCII: upper-case letters become
      the matching lower-case letter and every other character is kept. */
  function ToLower(s: string): (r: string)
    ensures |r| == |s|
    ensures forall i :: 0 <= i < |r| ==> !IsAsciiUpper(r[i])
    ensures forall i :: 0 <= i < |s| && !IsAsciiUpper(s[i]) ==> r[i] == s[i]
    ensures forall i :: 0 <= i < |s| && IsAsciiUpper(s[i]) ==> r[i] as int == s[i] as int + 32
  {
    seq(|s|, i requires 0 <= i < |s| => if IsAsciiUpper(s[i]) then (s[i] as int + 32) as char else s[i])
  }

  /** Lower-casing a second time changes nothing. */
  lemma ToLowerIdempotent(s: string)
    ensures ToLower(ToLower(s)) == ToLower(s)
  {
  }

  /** The filter condition of the comprehension. */
  predicate Matches(q: Quote, authorName: string)
  {
    ToLower(q.author) == ToLower(authorName)
  }

  /** `a` occurs in `b` in order, possibly with gaps. */
  ghost predicate IsSubsequence<T>(a: seq<T>, b: seq<T>)
    decreases |b|
  {
    a == [] || (b != [] && ((a[0] == b[0] && IsSubsequence(a[1..], b[1..])) || IsSubsequence(a, b[1..])))
  }

  /** What the filter must return, stated without computing it: a
      subsequence of the store that holds every matching quote as often as the
      store does and no other quote. */
  ghost predicate IsAuthorSelection(r: seq<Quote>, quotes: Store, authorName: string)
  {
    && IsSubsequence(r, quotes)
    && forall q :: multiset(r)[q] == if Matches(q, authorName) then multiset(quotes)[q] else 0
  }

  /** `[quote for quote in quotes if quote["author"].lower() == author_name.lower()]` */
  function FilterByAuthor(quotes: Store, authorName: string): (r: seq<Quote>)
    ensures forall i :: 0 <= i < |r| ==> Matches(r[i], authorName)
    ensures IsAuthorSelection(r, quotes, authorName)
  {
    if quotes == [] then []
    else
      var rest := FilterByAuthor(quotes[1..], authorName);
      assert quotes == [quotes[0]] + quotes[1..];
      if Matches(quotes[0], authorName) then
        assert ([quotes[0]] + rest)[1..] == rest;
        [quotes[0]] + rest
      else
        rest
  }

  /** `get_quotes_by_author(author_name)`: 404 exactly when no quote matches,
      with the requested name in the message; otherwise the matching quotes in
      store order. */
  function GetQuotesByAuthor(quotes: Store, authorName: string): (r: Response<seq<Quote>>)
    ensures !r.InvalidArgument?
    ensures r.NotFound? <==> forall q :: q in quotes ==> !Matches(q, authorName)
    ensures r.NotFound? ==> r.detail == NoQuotesForAuthor + authorName
    ensures r.Ok? ==> r.value != [] && IsAuthorSelection(r.value, quotes, authorName)
  {
    var filtered := FilterByAuthor(quotes, authorName);
    if filtered == [] then
      assert forall q :: q in quotes ==> !Matches(q, authorName) by {
        forall q | q in quotes ensures !Matches(q, authorName) {
          assert multiset(quotes)[q] > 0;
        }
      }
      NotFound(NoQuotesForAuthor + authorName)
    else
      assert filtered[0] in quotes by {
        assert multiset(filtered)[filtered[0]] > 0;
      }
      Ok(filtered)
  }

  /** A subsequence never holds an element more often than the sequence. */
  lemma {:induction false} SubsequenceMultiset<T>(a: seq<T>, b: seq<T>)
    requires IsSubsequence(a, b)
    ensures multiset(a) <= multiset(b)
    decreases |b|
  {
    if a != [] {
      assert b == [b[0]] + b[1..];
      if a[0] == b[0] && IsSubsequence(a[1..], b[1..]) {
        SubsequenceMultiset(a[1..], b[1..]);
        assert a == [a[0]] + a[1..];
      } else {
        SubsequenceMultiset(a, b[1..]);
      }
    }
  }

  /** The filter is the only sequence meeting `IsAuthorSelection`, so that
      predicate is an independent definition of what the handler returns. */
  lemma {:induction false} AuthorSelectionIsFilter(r: seq<Quote>, quotes: Store, authorName: string)
    ensures IsAuthorSelection(r, quotes, authorName) <==> r == FilterByAuthor(quotes, authorName)
    decreases |quotes|
  {
    if IsAuthorSelection(r, quotes, authorName) && quotes != [] {
      var h, t := quotes[0], quotes[1..];
      assert quotes == [h] + t;
      if Matches(h, authorName) {
        assert multiset(r)[h] == multiset(quotes)[h] > multiset(t)[h];
        if !(r != [] && r[0] == h && IsSubsequence(r[1..], t)) {
          SubsequenceMultiset(r, t);
          assert false;
        }
        assert r == [h] + r[1..];
        assert IsAuthorSelection(r[1..], t, authorName);
        AuthorSelectionIsFilter(r[1..], t, authorName);
      } else {
        assert multiset(r)[h] == 0;
        assert r != [] ==> r[0] in multiset(r);
        assert IsSubsequence(r, t);
        forall q ensures multiset(r)[q] == if Matches(q, authorName) then multiset(t)[q] else 0 {
          if Matches(q, authorName) { assert q != h; }
        }
        AuthorSelectionIsFilter(r, t, authorName);
      }
    }
  }

  /** Only the lower-cased query matters: names that differ in case select
      the same quotes. */
  lemma {:induction false} FilterIgnoresQueryCase(quotes: Store, a: string, b: string)
    requires ToLower(a) == ToLower(b)
    ensures FilterByAuthor(quotes, a) == FilterByAuthor(quotes, b)
  {
    if quotes != [] {
      FilterIgnoresQueryCase(quotes[1..], a, b);
    }
  }

  /** The handler answers the same for `a` and `b` when they differ only in
      case; only the echoed name in a 404 message can differ. */
  lemma QuotesByAuthorIgnoresCase(quotes: Store, a: string, b: string)
    requires ToLower(a) == ToLower(b)
    ensures GetQuotesByAuthor(quotes, a).Ok? == GetQuotesByAuthor(quotes, b).Ok?
    ensures GetQuotesByAuthor(quotes, a).Ok? ==>
      GetQuotesByAuthor(quotes, a).value == GetQuotesByAuthor(quotes, b).value
  {
    FilterIgnoresQueryCase(quotes, a, b);
  }

  /** In particular, asking for the lower-cased name gives the same quotes. */
  lemma QuotesByLowerCaseName(quotes: Store, authorName: string)
    ensures GetQuotesByAuthor(quotes, ToLower(authorName)).Ok? == GetQuotesByAuthor(quotes, authorName).Ok?
    ensures GetQuotesByAuthor(quotes, authorName).Ok? ==>
      GetQuotesByAuthor(quotes, ToLower(authorName)).value == GetQuotesByAuthor(quotes, authorName).value
  {
    ToLowerIdempotent(authorName);
    QuotesByAuthorIgnoresCase(quotes, ToLower(authorName), authorName);
  }
}
