/** The two random handlers: `/random-quotes/{count}` and `/random-quote`.

    The library's random choices are parameters: `draw` stands for the store
    positions `random.sample` picks and `pick` for the one `random.choice`
    picks. The preconditions state only what the library guarantees of them
    (in range, and for a sample the right number of pairwise distinct
    positions), and only in the branch that consults them. */
module RandomQuotes {
  import opened Quotes

  /** `draw` is what `random.sample` may pick from a collection of `n`
      elements when asked for `k`: `k` pairwise distinct positions. */
  predicate IsSampleOf(draw: seq<nat>, n: nat, k: nat)
  {
    && |draw| == k
    && (forall i :: 0 <= i < |draw| ==> draw[i] < n)
    && (forall i, j :: 0 <= i < j < |draw| ==> draw[i] != draw[j])
  }

  /** The quotes at the drawn positions, in the order they were drawn. */
  function Pick(quotes: Store, draw: seq<nat>): seq<Quote>
    requires forall i :: 0 <= i < |draw| ==> draw[i] < |quotes|
  {
    seq(|draw|, i requires 0 <= i < |draw| => quotes[draw[i]])
  }

  /** `get_random_quotes(count)`: the empty store is checked first, then the
      count, then the whole store is returned when `count` covers it, and
      otherwise a sample without replacement. */
  function GetRandomQuotes(quotes: Store, count: int, draw: seq<nat>): (r: Response<seq<Quote>>)
    requires 0 < count < |quotes| ==> IsSampleOf(draw, |quotes|, count)
    ensures quotes == [] ==> r == NotFound(NoQuotesAvailable)
    ensures quotes != [] && count <= 0 ==> r == InvalidArgument(CountMustBePositive)
    ensures quotes != [] && count >= |quotes| ==> r == Ok(quotes)
    ensures 0 < count < |quotes| ==>
      && r.Ok?
      && |r.value| == count
      && (forall q :: q in r.value ==> q in quotes)
      && multiset(r.value) <= multiset(quotes)
  {
    if quotes == [] then
      NotFound(NoQuotesAvailable)
    else if count <= 0 then
      InvalidArgument(CountMustBePositive)
    else if count >= |quotes| then
      Ok(quotes)
    else
      SampleWithinStore(quotes, draw);
      Ok(Pick(quotes, draw))
  }

  /** `get_single_random_quote()`: 404 on an empty store, otherwise one quote
      of the store. */
  function GetSingleRandomQuote(quotes: Store, pick: nat): (r: Response<Quote>)
    requires quotes != [] ==> pick < |quotes|
    ensures r.NotFound? <==> quotes == []
    ensures r.NotFound? ==> r.detail == NoQuotesAvailable
    ensures !r.InvalidArgument?
    ensures r.Ok? ==> r.value in quotes
  {
    if quotes == [] then NotFound(NoQuotesAvailable) else Ok(quotes[pick])
  }

  /** Picking `k` distinct positions never takes a quote more often than the
      store holds it: the sample is a sub-multiset of the store. */
  lemma {:induction false} SampleWithinStore(quotes: Store, draw: seq<nat>)
    requires IsSampleOf(draw, |quotes|, |draw|)
    ensures multiset(Pick(quotes, draw)) <= multiset(quotes)
    decreases |quotes|
  {
    if draw != [] {
      assert draw[0] < |quotes|;
      var n := |quotes| - 1;
      var init := quotes[..n];
      assert quotes == init + [quotes[n]];
      if t :| 0 <= t < |draw| && draw[t] == n {
        var a, b := draw[..t], draw[t + 1..];
        assert draw == a + [n] + b;
        DrawWithout(draw, n, t);
        SampleWithinStore(init, a + b);
        PickOfPrefix(quotes, init, a + b);
        PickRemove(quotes, a, n, b);
      } else {
        DrawBelowLast(draw, n);
        SampleWithinStore(init, draw);
        PickOfPrefix(quotes, init, draw);
      }
    }
  }

  /** A sample of `n + 1` positions that avoids the last one is a sample of
      the first `n`. */
  lemma DrawBelowLast(draw: seq<nat>, n: nat)
    requires IsSampleOf(draw, n + 1, |draw|)
    requires forall t :: 0 <= t < |draw| ==> draw[t] != n
    ensures IsSampleOf(draw, n, |draw|)
  {
  }

  /** Removing the draw of the last position `n` leaves a sample of the
      first `n` positions. */
  lemma DrawWithout(draw: seq<nat>, n: nat, t: nat)
    requires IsSampleOf(draw, n + 1, |draw|)
    requires t < |draw| && draw[t] == n
    ensures IsSampleOf(draw[..t] + draw[t + 1..], n, |draw| - 1)
  {
    var rest := draw[..t] + draw[t + 1..];
    forall i | 0 <= i < |rest|
      ensures rest[i] == if i < t then draw[i] else draw[i + 1]
    {
    }
  }

  /** Taking one draw `x` out of a draw removes exactly its quote from the
      pick. */
  lemma PickRemove(quotes: Store, a: seq<nat>, x: nat, b: seq<nat>)
    requires forall i :: 0 <= i < |a| ==> a[i] < |quotes|
    requires x < |quotes|
    requires forall i :: 0 <= i < |b| ==> b[i] < |quotes|
    ensures multiset(Pick(quotes, a + [x] + b)) == multiset(Pick(quotes, a + b)) + multiset{quotes[x]}
  {
    PickAppend(quotes, a + [x], b);
    PickAppend(quotes, a, [x]);
    PickAppend(quotes, a, b);
    var pa, pb := Pick(quotes, a), Pick(quotes, b);
    assert Pick(quotes, a + [x] + b) == pa + [quotes[x]] + pb;
    assert multiset(pa + [quotes[x]] + pb) == multiset(pa) + multiset{quotes[x]} + multiset(pb);
  }

  /** Picking from a prefix that holds every drawn position is picking from
      the whole store. */
  lemma PickOfPrefix(quotes: Store, init: Store, draw: seq<nat>)
    requires init <= quotes
    requires forall i :: 0 <= i < |draw| ==> draw[i] < |init|
    ensures Pick(quotes, draw) == Pick(init, draw)
  {
  }

  /** Picking is compositional over concatenated draws. */
  lemma PickAppend(quotes: Store, a: seq<nat>, b: seq<nat>)
    requires forall i :: 0 <= i < |a| ==> a[i] < |quotes|
    requires forall i :: 0 <= i < |b| ==> b[i] < |quotes|
    ensures Pick(quotes, a + b) == Pick(quotes, a) + Pick(quotes, b)
  {
  }

  /** When no two stored quotes share an id, neither do two sampled quotes:
      `random.sample` never returns the same record twice. */
  lemma SampleHasDistinctIds(quotes: Store, count: int, draw: seq<nat>)
    requires 0 < count < |quotes| ==> IsSampleOf(draw, |quotes|, count)
    requires forall i, j :: 0 <= i < j < |quotes| ==> quotes[i].id != quotes[j].id
    ensures GetRandomQuotes(quotes, count, draw).Ok? ==>
      var s := GetRandomQuotes(quotes, count, draw).value;
      forall i, j :: 0 <= i < j < |s| ==> s[i].id != s[j].id
  {
    var r := GetRandomQuotes(quotes, count, draw);
    if r.Ok? && 0 < count < |quotes| {
      var s := r.value;
      forall i, j | 0 <= i < j < |s|
        ensures s[i].id != s[j].id
      {
        assert s[i] == quotes[draw[i]] && s[j] == quotes[draw[j]];
        if draw[i] < draw[j] {
          assert quotes[draw[i]].id != quotes[draw[j]].id;
        } else {
          assert quotes[draw[j]].id != quotes[draw[i]].id;
        }
      }
    }
  }
}
