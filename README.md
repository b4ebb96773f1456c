# Quote service, modelled in Dafny

The quote service is a read-only HTTP service over a list of quotations. It loads the list from a JSON file once at start-up and never changes it. It answers four queries:

- `/random-quotes/{count}` returns `count` random quotes, or the whole list when `count` covers it.
- `/random-quote` returns one random quote.
- `/quotes-by-author/{author_name}` returns the quotes whose author matches the name, ignoring case.
- `/authors` returns every distinct author with its number of quotes.

The model takes the store as a `seq<Quote>`. Each handler becomes a function or method over it. The result is a `Response` datatype: `Ok(value)`, `NotFound(detail)` for HTTP 404 or `InvalidArgument(detail)` for HTTP 400.

- `quotes.dfy` (module `Quotes`) holds the quote record, the store type, the response type with its status code, and the three error messages.
- `random_quotes.dfy` (module `RandomQuotes`) holds the two random handlers. The library's random choice is a parameter. `draw` is the list of store positions `random.sample` picks; `pick` is the position `random.choice` picks. Each precondition states only what the library guarantees: positions in range and, for a sample, `count` pairwise distinct positions. It applies only in the branch that uses the choice. The main result is that a sample is a sub-multiset of the store, so no quote is taken more often than the store holds it.
- `author_filter.dfy` (module `AuthorFilter`) holds the author filter. `IsAuthorSelection` says what the filter must return without computing it: a subsequence of the store with every matching quote, as often as the store has it, and nothing else. `AuthorSelectionIsFilter` proves that the filter is the only sequence that satisfies it.
- `author_stats.dfy` (module `AuthorStats`) holds the `/authors` handler as a method with the source's loop. A `map` from author to count stands for the insertion-ordered dictionary, beside a `seq` of its keys in insertion order. The method is proved equal to `AuthorCounts`, a specification built from `FirstOccurrenceOrder` and `Count`. Lemmas prove what `AuthorCounts` promises: every author appears once, in order of first occurrence; every count is positive and is the author's multiplicity in the store; the counts add up to the store size.
- `worked_example.dfy` (module `WorkedExample`) states and proves what each handler answers on the store `X, Y, X`.

app.py:25 checks for an empty store before app.py:28 checks `count <= 0`. So an empty store answers 404 "No quotes available" for every `count`, including `count <= 0`, and the model keeps that order.

## Model

| member | source | states |
|---|---|---|
| `Quotes.Response.StatusCode` | app.py:26-29 | An `Ok` answer is 200, `NotFound` is 404 and `InvalidArgument` is 400, each in both directions |
| `RandomQuotes.GetRandomQuotes` | app.py:24-35 | An empty store gives NotFound "No quotes available" for every count. This is checked before the count. On a non-empty store, `count <= 0` gives InvalidArgument "Count must be greater than zero". `count >= len` gives the whole store in its original order. `0 < count < len` gives exactly `count` quotes, each from the store, forming a sub-multiset of the store (no replacement) |
| `RandomQuotes.SampleWithinStore` | app.py:34 | Quotes taken from pairwise distinct positions never include a quote more often than the store holds it |
| `RandomQuotes.SampleHasDistinctIds` | app.py:34 | When the store's ids are distinct, the sampled quotes have pairwise distinct ids: the same record is never returned twice |
| `RandomQuotes.GetSingleRandomQuote` | app.py:43-48 | NotFound "No quotes available" exactly when the store is empty; otherwise an Ok answer holding a quote of the store; never a 400 |
| `AuthorFilter.ToLower` | app.py:60 | Lower-casing keeps the length. It leaves no ASCII upper-case letter, keeps every other character, and maps each upper-case letter to its lower-case letter |
| `AuthorFilter.ToLowerIdempotent` | app.py:60 | Lower-casing twice is lower-casing once |
| `AuthorFilter.FilterByAuthor` | app.py:60 | The comprehension keeps only quotes whose lower-cased author equals the lower-cased query. It is a subsequence of the store (store order kept) and holds every matching quote as many times as the store does |
| `AuthorFilter.AuthorSelectionIsFilter` | app.py:60 | A sequence is an order-preserving selection of exactly the matching quotes if and only if it equals the comprehension's result |
| `AuthorFilter.GetQuotesByAuthor` | app.py:58-63 | NotFound exactly when no quote matches, with detail "No quotes found for author: " followed by the requested name; otherwise a non-empty Ok answer holding exactly the matching quotes in store order; never a 400 |
| `AuthorFilter.FilterIgnoresQueryCase` | app.py:60 | Two queries with the same lower-case form select the same quotes |
| `AuthorFilter.QuotesByAuthorIgnoresCase` | app.py:58-63 | Two queries that differ only in case get the same status and, on success, the same quotes |
| `AuthorFilter.QuotesByLowerCaseName` | app.py:58-63 | Asking for the lower-cased name answers the same as asking for the name |
| `AuthorStats.FirstIndexIsFirst` | app.py:74-75 | No quote before an author's first position carries that author |
| `AuthorStats.CountIsMultiplicity` | app.py:74-75 | The per-author count is the number of quotes whose author is exactly that string, that is, its multiplicity among the authors |
| `AuthorStats.CountPositive` | app.py:74-75 | An author's count is positive exactly when a quote by that author exists |
| `AuthorStats.FirstOccurrenceOrderIsOrdered` | app.py:73-78 | The dictionary's key order lists every author of the store and only those, ordered by their first position in the store |
| `AuthorStats.FirstOccurrenceOrderDistinct` | app.py:73-78 | The key order lists no author twice |
| `AuthorStats.TallyStep` | app.py:75 | `author_count[quote["author"]] += 1` keeps the map and its key order equal to the counts and first-occurrence order of the quotes scanned so far. A new author is added at the end with count 1 |
| `AuthorStats.CountsSumToStoreSize` | app.py:73-78 | The counts of the listed authors add up to the number of quotes |
| `AuthorStats.AuthorCountsCoverStore` | app.py:78 | Every author of the store appears in the response |
| `AuthorStats.AuthorCountsInFirstOccurrenceOrder` | app.py:78 | No author string appears twice in the response. Entries are ordered by each author's first position in the store |
| `AuthorStats.AuthorCountsAreMultiplicities` | app.py:78 | Every `quote_count` is at least 1 and equals the number of quotes with exactly that author |
| `AuthorStats.AuthorCountsTotal` | app.py:78 | The `quote_count` values add up to the store size |
| `AuthorStats.GetAuthorsWithQuoteCount` | app.py:71-78 | The loop plus the final comprehension answer exactly `AuthorCounts` (its properties are the four lemmas above), and never fail |
| `WorkedExample.RandomRoutesOnSmallStore` | app.py:24-48 | On the store X, Y, X, `/random-quotes/5` answers all three quotes in order, `/random-quotes/0` answers 400, and `/random-quote` answers the drawn quote. On the empty store both random routes answer 404 |
| `WorkedExample.QuotesByAuthorOnSmallStore` | app.py:58-67 | On the store X, Y, X, `/quotes-by-author/x` answers the first and third quote |
| `WorkedExample.AuthorsOnSmallStore` | app.py:71-81 | On the store X, Y, X, `/authors` answers X with 2 quotes, then Y with 1 |

## Left out

- FastAPI routing, `HTTPException`, `JSONResponse` and `jsonable_encoder` (app.py:4-6, 23, 38, 42, 54, 57, 67, 70, 81) are framework plumbing. They appear only as the `Response` datatype with a status code and a detail message.
- Reading `quotes.json` at start-up (app.py:13-14) is file I/O. The store is a parameter of every handler, and a missing or malformed file is not modelled.
- The Pydantic `Quote` class (app.py:17-20) is declared but never used. The store holds the raw dictionaries that `json.load` returns (app.py:14), and no handler validates them. The model's `Quote` datatype has exactly the three fields that class declares.
- Every record is assumed to carry an integer `id` and string `quote` and `author`. A record without `"author"` raises `KeyError` at app.py:60 and app.py:75, and a non-string author raises `AttributeError` on `.lower()` at app.py:60. FastAPI answers both with a 500, which is not modelled.
- Id uniqueness is not enforced, as in the source. `SampleHasDistinctIds` takes it as a precondition.
- The uniform distribution of `random.sample` and `random.choice` (app.py:34, 48) cannot be stated here. Their choices are parameters, and only range, size and distinctness are modelled. The sampled quotes come in draw order; the source promises no order.
- AuthorFilter.ToLower: lower-cases ASCII letters only. Python's `str.lower()` also lower-cases other Unicode letters, and a few of them change length. Names that differ only in non-ASCII case are therefore told apart by the model but not by the source.
- The `defaultdict`'s behaviour beyond what the loop uses is not modelled. It is a `map` beside a `seq` of keys in insertion order.
