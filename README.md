# Card list search and type filter

This project models the search on the card list page of a small trading-card
catalogue (a NestJS API with a Next.js client). The page holds two pieces of UI
state, a search term and a selected type, both initially empty. It shows the
cards whose `name`, lower-cased, contains the lower-cased search term, and whose
`type` is exactly the selected type; an empty selection ("All Types") lets every
type through. The result is an `Array.filter`, so it keeps the input order.

Files:

- `cards.dfy` — module `Cards`: the seven-field `Card` record. The `type` field
  is called `cardType`, because `type` is reserved in Dafny.
- `js_string.dfy` — module `JsString`: the two JavaScript string built-ins the
  filter uses. `ToLower` is `toLowerCase` on ASCII letters. `Contains` is
  `includes`, proved equal to "occurs at some offset".
- `home.dfy` — module `Home`: the filter callback `Matches`, the filtered list
  `FilterCards`, the page state with its initial value, and the lemmas about them.

What is proved:

- The result holds only input cards, in input order: it is a subsequence.
- Every returned card matches the name search, ignoring case.
- When a type is selected, every returned card has exactly that type.
- Every matching input card is returned, as many times as the input holds it.
- These facts determine the result uniquely.
- In the initial state every card is shown, unchanged.
- Search terms that lower-case alike give the same list.
- Filtering twice is the same as filtering once.
- The type comparison is case-sensitive, unlike the name search.

## Model

| member | source | states |
|---|---|---|
| `JsString.LowerChar` | frontend/src/pages/Home.tsx:52-54 | An ASCII capital becomes the small letter 32 code points above it. Any other character is unchanged. The result is never an ASCII capital. |
| `JsString.ToLower` | frontend/src/pages/Home.tsx:52-54 | `toLowerCase` keeps the length of the string and lower-cases it character by character. |
| `JsString.ToLowerIdempotent` | frontend/src/pages/Home.tsx:53-54 | Lower-casing twice gives the same string as lower-casing once. |
| `JsString.ToLowerHasNoCapitals` | frontend/src/pages/Home.tsx:53-54 | A lower-cased name or term holds no ASCII capital letter. This follows directly from the contracts of `LowerChar` and `ToLower` and is kept as documentation. |
| `JsString.Contains` | frontend/src/pages/Home.tsx:52-54 | `includes` scans the offsets from the left. It is true whenever the needle is a prefix of the haystack, and only when the needle is no longer than the haystack. |
| `JsString.ContainsIffOccurs` | frontend/src/pages/Home.tsx:52-54 | `includes` is true exactly when the needle occurs at some offset of the haystack. |
| `JsString.ContainsEmpty` | frontend/src/pages/Home.tsx:52-54 | Every string includes the empty string. An empty search term therefore matches every name. |
| `Home.Matches` | frontend/src/pages/Home.tsx:52-56 | The filter callback accepts a card exactly when the lower-cased term occurs at some offset of the lower-cased name and, if a type is selected, the card's type equals it exactly. |
| `Home.VisibleCards` | frontend/src/pages/Home.tsx:40-57 | The page lists exactly the input cards that match its current search term and selected type. In the initial state (empty term, empty type) it lists the input unchanged. |
| `Home.FilterCards` | frontend/src/pages/Home.tsx:51-57 | The result is no longer than the input and holds only input cards. Each returned card's lower-cased name contains the lower-cased term. When a type is selected, each returned card has exactly that type. Every input card that passes both tests is returned. |
| `Home.FilterIsSubsequence` | frontend/src/pages/Home.tsx:51-57 | The filtered list is a subsequence of the input, so relative order is kept. |
| `Home.FilterMultiplicity` | frontend/src/pages/Home.tsx:51-57 | A matching card occurs in the result as often as in the input. A non-matching card does not occur at all. |
| `Home.SubsequenceMultiset` | frontend/src/pages/Home.tsx:51-57 | A subsequence holds no element more often than its source. `filter` can drop elements but never duplicate them. |
| `Home.FilterUnique` | frontend/src/pages/Home.tsx:51-57 | Any order-preserving selection of the input with the multiplicities above equals the filtered list. |
| `Home.FilterAppend` | frontend/src/pages/Home.tsx:51-57 | Filtering a concatenation gives the concatenation of the filtered parts. Each card is judged on its own. |
| `Home.InitialStateShowsAll` | frontend/src/pages/Home.tsx:40-41 | Filtering with the initial empty search term and empty type returns the input unchanged. |
| `Home.SearchIgnoresCase` | frontend/src/pages/Home.tsx:53-54 | Two search terms with the same lower-cased form select the same list. |
| `Home.LoweredTermSameResult` | frontend/src/pages/Home.tsx:53-54 | Searching with the lower-cased term gives the same list as searching with the term as typed. |
| `Home.FilterIdempotent` | frontend/src/pages/Home.tsx:51-57 | Filtering the filtered list again with the same term and type returns it unchanged. |
| `Home.TypeMatchIsCaseSensitive` | frontend/src/pages/Home.tsx:55 | The term "CHAR" finds "Charmander", whose type is "Fire". The selection "Fire" keeps that card and the selection "fire" drops it. |

## Left out

- `JsString.ToLower` folds ASCII letters only. JavaScript's `toLowerCase` also maps non-ASCII capitals and a few characters whose lower case is longer. Non-ASCII text is left unchanged here.
- JavaScript strings are UTF-16 code-unit sequences. The model uses sequences of Unicode characters. For ASCII text this makes no difference to `includes`.
- The numeric `Card` fields (`id`, `hp`, `attack`) are JavaScript numbers and are modelled as integers. The filter never reads them.
- The React parts of the page are not modelled: rendering, styling, the `useState` setters that store typed input (lines 43-49), and `getStaticProps`, which fetches the cards over the network (lines 87-99). The model takes the card list and the two state values as parameters.
- Battle simulation and the weakness/resistance lookup are not modelled. The API service only has a placeholder comment for them (`api/src/cards/cards.service.ts:39`).
- The API's create/read/update/delete operations are not modelled. They pass straight through to a database repository library that is not part of this model.
- Controller error mapping, authentication, the HTTP client and the database schema are not modelled. They are framework plumbing, environment-variable checks, network calls and SQL.
