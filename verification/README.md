# Pokemon Dictionary catalog core, in Dafny

This project models the logic of a small React catalog viewer. The viewer
loads Pokémon from a public REST API 50 at a time. It gives each entry its
Korean name, Korean type labels and an image number. It keeps one
accumulated list with no repeated ids, and filters that list by a search
term. A detail overlay shows six base stats, a bar width for each and their
total.

Modules (one file each):

- `Wrappers`: `Option` and `Result`. They stand for JavaScript's `undefined`/`NaN` and thrown errors.
- `Lists`: `FindIndex`, the first-match search behind `find` and `findIndex`, and `MapAll`, the all-or-nothing map that `Promise.all` over a mapped array amounts to.
- `Text`: the string built-ins the viewer calls. These are `split` on `/`, `parseInt` on decimal numerals, number-to-text conversion, `toLowerCase` and `includes`.
- `Catalog` (src/App.js, pure parts): the type-label table, the enrichment of one record, the enrichment of a whole page, and the merge with deduplication by id. It also holds the search filter, the display name and the tile image URL.
- `Loader` (src/App.js, state): class `CatalogState`. Its fields `list`, `loading`, `offset` and `hasMore` are the component's state. `FetchPokemon` models one page fetch and `OnSentinelVisible` models the scroll-triggered fetch. The API is an input: a function from the requested offset to what the request for that page produced (`PageResponse`).
- `Modal` (src/PokemonModal.js): stat lookup by name, the accumulator loop for the total, the bar percentage in exact `real` arithmetic, and the overlay's image URL.

Two behaviours of the code (src/App.js:97-98) are easy to misread. The model follows the code:

- After a fetch, `offset` becomes the length the list had when the fetch *began*, not the new total. So the first full page leaves the offset at 0, not 50, and the next fetch asks for offset 0 again. Deduplication then absorbs the repeated page. When fetches do not overlap, as the model assumes, every full page is requested twice; the short page that clears `hasMore` is requested once. `EightyEntryRun` shows this for the first page.
- A failed fetch still sets `offset`. The assignment sits after the `try`/`catch`, so the offset is still reassigned to the list length from before the call.

## Model

| member | source | states |
|---|---|---|
| `Lists.FindIndex` | src/App.js:77 | The first-match search of `find` (src/App.js:77), `findIndex` (src/App.js:87) and the stat lookup (src/PokemonModal.js:16); its contract is `Lists.FindIndexSpec`. |
| `Lists.FindIndexSpec` | src/App.js:87 | The result is the first index whose element satisfies the predicate, or None exactly when no element does. |
| `Text.Split` | src/App.js:79 | `split` always yields at least one piece, and no piece contains the separator. |
| `Text.JoinSplit` | src/App.js:79 | Joining the pieces of a split with the separator gives back the original string. |
| `Text.SplitJoin` | src/App.js:79 | Splitting a join of separator-free pieces gives back exactly those pieces. |
| `Text.ParseDecimal` | src/App.js:79 | A number is produced exactly when the text is a non-empty string of decimal digits. |
| `Text.DecimalText` | src/App.js:154 | A number's printed text is a non-empty string of digits. |
| `Text.ParseDecimalText` | src/App.js:79 | Parsing the printed text of n gives n back. |
| `Text.DecimalTextInjective` | src/App.js:154 | Distinct numbers print differently. |
| `Text.Lower` | src/App.js:146-147 | `toLowerCase` keeps the length; what it does to each character is stated by `Text.LowerSpec`. |
| `Text.LowerSpec` | src/App.js:146-147 | No ASCII capital is left after lower-casing. Only ASCII capitals change, and each becomes its own small letter (the same distance from 'a' as the capital from 'A'). A string without capitals is its own lower case. |
| `Text.LowerSameUpToCase` | src/App.js:146-147 | Strings that differ only in ASCII letter case lower-case to the same string. |
| `Text.Includes` | src/App.js:146-147 | `includes` as a recursive scan; its meaning is stated by `Text.IncludesIff`. |
| `Text.LowerIdempotent` | src/App.js:146-147 | Lower-casing a lower-cased string changes nothing. |
| `Text.IncludesIff` | src/App.js:146-147 | `includes` holds exactly when the term occurs at some index of the string. |
| `Text.OccurrenceIncluded` | src/App.js:146-147 | An occurrence at any index makes `includes` true. |
| `Text.SameLengthIncludes` | src/App.js:146-147 | A string of the term's length includes it only when it equals it. |
| `Text.MissingFirstCharExcludes` | src/App.js:146-147 | A string without the term's first character does not include the term. |
| `Catalog.TypeLabel` | src/App.js:7-30 | A type id in the table gets its Korean label. Any other id is returned unchanged. The `||` fallback never fires for a known id. |
| `Catalog.TranslateTypes` | src/App.js:78 | The translated list has the same length and order as the type ids, with TypeLabel applied to each. |
| `Catalog.KoreanName` | src/App.js:77 | The result is the name of the first species-name entry whose language is "ko". It is None exactly when no entry has that language. |
| `Catalog.ImageNumber` | src/App.js:79 | `parseInt(url.split("/")[6])`; its contract is stated by `Catalog.ImageNumberOfSegments` and `Catalog.ImageNumberOfListUrl`. |
| `Catalog.ImageNumberOfSegments` | src/App.js:79 | For a URL made of `/`-free segments whose seventh segment is the decimal text of n, the image number is n. |
| `Catalog.ImageNumberOfListUrl` | src/App.js:79 | The reference URL `https://pokeapi.co/api/v2/pokemon/<n>/` yields image number n. |
| `Catalog.Enrich` | src/App.js:74-79 | The enrichment of one record; its contract is `Catalog.EnrichSpec`. |
| `Catalog.EnrichSpec` | src/App.js:74-79 | Enrichment fails exactly when the species names have no Korean entry. Otherwise it keeps id and name and carries the Korean name, the translated types and the parsed image number. |
| `Lists.MapAll` | src/App.js:74-80 | A successful all-or-nothing map has one value per element; the rest of its contract is `Lists.MapAllSpec`. |
| `Lists.MapAllSpec` | src/App.js:74-80 | The all-or-nothing map succeeds exactly when every element maps. Its i-th value is then the i-th element mapped. |
| `Catalog.EnrichPage` | src/App.js:74-80 | A successful page has one entry per record; the rest of its contract is `Catalog.EnrichPageAllOrNothing`. |
| `Catalog.EnrichPageAllOrNothing` | src/App.js:74-80 | The page succeeds exactly when every record enriches. It then yields one entry per record, in order. One failing record fails the whole page. |
| `Catalog.KeepFirst` | src/App.js:86-88 | The literal `filter`/`findIndex` deduplication; its contract is `Catalog.KeepFirstIsDedup`. |
| `Catalog.KeepFirstIsDedup` | src/App.js:86-88 | The code's `filter`/`findIndex` deduplication equals the reference left-to-right scan that keeps ids not seen before. |
| `Catalog.FindIdIsFirst` | src/App.js:87 | `findIndex` on an entry's id returns the entry's own index exactly when no earlier entry has that id. |
| `Catalog.Merge` | src/App.js:84-89 | The functional state update of `setPokemonList`; its contract is stated by `Catalog.MergeIsDedup`, `Catalog.MergeUnique`, `Catalog.MergeExtendsDistinct` and `Catalog.MergeIdempotent`. |
| `Catalog.MergeIsDedup` | src/App.js:84-89 | The merge is the reference deduplication of old list followed by new page. |
| `Catalog.DedupSpec` | src/App.js:86-88 | Deduplication leaves distinct ids and loses no id. Each kept entry is the first entry with its id in the input. |
| `Catalog.DedupOfDistinct` | src/App.js:86-88 | A list with distinct ids is unchanged by deduplication. |
| `Catalog.DedupKeepsDistinctPrefix` | src/App.js:85-88 | A distinct list stays a prefix when more entries are appended and deduplicated. |
| `Catalog.DedupAbsorbsKnownIds` | src/App.js:85-88 | Appending entries whose ids are all present already leaves a distinct list unchanged. |
| `Catalog.MergeUnique` | src/App.js:84-89 | After a merge no two entries share an id. The id set is exactly old ids plus page ids, so each appears exactly once. |
| `Catalog.MergeKeepsFirstOccurrence` | src/App.js:85-88 | Every merged entry is the first entry with its id in old list plus page. |
| `Catalog.MergeExtendsDistinct` | src/App.js:85-88 | A distinct old list survives as a prefix. Every later entry comes from the page and has an id the old list lacked. |
| `Catalog.MergeIntoEmpty` | src/App.js:84-89 | Merging a page with distinct ids into the empty list gives the page itself. |
| `Catalog.MergeIdempotent` | src/App.js:84-89 | Merging the same page twice equals merging it once. This is why re-fetching a page adds nothing. |
| `Catalog.Matches` | src/App.js:145-147 | The filter's test on one entry: the lower-cased Korean name or name includes the lower-cased term. `includes` means an occurrence at some index (`Text.IncludesIff`), and lower-casing is as `Text.LowerSpec` states. |
| `Catalog.Search` | src/App.js:144-148 | The result is no longer than the list. It holds exactly the list entries whose lower-cased Korean name or name includes the lower-cased term. |
| `Catalog.SearchAppend` | src/App.js:144-148 | Filtering distributes over concatenation, so the result keeps the list's order. |
| `Catalog.SearchEmptyTerm` | src/App.js:144-148 | The empty term keeps every entry. |
| `Catalog.SearchCaseInsensitive` | src/App.js:144-148 | Terms that lower-case alike select the same entries. |
| `Catalog.SearchIgnoresTermCase` | src/App.js:144-148 | Terms that differ only in ASCII letter case ("SAUR", "saur", "Saur") select the same entries. |
| `Catalog.KoreanTermMatches` | src/App.js:146 | The term "이상해씨" matches bulbasaur (이상해씨) and not ivysaur (이상해풀). |
| `Catalog.LatinTermMatches` | src/App.js:147 | The term "SAUR" matches both bulbasaur and ivysaur, regardless of case. |
| `Catalog.SearchExample` | src/App.js:144-148 | On those two entries, "이상해씨" finds only the first and "SAUR" finds both, in order. |
| `Catalog.DisplayName` | src/App.js:157 | The shown name is the Korean name when that is non-empty, otherwise the name. It is empty only when both are. The overlay header (src/PokemonModal.js:35) uses the same rule. |
| `Catalog.SpriteUrl` | src/App.js:154 | Every tile URL starts with the official-artwork base path. |
| `Catalog.SpriteUrlInjective` | src/App.js:154 | Different image numbers or different modes never produce the same tile URL. |
| `Loader.PageEntries` | src/App.js:72-80 | A page yields entries exactly when the request succeeded and every record has a Korean name. It yields as many entries as references, and entry i is record i enriched. |
| `Loader.CatalogState.constructor` | src/App.js:33-36 | Initial state: empty list, not loading, offset 0, more pages expected. |
| `Loader.CatalogState.FetchPokemon` | src/App.js:69-99 | The page at the current offset is requested. On success the list becomes the merge with that page, and `hasMore` is cleared when the page is shorter than 50. On failure list and `hasMore` are unchanged. Either way `loading` ends false and `offset` is the list length from before the call. Ids stay distinct, the old list stays a prefix, and `hasMore` never turns back on. |
| `Loader.CatalogState.OnSentinelVisible` | src/App.js:47-67 | A fetch runs exactly when the observer is installed (not loading and more pages remain). Otherwise nothing changes. Once `hasMore` is false, no fetch ever runs. |
| `Loader.EightyEntryRun` | src/App.js:43-99 | The run over an 80-entry catalogue served as 50 records at offset 0 and 30 at offset 50. The requests go to offsets 0, 0 and 50, and the offsets after the three fetches are 0, 50 and 50. `hasMore` is true, true, false. The list is the first page after both of the first two fetches, since the repeat is absorbed, and then the merge with the short page. The next event fetches nothing. |
| `Modal.GetBaseStatValue` | src/PokemonModal.js:15-17 | The lookup succeeds exactly when some entry has the name. Otherwise it fails with that name as the error. |
| `Modal.GetBaseStatValueIsFirstMatch` | src/PokemonModal.js:16 | A found value is the `base_stat` of the first entry with that name. |
| `Modal.SumStats` | src/PokemonModal.js:8-11 | The running total of the stat loop; its contract is stated by `Modal.SumStatsDefinedIff`, `Modal.AddUpStats` and `Modal.TotalStatsIsSixSum`. |
| `Modal.SumStatsDefinedIff` | src/PokemonModal.js:9-11 | The running total is defined exactly when every summed name has an entry. |
| `Modal.AddUpStats` | src/PokemonModal.js:8-12 | The accumulator loop returns the running total over the names, or the error for the first missing name. |
| `Modal.CalculateTotalStats` | src/PokemonModal.js:6-13 | The total is the running total over hp, attack, defense, special-attack, special-defense and speed, in that order. |
| `Modal.TotalStatsDefinedIff` | src/PokemonModal.js:7-10 | The total exists exactly when all six stats are present. A missing one is an error, never a default. |
| `Modal.TotalStatsIsSixSum` | src/PokemonModal.js:6-13 | When all six are present, the total is the sum of the six first-match values and nothing else. |
| `Modal.TotalStatsExample` | src/PokemonModal.js:6-13 | Stats 45, 49, 49, 65, 65, 45 total 318. |
| `Modal.GetIgnoresOtherEntry` | src/PokemonModal.js:16 | An entry with another name, inserted anywhere, does not change a lookup. |
| `Modal.GetIgnoresLaterEntries` | src/PokemonModal.js:16 | Entries after a name's first match, including later duplicates, do not change its lookup. |
| `Modal.SumIgnoresOtherEntry` | src/PokemonModal.js:10 | An inserted entry whose name is not one of the summed names leaves the total unchanged. |
| `Modal.SumIgnoresLaterEntries` | src/PokemonModal.js:10 | Entries appended after all summed names are present leave the total unchanged. |
| `Modal.Percentage` | src/PokemonModal.js:19-22 | The width times 255 equals the value times 100. It lies in [0, 100] for values 0..255 and exceeds 100 above 255 (no clamping). |
| `Modal.PercentageExample` | src/PokemonModal.js:22 | A stat of 45 gives 300/17 percent (about 17.647). |
| `Modal.StatBarPercentage` | src/PokemonModal.js:19-22 | The bar width exists exactly when the stat is present. It is then 100/255 of the looked-up value. |
| `Modal.ModalImageUrl` | src/PokemonModal.js:36-37 | For a non-negative id, the overlay image URL is the grid's normal-mode tile URL for that number. |
| `Modal.ModalImageMatchesTile` | src/PokemonModal.js:37 | When the image number equals the id, the overlay and the normal-mode tile show the same image. |

## Left out

- React rendering, JSX markup, CSS and the hooks plumbing (`useState`, `useEffect`, `useRef`) are user interface. Their state is kept as plain fields of `CatalogState`.
- The IntersectionObserver wiring is DOM plumbing. Only its gate is modelled: a sentinel event fetches only when not loading and more pages remain.
- Loader.CatalogState.OnSentinelVisible: the `[loading, hasMore]` effect also runs at mount, so an observer is installed in the same commit as the start-up fetch. When the sentinel is in view, that observer can start a second fetch of offset 0 while the start-up fetch is still in flight, and the first page is then requested three times. The effect never disconnects an observer that has not fired, so several observers can fire together. Overlapping fetches are not modelled: each sentinel event is handled after the previous fetch has finished.
- The axios requests and the concurrency of `Promise.all` are network I/O. The API is an input: a function from the requested offset to the page's outcome (`PageResponse`). `limit=50` appears only as `PageSize`, the full-page length.
- Catalog.EnrichPage: it reports the failure of the first failing record in list order. `Promise.all` reports the first rejection in time, which depends on the network.
- Loader.CatalogState.FetchPokemon: each call is atomic. The window in which `loading` is true during the await, and React's scheduling of state updates and stale closures, are not modelled beyond "offset gets the list length from before the call".
- Text.ParseDecimal / Text.DecimalText: numbers are exact naturals, while JavaScript numbers are doubles. `parseInt("9007199254740993")` gives 9007199254740992 where `ParseDecimal` gives 9007199254740993. Numbers of 10^21 and above print as "1e+21" and the like, not as digit strings. Image numbers and ids are far below both limits.
- Text.ParseDecimal: only strings made entirely of decimal digits parse. JavaScript's `parseInt` also skips leading blanks, accepts a sign and reads a digit prefix of a longer string ("12ab" gives 12). All such inputs give None (NaN) here.
- Text.Lower: only ASCII letters are lower-cased. Full Unicode case mapping is not modelled. Hangul has no case, so Korean names are unaffected.
- Catalog.TypeLabel: the table is a finite map. Lookups that hit JavaScript object-prototype members (such as "constructor") are not modelled.
- Modal.Percentage: exact rational arithmetic. IEEE double rounding and the CSS `%` string of the bar are not modelled.
- `console.error` logging, the shiny and home toggles, the search-box state, and the selected-entry and overlay-open state are trivial UI state. The shiny flag appears only as a parameter of `SpriteUrl`.
- The `join(', ')` of type labels and ability names in the markup is display text only.
- `RawRecord` keeps only the detail-record fields the viewer reads. The other fields copied by the object spread are not modelled.
