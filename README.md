# WikiScraper identifier extraction, modelled in Dafny

WikiScraper collects the Wikipedia page identifiers of mammal species from
list pages. It uses one of two extractors, depending on the page layout.

- `get_wiki_ids1` handles pages that list species in HTML lists. The page's
  anchors arrive as ordered (list-item text, href) records. The records are
  cut to the inclusive window between the first record whose text is the
  lower-cased `start` and the first whose text is the lower-cased `end`.
  Records whose text names a rank (`genus `, `family `, `order `, `clade `,
  `tribe `) or an extinct taxon (`extinct`, `†`) are dropped. The rest are
  keyed by text; the dict comprehension keeps the later href when texts
  repeat (`HrefByTextLastWins`). The surviving
  hrefs are normalised into a set of identifiers. A missing boundary makes
  the call fail.
- `get_wiki_ids2` handles pages that list species in wikitables. For every
  table, every row, and the row's cell at `column_idx` when it has one, it
  appends the href of each `/wiki/` anchor that sits in a list item without
  a dagger. It then normalises the collected hrefs into a set. When the
  fetch does not succeed, the result is empty.
- Normalisation deletes every `/wiki/` from an href, then every
  `#Taxonomy`, so `/wiki/Canis_lupus#Taxonomy` becomes `Canis_lupus`.
  `replace` deletes every occurrence, not only a leading prefix or a
  trailing suffix (`NormalizeDeletesInnerPrefix`,
  `NormalizeDeletesInnerAnchor`).

Modules:

- `Wrappers`: `Option` and `Result`.
- `Text`: Python's substring test, `str.replace(pat, '')` and ASCII
  `str.lower()`.
- `Href`: the normalisation and the identifier set.
- `ListExtractor`: `get_wiki_ids1` on the collected records. It is pure code,
  so it is modelled with functions and lemmas.
- `TableExtractor`: `get_wiki_ids2` on the parsed tables. It works by
  appending to a list inside nested loops, so it is modelled with methods.
  Each method is proved equal to a specification function, and the
  specification functions carry the lemmas.

## Model

| member | source | states |
|---|---|---|
| Text.Contains | WikiScraper.py:52-55 | Python's `sub in s`: `sub` is a prefix of `s` or of one of its suffixes |
| Text.ContainsIffOccurs | WikiScraper.py:52-55 | the scan `Contains` holds exactly when the pattern occurs at some index, i.e. it agrees with the positional meaning of `in` |
| Text.ContainsChar | WikiScraper.py:55 | a one-character pattern is contained exactly when its character is a member of the string, so `'†' in text` is dagger membership |
| Text.RemoveAll | WikiScraper.py:57 | `str.replace(pat, '')` never lengthens a string; it shortens it exactly when the pattern occurs, and leaves it unchanged otherwise |
| Text.LeadingPatternRemoved | WikiScraper.py:57 | an occurrence at the very start is deleted, and removal continues on the rest |
| Text.TrailingPatternRemoved | WikiScraper.py:57 | an occurrence at the very end is deleted, leaving the occurrence-free front intact, when the pattern's first character does not recur in it |
| Text.NoOccurrenceAcrossSeam | WikiScraper.py:57 | joining two occurrence-free strings creates no occurrence when the second starts with a character foreign to the pattern |
| Text.MissingCharNotContained | WikiScraper.py:52-55 | a string cannot contain a pattern holding a character the string lacks |
| Text.NonMatchingHeadKept | WikiScraper.py:57 | a first character that cannot start the pattern is kept, and removal continues after it |
| Text.ForeignFrontKept | WikiScraper.py:57 | a front none of whose characters can start the pattern passes through `replace` unchanged, and removal continues after it |
| Text.SeamCharInPattern | WikiScraper.py:57 | a match that starts in a non-empty front and runs past its end covers the back's first character, at a position other than the pattern's first |
| Text.Lower | WikiScraper.py:49-50 | `str.lower()` keeps the length, maps each of `A`-`Z` to its lower-case letter, and keeps every other character |
| Href.Normalize | WikiScraper.py:57 | the identifier is never longer than the href, and an href with neither `/wiki/` nor `#Taxonomy` is its own identifier |
| Href.IdSet | WikiScraper.py:57 | `set([...])` holds the identifier of every href and nothing else, and never has more members than there are hrefs |
| Href.ImageNoLarger | WikiScraper.py:57 | normalising a set of hrefs yields at most as many identifiers as hrefs |
| Href.IdSetCollapses | WikiScraper.py:57 | two distinct hrefs with the same identifier collapse into one: the set has fewer identifiers than hrefs |
| Href.NormalizePlainLink | WikiScraper.py:57 | `/wiki/` + s normalises to s |
| Href.PrefixRemovedFromTaxonomyLink | WikiScraper.py:57 | the first `replace` turns `/wiki/` + s + `#Taxonomy` into s + `#Taxonomy` |
| Href.NormalizeTaxonomyLink | WikiScraper.py:57 | `/wiki/` + s + `#Taxonomy` normalises to s |
| Href.NormalizeCanisLupus | WikiScraper.py:57 | `/wiki/Canis_lupus#Taxonomy` and `/wiki/Canis_lupus` both normalise to `Canis_lupus` |
| Href.NormalizeDeletesInnerPrefix | WikiScraper.py:57 | for every a and b without `/` and `#`, `/wiki/` + a + `/wiki/` + b normalises to a + b: every `/wiki/` is deleted, not only a leading one |
| Href.NormalizeDeletesInnerAnchor | WikiScraper.py:57 | for every a and b without `/` and `#`, `/wiki/` + a + `#Taxonomy` + b normalises to a + b: every `#Taxonomy` is deleted, not only a trailing one |
| Href.IdSetMergesTaxonomyLinks | WikiScraper.py:57 | `/wiki/` + s and `/wiki/` + s + `#Taxonomy` collapse into the single identifier s |
| ListExtractor.FirstIndex | WikiScraper.py:49-50 | `next(...)` gives the index of the first record with the text, and `None` exactly when no record has it |
| ListExtractor.Window | WikiScraper.py:51 | `links[lo:hi+1]` holds records lo through hi, both included, and is empty when hi < lo |
| ListExtractor.HasRankMarker | WikiScraper.py:52-55 | the text contains `genus `, `family `, `order `, `clade `, `tribe ` or `extinct`, or the dagger |
| ListExtractor.SpeciesOnly | WikiScraper.py:52-55 | a record survives the comprehension exactly when it is in the input and its text has no rank or extinction marker |
| ListExtractor.SpeciesOnlyAppend | WikiScraper.py:52-55 | filtering a concatenation concatenates the filtered parts, so survivors keep their order and repetitions |
| ListExtractor.SpeciesOnlySingle | WikiScraper.py:52-55 | a single record survives exactly when its text has no marker |
| ListExtractor.HrefByText | WikiScraper.py:56 | the keys of the dict comprehension are exactly the texts of the records |
| ListExtractor.HrefByTextLastWins | WikiScraper.py:56 | each text maps to the href of its last record |
| ListExtractor.GetWikiIds1 | WikiScraper.py:47-57 | fails with StartNotFound exactly when no record has the lower-cased start text, and with EndNotFound exactly when the start is found but the end is not |
| ListExtractor.WindowIds | WikiScraper.py:51-57 | the identifiers of an empty window (hi < lo) are empty |
| ListExtractor.LastOccurrence | WikiScraper.py:56 | every record has a last record with the same text at or after it |
| ListExtractor.SpeciesKeys | WikiScraper.py:52-56 | after filtering, a text is a key exactly when it was a key before and has no marker |
| ListExtractor.SpeciesValues | WikiScraper.py:52-56 | filtering before keying gives each surviving text the same href as keying the unfiltered records |
| ListExtractor.WindowIdKey | WikiScraper.py:51-57 | every identifier of a window is the normalised href of the last record of some unmarked text |
| ListExtractor.WindowIdSound | WikiScraper.py:51-57 | every identifier comes from a contributing record: in the window, unmarked, and last with its text |
| ListExtractor.WindowIdComplete | WikiScraper.py:51-57 | every contributing record's normalised href is an identifier |
| ListExtractor.ListIdsCharacterised | WikiScraper.py:47-57 | once both boundaries are found, the call succeeds, and an identifier is in the result exactly when it is the normalised href of a contributing record |
| ListExtractor.EmptyWhenEndBeforeStart | WikiScraper.py:51 | when the first end match precedes the first start match, the call succeeds with no identifiers |
| ListExtractor.FirstIndexReadsTexts | WikiScraper.py:49-50 | the boundary lookup depends only on the texts |
| ListExtractor.WindowIdTransfer | WikiScraper.py:51-57 | an identifier survives a change to the href of a non-contributing record |
| ListExtractor.WindowIdsIgnoreHref | WikiScraper.py:51-57 | the window's identifiers do not depend on the href of a non-contributing record |
| ListExtractor.NonContributingHrefIgnored | WikiScraper.py:47-57 | the outcome does not depend on the href of a record that contributes under no boundary indices |
| ListExtractor.OutsideWindowIgnored | WikiScraper.py:51 | the href of a record outside [start, end] cannot affect the outcome (its text can: it may be a boundary) |
| ListExtractor.RankMarkedIgnored | WikiScraper.py:52-55 | the href of a record whose text has a rank or extinction marker cannot affect the outcome (its text can: it may be a boundary) |
| ListExtractor.EarlierSameTextIgnored | WikiScraper.py:56 | the href of a window record overwritten by a later one with the same text cannot affect the outcome |
| ListExtractor.LastHrefReachesResult | WikiScraper.py:56-57 | the normalised href of the last unmarked window record with a given text is always in the result |
| TableExtractor.Collected | WikiScraper.py:90-92 | an anchor is collected exactly when it has an enclosing list item whose text has no dagger |
| TableExtractor.CellHrefs | WikiScraper.py:89-94 | the first n anchors of a cell contribute at most n hrefs |
| TableExtractor.AppendCellHrefs | WikiScraper.py:89-94 | the loop over a cell's anchors appends exactly the hrefs of its collected anchors, in order |
| TableExtractor.AppendRowHrefs | WikiScraper.py:83-94 | a row appends its cell `column_idx`'s hrefs when `0 <= column_idx < len(cells)`, and nothing otherwise |
| TableExtractor.AppendTableHrefs | WikiScraper.py:78-94 | the loop over the rows of a table appends exactly what each row contributes, in order |
| TableExtractor.CollectColumnHrefs | WikiScraper.py:76-94 | the loop over every wikitable builds exactly the page's column hrefs |
| TableExtractor.GetWikiIds2 | WikiScraper.py:67-95 | gives no identifiers on a non-200 status; otherwise an identifier is in the result exactly when it is the normalised href of an anchor in cell `column_idx` of some row that has a list item without a dagger |
| TableExtractor.CellHrefsSound | WikiScraper.py:89-94 | every appended href is that of a collected anchor of the cell |
| TableExtractor.CellHrefsComplete | WikiScraper.py:89-94 | every collected anchor of the cell has its href appended; an anchor without a list item or with a dagger is not collected |
| TableExtractor.TableHrefsSound | WikiScraper.py:81-94 | every href a table contributes comes from a collected anchor in cell `column_idx` of a row that has that cell |
| TableExtractor.TableHrefsComplete | WikiScraper.py:81-94 | every collected anchor in cell `column_idx` of a row has its href contributed |
| TableExtractor.ColumnHrefsSound | WikiScraper.py:77-94 | every collected href comes from a selected anchor of some table |
| TableExtractor.ColumnHrefsComplete | WikiScraper.py:77-94 | every selected anchor of every table has its href collected |
| TableExtractor.PageHrefsGrow | WikiScraper.py:77-94 | the pooled list only grows: an href collected from the first m tables is still there after any later table |
| TableExtractor.TableHrefsBeforeInsert | WikiScraper.py:81-86 | rows before an inserted row contribute the same hrefs |
| TableExtractor.TableHrefsAfterShortRow | WikiScraper.py:81-86 | a table with an inserted row that lacks cell `column_idx` contributes what the original contributes |
| TableExtractor.PageHrefsSameContributions | WikiScraper.py:77-94 | pages whose tables contribute the same hrefs, table by table, collect the same hrefs |
| TableExtractor.ShortRowContributesNothing | WikiScraper.py:85-86 | inserting a row with too few cells anywhere in any table leaves the collected hrefs unchanged: it is skipped, without error |

## Left out

- Fetching the page is not modelled. `requests.get` is replaced by the response status (a parameter of `GetWikiIds2`) and by the parsed content.
- HTML parsing by BeautifulSoup is not modelled: `find_all`, the `^/wiki/` href regex, `find_parent('li')` and `get_text(separator=' ', strip=True)`. `ListExtractor` starts from the ordered (text, href) records. `TableExtractor` starts from the tables as rows of cells of anchors, each anchor with its href and the text of its enclosing list item, if any.
- `scrape_wikipedia_links1`, the record collector, is not modelled: it is parsing and fetching. A failed fetch there yields no records, and `GetWikiIds1` then fails with `StartNotFound`, as `next` does. Record texts are taken as already lower-cased.
- Text.Lower: folds only the ASCII letters `A`-`Z`. Python's `str.lower()` also folds other Unicode letters, and that needs Unicode tables that are out of scope.
- The order of `list(set(...))` is arbitrary in Python, so both results are modelled as sets, and the order is not modelled.
- Python's `StopIteration` from `next` becomes a `Failure`. The two tags `StartNotFound` and `EndNotFound` say which lookup raised.
- ListExtractor.Window: requires `hi < |links|`. This always holds because `hi` comes from `FirstIndex`, so Python's clamping of an out-of-range slice bound is not modelled.
- The three nested loops of `get_wiki_ids2` are three methods, one per level, plus one for the body over rows. Each loop of the source is one `while` loop in the model.
