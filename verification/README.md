# Ridibooks metadata worker — a Dafny model

This project models the extraction and normalisation core of the Ridibooks
metadata source for calibre: the part of `Worker.load_details` that runs once
the book page has been fetched, together with `parse_tags` and
`_convert_genres_to_calibre_tags`. Given the parsed page, it reads the book's
fields from two places: the head `<meta>` tags and the ld+json Book block.
It derives the Ridibooks id from the page URL and notifies the plugin's cache.
It maps the page's keywords and genre breadcrumbs through the user's genre
mapping, reads a series name and index off the title, and assembles the
record.

The modules follow the program's structure:

- `Wrappers`: `Option`, and `Result` carrying the Python exception kind a failing step raises.
- `Text`: the Python built-ins the worker relies on, each defined once and shared by every other module. These are `in` on strings, `find`, `split`, `join`, `replace`, `strip`, `lower`, `int()`, and "first element of a filtered list".
- `Page`: what the worker's xpath queries return. That is the head meta tags, the ld+json script bodies and the genre breadcrumbs. It also holds the decoded JSON values.
- `Normalize`: the nested helpers `_format_item`, `_format_list`, `_find_meta` and `_format_date`, plus the Book-block selection, its entity repair and the book id.
- `Genres`: the genre mapper. A loop-by-loop method is proved equal to a declarative reference, "the first occurrences of all contributions".
- `Tags`: `parse_tags`. It collects keywords and breadcrumbs and returns `None` when no tag results.
- `Series`: the two series regexes as the regular-expression engine runs them, including the greedy `(.*)` giving characters back.
- `Details`: authors and translators, the order in which fields are read and fail, the cache notifications, and the final outcome.

Inputs that the worker gets from outside become parameters:

- the parsed page (`Page.BookPage`);
- the JSON decoder (`Page.Decoder`, a function that gives `None` where `json.loads` raises);
- the genre mapping, as the list of its `(key, tags)` items in dictionary order;
- the relevance rank.

The cache notifications are returned as a list of events. A run's result is an `Outcome`: the events sent, plus either the record put on the queue or the exception that ended the run.

The behaviour follows the code, which is not always what one would guess from the patterns. For a title such as `X 12화`, the greedy `(.*)` leaves one digit to `(\d+)`. The series is therefore `X 1` with index 2, not `X` with index 12. Likewise `Mystery Series 3권` gives the name `Mystery Series ` with its trailing blank.

## Model

`Normalize.RepairEntities` (worker.py:116-119) and `Details.Assemble` (worker.py:135-165) are helpers without rows of their own. The repair is stated by the three `Repair…` rows and the assembled record by `Details.LoadDetails`.

| member | source | states |
|---|---|---|
| `Normalize.FormatItem` | worker.py:64-65 | When the whole text (up to an optional final newline) is one line wrapped in double quotes, the result is that text with exactly the opening and closing quote removed. Any other text is returned unchanged. |
| `Normalize.FormatItemUnquotes` | worker.py:64-65 | Wrapping any one-line text in quotes and formatting it gives the text back, even when the text holds quotes itself. |
| `Normalize.FormatItemKeepsUnquoted` | worker.py:64-65 | Text that does not open with a double quote passes through unchanged. |
| `Normalize.FormatList` | worker.py:67-68 | No item of the list contains a comma, and every item is free of leading and trailing whitespace. |
| `Normalize.FormatListCount` | worker.py:67-68 | The list has one item more than the unquoted text has commas. |
| `Normalize.FormatListJoin` | worker.py:67-68 | For stripped items free of commas and quotes, `_format_list` recovers the items from their `", "`-joined text: it inverts writing a list out. |
| `Normalize.FormatListExample` | worker.py:67-68 | The quoted list `"a, b, c"` yields `a`, `b`, `c`. |
| `Normalize.FindMeta` | worker.py:70-71 | The lookup succeeds exactly when some tag has the property. It returns the `content` of the first such tag, and fails with `IndexError` when no tag matches. |
| `Normalize.FindMetaSelected` | worker.py:109 | Searching the `og`/`books`-filtered head meta finds the same result as searching all of it, for every property the worker asks for. |
| `Normalize.SelectBookBlock` | worker.py:115 | The selected block is the first ld+json body containing `"@type": "Book"`. It fails with `IndexError` exactly when no body contains it. |
| `Normalize.RepairRemovesEntities` | worker.py:116-119 | After the four replacements no `&lt;`, `&gt;` or `&quot;` is left in the block. |
| `Normalize.RepairKeepsPlainText` | worker.py:116-119 | A block without `&` passes through the repair unchanged. |
| `Normalize.RepairEscapedQuote` | worker.py:118-119 | An already backslash-escaped `\&quot;` becomes one escaped quote `\"`, because the third replacement runs before the fourth. |
| `Normalize.BookId` | worker.py:122-124 | The id exists exactly when the URL contains `/books/`, and otherwise the lookup fails with `IndexError`. The id contains neither `/books/` nor `?_`. |
| `Normalize.BookIdPosition` | worker.py:122-124 | The id starts right after the first `/books/` of the URL. It is followed by the end of the URL, by `?_` or by another `/books/`. No `?_` or `/books/` starts inside it, so the id runs exactly up to the nearest separator. |
| `Normalize.BookIdOf` | worker.py:122-124 | A link of the form host, `/books/`, id, `?_`, query yields exactly the id, whatever the query holds. The id must have no `/` or `?`, and the host part must not already contain `/books/`. This covers `https://ridibooks.com/books/987654?_s=search` giving `987654`. |
| `Normalize.FormatDate` | worker.py:73-77 | A returned date is a real calendar date in years 1 to 9999. Its year, month and day are what `int()` reads from `[0:4]`, `[4:6]` and `[6:]`. The result is an `OverflowError` exactly when all three slices are read as numbers and one of them does not fit a C `int`, which `datetime()` converts its arguments to. Every other failure is a `ValueError`. Conversely, three slices that are read as numbers and spell a real date give exactly that date, whatever whitespace `int()` strips around them. |
| `Normalize.FormatDateTrailingSpace` | worker.py:73-77 | Whitespace after eight date digits does not change the result, since `int()` strips it from the day slice. `20200105` followed by a newline is 5 January 2020. |
| `Normalize.FormatDateDayOverflow` | worker.py:76-77 | Six date digits followed by a day that `int()` reads but a C `int` cannot hold give an `OverflowError`, not a `ValueError`. One example is `20200199999999999`. |
| `Normalize.FormatDateRoundTrip` | worker.py:73-77 | Every valid date, written as `YYYYMMDD`, is read back as itself. |
| `Normalize.FormatDateDigits` | worker.py:73-77 | On eight ASCII digits the result is exactly the date they spell when that date exists, and a `ValueError` otherwise (for example month 13 or 30 February). |
| `Normalize.CompactDateDigits` | worker.py:73-77 | Eight digits that spell a valid date are that date's `YYYYMMDD` rendering. |
| `Normalize.FormatDateShort` | worker.py:76 | A text of at most six characters fails: its day slice is empty. |
| `Genres.LowerKeys` | worker.py:218 | Every key of the lowered table is the lower-cased form of some item's key, and every item's lowered key is in the table. |
| `Genres.LowerKeysLastWins` | worker.py:218 | When several keys lower-case alike, the table keeps the tags of the last such item. |
| `Genres.AppendNew` | worker.py:223-225 | The inner loop extends the list of first occurrences of what has been seen by those of the newly contributed tags. |
| `Genres.ConvertGenresToCalibreTags` | worker.py:215-229 | The loops compute the first occurrences of all contributions. A raw tag contributes its non-empty mapped list, looked up by its lower-cased form, or else itself. The output has no duplicates. |
| `Genres.ConvertMembers` | worker.py:220-228 | A tag is in the output exactly when some raw tag contributes it. |
| `Genres.ConvertKeepsUnmapped` | worker.py:226-228 | A raw tag with no entry, or with an empty mapped list, is in the output in its original spelling. |
| `Genres.ConvertOrdered` | worker.py:219-229 | Output tags appear in the order they first come up while the raw tags are scanned left to right. |
| `Genres.ConvertPassesThrough` | worker.py:226-228 | Distinct raw tags, none of which has an entry, come out unchanged. |
| `Genres.ConvertIgnoresCase` | worker.py:218-221 | Raw tags that differ only in letter case, all with usable entries, give the same output. |
| `Genres.ConvertNonEmpty` | worker.py:220-228 | The output is empty exactly when the input is. |
| `Genres.ConvertExample` | worker.py:215-229 | `Fantasy`, `fantasy`, `SciFi` against `fantasy -> [Fantasy & SF]` gives `Fantasy & SF` once, then `SciFi`. |
| `Genres.FirstOccurrencesOrdered` | worker.py:219-229 | The reference list of first occurrences is ordered by the position of each element's first appearance. |
| `Tags.KeywordTags` | worker.py:184-188 | With no `keywords` field there are no keyword tags. Otherwise the string's first and last characters are dropped. The pieces, joined back with `", "`, give exactly the remaining text, and none contains the separator. The cuts are leftmost: no separator starts inside a piece, even one that would run on into the next separator. A list fails with `AttributeError` and any other non-string with `TypeError`. |
| `Tags.KeywordsRoundTrip` | worker.py:184-188 | Keywords without double quotes, written between any two wrapper characters and separated by `", "`, come back one by one. |
| `Tags.CollectGenreTags` | worker.py:190-204 | The breadcrumb loop with its `added_main_genre` flag gives nothing when there are no breadcrumbs. It fails with `IndexError` exactly when the first breadcrumb has no link. Otherwise it gives that link's text once, then every breadcrumb's trimmed sub-genres in order. |
| `Tags.GenreTagsIgnoreLaterLinks` | worker.py:194-198 | Only the first breadcrumb's link matters: changing the links of the others leaves the genre tags unchanged. |
| `Tags.RawTags` | worker.py:184-208 | The body follows the source's branches: `if genres_node:`, then `all_tags += genre_tags` or `all_tags = genre_tags`. All the branches are proved to give the same shape. The keyword tags come first. Without breadcrumbs they are the whole result. Otherwise they are followed by the first breadcrumb's link text once, then every sub-genre. A keyword failure comes first; a missing first link then gives `IndexError`. |
| `Tags.ParseTags` | worker.py:171-213 | On success the result is `None` exactly when the record has no `keywords` field and the page no breadcrumbs. Otherwise it is a duplicate-free list whose members are exactly the contributions of the raw tags. The list is ordered by where each tag first comes up while the raw tags are expanded left to right, keywords before genres. A failure carries the raw tags' exception: the keyword error (`AttributeError` or `TypeError`), otherwise `IndexError` for a missing first link. |
| `Series.Marker` | worker.py:155-158 | The marker is `권` exactly when the title ends with `권`, and `화` otherwise. |
| `Series.LastTail` | worker.py:156-158 | The greedy `(.*)` settles on the largest end after which `\s*(\d+)` and the marker match, and none exists when no end in range works. |
| `Series.SearchFrom` | worker.py:156-158 | `re.search` reports the leftmost start at which the pattern matches, with group 1 ending where `LastTail` settles. It reports no match only when no start from the given position on matches. |
| `Series.DetectSeries` | worker.py:155-162 | A detected series name never spans a newline, since `.` does not match one. |
| `Series.SeriesMatchesIff` | worker.py:155-162 | On a one-line title a series is found exactly when some ASCII digit stands right before the marker. |
| `Series.SeriesOfLastDigit` | worker.py:155-162 | On a one-line title, take the last digit that stands right before the marker. The name is everything before that digit, blanks included, and the index is that digit. |
| `Series.SeriesShape` | worker.py:155-162 | Conversely, every series found on a one-line title has that shape, so its index is between 0 and 9. |
| `Series.EpisodeExample` | worker.py:158-162 | `X 12화` gives the name `X 1` and the index 2. |
| `Series.VolumeExample` | worker.py:155-162 | `Mystery Series 3권` gives the name `Mystery Series ` and the index 3. |
| `Series.NoSeriesExample` | worker.py:160 | A title with no number before a marker has no series, and this is not an error. |
| `Details.Authors` | worker.py:130-133 | The list is the formatted author names. When the record has a `translator` field, the formatted translator names follow, each with `(역자)` appended. It fails when a `name` is missing or is not text. |
| `Details.AuthorsMarked` | worker.py:130-133 | There is at least one author entry. Every entry after the authors ends in `(역자)` and, without it, is a stripped comma-free name. |
| `Details.RatingText` | worker.py:145 | A rating meta without `content` fails with `TypeError`, as `float(None)` does. |
| `Details.ExtractFields` | worker.py:109-145 | The fields come from the first Book block, repaired and decoded into the record the fields are read from. They also come from the URL, the first `og:title`/`books:isbn`/`og:image`/rating meta, and the record's author, publisher, date and description. A missing Book block fails with `IndexError`. An undecodable block fails with `ValueError`. A URL without `/books/` then fails with `IndexError`. The extraction succeeds exactly when the page is readable, that is, the block decodes, the URL has `/books/`, the four metas exist (the rating one with content) and the record's fields are present and well-formed. A missing ISBN, image or title meta fails with `IndexError`. A bad record field then fails with `KeyError`, `TypeError`, `ValueError` or `OverflowError`. After that, a missing rating meta fails with `IndexError` and one without content with `TypeError`. |
| `Details.ReadRecord` | worker.py:130-143 | The record reads (authors with translators, publisher name, date, description) succeed exactly when those fields are present and well-formed. A failure is a `KeyError`, a `TypeError`, or the date's `ValueError` or `OverflowError`. |
| `Details.CacheEvents` | worker.py:147-151 | The ISBN event is sent exactly when the id and the ISBN are non-empty, and the cover event exactly when the id and the cover URL are. The ISBN event comes first. |
| `Details.LoadDetails` | worker.py:105-168 | A failure while reading fields leaves no event and no record. Once the fields are read, the cache events are sent whatever happens next. A record is published exactly when `parse_tags` and the title check succeed. A `parse_tags` failure, or `AttributeError` for a missing title, is the run's error. A published record carries the read title, the tags `parse_tags` gives and the series read off the title. It also carries the read authors, publisher, date, comments, rating text and cover URL, the URL's id, `has_cover` true exactly when the cover URL is non-empty, the language `Korean` and the given relevance. |
| `Details.NoBookBlockNoOutcome` | worker.py:115 | A page without the Book block yields no event and an `IndexError`. |
| `Details.MissingTitleAfterEvents` | worker.py:147-158 | A title meta without `content` still lets the cache events out, and then nothing is published. |
| `Details.NoBookIdNoOutcome` | worker.py:122-124 | A URL without `/books/` yields no event and an `IndexError`, once the Book block is decoded. |

## Left out

- `_get_book_page` (worker.py:82-103), the login POST, the page GET and `lxml.html.fromstring` are network I/O. The page is an input, given as the lists the worker's xpath queries return. Evaluating those xpath expressions is not modelled.
- The `Worker` thread, `run`, its catch-all `except` and the result queue (worker.py:26-38, 56-60) are concurrency and logging. The model returns an `Outcome` instead: the exception kind that would be logged, or the record that would be put.
- The construction of `lang_map` (worker.py:40-54) is never used, because the language is fixed to `Korean`.
- `_normalize_score` (worker.py:79-80) is never called.
- `json.loads` is an input function, and the decoded values are reduced to strings, objects, lists and everything else.
- `parse_tags` selects, repairs and decodes the ld+json block a second time (worker.py:177-183). The model reuses the record `load_details` decoded. This is the same text through the same decoder, so the result is the same.
- calibre's `unescape` is taken as the identity.
- `Metadata(title, authors)`, `set_identifier` and `clean_downloaded_metadata` (worker.py:135-136, 167) are calibre code that is not part of this model. The record keeps the values as the worker computes them.
- Details.ExtractFields: the rating is kept as the meta's text. `float()` and its `ValueError` on non-numeric text are floating point and are not modelled; only `float(None)` failing is.
- Details.RatingText: does not model `float()` itself, for the same reason.
- Normalize.FormatDate: `int()` is modelled for ASCII digits with an optional sign and surrounding whitespace. Python also accepts non-ASCII decimal digits and `_` between digits. The time zone attached to the date is not modelled.
- Series.DetectSeries: `\s` and `\d` are the ASCII classes. Python 3's default Unicode classes also match other blanks and digits. The series index stays a whole number instead of becoming a float.
- Series.SeriesMatchesIff, Series.SeriesOfLastDigit and Series.SeriesShape: stated for titles without a newline. On other titles the search can start after a newline, and `\s*` can span one. Only `Series.DetectSeries` covers those titles.
- Genres.ConvertIgnoresCase: lower-casing (`Text.Lower`) folds the letters A to Z only. Python's `str.lower` also folds non-ASCII letters.
- Tags.KeywordTags: non-string keyword values are told apart only as lists (`AttributeError`) and everything else (`TypeError`).
- libs/requests/packages.py only aliases vendored modules and has no behaviour to model.
- The log calls are not modelled.
