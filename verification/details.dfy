/** `load_details` after the page is fetched: every field of the record is
    read in the order the worker reads it, the first failing step ends the
    extraction, the cache notifications go out once all fields are read,
    and only then are the tags and the series worked out.

    The page, the JSON decoder and the genre mapping are inputs; the cache
    notifications are returned as a list of events instead of being sent.
 */
module Details {
  import opened Wrappers
  import opened Text
  import opened Page
  import opened Normalize
  import opened Genres
  import opened Tags
  import opened Series

  /** The suffix written after every translator's name. */
  const TranslatorSuffix: string := "(역자)"

  /** The language every record carries. */
  const Language: string := "Korean"

  /** A notification sent to the plugin's cache. */
  datatype CacheEvent =
    | IsbnToIdentifier(isbn: string, id: string)
    | IdentifierToCoverUrl(id: string, coverUrl: string)

  /** The fields read before the cache is notified. */
  datatype Fields = Fields(
    id: string,
    isbn: Option<string>,
    coverUrl: Option<string>,
    title: Option<string>,
    authors: seq<string>,
    publisher: string,
    pubdate: Date,
    comments: string,
    rating: string,
    info: map<string, Json>)

  /** The record handed to the result queue. */
  datatype BookMetadata = BookMetadata(
    title: string,
    authors: seq<string>,
    ridibooksId: string,
    coverUrl: Option<string>,
    hasCover: bool,
    publisher: string,
    pubdate: Date,
    comments: string,
    rating: string,
    tags: Option<seq<string>>,
    series: Option<SeriesInfo>,
    language: string,
    relevance: int)

  /** What one run leaves behind: the cache notifications sent, and the
      record put on the queue or the exception that ended the run. */
  datatype Outcome = Outcome(events: seq<CacheEvent>, published: Result<BookMetadata>)

  /** Python truthiness of an optional text: present and not empty. */
  predicate Truthy(s: Option<string>) {
    s.Some? && |s.value| > 0
  }

  /** `json.loads`: a `ValueError` where the decoder rejects the text. */
  function Decode(decode: Decoder, text: string): (r: Result<Json>)
    ensures r.Ok? <==> decode(text).Some?
    ensures r.Ok? ==> r.value == decode(text).value
    ensures r.Err? ==> r.error == ValueError
  {
    match decode(text)
    case Some(v) => Ok(v)
    case None => Err(ValueError)
  }

  /** `info[key]['name']`, which must be text. */
  function NameText(info: Json, key: string): (r: Result<string>)
    ensures r.Ok? ==> && info.JObject? && key in info.fields
                      && info.fields[key].JObject? && "name" in info.fields[key].fields
                      && info.fields[key].fields["name"] == JString(r.value)
    ensures r.Err? ==> r.error == KeyError || r.error == TypeError
  {
    var v :- Field(info, key);
    var name :- Field(v, "name");
    AsText(name)
  }

  /** Each name with the translator suffix. */
  function Suffixed(names: seq<string>): (r: seq<string>)
    ensures |r| == |names|
    ensures forall i :: 0 <= i < |names| ==> r[i] == names[i] + TranslatorSuffix
  {
    seq(|names|, i requires 0 <= i < |names| => names[i] + TranslatorSuffix)
  }

  /** The authors, then the translators marked with the suffix when the
      record has a `translator` field. */
  function Authors(info: Json): (r: Result<seq<string>>)
    ensures r.Ok? ==> info.JObject?
    ensures r.Ok? <==> (&& NameText(info, "author").Ok?
                        && (HasField(info, "translator") ==> NameText(info, "translator").Ok?))
    ensures r.Ok? ==> var a := FormatList(NameText(info, "author").value);
                      && |a| <= |r.value|
                      && r.value[..|a|] == a
                      && (!HasField(info, "translator") ==> r.value == a)
                      && (HasField(info, "translator") ==>
                            r.value[|a|..] == Suffixed(FormatList(NameText(info, "translator").value)))
    ensures r.Err? ==> r.error == KeyError || r.error == TypeError
  {
    var author :- NameText(info, "author");
    var authors := FormatList(author);
    if HasField(info, "translator") then
      var translator :- NameText(info, "translator");
      Ok(authors + Suffixed(FormatList(translator)))
    else
      Ok(authors)
  }

  /** The author list holds at least one entry, and each entry after the
      authors is a stripped, comma-free translator name followed by the
      suffix. */
  lemma AuthorsMarked(info: Json)
    requires Authors(info).Ok?
    ensures var r := Authors(info).value;
            var n := |FormatList(NameText(info, "author").value)|;
            && n >= 1
            && forall i :: n <= i < |r| ==>
                 EndsWith(r[i], TranslatorSuffix)
                 && var name := r[i][..|r[i]| - |TranslatorSuffix|];
                    ',' !in name && IsStripped(name)
  {
    var a := FormatList(NameText(info, "author").value);
    FormatListCount(NameText(info, "author").value);
    var r := Authors(info).value;
    if HasField(info, "translator") {
      var ts := FormatList(NameText(info, "translator").value);
      assert r[|a|..] == Suffixed(ts);
      forall i | |a| <= i < |r|
        ensures EndsWith(r[i], TranslatorSuffix)
        ensures var name := r[i][..|r[i]| - |TranslatorSuffix|];
                ',' !in name && IsStripped(name)
      {
        MarkedEntry(r, |a|, ts, i);
      }
    }
  }

  /** An entry of the translator part of the list is a translator name
      with the suffix. */
  lemma MarkedEntry(r: seq<string>, n: nat, ts: seq<string>, i: nat)
    requires n <= i < |r| && r[n..] == Suffixed(ts)
    requires forall k :: 0 <= k < |ts| ==> ',' !in ts[k] && IsStripped(ts[k])
    ensures EndsWith(r[i], TranslatorSuffix)
    ensures var name := r[i][..|r[i]| - |TranslatorSuffix|];
            ',' !in name && IsStripped(name)
  {
    var t := ts[i - n];
    assert r[i] == r[n..][i - n];
    DropSuffix(t, TranslatorSuffix);
  }

  /** A suffix appended to a name is recognised and removed again. */
  lemma DropSuffix(x: string, suffix: string)
    ensures EndsWith(x + suffix, suffix)
    ensures (x + suffix)[..|x + suffix| - |suffix|] == x
  {
    assert (x + suffix)[|x|..] == suffix;
  }

  /** The meta content `float()` is applied to: `float(None)` raises a
      `TypeError`. */
  function RatingText(content: Option<string>): (r: Result<string>)
    ensures r.Ok? <==> content.Some?
    ensures r.Ok? ==> r.value == content.value
    ensures r.Err? ==> r.error == TypeError
  {
    match content
    case Some(t) => Ok(t)
    case None => Err(TypeError)
  }

  /** The meta property the rating is read from. */
  const RatingProperty: string := "books:rating:normalized_value"

  /** The decoded Book block: `None` when the page has no Book block or the
      decoder rejects the repaired text. */
  function DecodedBlock(page: BookPage, decode: Decoder): (v: Option<Json>)
    ensures v.Some? <==> SelectBookBlock(page.ldJson).Ok?
                         && decode(RepairEntities(SelectBookBlock(page.ldJson).value)).Some?
  {
    match SelectBookBlock(page.ldJson)
    case Ok(block) => decode(RepairEntities(block))
    case Err(_) => None
  }

  /** The fields read from the decoded Book record. */
  datatype RecordFields = RecordFields(authors: seq<string>, publisher: string, pubdate: Date, comments: string)

  /** The record fields `load_details` reads are present and well-formed:
      author (and translator, when there is one) names, the publisher's
      name, a date `_format_date` accepts, and a textual description. */
  predicate RecordReadable(info: Json) {
    && Authors(info).Ok?
    && NameText(info, "publisher").Ok?
    && HasField(info, "datePublished") && info.fields["datePublished"].JString?
    && FormatDate(info.fields["datePublished"].text).Ok?
    && HasField(info, "description") && info.fields["description"].JString?
  }

  /** The page holds everything read before the cache is notified: a
      decodable Book block whose record is readable, a `/books/` URL, and
      the ISBN, image, title and rating metas, the rating with content. */
  predicate PageReadable(url: string, page: BookPage, decode: Decoder) {
    var meta := SelectMeta(page.headMeta);
    && DecodedBlock(page, decode).Some?
    && Contains(url, BooksSegment)
    && FindMeta(meta, "books:isbn").Ok?
    && FindMeta(meta, "og:image").Ok?
    && FindMeta(meta, "og:title").Ok?
    && RecordReadable(DecodedBlock(page, decode).value)
    && FindMeta(meta, RatingProperty).Ok? && FindMeta(meta, RatingProperty).value.Some?
  }

  /** The names read from the decoded Book record: the authors (with the
      translators) and the publisher. */
  function ReadNames(info: Json): (r: Result<(seq<string>, string)>)
    ensures r.Ok? <==> Authors(info).Ok? && NameText(info, "publisher").Ok?
    ensures r.Err? ==> r.error == KeyError || r.error == TypeError
    ensures r.Ok? ==> && r.value.0 == Authors(info).value
                      && r.value.1 == FormatItem(NameText(info, "publisher").value)
  {
    var authors :- Authors(info);
    var publisher :- NameText(info, "publisher");
    Ok((authors, FormatItem(publisher)))
  }

  /** The publication date and the description read from the decoded Book
      record. */
  function ReadDated(info: Json): (r: Result<(Date, string)>)
    ensures r.Ok? <==> && HasField(info, "datePublished") && info.fields["datePublished"].JString?
                       && FormatDate(info.fields["datePublished"].text).Ok?
                       && HasField(info, "description") && info.fields["description"].JString?
    ensures r.Err? ==> r.error in {KeyError, TypeError, ValueError, OverflowError}
    ensures r.Ok? ==> && FormatDate(info.fields["datePublished"].text) == Ok(r.value.0)
                      && r.value.1 == FormatItem(info.fields["description"].text)
  {
    var dateValue :- Field(info, "datePublished");
    var dateText :- AsText(dateValue);
    var pubdate :- FormatDate(dateText);
    var description :- Field(info, "description");
    var comments :- AsText(description);
    Ok((pubdate, FormatItem(comments)))
  }

  /** The reads from the decoded Book record, in the worker's order:
      authors, publisher, date, description. They succeed exactly when the
      record is readable; a failure is a missing key, a value of the wrong
      kind, or a date `_format_date` rejects. */
  function ReadRecord(info: Json): (r: Result<RecordFields>)
    ensures r.Ok? <==> RecordReadable(info)
    ensures r.Err? ==> r.error in {KeyError, TypeError, ValueError, OverflowError}
    ensures r.Ok? ==> && info.JObject?
                      && Authors(info) == Ok(r.value.authors)
                      && r.value.publisher == FormatItem(NameText(info, "publisher").value)
                      && FormatDate(info.fields["datePublished"].text) == Ok(r.value.pubdate)
                      && r.value.comments == FormatItem(info.fields["description"].text)
  {
    var names :- ReadNames(info);
    var dated :- ReadDated(info);
    Ok(RecordFields(names.0, names.1, dated.0, dated.1))
  }

  /** Every field, read in the worker's order; the first failing step
      decides the error. */
  function ExtractFields(url: string, page: BookPage, decode: Decoder): (r: Result<Fields>)
    ensures r.Ok? ==> && SelectBookBlock(page.ldJson).Ok?
                      && BookId(url) == Ok(r.value.id)
                      && FindMeta(SelectMeta(page.headMeta), "og:title") == Ok(r.value.title)
                      && FindMeta(SelectMeta(page.headMeta), "books:isbn") == Ok(r.value.isbn)
                      && FindMeta(SelectMeta(page.headMeta), "og:image") == Ok(r.value.coverUrl)
    ensures r.Ok? ==> var info := JObject(r.value.info);
                      && Authors(info) == Ok(r.value.authors)
                      && NameText(info, "publisher").Ok?
                      && r.value.publisher == FormatItem(NameText(info, "publisher").value)
                      && "datePublished" in r.value.info && r.value.info["datePublished"].JString?
                      && FormatDate(r.value.info["datePublished"].text) == Ok(r.value.pubdate)
                      && "description" in r.value.info && r.value.info["description"].JString?
                      && r.value.comments == FormatItem(r.value.info["description"].text)
    ensures r.Ok? ==> FindMeta(SelectMeta(page.headMeta), RatingProperty)
                      == Ok(Some(r.value.rating))
    ensures r.Ok? ==> decode(RepairEntities(SelectBookBlock(page.ldJson).value)) == Some(JObject(r.value.info))
    ensures r.Ok? <==> PageReadable(url, page, decode)
    ensures && DecodedBlock(page, decode).Some? && Contains(url, BooksSegment)
            && (|| FindMeta(SelectMeta(page.headMeta), "books:isbn").Err?
                || FindMeta(SelectMeta(page.headMeta), "og:image").Err?
                || FindMeta(SelectMeta(page.headMeta), "og:title").Err?)
            ==> r == Err(IndexError)
    ensures && DecodedBlock(page, decode).Some? && Contains(url, BooksSegment)
            && FindMeta(SelectMeta(page.headMeta), "books:isbn").Ok?
            && FindMeta(SelectMeta(page.headMeta), "og:image").Ok?
            && FindMeta(SelectMeta(page.headMeta), "og:title").Ok?
            ==> if !RecordReadable(DecodedBlock(page, decode).value) then
                  r.Err? && r.error in {KeyError, TypeError, ValueError, OverflowError}
                else if FindMeta(SelectMeta(page.headMeta), RatingProperty).Err? then
                  r == Err(IndexError)
                else if FindMeta(SelectMeta(page.headMeta), RatingProperty).value.None? then
                  r == Err(TypeError)
                else r.Ok?
    ensures SelectBookBlock(page.ldJson).Err? ==> r == Err(IndexError)
    ensures (SelectBookBlock(page.ldJson).Ok? && decode(RepairEntities(SelectBookBlock(page.ldJson).value)).None?)
            ==> r == Err(ValueError)
    ensures (&& !Contains(url, BooksSegment) && SelectBookBlock(page.ldJson).Ok?
             && decode(RepairEntities(SelectBookBlock(page.ldJson).value)).Some?)
            ==> r == Err(IndexError)
  {
    var meta := SelectMeta(page.headMeta);
    var block :- SelectBookBlock(page.ldJson);
    var info :- Decode(decode, RepairEntities(block));
    var id :- BookId(url);
    var isbn :- FindMeta(meta, "books:isbn");
    var coverUrl :- FindMeta(meta, "og:image");
    var title :- FindMeta(meta, "og:title");
    var record :- ReadRecord(info);
    var ratingMeta :- FindMeta(meta, RatingProperty);
    var rating :- RatingText(ratingMeta);
    Ok(Fields(id, isbn, coverUrl, title, record.authors, record.publisher, record.pubdate,
              record.comments, rating, info.fields))
  }

  /** The cache notifications: the ISBN, then the cover URL, each only when
      both it and the id are non-empty. */
  function CacheEvents(id: string, isbn: Option<string>, coverUrl: Option<string>): (r: seq<CacheEvent>)
    ensures IsbnToIdentifier(if isbn.Some? then isbn.value else "", id) in r
            <==> |id| > 0 && Truthy(isbn)
    ensures IdentifierToCoverUrl(id, if coverUrl.Some? then coverUrl.value else "") in r
            <==> |id| > 0 && Truthy(coverUrl)
    ensures |r| == (if |id| > 0 then (if Truthy(isbn) then 1 else 0) + (if Truthy(coverUrl) then 1 else 0) else 0)
    ensures forall i :: 0 <= i < |r| ==> r[i].id == id
    ensures |r| == 2 ==> r[0].IsbnToIdentifier? && r[1].IdentifierToCoverUrl?
  {
    if |id| == 0 then []
    else
      (if Truthy(isbn) then [IsbnToIdentifier(isbn.value, id)] else [])
      + (if Truthy(coverUrl) then [IdentifierToCoverUrl(id, coverUrl.value)] else [])
  }

  /** The record assembled from the fields, the tags and the title. */
  function Assemble(f: Fields, title: string, tags: Option<seq<string>>, relevance: int): BookMetadata {
    BookMetadata(title, f.authors, f.id, f.coverUrl, Truthy(f.coverUrl), f.publisher, f.pubdate,
                 f.comments, f.rating, tags, DetectSeries(title), Language, relevance)
  }

  /** `load_details` from the fetched page on: the record is published only
      when every step succeeds; the cache is notified once all fields are
      read, even when the tags or the series check fail afterwards. */
  function LoadDetails(url: string, page: BookPage, decode: Decoder,
                       mapping: seq<(string, seq<string>)>, relevance: int): (o: Outcome)
    ensures ExtractFields(url, page, decode).Err? ==>
              o == Outcome([], Err(ExtractFields(url, page, decode).error))
    ensures ExtractFields(url, page, decode).Ok? ==>
              var f := ExtractFields(url, page, decode).value;
              o.events == CacheEvents(f.id, f.isbn, f.coverUrl)
    ensures o.published.Ok? ==>
              var f := ExtractFields(url, page, decode).value;
              var b := o.published.value;
              && ExtractFields(url, page, decode).Ok?
              && f.title == Some(b.title)
              && ParseTags(f.info, page.genreContainers, mapping) == Ok(b.tags)
              && b.series == DetectSeries(b.title)
              && b.ridibooksId == BookId(url).value
              && b.authors == f.authors
              && b.publisher == f.publisher
              && b.pubdate == f.pubdate
              && b.comments == f.comments
              && b.rating == f.rating
              && b.coverUrl == f.coverUrl
              && (b.hasCover <==> Truthy(b.coverUrl))
              && b.language == Language
              && b.relevance == relevance
    ensures ExtractFields(url, page, decode).Ok? ==>
              var f := ExtractFields(url, page, decode).value;
              var tags := ParseTags(f.info, page.genreContainers, mapping);
              && (tags.Err? ==> o.published == Err(tags.error))
              && (tags.Ok? && f.title.None? ==> o.published == Err(AttributeError))
              && (o.published.Ok? <==> tags.Ok? && f.title.Some?)
  {
    match ExtractFields(url, page, decode)
    case Err(e) => Outcome([], Err(e))
    case Ok(f) =>
      var events := CacheEvents(f.id, f.isbn, f.coverUrl);
      match ParseTags(f.info, page.genreContainers, mapping)
      case Err(e) => Outcome(events, Err(e))
      case Ok(tags) =>
        match f.title
        case None => Outcome(events, Err(AttributeError))
        case Some(title) => Outcome(events, Ok(Assemble(f, title, tags, relevance)))
  }

  /** A page without the Book block yields nothing at all. */
  lemma NoBookBlockNoOutcome(url: string, page: BookPage, decode: Decoder,
                             mapping: seq<(string, seq<string>)>, relevance: int)
    requires forall i :: 0 <= i < |page.ldJson| ==> !Contains(page.ldJson[i], BookMarker)
    ensures LoadDetails(url, page, decode, mapping, relevance) == Outcome([], Err(IndexError))
  {
  }

  /** A page whose title meta has no `content` still notifies the cache,
      then fails when the title is checked for the volume marker. */
  lemma MissingTitleAfterEvents(url: string, page: BookPage, decode: Decoder,
                                mapping: seq<(string, seq<string>)>, relevance: int)
    requires ExtractFields(url, page, decode).Ok?
    requires ExtractFields(url, page, decode).value.title.None?
    ensures var o := LoadDetails(url, page, decode, mapping, relevance);
            var f := ExtractFields(url, page, decode).value;
            && o.events == CacheEvents(f.id, f.isbn, f.coverUrl)
            && (ParseTags(f.info, page.genreContainers, mapping).Ok? ==> o.published == Err(AttributeError))
            && o.published.Err?
  {
  }

  /** Without a `/books/` segment in the URL nothing is published and the
      cache hears nothing, once the Book block has been found and decoded. */
  lemma NoBookIdNoOutcome(url: string, page: BookPage, decode: Decoder,
                          mapping: seq<(string, seq<string>)>, relevance: int)
    requires !Contains(url, BooksSegment)
    requires SelectBookBlock(page.ldJson).Ok?
    requires decode(RepairEntities(SelectBookBlock(page.ldJson).value)).Some?
    ensures LoadDetails(url, page, decode, mapping, relevance) == Outcome([], Err(IndexError))
  {
  }
}
