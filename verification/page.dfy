/** The parsed book page as the worker sees it through its xpath queries,
    and the JSON values `json.loads` hands back.  The HTML parser and the
    JSON decoder themselves are outside the model: the page is given as the
    lists the queries return, and decoding is a caller-supplied function.
 */
module Page {
  import opened Wrappers

  /** A `<meta>` element of the page head: its `property` attribute (the
      empty string when absent) and its `content` attribute (`None` when
      absent, which is what `get('content')` returns). */
  datatype MetaTag = MetaTag(property: string, content: Option<string>)

  /** One `p.info_category_wrap` genre breadcrumb: the text of its first
      link (`None` when it has no link, so that `a[1]` selects nothing), and
      the raw texts of the links that follow its arrow icons, in document
      order. */
  datatype GenreContainer = GenreContainer(firstLink: Option<string>, subGenres: seq<string>)

  /** What the worker's queries return for one book page: every head
      `<meta>`, the bodies of the head `application/ld+json` scripts, and the
      genre breadcrumbs, each in document order. */
  datatype BookPage = BookPage(
    headMeta: seq<MetaTag>,
    ldJson: seq<string>,
    genreContainers: seq<GenreContainer>)

  /** A decoded JSON value, reduced to the kinds the worker tells apart:
      strings, objects, lists, and everything else (numbers, booleans,
      `null`). */
  datatype Json =
    | JString(text: string)
    | JObject(fields: map<string, Json>)
    | JList(items: seq<Json>)
    | JOther

  /** The decoder `json.loads` stands for: `None` where it raises. */
  type Decoder = string -> Option<Json>

  /** `value[key]`: a `KeyError` for a missing key, a `TypeError` when the
      value is not an object. */
  function Field(value: Json, key: string): (r: Result<Json>)
    ensures r.Ok? <==> value.JObject? && key in value.fields
    ensures r.Ok? ==> r.value == value.fields[key]
    ensures r.Err? ==> r.error == (if value.JObject? then KeyError else TypeError)
  {
    match value
    case JObject(fields) => if key in fields then Ok(fields[key]) else Err(KeyError)
    case _ => Err(TypeError)
  }

  /** `key in value` for the decoded book record. */
  predicate HasField(value: Json, key: string) {
    value.JObject? && key in value.fields
  }

  /** A JSON value used where the worker needs text: only a JSON string
      passes; anything else fails once a string method or slice is applied. */
  function AsText(value: Json): (r: Result<string>)
    ensures r.Ok? <==> value.JString?
    ensures r.Ok? ==> r.value == value.text
    ensures r.Err? ==> r.error == TypeError
  {
    match value
    case JString(t) => Ok(t)
    case _ => Err(TypeError)
  }
}
