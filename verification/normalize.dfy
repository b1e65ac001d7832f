/** Field extraction and text normalisation of the worker's `load_details`:
    the nested helpers `_format_item`, `_format_list`, `_find_meta` and
    `_format_date`, the selection and entity repair of the ld+json block,
    and the book id taken from the page URL.

    `unescape` (HTML-entity decoding applied by `_format_item`) is taken as
    the identity.
 */
module Normalize {
  import opened Wrappers
  import opened Text
  import opened Page

  // ---------------------------------------------------------------------
  // _format_item: re.sub('^"(.*)"$', '\\1', s)
  // ---------------------------------------------------------------------

  /** Where the pattern's `$` can close the match: the end of `s`, or just
      before a final newline (Python's `$` matches there as well). */
  function QuoteEnd(s: string): (e: nat)
    ensures e <= |s|
  {
    if |s| > 0 && s[|s| - 1] == '\n' then |s| - 1 else |s|
  }

  /** `^"(.*)"$` matches `s`: an opening quote, a closing quote right before
      `$`, and only non-newline characters between them (`.` does not
      match a newline). */
  predicate IsQuoted(s: string) {
    var e := QuoteEnd(s);
    e >= 2 && s[0] == '"' && s[e - 1] == '"' && '\n' !in s[1..e - 1]
  }

  /** `_format_item`: removes one enclosing pair of double quotes. */
  function FormatItem(s: string): (r: string)
    ensures IsQuoted(s) ==>
              |r| == |s| - 2 && s == ['"'] + r[..QuoteEnd(s) - 2] + ['"'] + r[QuoteEnd(s) - 2..]
    ensures !IsQuoted(s) ==> r == s
  {
    if IsQuoted(s) then s[1..QuoteEnd(s) - 1] + s[QuoteEnd(s)..] else s
  }

  /** Quoting a one-line text and formatting it gives the text back, whatever
      quotes the text itself holds: exactly one pair is removed. */
  lemma FormatItemUnquotes(x: string)
    requires '\n' !in x
    ensures FormatItem(['"'] + x + ['"']) == x
  {
    var s := ['"'] + x + ['"'];
    assert QuoteEnd(s) == |s|;
    assert s[1..|s| - 1] == x;
    assert IsQuoted(s);
  }

  /** Text that does not open with a double quote is left alone. */
  lemma FormatItemKeepsUnquoted(s: string)
    requires |s| == 0 || s[0] != '"'
    ensures FormatItem(s) == s
  {
  }

  // ---------------------------------------------------------------------
  // _format_list: [x.strip() for x in _format_item(s).split(',')]
  // ---------------------------------------------------------------------

  /** `strip()` only removes characters. */
  lemma StripKeepsOut(s: string, c: char)
    requires c !in s
    ensures c !in Strip(s)
  {
    var r := Strip(s);
    var a := StripStart(s);
    forall k | 0 <= k < |r|
      ensures r[k] != c
    {
      assert r[k] == s[a + k];
    }
  }

  /** `_format_list`: the comma-separated items, each stripped. */
  function FormatList(s: string): (r: seq<string>)
    ensures forall i :: 0 <= i < |r| ==> ',' !in r[i] && IsStripped(r[i])
  {
    var parts := Split(FormatItem(s), ",");
    assert forall i :: 0 <= i < |parts| ==> ',' !in Strip(parts[i]) by {
      forall i | 0 <= i < |parts|
        ensures ',' !in Strip(parts[i])
      {
        NoCharMeansNoOccurrence(parts[i], ',');
        StripKeepsOut(parts[i], ',');
      }
    }
    StripAll(parts)
  }

  /** One item more than the unquoted text has commas. */
  lemma FormatListCount(s: string)
    ensures |FormatList(s)| == multiset(FormatItem(s))[','] + 1
  {
    SplitCharCount(FormatItem(s), ',');
  }

  /** Every item but the first, with the blank that `", "` leaves before it. */
  function Indented(ps: seq<string>): (r: seq<string>)
    ensures |r| == |ps|
    ensures forall i :: 0 <= i < |ps| ==> r[i] == " " + ps[i]
  {
    seq(|ps|, i requires 0 <= i < |ps| => " " + ps[i])
  }

  lemma CommaSpace(a: string, rest: string)
    ensures a + ", " + rest == a + "," + (" " + rest)
  {
  }

  lemma {:induction false} JoinSpaced(ps: seq<string>)
    requires |ps| >= 1
    ensures " " + Join(ps, ", ") == Join(Indented(ps), ",")
    decreases |ps|
  {
    if |ps| > 1 {
      var rest := Join(ps[1..], ", ");
      JoinSpaced(ps[1..]);
      assert Indented(ps)[1..] == Indented(ps[1..]);
      JoinCons(Indented(ps), ",");
      JoinCons(ps, ", ");
      CommaSpace(" " + ps[0], rest);
      assert " " + (ps[0] + ", " + rest) == (" " + ps[0]) + ", " + rest;
    }
  }

  /** `_format_list` inverts writing the items out separated by `", "`, for
      stripped items free of commas and double quotes. */
  lemma FormatListJoin(ps: seq<string>)
    requires |ps| >= 1
    requires forall i :: 0 <= i < |ps| ==> IsStripped(ps[i]) && ',' !in ps[i] && '"' !in ps[i]
    ensures FormatList(Join(ps, ", ")) == ps
  {
    var qs := [ps[0]] + Indented(ps[1..]);
    JoinLacksChar(ps, ", ", '"');
    CommaPieces(ps);
    StripIndented(ps);
    FormatListOfPieces(Join(ps, ", "), qs, ps);
  }

  /** The comma pieces of items written out with `", "`: the first item,
      then every other one with its leading blank. */
  lemma CommaPieces(ps: seq<string>)
    requires |ps| >= 1
    requires forall i :: 0 <= i < |ps| ==> ',' !in ps[i]
    ensures Split(Join(ps, ", "), ",") == [ps[0]] + Indented(ps[1..])
  {
    var qs := [ps[0]] + Indented(ps[1..]);
    JoinIndented(ps);
    IndentedLacksComma(ps);
    SplitJoin(qs, ",");
  }

  /** `_format_list` on quote-free text whose comma pieces are known. */
  lemma FormatListOfPieces(s: string, qs: seq<string>, ps: seq<string>)
    requires '"' !in s
    requires Split(s, ",") == qs
    requires StripAll(qs) == ps
    ensures FormatList(s) == ps
  {
    if |s| > 0 {
      assert s[0] in s;
    }
    FormatItemKeepsUnquoted(s);
    FormatListStrips(s);
  }

  lemma FormatListStrips(s: string)
    ensures FormatList(s) == StripAll(Split(FormatItem(s), ","))
  {
  }

  lemma JoinIndented(ps: seq<string>)
    requires |ps| >= 1
    ensures Join(ps, ", ") == Join([ps[0]] + Indented(ps[1..]), ",")
  {
    var qs := [ps[0]] + Indented(ps[1..]);
    if |ps| > 1 {
      var rest := Join(ps[1..], ", ");
      JoinSpaced(ps[1..]);
      assert qs[1..] == Indented(ps[1..]);
      JoinCons(qs, ",");
      JoinCons(ps, ", ");
      CommaSpace(ps[0], rest);
    } else {
      assert qs == ps;
    }
  }

  lemma IndentedLacksComma(ps: seq<string>)
    requires |ps| >= 1
    requires forall i :: 0 <= i < |ps| ==> ',' !in ps[i]
    ensures forall i :: 0 <= i < |ps| ==> ',' !in ([ps[0]] + Indented(ps[1..]))[i]
  {
    var qs := [ps[0]] + Indented(ps[1..]);
    forall i | 0 <= i < |ps|
      ensures ',' !in qs[i]
    {
      if i > 0 {
        assert qs[i] == [' '] + ps[i];
      }
    }
  }

  lemma StripIndented(ps: seq<string>)
    requires |ps| >= 1
    requires forall i :: 0 <= i < |ps| ==> IsStripped(ps[i])
    ensures StripAll([ps[0]] + Indented(ps[1..])) == ps
  {
    var qs := [ps[0]] + Indented(ps[1..]);
    var r := StripAll(qs);
    forall i | 0 <= i < |ps|
      ensures r[i] == ps[i]
    {
      if i == 0 {
        StripStripped(ps[0]);
      } else {
        assert qs[i] == " " + ps[i];
        StripBlankItem(ps[i]);
      }
    }
  }

  /** The list `"a, b, c"` (quoted as the JSON text holds it) yields the
      three names, unquoted and stripped. */
  lemma FormatListExample()
    ensures FormatList("\"a, b, c\"") == ["a", "b", "c"]
  {
    var inner := "a, b, c";
    ExampleItems();
    FormatListJoin(["a", "b", "c"]);
    ExampleUnquoted();
    FormatListStrips("\"a, b, c\"");
    FormatListStrips(inner);
  }

  lemma ExampleItems()
    ensures Join(["a", "b", "c"], ", ") == "a, b, c"
    ensures var ps := ["a", "b", "c"];
            forall i :: 0 <= i < |ps| ==> IsStripped(ps[i]) && ',' !in ps[i] && '"' !in ps[i]
  {
  }

  lemma ExampleUnquoted()
    ensures FormatItem("\"a, b, c\"") == FormatItem("a, b, c")
  {
    var inner := "a, b, c";
    assert "\"a, b, c\"" == ['"'] + inner + ['"'];
    FormatItemUnquotes(inner);
    FormatItemKeepsUnquoted(inner);
  }

  // ---------------------------------------------------------------------
  // _find_meta and the head <meta> query
  // ---------------------------------------------------------------------

  /** The head `<meta>` query keeps elements whose `property` starts with
      `og` or `books`. */
  predicate IsSourceMeta(t: MetaTag) {
    StartsWith(t.property, "og") || StartsWith(t.property, "books")
  }

  function SelectMeta(head: seq<MetaTag>): seq<MetaTag> {
    Filter(head, IsSourceMeta)
  }

  /** `_find_meta`: the `content` of the first tag with the given
      `property`; `IndexError` when there is none. */
  function FindMeta(meta: seq<MetaTag>, property: string): (r: Result<Option<string>>)
    ensures r.Ok? <==> exists i :: 0 <= i < |meta| && meta[i].property == property
    ensures r.Ok? ==> exists i :: 0 <= i < |meta| && meta[i].property == property
                                && meta[i].content == r.value
                                && forall j :: 0 <= j < i ==> meta[j].property != property
    ensures r.Err? ==> r.error == IndexError
  {
    match FirstWhere(meta, (t: MetaTag) => t.property == property)
    case None => Err(IndexError)
    case Some(i) => Ok(meta[i].content)
  }

  /** The `og`/`books` filter never hides a tag the worker asks for: on those
      properties it finds what a search of the whole head finds. */
  lemma FindMetaSelected(head: seq<MetaTag>, property: string)
    requires StartsWith(property, "og") || StartsWith(property, "books")
    ensures FindMeta(SelectMeta(head), property) == FindMeta(head, property)
  {
    var p := (t: MetaTag) => t.property == property;
    assert forall t :: p(t) ==> IsSourceMeta(t);
    FirstWhereFilter(head, IsSourceMeta, p);
  }

  // ---------------------------------------------------------------------
  // The ld+json Book block
  // ---------------------------------------------------------------------

  /** The literal that marks the structured Book record. */
  const BookMarker: string := "\"@type\": \"Book\""

  /** The first ld+json body holding the Book marker; `IndexError` when
      none does. */
  function SelectBookBlock(scripts: seq<string>): (r: Result<string>)
    ensures r.Ok? <==> exists i :: 0 <= i < |scripts| && Contains(scripts[i], BookMarker)
    ensures r.Ok? ==> exists i :: 0 <= i < |scripts| && scripts[i] == r.value
                                && Contains(scripts[i], BookMarker)
                                && forall j :: 0 <= j < i ==> !Contains(scripts[j], BookMarker)
    ensures r.Err? ==> r.error == IndexError
  {
    match FirstWhere(scripts, (t: string) => Contains(t, BookMarker))
    case None => Err(IndexError)
    case Some(i) => Ok(scripts[i])
  }

  /** The four `replace` calls applied to the block before decoding. */
  function RepairEntities(ld: string): string {
    var a := Replace(ld, "&lt;", "<");
    var b := Replace(a, "&gt;", ">");
    var c := Replace(b, "\\&quot;", "\\\"");
    Replace(c, "&quot;", "\\\"")
  }

  /** After the repair no `&lt;`, `&gt;` or `&quot;` entity is left. */
  lemma RepairRemovesEntities(ld: string)
    ensures var r := RepairEntities(ld);
            !Contains(r, "&lt;") && !Contains(r, "&gt;") && !Contains(r, "&quot;")
  {
    var a := Replace(ld, "&lt;", "<");
    ReplaceRemoves(ld, "&lt;", "<");
    var b := Replace(a, "&gt;", ">");
    ReplaceRemoves(a, "&gt;", ">");
    ReplaceKeepsAbsent(a, "&gt;", ">", "&lt;");
    var c := Replace(b, "\\&quot;", "\\\"");
    ReplaceKeepsAbsent(b, "\\&quot;", "\\\"", "&lt;");
    ReplaceKeepsAbsent(b, "\\&quot;", "\\\"", "&gt;");
    ReplaceRemoves(c, "&quot;", "\\\"");
    ReplaceKeepsAbsent(c, "&quot;", "\\\"", "&lt;");
    ReplaceKeepsAbsent(c, "&quot;", "\\\"", "&gt;");
  }

  /** Text without an ampersand passes the repair unchanged. */
  lemma RepairKeepsPlainText(ld: string)
    requires '&' !in ld
    ensures RepairEntities(ld) == ld
  {
    ReplaceMissingChar(ld, "&lt;", 0, "<");
    ReplaceMissingChar(ld, "&gt;", 0, ">");
    ReplaceMissingChar(ld, "\\&quot;", 1, "\\\"");
    ReplaceMissingChar(ld, "&quot;", 0, "\\\"");
  }

  /** An entity-encoded quote already preceded by a backslash becomes one
      escaped quote, not a doubled backslash: the third replacement runs
      before the fourth. */
  lemma RepairEscapedQuote()
    ensures RepairEntities("\\&quot;") == "\\\""
  {
    var s := "\\&quot;";
    var c := "\\\"";
    ReplaceMissingChar(s, "&lt;", 1, "<");
    ReplaceMissingChar(s, "&gt;", 1, ">");
    ReplaceWhole(s, c);
    ReplaceMissingChar(c, "&quot;", 0, c);
  }

  // ---------------------------------------------------------------------
  // The book id: url.split("/books/")[1].split("?_")[0]
  // ---------------------------------------------------------------------

  const BooksSegment: string := "/books/"
  const QueryMarker: string := "?_"

  /** The first piece of `s.split(sep)` opens `s`, and what follows it is
      either nothing or the separator. */
  lemma SplitFirst(s: string, sep: string)
    requires |sep| > 0
    ensures var parts := Split(s, sep);
            StartsWith(s, parts[0])
            && (|parts| == 1 ==> s == parts[0])
            && (|parts| > 1 ==> StartsWith(s[|parts[0]|..], sep))
            && (forall j :: 0 <= j < |parts[0]| ==> !OccursAt(s, sep, j))
  {
    match Find(s, sep)
    case None =>
      assert Split(s, sep) == [s];
    case Some(k) =>
      SplitCut(s, sep, k);
      assert s[k..][..|sep|] == s[k..k + |sep|];
  }

  /** The book id: the URL text after the first `/books/`, up to the next
      `/books/` or `?_`; `IndexError` when the URL has no `/books/`. */
  function BookId(url: string): (r: Result<string>)
    ensures r.Ok? <==> Contains(url, BooksSegment)
    ensures r.Err? ==> r.error == IndexError
    ensures r.Ok? ==> !Contains(r.value, BooksSegment) && !Contains(r.value, QueryMarker)
  {
    var x := Split(url, BooksSegment);
    FindContains(url, BooksSegment);
    if |x| < 2 then Err(IndexError)
    else
      var y := Split(x[1], QueryMarker);
      assert x[1] == Join(y, QueryMarker);
      assert !Contains(y[0], BooksSegment) by {
        if Contains(y[0], BooksSegment) {
          ContainsInJoin(y, QueryMarker, BooksSegment, 0);
        }
      }
      Ok(y[0])
  }

  /** Where the id sits in the URL: right after the first `/books/`, and
      followed by nothing, by `?_` or by another `/books/`. */
  lemma BookIdPosition(url: string)
    requires Contains(url, BooksSegment)
    ensures var k := Find(url, BooksSegment);
            var id := BookId(url).value;
            && k.Some?
            && StartsWith(url[k.value + |BooksSegment|..], id)
            && var after := url[k.value + |BooksSegment| + |id|..];
               (after == [] || StartsWith(after, QueryMarker) || StartsWith(after, BooksSegment))
    ensures var k := Find(url, BooksSegment).value;
            var rest := url[k + |BooksSegment|..];
            forall j :: 0 <= j < |BookId(url).value| ==>
              !OccursAt(rest, QueryMarker, j) && !OccursAt(rest, BooksSegment, j)
  {
    FindContains(url, BooksSegment);
    var k := Find(url, BooksSegment).value;
    var rest := url[k + |BooksSegment|..];
    var x1 := Split(rest, BooksSegment)[0];
    var id := BookId(url).value;
    assert id == Split(x1, QueryMarker)[0] by {
      SplitCut(url, BooksSegment, k);
    }
    SplitFirst(rest, BooksSegment);
    SplitFirst(x1, QueryMarker);
    assert url[k + |BooksSegment| + |id|..] == rest[|id|..];
    PieceFollowers(rest, x1, id);
    forall j | 0 <= j < |id|
      ensures !OccursAt(rest, QueryMarker, j) && !OccursAt(rest, BooksSegment, j)
    {
      IdHasNoCut(rest, x1, id, j);
    }
  }

  /** No separator starts inside the id: the id runs up to the nearest one. */
  lemma IdHasNoCut(rest: string, x1: string, id: string, j: nat)
    requires StartsWith(rest, x1) && StartsWith(x1, id)
    requires rest == x1 || StartsWith(rest[|x1|..], BooksSegment)
    requires forall i :: 0 <= i < |x1| ==> !OccursAt(rest, BooksSegment, i)
    requires forall i :: 0 <= i < |id| ==> !OccursAt(x1, QueryMarker, i)
    requires j < |id|
    ensures !OccursAt(rest, BooksSegment, j) && !OccursAt(rest, QueryMarker, j)
  {
    assert rest[..|x1|] == x1;
    if j + |QueryMarker| <= |x1| {
      assert forall t :: j <= t < j + |QueryMarker| ==> rest[t] == x1[t] by {
        forall t | j <= t < j + |QueryMarker| ensures rest[t] == x1[t] {
          assert rest[..|x1|][t] == rest[t];
        }
      }
      assert rest[j..j + |QueryMarker|] == x1[j..j + |QueryMarker|];
      assert !OccursAt(x1, QueryMarker, j);
    } else if j + |QueryMarker| <= |rest| {
      assert rest[|x1|..][..|BooksSegment|] == BooksSegment;
      assert rest[j + 1] == BooksSegment[0] == '/';
      assert QueryMarker[1] == '_';
    }
  }

  /** The text after the id within the remainder of the URL. */
  lemma PieceFollowers(rest: string, x1: string, id: string)
    requires StartsWith(rest, x1) && StartsWith(x1, id)
    requires rest == x1 || StartsWith(rest[|x1|..], BooksSegment)
    requires x1 == id || StartsWith(x1[|id|..], QueryMarker)
    ensures StartsWith(rest, id)
    ensures var after := rest[|id|..];
            after == [] || StartsWith(after, QueryMarker) || StartsWith(after, BooksSegment)
  {
    assert rest[..|id|] == x1[..|x1|][..|id|];
    if x1 == id {
      assert rest[|id|..] == rest[|x1|..];
    } else {
      assert rest[|id|..][..|QueryMarker|] == x1[|id|..][..|QueryMarker|];
    }
  }

  /** The first piece of a split where the first separator sits at `k`. */
  lemma SplitAtFirst(s: string, sep: string, k: nat)
    requires |sep| > 0
    requires OccursAt(s, sep, k)
    requires forall j :: 0 <= j < k ==> !OccursAt(s, sep, j)
    ensures Find(s, sep) == Some(k)
    ensures Split(s, sep) == [s[..k]] + Split(s[k + |sep|..], sep)
  {
  }

  /** The first `/books/` of a URL sits right after a host part in which it
      does not already begin. */
  lemma BooksAfterHost(host: string, rest: string)
    requires !Contains(host + "/books", BooksSegment)
    ensures Split(host + BooksSegment + rest, BooksSegment)[1..] == Split(rest, BooksSegment)
  {
    var url := host + BooksSegment + rest;
    var k := |host|;
    assert url[k..k + |BooksSegment|] == BooksSegment;
    var h := host + "/books";
    assert url[..k + 6] == h;
    forall j | 0 <= j < k
      ensures !OccursAt(url, BooksSegment, j)
    {
      if OccursAt(url, BooksSegment, j) {
        assert h[j..j + 7] == url[..k + 6][j..j + 7];
        assert OccursAt(h, BooksSegment, j);
      }
    }
    SplitAtFirst(url, BooksSegment, k);
    assert url[k + |BooksSegment|..] == rest;
  }

  /** The piece before the next `/books/` keeps the id and the `?_` after
      it, when the id has no `/`. */
  lemma IdBeforeNextBooks(id: string, query: string)
    requires '/' !in id
    ensures StartsWith(Split(id + QueryMarker + query, BooksSegment)[0], id + QueryMarker)
  {
    var rest := id + QueryMarker + query;
    var x1 := Split(rest, BooksSegment)[0];
    SplitFirst(rest, BooksSegment);
    var m := |id|;
    assert forall p :: 0 <= p < m + 2 ==> rest[p] != '/' by {
      forall p | 0 <= p < m + 2
        ensures rest[p] != '/'
      {
        if p < m {
          assert rest[p] == id[p];
        }
      }
    }
    if x1 != rest {
      assert rest[|x1|..][0] == '/';
    }
    assert x1[..m + 2] == rest[..m + 2];
  }

  /** Splitting at `?_` stops right after an id that has no `?`. */
  lemma IdBeforeQuery(id: string, x: string)
    requires '?' !in id
    requires StartsWith(x, id + QueryMarker)
    ensures Split(x, QueryMarker)[0] == id
  {
    var m := |id|;
    assert x[m..m + 2] == QueryMarker;
    forall j | 0 <= j < m
      ensures !OccursAt(x, QueryMarker, j)
    {
      assert x[j] == id[j];
    }
    SplitAtFirst(x, QueryMarker, m);
    assert x[..m] == id;
  }

  /** A link written as a host part, `/books/`, the id, `?_` and a query
      yields that id, whatever the query holds, as long as the id has no
      `/` or `?` and `/books/` does not already begin in the host part. */
  lemma BookIdOf(host: string, id: string, query: string)
    requires !Contains(host + "/books", BooksSegment)
    requires '/' !in id && '?' !in id
    ensures BookId(host + BooksSegment + id + QueryMarker + query) == Ok(id)
  {
    var rest := id + QueryMarker + query;
    assert host + BooksSegment + id + QueryMarker + query == host + BooksSegment + rest;
    BooksAfterHost(host, rest);
    IdBeforeNextBooks(id, query);
    IdBeforeQuery(id, Split(rest, BooksSegment)[0]);
  }

  // ---------------------------------------------------------------------
  // _format_date: datetime(int(t[0:4]), int(t[4:6]), int(t[6:]))
  // ---------------------------------------------------------------------

  /** A calendar date; the worker attaches the UTC zone to every date. */
  datatype Date = Date(year: int, month: int, day: int)

  predicate IsLeapYear(y: int) {
    y % 4 == 0 && (y % 100 != 0 || y % 400 == 0)
  }

  function DaysInMonth(y: int, m: int): (n: int)
    requires 1 <= m <= 12
    ensures 28 <= n <= 31
  {
    if m == 2 then (if IsLeapYear(y) then 29 else 28)
    else if m == 4 || m == 6 || m == 9 || m == 11 then 30
    else 31
  }

  /** What `datetime(year, month, day)` accepts: years 1 to 9999 and a day
      that exists in the month. */
  predicate ValidDate(d: Date) {
    && 1 <= d.year <= 9999
    && 1 <= d.month <= 12
    && 1 <= d.day <= DaysInMonth(d.year, d.month)
  }

  /** Python's `s[lo:hi]` for non-negative bounds: clipped to the text. */
  function Slice(s: string, lo: nat, hi: nat): (r: string)
    ensures |r| <= |s|
  {
    var a := if lo < |s| then lo else |s|;
    var b := if hi < |s| then hi else |s|;
    if a <= b then s[a..b] else []
  }

  /** The range of the C `int` that `datetime()` converts each of its
      arguments to before it checks the date; a value outside it raises
      `OverflowError`. */
  predicate InCInt(n: int) {
    -0x8000_0000 <= n < 0x8000_0000
  }

  /** `_format_date`: year, month and day read from the slices `[0:4]`,
      `[4:6]` and `[6:]`; a `ValueError` when a slice is not an integer or
      the date does not exist, an `OverflowError` when a number does not
      fit a C `int` (only the unbounded day slice can be that long). */
  function FormatDate(text: string): (r: Result<Date>)
    ensures r.Ok? ==> ValidDate(r.value)
    ensures r.Ok? ==> && ParseInt(Slice(text, 0, 4)) == Some(r.value.year)
                      && ParseInt(Slice(text, 4, 6)) == Some(r.value.month)
                      && ParseInt(Slice(text, 6, |text|)) == Some(r.value.day)
    ensures r.Err? ==> r.error == ValueError || r.error == OverflowError
    ensures r == Err(OverflowError) <==>
              var y, m, d := ParseInt(Slice(text, 0, 4)), ParseInt(Slice(text, 4, 6)),
                             ParseInt(Slice(text, 6, |text|));
              && y.Some? && m.Some? && d.Some?
              && !(InCInt(y.value) && InCInt(m.value) && InCInt(d.value))
    ensures var y, m, d := ParseInt(Slice(text, 0, 4)), ParseInt(Slice(text, 4, 6)),
                           ParseInt(Slice(text, 6, |text|));
            y.Some? && m.Some? && d.Some? && ValidDate(Date(y.value, m.value, d.value))
            ==> r == Ok(Date(y.value, m.value, d.value))
  {
    var year := ParseInt(Slice(text, 0, 4));
    var month := ParseInt(Slice(text, 4, 6));
    var day := ParseInt(Slice(text, 6, |text|));
    if year.None? || month.None? || day.None? then Err(ValueError)
    else if !(InCInt(year.value) && InCInt(month.value) && InCInt(day.value)) then Err(OverflowError)
    else
      var d := Date(year.value, month.value, day.value);
      if ValidDate(d) then Ok(d) else Err(ValueError)
  }

  /** The compact `YYYYMMDD` rendering of a date. */
  function CompactDate(d: Date): (s: string)
    requires ValidDate(d)
    ensures |s| == 8 && AllDigits(s)
  {
    PadDigits(d.year, 4) + PadDigits(d.month, 2) + PadDigits(d.day, 2)
  }

  /** Every date `datetime` accepts survives the round trip through its
      compact rendering. */
  lemma FormatDateRoundTrip(d: Date)
    requires ValidDate(d)
    ensures FormatDate(CompactDate(d)) == Ok(d)
  {
    var a, b, c := PadDigits(d.year, 4), PadDigits(d.month, 2), PadDigits(d.day, 2);
    var t := a + b + c;
    assert ParseInt(Slice(t, 0, 4)) == Some(d.year) by {
      DateSlices(a, b, c);
      PadDigitsValue(d.year, 4);
      ParseIntDigits(a);
    }
    assert ParseInt(Slice(t, 4, 6)) == Some(d.month) by {
      DateSlices(a, b, c);
      PadDigitsValue(d.month, 2);
      ParseIntDigits(b);
    }
    assert ParseInt(Slice(t, 6, |t|)) == Some(d.day) by {
      DateSlices(a, b, c);
      PadDigitsValue(d.day, 2);
      ParseIntDigits(c);
    }
    assert d.day <= 31;
    assert InCInt(d.year) && InCInt(d.month) && InCInt(d.day);
    assert Date(d.year, d.month, d.day) == d;
    FormatDateOf(t, d.year, d.month, d.day);
    assert CompactDate(d) == t;
  }

  /** `int()` strips whitespace, so blanks or a newline after eight date
      digits leave the date unchanged: `20200105\n` reads as 5 January 2020. */
  lemma FormatDateTrailingSpace(t: string, w: string)
    requires |t| == 8 && AllDigits(t) && AllSpace(w)
    ensures FormatDate(t + w) == FormatDate(t)
  {
    var a, b, c := t[0..4], t[4..6], t[6..8];
    DatePieces(t);
    var u := t + w;
    assert u == a + b + (c + w);
    var y, m, d := DigitsValue(a), DigitsValue(b), DigitsValue(c);
    assert ParseInt(c + w) == ParseInt(c) by {
      assert IsStripped(c) by { assert IsDigit(c[0]) && IsDigit(c[1]); }
      StripPadded([], c, w);
      assert [] + c + w == c + w;
      StripPadded([], c, []);
      assert [] + c + [] == c;
    }
    assert ParseInt(a) == Some(y) && ParseInt(b) == Some(m) && ParseInt(c) == Some(d) by {
      ParseShortDigits(a);
      ParseShortDigits(b);
      ParseShortDigits(c);
    }
    DateSlices(a, b, c);
    DateSlices(a, b, c + w);
    FormatDateOf(t, y, m, d);
    FormatDateOf(u, y, m, d);
  }

  /** `_format_date` once the three slices are read as numbers. */
  lemma FormatDateOf(text: string, y: int, m: int, d: int)
    requires ParseInt(Slice(text, 0, 4)) == Some(y)
    requires ParseInt(Slice(text, 4, 6)) == Some(m)
    requires ParseInt(Slice(text, 6, |text|)) == Some(d)
    ensures FormatDate(text)
         == if !(InCInt(y) && InCInt(m) && InCInt(d)) then Err(OverflowError)
            else if ValidDate(Date(y, m, d)) then Ok(Date(y, m, d))
            else Err(ValueError)
  {
  }

  /** The slices `[0:4]`, `[4:6]` and `[6:]` of a text made of a
      four-character, a two-character and any third part. */
  lemma DateSlices(a: string, b: string, c: string)
    requires |a| == 4 && |b| == 2
    ensures var t := a + b + c;
            Slice(t, 0, 4) == a && Slice(t, 4, 6) == b && Slice(t, 6, |t|) == c
  {
    var t := a + b + c;
    assert t[0..4] == a;
    assert t[4..6] == b;
    assert t[6..] == c;
  }

  /** `int()` reads a piece of at most four digits as its value, which fits
      a C `int`. */
  lemma ParseShortDigits(s: string)
    requires 0 < |s| <= 4 && AllDigits(s)
    ensures ParseInt(s) == Some(DigitsValue(s))
    ensures InCInt(DigitsValue(s))
  {
    assert ParseInt(s) == Some(DigitsValue(s)) by {
      ParseIntDigits(s);
    }
    assert DigitsValue(s) < Pow10(|s|) by {
      DigitsValuePad(s);
    }
    assert Pow10(|s|) <= 10000 by {
      Pow10Grows(|s|, 4);
    }
  }

  /** The date eight ASCII digits spell out. */
  function DigitDate(s: string): Date
    requires |s| == 8 && AllDigits(s)
  {
    Date(DigitsValue(s[0..4]), DigitsValue(s[4..6]), DigitsValue(s[6..8]))
  }

  /** On eight ASCII digits the result is exactly the date the digits spell
      when that date exists, and a `ValueError` otherwise. */
  lemma FormatDateDigits(s: string)
    requires |s| == 8 && AllDigits(s)
    ensures ValidDate(DigitDate(s)) ==> FormatDate(s) == Ok(DigitDate(s))
    ensures !ValidDate(DigitDate(s)) ==> FormatDate(s) == Err(ValueError)
  {
    var a, b, c := s[0..4], s[4..6], s[6..8];
    DatePieces(s);
    assert ParseInt(Slice(s, 0, 4)) == Some(DigitsValue(a)) && InCInt(DigitsValue(a)) by {
      DateSlices(a, b, c);
      ParseShortDigits(a);
    }
    assert ParseInt(Slice(s, 4, 6)) == Some(DigitsValue(b)) && InCInt(DigitsValue(b)) by {
      DateSlices(a, b, c);
      ParseShortDigits(b);
    }
    assert ParseInt(Slice(s, 6, |s|)) == Some(DigitsValue(c)) && InCInt(DigitsValue(c)) by {
      DateSlices(a, b, c);
      ParseShortDigits(c);
    }
    FormatDateOf(s, DigitsValue(a), DigitsValue(b), DigitsValue(c));
  }

  /** Eight ASCII digits that `_format_date` accepts are the compact
      rendering of the date it returns. */
  lemma CompactDateDigits(s: string)
    requires |s| == 8 && AllDigits(s)
    requires ValidDate(DigitDate(s))
    ensures CompactDate(DigitDate(s)) == s
  {
    DatePieces(s);
    CompactOfDigits(s[0..4], s[4..6], s[6..8]);
  }

  lemma DatePieces(s: string)
    requires |s| == 8 && AllDigits(s)
    ensures AllDigits(s[0..4]) && AllDigits(s[4..6]) && AllDigits(s[6..8])
    ensures s == s[0..4] + s[4..6] + s[6..8]
  {
  }

  /** Year, month and day digits of a valid date are its compact
      rendering. */
  lemma CompactOfDigits(y: string, m: string, d: string)
    requires |y| == 4 && |m| == 2 && |d| == 2
    requires AllDigits(y) && AllDigits(m) && AllDigits(d)
    requires ValidDate(Date(DigitsValue(y), DigitsValue(m), DigitsValue(d)))
    ensures CompactDate(Date(DigitsValue(y), DigitsValue(m), DigitsValue(d))) == y + m + d
  {
    DigitsValuePad(y);
    DigitsValuePad(m);
    DigitsValuePad(d);
  }

  /** Six date digits followed by a day that `int()` reads but that does
      not fit a C `int` raise `OverflowError` rather than `ValueError`:
      `20200199999999999` reads as day 99999999999 of January 2020. */
  lemma FormatDateDayOverflow(ym: string, day: string)
    requires |ym| == 6 && AllDigits(ym)
    requires ParseInt(day).Some? && !InCInt(ParseInt(day).value)
    ensures FormatDate(ym + day) == Err(OverflowError)
  {
    var a, b, t := ym[0..4], ym[4..6], ym + day;
    assert t == a + b + day by {
      assert ym == a + b;
    }
    DateSlices(a, b, day);
    assert ParseInt(Slice(t, 0, 4)) == Some(DigitsValue(a)) by {
      ParseShortDigits(a);
    }
    assert ParseInt(Slice(t, 4, 6)) == Some(DigitsValue(b)) by {
      ParseShortDigits(b);
    }
    FormatDateOf(t, DigitsValue(a), DigitsValue(b), ParseInt(day).value);
  }

  /** A text too short to hold a day fails: `int('')` raises. */
  lemma FormatDateShort(text: string)
    requires |text| <= 6
    ensures FormatDate(text) == Err(ValueError)
  {
    assert Slice(text, 6, |text|) == [];
    assert Strip([]) == [];
  }
}
