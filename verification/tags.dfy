/** `parse_tags`: the raw tags of a book page are its keywords followed by
    its genre breadcrumbs, and the genre mapper turns them into the tags of
    the record; no tags at all is reported as `None`.
 */
module Tags {
  import opened Wrappers
  import opened Text
  import opened Page
  import opened Genres

  /** The four characters the keyword text is split on: quote, comma,
      blank, quote. */
  const KeywordSeparator: string := "\", \""

  /** `keywords[1:len(keywords) - 1]`: the text without its first and last
      character (empty when there are fewer than two). */
  function Unwrap(k: string): (r: string)
    ensures |k| >= 2 ==> |r| == |k| - 2 && k == [k[0]] + r + [k[|k| - 1]]
    ensures |k| < 2 ==> r == []
  {
    if |k| >= 2 then k[1..|k| - 1] else []
  }

  /** The keyword tags: none without a `keywords` field; otherwise the
      pieces of the unwrapped text between the separators. A list has no
      `split` (`AttributeError`); any other non-string cannot be measured or
      sliced (`TypeError`). */
  function KeywordTags(info: map<string, Json>): (r: Result<seq<string>>)
    ensures "keywords" !in info ==> r == Ok([])
    ensures "keywords" in info ==> (r.Ok? <==> info["keywords"].JString?)
    ensures r.Ok? && "keywords" in info ==>
              && |r.value| >= 1
              && Join(r.value, KeywordSeparator) == Unwrap(info["keywords"].text)
              && (forall i :: 0 <= i < |r.value| ==> !Contains(r.value[i], KeywordSeparator))
              && forall i :: 0 <= i < |r.value| - 1 ==>
                   !Contains(r.value[i] + KeywordSeparator[..|KeywordSeparator| - 1], KeywordSeparator)
    ensures r.Err? ==> r.error == (if info["keywords"].JList? then AttributeError else TypeError)
  {
    if "keywords" !in info then Ok([])
    else match info["keywords"]
      case JString(k) => Ok(Split(Unwrap(k), KeywordSeparator))
      case JList(_) => Err(AttributeError)
      case _ => Err(TypeError)
  }

  /** Keywords written between two wrapper characters and separated by
      `", "` come back one by one, provided none holds a double quote. */
  lemma KeywordsRoundTrip(ks: seq<string>, open: char, close: char)
    requires |ks| >= 1
    requires forall i :: 0 <= i < |ks| ==> '"' !in ks[i]
    ensures KeywordTags(map["keywords" := JString([open] + Join(ks, KeywordSeparator) + [close])]) == Ok(ks)
  {
    var k := [open] + Join(ks, KeywordSeparator) + [close];
    assert k[1..|k| - 1] == Join(ks, KeywordSeparator);
    SplitJoin(ks, KeywordSeparator);
  }

  /** The trimmed sub-genre texts of all breadcrumbs, in document order. */
  function SubGenres(cs: seq<GenreContainer>): (r: seq<string>)
    ensures forall i :: 0 <= i < |r| ==> IsStripped(r[i])
    decreases |cs|
  {
    if |cs| == 0 then []
    else SubGenres(cs[..|cs| - 1]) + StripAll(cs[|cs| - 1].subGenres)
  }

  lemma SubGenresStep(cs: seq<GenreContainer>, i: nat)
    requires i < |cs|
    ensures SubGenres(cs[..i + 1]) == SubGenres(cs[..i]) + StripAll(cs[i].subGenres)
  {
    assert cs[..i + 1][..i] == cs[..i];
  }

  /** One more breadcrumb appends its sub-genres after the main genre and
      the earlier ones. */
  lemma GenreTagsStep(cs: seq<GenreContainer>, i: nat)
    requires i < |cs| && cs[0].firstLink.Some?
    ensures [cs[0].firstLink.value] + SubGenres(cs[..i + 1])
         == [cs[0].firstLink.value] + SubGenres(cs[..i]) + StripAll(cs[i].subGenres)
  {
    SubGenresStep(cs, i);
  }

  /** The genre tags, stated without the loop: nothing without breadcrumbs;
      otherwise the first link of the first breadcrumb (`IndexError` when it
      has none) and then every sub-genre. */
  function GenreTags(cs: seq<GenreContainer>): Result<seq<string>> {
    if |cs| == 0 then Ok([])
    else if cs[0].firstLink.None? then Err(IndexError)
    else Ok([cs[0].firstLink.value] + SubGenres(cs))
  }

  lemma GenreTagsShape(cs: seq<GenreContainer>)
    ensures var r := GenreTags(cs);
            && (|cs| > 0 ==> (r.Err? <==> cs[0].firstLink.None?))
            && (r.Ok? && |cs| > 0 ==> r.value[0] == cs[0].firstLink.value && r.value[1..] == SubGenres(cs))
  {
  }

  /** The breadcrumb loop of `parse_tags`, with its `added_main_genre`
      flag: the main genre is taken from the first breadcrumb only, and
      every breadcrumb adds its trimmed sub-genres. */
  method CollectGenreTags(cs: seq<GenreContainer>) returns (r: Result<seq<string>>)
    ensures r == GenreTags(cs)
    ensures |cs| > 0 ==> (r.Err? <==> cs[0].firstLink.None?)
    ensures r.Ok? && |cs| > 0 ==> r.value[0] == cs[0].firstLink.value && r.value[1..] == SubGenres(cs)
  {
    GenreTagsShape(cs);
    var genreTags: seq<string> := [];
    var addedMainGenre := false;
    for i := 0 to |cs|
      invariant addedMainGenre <==> i > 0
      invariant !addedMainGenre ==> genreTags == []
      invariant addedMainGenre ==> && cs[0].firstLink.Some?
                                   && genreTags == [cs[0].firstLink.value] + SubGenres(cs[..i])
    {
      if !addedMainGenre {
        if cs[i].firstLink.None? {
          return Err(IndexError);
        }
        genreTags := genreTags + [cs[i].firstLink.value];
        addedMainGenre := true;
        assert cs[..0] == [];
      }
      var subs := StripAll(cs[i].subGenres);
      GenreTagsStep(cs, i);
      if |subs| > 0 {
        genreTags := genreTags + subs;
      } else {
        assert genreTags + subs == genreTags;
      }
    }
    assert cs[..|cs|] == cs;
    return Ok(genreTags);
  }

  /** Only the first breadcrumb's link counts: changing the first links of
      the others changes nothing. */
  lemma {:induction false} SubGenresIgnoreLinks(cs: seq<GenreContainer>, ds: seq<GenreContainer>)
    requires |cs| == |ds|
    requires forall i :: 0 <= i < |cs| ==> cs[i].subGenres == ds[i].subGenres
    ensures SubGenres(cs) == SubGenres(ds)
    decreases |cs|
  {
    if |cs| > 0 {
      SubGenresIgnoreLinks(cs[..|cs| - 1], ds[..|ds| - 1]);
    }
  }

  lemma GenreTagsIgnoreLaterLinks(cs: seq<GenreContainer>, ds: seq<GenreContainer>)
    requires |cs| == |ds| > 0 && cs[0].firstLink == ds[0].firstLink
    requires forall i :: 0 <= i < |cs| ==> cs[i].subGenres == ds[i].subGenres
    ensures GenreTags(cs) == GenreTags(ds)
  {
    SubGenresIgnoreLinks(cs, ds);
  }

  /** The tags before mapping. Without breadcrumbs (`if genres_node:`
      false) they are the keyword tags alone. Otherwise the genre tags are
      appended to the keywords when there are any (`all_tags += genre_tags`)
      and replace the empty list when there are none
      (`all_tags = genre_tags`). Either way: keywords first, then the main
      genre once, then every sub-genre. */
  function RawTags(info: map<string, Json>, cs: seq<GenreContainer>): (r: Result<seq<string>>)
    ensures r.Ok? <==> KeywordTags(info).Ok? && GenreTags(cs).Ok?
    ensures KeywordTags(info).Err? ==> r == Err(KeywordTags(info).error)
    ensures KeywordTags(info).Ok? && GenreTags(cs).Err? ==> r == Err(IndexError)
    ensures r.Ok? ==> r.value == KeywordTags(info).value + GenreTags(cs).value
    ensures r.Ok? ==> var kw := KeywordTags(info).value;
                      && |kw| <= |r.value|
                      && r.value[..|kw|] == kw
                      && (|cs| == 0 ==> r.value == kw)
                      && (|cs| > 0 ==> && |r.value| > |kw|
                                       && r.value[|kw|] == cs[0].firstLink.value
                                       && r.value[|kw| + 1..] == SubGenres(cs))
  {
    var keywords :- KeywordTags(info);
    if |cs| == 0 then
      assert keywords + [] == keywords;
      Ok(keywords)
    else
      var genres :- GenreTags(cs);
      assert genres[0] == cs[0].firstLink.value && genres[1..] == SubGenres(cs) by {
        GenreTagsShape(cs);
      }
      ConcatParts(keywords, genres);
      if |keywords| > 0 then Ok(keywords + genres)
      else
        assert [] + genres == genres;
        Ok(genres)
  }

  /** A concatenation splits back into its parts at the seam. */
  lemma ConcatParts(a: seq<string>, b: seq<string>)
    requires |b| > 0
    ensures (a + b)[..|a|] == a && (a + b)[|a|] == b[0] && (a + b)[|a| + 1..] == b[1..]
  {
  }

  /** `parse_tags` on the decoded Book record, the page's breadcrumbs and
      the genre mapping: the mapped tags, without duplicates, or `None` when
      there are none, which happens exactly when the record has no keywords
      and the page no breadcrumbs. */
  function ParseTags(info: map<string, Json>, cs: seq<GenreContainer>,
                     items: seq<(string, seq<string>)>): (r: Result<Option<seq<string>>>)
    ensures r.Ok? <==> RawTags(info, cs).Ok?
    ensures r.Err? ==> r.error == RawTags(info, cs).error
    ensures r.Err? ==> r.error == (if KeywordTags(info).Err? then KeywordTags(info).error else IndexError)
    ensures r.Ok? ==> (r.value.None? <==> "keywords" !in info && |cs| == 0)
    ensures r.Ok? && r.value.Some? ==> NoDuplicates(r.value.value)
    ensures r.Ok? && r.value.Some? ==>
              var t := Expand(LowerKeys(items), RawTags(info, cs).value);
              && (forall x :: x in r.value.value ==> x in t)
              && forall i, j :: 0 <= i < j < |r.value.value| ==>
                   FirstIndex(t, r.value.value[i]) < FirstIndex(t, r.value.value[j])
    ensures r.Ok? && r.value.Some? ==>
              forall x :: x in r.value.value <==>
                exists i :: 0 <= i < |RawTags(info, cs).value|
                         && x in Contribution(LowerKeys(items), RawTags(info, cs).value[i])
  {
    var raw :- RawTags(info, cs);
    var tags := ConvertGenres(items, raw);
    ConvertNonEmpty(items, raw);
    assert forall x :: x in tags <==>
             exists i :: 0 <= i < |raw| && x in Contribution(LowerKeys(items), raw[i]) by {
      forall x ensures x in tags <==> exists i :: 0 <= i < |raw| && x in Contribution(LowerKeys(items), raw[i]) {
        ConvertMembers(items, raw, x);
      }
    }
    ConvertOrdered(items, raw);
    Ok(if |tags| > 0 then Some(tags) else None)
  }
}
