/** The genre mapper `_convert_genres_to_calibre_tags`: every raw tag is
    looked up, lower-cased, in the user's genre mapping; a usable entry
    contributes its canonical tags, anything else contributes the raw tag
    itself, and a tag already in the output is never added again.

    The mapping is the table stored in the plugin preferences, passed in as
    the list of its `(key, tags)` items in dictionary order.
 */
module Genres {
  import opened Text

  /** The lookup table after its keys are lower-cased. */
  type Mapping = map<string, seq<string>>

  /** `dict((k.lower(), v) for (k, v) in items)`: when two keys lower-case
      alike, the later item wins. */
  function LowerKeys(items: seq<(string, seq<string>)>): (m: Mapping)
    ensures forall i :: 0 <= i < |items| ==> Lower(items[i].0) in m
    ensures forall k :: k in m ==> exists i :: 0 <= i < |items| && Lower(items[i].0) == k
    decreases |items|
  {
    if |items| == 0 then map[]
    else
      var last := items[|items| - 1];
      LowerKeys(items[..|items| - 1])[Lower(last.0) := last.1]
  }

  /** The entry a lower-cased key ends up with is the tags of the last item
      whose key lower-cases to it. */
  lemma {:induction false} LowerKeysLastWins(items: seq<(string, seq<string>)>, i: nat)
    requires i < |items|
    requires forall j :: i < j < |items| ==> Lower(items[j].0) != Lower(items[i].0)
    ensures LowerKeys(items)[Lower(items[i].0)] == items[i].1
    decreases |items|
  {
    if i < |items| - 1 {
      var init := items[..|items| - 1];
      assert forall j :: i < j < |init| ==> init[j] == items[j];
      LowerKeysLastWins(init, i);
      assert init[i] == items[i];
    }
  }

  /** What one raw tag contributes: its mapped tags when the lower-cased tag
      has a non-empty entry (`if tags:`), otherwise the tag itself. */
  function Contribution(m: Mapping, tag: string): (r: seq<string>)
    ensures |r| > 0
  {
    var key := Lower(tag);
    if key in m && |m[key]| > 0 then m[key] else [tag]
  }

  /** Every contribution, in input order, before duplicates are dropped. */
  function Expand(m: Mapping, tags: seq<string>): seq<string>
    decreases |tags|
  {
    if |tags| == 0 then []
    else Expand(m, tags[..|tags| - 1]) + Contribution(m, tags[|tags| - 1])
  }

  lemma ExpandStep(m: Mapping, tags: seq<string>, i: nat)
    requires i < |tags|
    ensures Expand(m, tags[..i + 1]) == Expand(m, tags[..i]) + Contribution(m, tags[i])
  {
    assert tags[..i + 1][..i] == tags[..i];
  }

  predicate NoDuplicates(s: seq<string>) {
    forall i, j :: 0 <= i < j < |s| ==> s[i] != s[j]
  }

  /** The elements of `t`, each once, in the order of their first
      appearance. */
  function FirstOccurrences(t: seq<string>): (r: seq<string>)
    ensures forall x :: x in r <==> x in t
    ensures NoDuplicates(r)
    decreases |t|
  {
    if |t| == 0 then []
    else
      var init := t[..|t| - 1];
      var x := t[|t| - 1];
      var p := FirstOccurrences(init);
      assert t == init + [x];
      if x in init then p else p + [x]
  }

  /** Appending one element adds it to the first occurrences exactly when it
      is new. */
  lemma FirstOccurrencesSnoc(t: seq<string>, x: string)
    ensures FirstOccurrences(t + [x]) == if x in t then FirstOccurrences(t) else FirstOccurrences(t) + [x]
  {
    assert (t + [x])[..|t|] == t;
  }

  /** Index of the first occurrence of `x` in `t`. */
  function FirstIndex(t: seq<string>, x: string): (k: nat)
    requires x in t
    ensures k < |t| && t[k] == x
    ensures forall j :: 0 <= j < k ==> t[j] != x
  {
    if t[0] == x then 0 else 1 + FirstIndex(t[1..], x)
  }

  lemma FirstIndexSnoc(t: seq<string>, x: string, y: string)
    requires y in t
    ensures FirstIndex(t + [x], y) == FirstIndex(t, y)
  {
    var k := FirstIndex(t, y);
    assert (t + [x])[k] == y;
    assert forall j :: 0 <= j < k ==> (t + [x])[j] == t[j];
  }

  /** The first occurrences are listed in the order in which they first
      appear in `t`. */
  lemma {:induction false} FirstOccurrencesOrdered(t: seq<string>)
    ensures var r := FirstOccurrences(t);
            forall i, j :: 0 <= i < j < |r| ==> FirstIndex(t, r[i]) < FirstIndex(t, r[j])
    decreases |t|
  {
    if |t| > 0 {
      var init := t[..|t| - 1];
      var x := t[|t| - 1];
      assert t == init + [x];
      FirstOccurrencesOrdered(init);
      var p := FirstOccurrences(init);
      var r := FirstOccurrences(t);
      FirstOccurrencesSnoc(init, x);
      forall i, j | 0 <= i < j < |r|
        ensures FirstIndex(t, r[i]) < FirstIndex(t, r[j])
      {
        assert r[i] in p;
        FirstIndexSnoc(init, x, r[i]);
        if j < |p| {
          FirstIndexSnoc(init, x, r[j]);
        } else {
          assert r[j] == x && x !in init;
          assert FirstIndex(t, x) == |init|;
        }
      }
    }
  }

  /** A list without duplicates is its own list of first occurrences. */
  lemma {:induction false} FirstOccurrencesOfDistinct(t: seq<string>)
    requires NoDuplicates(t)
    ensures FirstOccurrences(t) == t
    decreases |t|
  {
    if |t| > 0 {
      var init := t[..|t| - 1];
      assert t == init + [t[|t| - 1]];
      FirstOccurrencesOfDistinct(init);
      FirstOccurrencesSnoc(init, t[|t| - 1]);
    }
  }

  /** The mapper's output, stated without its loops: the first occurrences
      of all contributions. */
  function ConvertGenres(items: seq<(string, seq<string>)>, tags: seq<string>): seq<string> {
    FirstOccurrences(Expand(LowerKeys(items), tags))
  }

  /** The inner loop of `_convert_genres_to_calibre_tags`: each tag of `xs`
      not yet present is appended. */
  method AppendNew(tags: seq<string>, xs: seq<string>, ghost done: seq<string>)
    returns (r: seq<string>)
    requires tags == FirstOccurrences(done)
    ensures r == FirstOccurrences(done + xs)
  {
    r := tags;
    assert done + xs[..0] == done;
    for j := 0 to |xs|
      invariant r == FirstOccurrences(done + xs[..j])
    {
      FirstOccurrencesSnoc(done + xs[..j], xs[j]);
      assert done + xs[..j + 1] == done + xs[..j] + [xs[j]];
      if xs[j] !in r {
        r := r + [xs[j]];
      }
    }
    assert xs[..|xs|] == xs;
  }

  /** `_convert_genres_to_calibre_tags`: the raw tags are scanned in order;
      each appends its mapped tags, or itself, skipping tags already
      present. */
  method ConvertGenresToCalibreTags(items: seq<(string, seq<string>)>, genreTags: seq<string>)
    returns (tags: seq<string>)
    ensures tags == FirstOccurrences(Expand(LowerKeys(items), genreTags))
    ensures NoDuplicates(tags)
  {
    var m := LowerKeys(items);
    tags := [];
    for i := 0 to |genreTags|
      invariant tags == FirstOccurrences(Expand(m, genreTags[..i]))
    {
      var genre := genreTags[i];
      ExpandStep(m, genreTags, i);
      var key := Lower(genre);
      if key in m && |m[key]| > 0 {
        tags := AppendNew(tags, m[key], Expand(m, genreTags[..i]));
      } else {
        tags := AppendNew(tags, [genre], Expand(m, genreTags[..i]));
      }
    }
    assert genreTags[..|genreTags|] == genreTags;
  }

  /** A tag is in the output exactly when some raw tag contributes it. */
  lemma {:induction false} ExpandMembers(m: Mapping, tags: seq<string>, x: string)
    ensures x in Expand(m, tags) <==> exists i :: 0 <= i < |tags| && x in Contribution(m, tags[i])
    decreases |tags|
  {
    if |tags| > 0 {
      var init := tags[..|tags| - 1];
      ExpandMembers(m, init, x);
      if x in Contribution(m, tags[|tags| - 1]) {
        assert x in Expand(m, tags);
      }
      if exists i :: 0 <= i < |tags| && x in Contribution(m, tags[i]) {
        var i :| 0 <= i < |tags| && x in Contribution(m, tags[i]);
        if i < |init| {
          assert init[i] == tags[i];
        }
      }
    }
  }

  lemma ConvertMembers(items: seq<(string, seq<string>)>, tags: seq<string>, x: string)
    ensures x in ConvertGenres(items, tags)
        <==> exists i :: 0 <= i < |tags| && x in Contribution(LowerKeys(items), tags[i])
  {
    ExpandMembers(LowerKeys(items), tags, x);
  }

  /** No raw tag is ever dropped: an unmapped tag (or one mapped to an empty
      list) is itself in the output, in its original spelling. */
  lemma ConvertKeepsUnmapped(items: seq<(string, seq<string>)>, tags: seq<string>, i: nat)
    requires i < |tags|
    requires var m := LowerKeys(items); Lower(tags[i]) !in m || |m[Lower(tags[i])]| == 0
    ensures tags[i] in ConvertGenres(items, tags)
  {
    ConvertMembers(items, tags, tags[i]);
    assert tags[i] in Contribution(LowerKeys(items), tags[i]);
  }

  /** Tags are listed in the order they first come up while the raw tags are
      scanned left to right. */
  lemma ConvertOrdered(items: seq<(string, seq<string>)>, tags: seq<string>)
    ensures var t := Expand(LowerKeys(items), tags);
            var r := ConvertGenres(items, tags);
            forall i, j :: 0 <= i < j < |r| ==> FirstIndex(t, r[i]) < FirstIndex(t, r[j])
  {
    var t := Expand(LowerKeys(items), tags);
    FirstOccurrencesOrdered(t);
    assert ConvertGenres(items, tags) == FirstOccurrences(t);
  }

  lemma {:induction false} ExpandUnmapped(m: Mapping, tags: seq<string>)
    requires forall i :: 0 <= i < |tags| ==> Lower(tags[i]) !in m
    ensures Expand(m, tags) == tags
    decreases |tags|
  {
    if |tags| > 0 {
      var init := tags[..|tags| - 1];
      ExpandUnmapped(m, init);
      assert tags == init + [tags[|tags| - 1]];
    }
  }

  /** Distinct raw tags none of which has an entry pass through unchanged. */
  lemma ConvertPassesThrough(items: seq<(string, seq<string>)>, tags: seq<string>)
    requires NoDuplicates(tags)
    requires forall i :: 0 <= i < |tags| ==> Lower(tags[i]) !in LowerKeys(items)
    ensures ConvertGenres(items, tags) == tags
  {
    ExpandUnmapped(LowerKeys(items), tags);
    FirstOccurrencesOfDistinct(tags);
  }

  /** The lookup ignores case: raw tags that differ only in the case of
      their letters and all have a usable entry map to the same output. */
  lemma {:induction false} ExpandIgnoresCase(m: Mapping, a: seq<string>, b: seq<string>)
    requires |a| == |b|
    requires forall i :: 0 <= i < |a| ==> Lower(a[i]) == Lower(b[i])
    requires forall i :: 0 <= i < |a| ==> Lower(a[i]) in m && |m[Lower(a[i])]| > 0
    ensures Expand(m, a) == Expand(m, b)
    decreases |a|
  {
    if |a| > 0 {
      ExpandIgnoresCase(m, a[..|a| - 1], b[..|b| - 1]);
    }
  }

  lemma ConvertIgnoresCase(items: seq<(string, seq<string>)>, a: seq<string>, b: seq<string>)
    requires |a| == |b|
    requires forall i :: 0 <= i < |a| ==> Lower(a[i]) == Lower(b[i])
    requires forall i :: 0 <= i < |a| ==> Lower(a[i]) in LowerKeys(items) && |LowerKeys(items)[Lower(a[i])]| > 0
    ensures ConvertGenres(items, a) == ConvertGenres(items, b)
  {
    ExpandIgnoresCase(LowerKeys(items), a, b);
  }

  /** Some tag comes out whenever some raw tag goes in. */
  lemma ConvertNonEmpty(items: seq<(string, seq<string>)>, tags: seq<string>)
    ensures |ConvertGenres(items, tags)| > 0 <==> |tags| > 0
  {
    var m := LowerKeys(items);
    if |tags| > 0 {
      var c := Contribution(m, tags[0]);
      ExpandMembers(m, tags, c[0]);
      assert c[0] in ConvertGenres(items, tags);
    } else {
      assert Expand(m, tags) == [];
    }
  }

  lemma ExampleKeys()
    ensures Lower("Fantasy") == "fantasy" && Lower("fantasy") == "fantasy"
    ensures Lower("SciFi") != "fantasy"
  {
    assert Lower("SciFi")[0] == 's';
  }

  lemma ExampleExpand(m: Mapping, tags: seq<string>)
    requires m == map["fantasy" := ["Fantasy & SF"]]
    requires tags == ["Fantasy", "fantasy", "SciFi"]
    ensures Expand(m, tags) == ["Fantasy & SF", "Fantasy & SF", "SciFi"]
  {
    ExampleKeys();
    assert Contribution(m, tags[0]) == ["Fantasy & SF"];
    assert Contribution(m, tags[1]) == ["Fantasy & SF"];
    assert Contribution(m, tags[2]) == ["SciFi"];
    assert Expand(m, tags[..1]) == ["Fantasy & SF"] by {
      assert tags[..1][..0] == [];
    }
    ExpandStep(m, tags, 1);
    ExpandStep(m, tags, 2);
    assert tags[..3] == tags;
  }

  lemma FirstOfRepeat(a: string, b: string)
    requires a != b
    ensures FirstOccurrences([a, a, b]) == [a, b]
  {
    var s1 := [] + [a];
    var s2 := s1 + [a];
    var s3 := s2 + [b];
    assert FirstOccurrences(s1) == [a] by {
      FirstOccurrencesSnoc([], a);
    }
    assert FirstOccurrences(s2) == [a] by {
      FirstOccurrencesSnoc(s1, a);
    }
    assert FirstOccurrences(s3) == [a, b] by {
      assert b !in s2;
      FirstOccurrencesSnoc(s2, b);
    }
    assert s3 == [a, a, b];
  }

  lemma ExampleMapping()
    ensures LowerKeys([("fantasy", ["Fantasy & SF"])]) == map["fantasy" := ["Fantasy & SF"]]
  {
    var items := [("fantasy", ["Fantasy & SF"])];
    ExampleKeys();
    assert items[..0] == [];
  }

  /** Mapping `Fantasy`, `fantasy`, `SciFi` against the single entry
      `fantasy -> [Fantasy & SF]` gives `Fantasy & SF` once, then the
      unmapped `SciFi`. */
  lemma ConvertExample()
    ensures ConvertGenres([("fantasy", ["Fantasy & SF"])], ["Fantasy", "fantasy", "SciFi"])
         == ["Fantasy & SF", "SciFi"]
  {
    ExampleMapping();
    ExampleExpand(map["fantasy" := ["Fantasy & SF"]], ["Fantasy", "fantasy", "SciFi"]);
    FirstOfRepeat("Fantasy & SF", "SciFi");
  }
}
