/** The series detector of `load_details`: `re.search` with the pattern
    `(.*)\s*(\d+)권` when the title ends with `권` (volume), and with
    `(.*)\s*(\d+)화` (episode) otherwise.  Group 1 becomes the series name,
    group 2 the series index.

    The pattern is modelled as the regular-expression engine runs it: the
    search tries each start position in turn; at a start, the greedy `(.*)`
    takes as much of the line as it can and gives characters back one at a
    time until the rest of the pattern matches. `.` does not match a
    newline; `\s` and `\d` are the ASCII classes.
 */
module Series {
  import opened Wrappers
  import opened Text

  datatype SeriesInfo = SeriesInfo(name: string, index: nat)

  /** The marker that closes the number: `권` when the title ends with it,
      `화` otherwise. */
  function Marker(title: string): (c: char)
    ensures c == '권' || c == '화'
    ensures c == '권' <==> |title| > 0 && title[|title| - 1] == '권'
  {
    if EndsWith(title, "권") then '권' else '화'
  }

  /** `\s` */
  predicate IsRegexSpace(c: char) {
    c == ' ' || c == '\t' || c == '\n' || c == '\r' || c == '\U{0B}' || c == '\U{0C}'
  }

  /** Where the greedy `\s*` starting at `k` stops. */
  function SpaceEnd(t: string, k: nat): (r: nat)
    requires k <= |t|
    ensures k <= r <= |t|
    ensures forall j :: k <= j < r ==> IsRegexSpace(t[j])
    ensures r < |t| ==> !IsRegexSpace(t[r])
    decreases |t| - k
  {
    if k < |t| && IsRegexSpace(t[k]) then SpaceEnd(t, k + 1) else k
  }

  /** Where the greedy `\d+` starting at `s` stops (`s` itself when there
      is no digit there). */
  function DigitEnd(t: string, s: nat): (e: nat)
    requires s <= |t|
    ensures s <= e <= |t|
    ensures AllDigits(t[s..e])
    ensures e < |t| ==> !IsDigit(t[e])
    decreases |t| - s
  {
    if s < |t| && IsDigit(t[s]) then
      var e := DigitEnd(t, s + 1);
      assert forall j :: 0 <= j < e - s ==> t[s..e][j] == t[s + j];
      e
    else s
  }

  /** `\s*(\d+)<marker>` matches at `k`. Backtracking cannot help: fewer
      blanks leave a blank where a digit is needed, fewer digits leave a
      digit where the marker is needed. */
  predicate TailAt(t: string, k: nat, marker: char)
    requires k <= |t|
  {
    var s := SpaceEnd(t, k);
    var e := DigitEnd(t, s);
    s < e < |t| && t[e] == marker
  }

  /** The end of the line that starts at or contains `i`: how far `.*` can
      reach. */
  function LineEnd(t: string, i: nat): (r: nat)
    requires i <= |t|
    ensures i <= r <= |t|
    ensures forall j :: i <= j < r ==> t[j] != '\n'
    ensures r < |t| ==> t[r] == '\n'
    decreases |t| - i
  {
    if i < |t| && t[i] != '\n' then LineEnd(t, i + 1) else i
  }

  /** The greedy `(.*)` giving characters back: the largest end `j` of
      group 1 between `i` and `k` after which the tail matches. */
  function LastTail(t: string, marker: char, i: nat, k: nat): (r: Option<nat>)
    requires i <= k <= |t|
    ensures r.Some? ==> i <= r.value <= k && TailAt(t, r.value, marker)
    ensures r.Some? ==> forall j :: r.value < j <= k ==> !TailAt(t, j, marker)
    ensures r.None? ==> forall j :: i <= j <= k ==> !TailAt(t, j, marker)
    decreases k - i
  {
    if TailAt(t, k, marker) then Some(k)
    else if k == i then None
    else LastTail(t, marker, i, k - 1)
  }

  /** `re.search`: the first start `i` (from `i0` on) at which the pattern
      matches, with the end of group 1 chosen there. */
  function SearchFrom(t: string, marker: char, i0: nat): (r: Option<(nat, nat)>)
    requires i0 <= |t|
    ensures r.Some? ==> var (i, k) := r.value;
                        i0 <= i <= k <= |t| && k <= LineEnd(t, i) && TailAt(t, k, marker)
    ensures r.Some? ==> LastTail(t, marker, r.value.0, LineEnd(t, r.value.0)) == Some(r.value.1)
    ensures r.Some? ==> forall j :: i0 <= j < r.value.0 ==> LastTail(t, marker, j, LineEnd(t, j)).None?
    ensures r.None? ==> forall j :: i0 <= j <= |t| ==> LastTail(t, marker, j, LineEnd(t, j)).None?
    decreases |t| - i0
  {
    var here := LastTail(t, marker, i0, LineEnd(t, i0));
    if here.Some? then Some((i0, here.value))
    else if i0 == |t| then None
    else
      SearchFrom(t, marker, i0 + 1)
  }

  /** The series name and index the worker reads off a title, if the
      pattern matches; no match is not an error. */
  function DetectSeries(title: string): (r: Option<SeriesInfo>)
    ensures r.Some? ==> '\n' !in r.value.name
  {
    var marker := Marker(title);
    match SearchFrom(title, marker, 0)
    case None => None
    case Some((i, k)) =>
      var s := SpaceEnd(title, k);
      var e := DigitEnd(title, s);
      WithinLine(title, i, k);
      Some(SeriesInfo(title[i..k], DigitsValue(title[s..e])))
  }

  /** Text that `.*` can cover holds no newline. */
  lemma WithinLine(t: string, i: nat, k: nat)
    requires i <= k <= |t| && k <= LineEnd(t, i)
    ensures '\n' !in t[i..k]
  {
    forall j | 0 <= j < k - i
      ensures t[i..k][j] != '\n'
    {
      assert t[i..k][j] == t[i + j];
    }
  }

  // ---------------------------------------------------------------------
  // What the pattern does on a one-line title
  // ---------------------------------------------------------------------

  /** A digit right before the marker. */
  predicate DigitBeforeMarker(t: string, d: int, marker: char) {
    0 <= d && d + 1 < |t| && IsDigit(t[d]) && t[d + 1] == marker
  }

  lemma DigitBeforeMarkerIsTail(t: string, d: nat, marker: char)
    requires marker == '권' || marker == '화'
    requires DigitBeforeMarker(t, d, marker)
    ensures TailAt(t, d, marker)
    ensures SpaceEnd(t, d) == d && DigitEnd(t, d) == d + 1
  {
    assert DigitEnd(t, d + 1) == d + 1;
  }

  /** Every tail match ends with a digit right before the marker, at or
      after where it starts. */
  lemma TailHasDigitBeforeMarker(t: string, k: nat, marker: char)
    requires k <= |t|
    requires TailAt(t, k, marker)
    ensures DigitBeforeMarker(t, DigitEnd(t, SpaceEnd(t, k)) - 1, marker)
    ensures k <= DigitEnd(t, SpaceEnd(t, k)) - 1
  {
    var s := SpaceEnd(t, k);
    var e := DigitEnd(t, s);
    assert t[s..e][e - 1 - s] == t[e - 1];
  }

  /** On a title without newlines, the search succeeds exactly when some
      digit stands right before the marker. */
  lemma SeriesMatchesIff(title: string)
    requires '\n' !in title
    ensures DetectSeries(title).Some? <==> exists d :: DigitBeforeMarker(title, d, Marker(title))
  {
    var marker := Marker(title);
    OneLine(title, 0);
    if exists d :: DigitBeforeMarker(title, d, marker) {
      var d :| DigitBeforeMarker(title, d, marker);
      DigitBeforeMarkerIsTail(title, d, marker);
      assert LastTail(title, marker, 0, |title|).Some?;
    }
    if DetectSeries(title).Some? {
      var (i, k) := SearchFrom(title, marker, 0).value;
      TailHasDigitBeforeMarker(title, k, marker);
    }
  }

  /** On a title without newlines every line ends at the end of the
      title. */
  lemma {:induction false} OneLine(t: string, i: nat)
    requires i <= |t|
    requires '\n' !in t
    ensures LineEnd(t, i) == |t|
    decreases |t| - i
  {
    if i < |t| {
      assert t[i] in t;
      OneLine(t, i + 1);
    }
  }

  /** On a title without newlines, a match takes as group 1 everything
      before the last digit that stands right before the marker, spaces
      included, and as group 2 that single digit: the index is 0 to 9. */
  lemma SeriesOfLastDigit(title: string, d: nat)
    requires '\n' !in title
    requires DigitBeforeMarker(title, d, Marker(title))
    requires forall j :: d < j < |title| ==> !DigitBeforeMarker(title, j, Marker(title))
    ensures DetectSeries(title)
         == Some(SeriesInfo(title[..d], title[d] as int - '0' as int))
  {
    var marker := Marker(title);
    SearchAtLastDigit(title, marker, d);
    DigitBeforeMarkerIsTail(title, d, marker);
    SingleDigitValue(title, d);
  }

  /** The search settles at the start of a one-line title, with group 1
      ending right before the last digit that precedes the marker. */
  lemma SearchAtLastDigit(title: string, marker: char, d: nat)
    requires '\n' !in title
    requires marker == '권' || marker == '화'
    requires DigitBeforeMarker(title, d, marker)
    requires forall j :: d < j < |title| ==> !DigitBeforeMarker(title, j, marker)
    ensures SearchFrom(title, marker, 0) == Some((0, d))
  {
    OneLine(title, 0);
    DigitBeforeMarkerIsTail(title, d, marker);
    var lt := LastTail(title, marker, 0, |title|);
    assert lt.Some?;
    var k := lt.value;
    TailHasDigitBeforeMarker(title, k, marker);
    assert k == d;
  }

  lemma SingleDigitValue(t: string, d: nat)
    requires d < |t| && IsDigit(t[d])
    ensures AllDigits(t[d..d + 1])
    ensures DigitsValue(t[d..d + 1]) == t[d] as int - '0' as int
  {
    assert t[d..d + 1] == [t[d]];
    assert t[d..d + 1][..0] == [];
  }

  /** Conversely, on a title without newlines every match is of that
      form: the name ends right before a digit that stands before the
      marker, no later digit does, and the index is that digit. */
  lemma SeriesShape(title: string)
    requires '\n' !in title
    requires DetectSeries(title).Some?
    ensures var r := DetectSeries(title).value;
            var d := |r.name|;
            && DigitBeforeMarker(title, d, Marker(title))
            && (forall j :: d < j < |title| ==> !DigitBeforeMarker(title, j, Marker(title)))
            && r.name == title[..d]
            && r.index == title[d] as int - '0' as int
            && r.index < 10
  {
    var marker := Marker(title);
    OneLine(title, 0);
    var lt := LastTail(title, marker, 0, |title|);
    assert lt.Some?;
    var k := lt.value;
    TailHasDigitBeforeMarker(title, k, marker);
    var d := DigitEnd(title, SpaceEnd(title, k)) - 1;
    DigitBeforeMarkerIsTail(title, d, marker);
    assert d == k;
    forall j | d < j < |title|
      ensures !DigitBeforeMarker(title, j, marker)
    {
      if DigitBeforeMarker(title, j, marker) {
        DigitBeforeMarkerIsTail(title, j, marker);
      }
    }
    SeriesOfLastDigit(title, d);
  }

  /** The last digit before `화` is the index; the digit before it stays in
      the name. */
  lemma EpisodeExample(t: string)
    requires t == "X 12화"
    ensures DetectSeries(t) == Some(SeriesInfo("X 1", 2))
  {
    assert Marker(t) == '화';
    assert DigitBeforeMarker(t, 3, '화');
    SeriesOfLastDigit(t, 3);
    assert t[..3] == "X 1";
  }

  /** The space before the number stays in the name. */
  lemma VolumeExample(t: string)
    requires t == "Mystery Series 3권"
    ensures DetectSeries(t) == Some(SeriesInfo("Mystery Series ", 3))
  {
    assert Marker(t) == '권';
    assert DigitBeforeMarker(t, 15, '권');
    SeriesOfLastDigit(t, 15);
    assert t[..15] == "Mystery Series ";
  }

  /** A title with no digit before the marker has no series. */
  lemma NoSeriesExample(t: string)
    requires t == "Mystery Series"
    ensures DetectSeries(t) == None
  {
    assert Marker(t) == '화';
    forall d | 0 <= d < |t|
      ensures t[d] != '화'
    {
    }
    SeriesMatchesIff(t);
  }
}
