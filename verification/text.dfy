/** The Python string and list built-ins the worker relies on: substring
    search (`in`), `split`, `join`, `replace`, `strip`, `lower`, `int()` and
    "first element of a filtered list", each stated once and reused by every
    component of the model.
 */
module Text {
  import opened Wrappers

  // ---------------------------------------------------------------------
  // Occurrences of a pattern
  // ---------------------------------------------------------------------

  /** `p` occurs in `s` starting at index `j`. */
  predicate OccursAt(s: string, p: string, j: int) {
    0 <= j && j + |p| <= |s| && s[j..j + |p|] == p
  }

  /** Python's `p in s` for strings. */
  predicate Contains(s: string, p: string) {
    exists j :: 0 <= j <= |s| - |p| && OccursAt(s, p, j)
  }

  predicate StartsWith(s: string, p: string) {
    |p| <= |s| && s[..|p|] == p
  }

  predicate EndsWith(s: string, p: string) {
    |p| <= |s| && s[|s| - |p|..] == p
  }

  /** No character occurs in both strings. */
  predicate DisjointChars(a: string, b: string) {
    forall c :: c in a ==> c !in b
  }

  lemma OccursShift(s: string, p: string, j: nat)
    requires |s| > 0
    ensures OccursAt(s[1..], p, j) <==> OccursAt(s, p, j + 1)
  {
    if j + |p| <= |s| - 1 {
      assert s[1..][j..j + |p|] == s[j + 1..j + 1 + |p|];
    }
  }

  /** Leftmost occurrence of `p` in `s`, as `str.find` computes it. */
  function Find(s: string, p: string): (r: Option<nat>)
    ensures r.Some? ==> OccursAt(s, p, r.value)
    ensures r.Some? ==> forall j :: 0 <= j < r.value ==> !OccursAt(s, p, j)
    ensures r.None? ==> forall j :: !OccursAt(s, p, j)
    decreases |s|
  {
    if |s| < |p| then None
    else if s[..|p|] == p then Some(0)
    else
      var rest := Find(s[1..], p);
      assert !OccursAt(s, p, 0);
      assert forall j :: 1 <= j ==> (OccursAt(s, p, j) <==> OccursAt(s[1..], p, j - 1)) by {
        forall j | 1 <= j
          ensures OccursAt(s, p, j) <==> OccursAt(s[1..], p, j - 1)
        {
          OccursShift(s, p, j - 1);
        }
      }
      match rest
      case None => None
      case Some(k) => Some(k + 1)
  }

  lemma FindContains(s: string, p: string)
    ensures Find(s, p).Some? <==> Contains(s, p)
  {
    if Find(s, p).Some? {
      assert OccursAt(s, p, Find(s, p).value);
    }
  }

  /** An occurrence inside `s[..k]` is an occurrence inside `s`. */
  lemma OccursInPrefix(s: string, p: string, k: nat, j: int)
    requires k <= |s|
    requires OccursAt(s[..k], p, j)
    ensures OccursAt(s, p, j)
  {
    assert s[..k][j..j + |p|] == s[j..j + |p|];
  }

  // ---------------------------------------------------------------------
  // split, join, replace
  // ---------------------------------------------------------------------

  /** `sep.join(parts)`. */
  function Join(parts: seq<string>, sep: string): string
    decreases |parts|
  {
    if |parts| == 0 then []
    else if |parts| == 1 then parts[0]
    else parts[0] + sep + Join(parts[1..], sep)
  }

  lemma JoinCons(parts: seq<string>, sep: string)
    requires |parts| > 1
    ensures Join(parts, sep) == parts[0] + sep + Join(parts[1..], sep)
  {
  }

  /** `s.split(sep)` for a non-empty separator (Python raises on an empty
      one): the pieces between leftmost non-overlapping occurrences. */
  function Split(s: string, sep: string): (parts: seq<string>)
    requires |sep| > 0
    ensures |parts| >= 1
    ensures Join(parts, sep) == s
    ensures forall i :: 0 <= i < |parts| ==> !Contains(parts[i], sep)
    ensures forall i :: 0 <= i < |parts| - 1 ==> !Contains(parts[i] + sep[..|sep| - 1], sep)
    decreases |s|
  {
    match Find(s, sep)
    case None =>
      FindContains(s, sep);
      [s]
    case Some(k) =>
      assert !Contains(s[..k], sep) by {
        forall j | 0 <= j <= k - |sep| && OccursAt(s[..k], sep, j)
          ensures false
        {
          OccursInPrefix(s, sep, k, j);
        }
      }
      assert !Contains(s[..k] + sep[..|sep| - 1], sep) by {
        LeftmostCut(s, sep, k);
      }
      var rest := Split(s[k + |sep|..], sep);
      var parts := [s[..k]] + rest;
      assert parts[1..] == rest;
      assert s == s[..k] + sep + s[k + |sep|..] by {
        assert s[k..k + |sep|] == sep;
      }
      SplitCons(s[..k], rest, sep);
      parts
  }

  /** Putting a piece in front keeps both separator-free properties. */
  lemma SplitCons(h: string, rest: seq<string>, sep: string)
    requires |sep| > 0
    requires !Contains(h, sep) && !Contains(h + sep[..|sep| - 1], sep)
    requires forall i :: 0 <= i < |rest| ==> !Contains(rest[i], sep)
    requires forall i :: 0 <= i < |rest| - 1 ==> !Contains(rest[i] + sep[..|sep| - 1], sep)
    ensures var parts := [h] + rest;
            && (forall i :: 0 <= i < |parts| ==> !Contains(parts[i], sep))
            && (forall i :: 0 <= i < |parts| - 1 ==> !Contains(parts[i] + sep[..|sep| - 1], sep))
  {
    var parts := [h] + rest;
    forall i | 0 < i < |parts| ensures parts[i] == rest[i - 1] {
    }
  }

  /** Before the leftmost occurrence at `k`, no occurrence starts: not even
      one that runs into the separator itself. */
  lemma LeftmostCut(s: string, sep: string, k: nat)
    requires |sep| > 0 && Find(s, sep) == Some(k)
    ensures !Contains(s[..k] + sep[..|sep| - 1], sep)
  {
    var pre := s[..k] + sep[..|sep| - 1];
    assert pre == s[..k + |sep| - 1] by {
      assert s[k..k + |sep|] == sep;
      assert s[..k + |sep| - 1] == s[..k] + s[k..k + |sep| - 1];
    }
    forall j | 0 <= j <= |pre| - |sep| && OccursAt(pre, sep, j)
      ensures false
    {
      OccursInPrefix(s, sep, k + |sep| - 1, j);
    }
  }

  /** Python's `s.replace(target, repl)`, which is `repl.join(s.split(target))`. */
  function Replace(s: string, target: string, repl: string): string
    requires |target| > 0
  {
    Join(Split(s, target), repl)
  }

  /** An occurrence of `p` in `x + y` that stays inside `x` or inside `y`. */
  lemma ContainsConcat(x: string, y: string, p: string)
    ensures Contains(x, p) ==> Contains(x + y, p)
    ensures Contains(y, p) ==> Contains(x + y, p)
  {
    if Contains(x, p) {
      var j :| 0 <= j <= |x| - |p| && OccursAt(x, p, j);
      assert (x + y)[j..j + |p|] == x[j..j + |p|];
      assert OccursAt(x + y, p, j);
    }
    if Contains(y, p) {
      var j :| 0 <= j <= |y| - |p| && OccursAt(y, p, j);
      assert (x + y)[|x| + j..|x| + j + |p|] == y[j..j + |p|];
      assert OccursAt(x + y, p, |x| + j);
    }
  }

  /** Every piece of a join is a substring of the joined text. */
  lemma {:induction false} ContainsInJoin(parts: seq<string>, sep: string, p: string, i: nat)
    requires i < |parts|
    requires Contains(parts[i], p)
    ensures Contains(Join(parts, sep), p)
    decreases |parts|
  {
    if |parts| == 1 {
    } else if i == 0 {
      ContainsConcat(parts[0], sep + Join(parts[1..], sep), p);
      assert parts[0] + sep + Join(parts[1..], sep) == parts[0] + (sep + Join(parts[1..], sep));
    } else {
      ContainsInJoin(parts[1..], sep, p, i - 1);
      ContainsConcat(parts[0] + sep, Join(parts[1..], sep), p);
    }
  }

  /** A pattern that shares no character with a non-empty separator cannot
      straddle it. */
  lemma ConcatAvoids(x: string, sep: string, y: string, p: string)
    requires |p| > 0 && |sep| > 0
    requires DisjointChars(sep, p)
    requires !Contains(x, p) && !Contains(y, p)
    ensures !Contains(x + sep + y, p)
  {
    var s := x + sep + y;
    forall j | 0 <= j <= |s| - |p|
      ensures !OccursAt(s, p, j)
    {
      if j + |p| <= |x| {
        assert s[j..j + |p|] == x[j..j + |p|];
        assert !OccursAt(x, p, j);
      } else if j >= |x| + |sep| {
        var j' := j - |x| - |sep|;
        assert s[j..j + |p|] == y[j'..j' + |p|];
        assert !OccursAt(y, p, j');
      } else {
        var q := if j < |x| then |x| else j;
        assert s[j..j + |p|][q - j] == sep[q - |x|];
        assert sep[q - |x|] in sep;
        assert p[q - j] in p;
      }
    }
  }

  /** Joining pieces free of `p` with a separator that shares no character
      with `p` yields a text free of `p`. */
  lemma {:induction false} JoinAvoids(parts: seq<string>, sep: string, p: string)
    requires |p| > 0 && |sep| > 0
    requires DisjointChars(sep, p)
    requires forall i :: 0 <= i < |parts| ==> !Contains(parts[i], p)
    ensures !Contains(Join(parts, sep), p)
    decreases |parts|
  {
    if |parts| == 0 {
    } else if |parts| == 1 {
    } else {
      JoinAvoids(parts[1..], sep, p);
      ConcatAvoids(parts[0], sep, Join(parts[1..], sep), p);
    }
  }

  /** After `s.replace(target, repl)` no `target` is left, provided `repl` cannot
      take part in a fresh occurrence of `target`. */
  lemma ReplaceRemoves(s: string, target: string, repl: string)
    requires |target| > 0 && |repl| > 0
    requires DisjointChars(repl, target)
    ensures !Contains(Replace(s, target, repl), target)
  {
    JoinAvoids(Split(s, target), repl, target);
  }

  /** `s.replace(target, repl)` never creates an occurrence of a pattern `p`
      that shares no character with `repl`. */
  lemma ReplaceKeepsAbsent(s: string, target: string, repl: string, p: string)
    requires |target| > 0 && |repl| > 0 && |p| > 0
    requires DisjointChars(repl, p)
    requires !Contains(s, p)
    ensures !Contains(Replace(s, target, repl), p)
  {
    var parts := Split(s, target);
    forall i | 0 <= i < |parts|
      ensures !Contains(parts[i], p)
    {
      if Contains(parts[i], p) {
        ContainsInJoin(parts, target, p, i);
      }
    }
    JoinAvoids(parts, repl, p);
  }

  /** A text without any occurrence of the separator splits into itself. */
  lemma SplitAbsent(s: string, sep: string)
    requires |sep| > 0
    requires !Contains(s, sep)
    ensures Split(s, sep) == [s]
  {
    FindContains(s, sep);
  }

  /** `split` cuts at the leftmost occurrence of the separator. */
  lemma SplitCut(s: string, sep: string, k: nat)
    requires |sep| > 0 && Find(s, sep) == Some(k)
    ensures Split(s, sep) == [s[..k]] + Split(s[k + |sep|..], sep)
  {
  }

  /** Replacing a character sequence that a text misses leaves the text
      as it is. */
  lemma ReplaceMissingChar(s: string, target: string, k: nat, repl: string)
    requires k < |target| && target[k] !in s
    ensures Replace(s, target, repl) == s
  {
    MissingCharNoOccurrence(s, target, k);
    SplitAbsent(s, target);
  }

  /** Replacing a whole text by `repl` gives `repl`. */
  lemma ReplaceWhole(s: string, repl: string)
    requires |s| > 0
    ensures Replace(s, s, repl) == repl
  {
    assert Find(s, s) == Some(0);
    assert s[|s|..] == [];
    SplitAbsent([], s);
    assert Split(s, s) == [[], []];
    assert Join([[], []], repl) == repl;
  }

  /** Joining pieces that lack `c` with `[c]` puts exactly one `c` between
      consecutive pieces. */
  lemma {:induction false} JoinCharCount(parts: seq<string>, c: char)
    requires |parts| >= 1
    requires forall i :: 0 <= i < |parts| ==> c !in parts[i]
    ensures multiset(Join(parts, [c]))[c] == |parts| - 1
    decreases |parts|
  {
    assert c !in parts[0];
    if |parts| > 1 {
      JoinCharCount(parts[1..], c);
      var tail := Join(parts[1..], [c]);
      assert Join(parts, [c]) == parts[0] + [c] + tail;
      assert multiset(parts[0] + [c] + tail) == multiset(parts[0]) + multiset([c]) + multiset(tail);
    }
  }

  /** Python's `s.split(c)` for a one-character separator yields one piece
      more than there are separators in `s`. */
  lemma SplitCharCount(s: string, c: char)
    ensures |Split(s, [c])| == multiset(s)[c] + 1
  {
    var parts := Split(s, [c]);
    forall i | 0 <= i < |parts|
      ensures c !in parts[i]
    {
      NoCharMeansNoOccurrence(parts[i], c);
    }
    JoinCharCount(parts, c);
  }

  /** For one character, `[c] in s` is membership. */
  lemma NoCharMeansNoOccurrence(s: string, c: char)
    ensures !Contains(s, [c]) <==> c !in s
  {
    if c in s {
      var j :| 0 <= j < |s| && s[j] == c;
      assert OccursAt(s, [c], j);
    }
    if Contains(s, [c]) {
      var j :| 0 <= j <= |s| - 1 && OccursAt(s, [c], j);
      assert s[j] == s[j..j + 1][0];
    }
  }

  /** A pattern one of whose characters is missing from `s` does not occur
      in `s`. */
  lemma MissingCharNoOccurrence(s: string, p: string, k: nat)
    requires k < |p|
    requires p[k] !in s
    ensures !Contains(s, p)
  {
    forall j | 0 <= j <= |s| - |p|
      ensures !OccursAt(s, p, j)
    {
      assert s[j..j + |p|][k] == s[j + k];
    }
  }

  /** A separator first occurs right after a piece that lacks its first
      character. */
  lemma FindSepAfterPiece(p: string, sep: string, rest: string)
    requires |sep| > 0
    requires sep[0] !in p
    ensures Find(p + sep + rest, sep) == Some(|p|)
  {
    var s := p + sep + rest;
    assert OccursAt(s, sep, |p|) by {
      assert s[|p|..|p| + |sep|] == sep;
    }
    forall k | 0 <= k < |p|
      ensures !OccursAt(s, sep, k)
    {
      if k + |sep| <= |s| {
        assert s[k..k + |sep|][0] == p[k];
      }
      assert p[k] in p;
    }
  }

  /** The split of a piece, a separator and the rest begins with the piece
      when the piece lacks the separator's first character. */
  lemma SplitAfterPiece(p: string, sep: string, rest: string)
    requires |sep| > 0
    requires sep[0] !in p
    ensures Split(p + sep + rest, sep) == [p] + Split(rest, sep)
  {
    var s := p + sep + rest;
    FindSepAfterPiece(p, sep, rest);
    assert s[..|p|] == p;
    assert s[|p| + |sep|..] == rest;
  }

  /** Splitting inverts a join whose pieces lack the separator's first
      character. */
  lemma {:induction false} SplitJoin(parts: seq<string>, sep: string)
    requires |parts| >= 1 && |sep| > 0
    requires forall i :: 0 <= i < |parts| ==> sep[0] !in parts[i]
    ensures Split(Join(parts, sep), sep) == parts
    decreases |parts|
  {
    if |parts| == 1 {
      MissingCharNoOccurrence(parts[0], sep, 0);
      SplitAbsent(parts[0], sep);
    } else {
      var tail := parts[1..];
      assert Split(Join(parts, sep), sep) == [parts[0]] + Split(Join(tail, sep), sep) by {
        JoinCons(parts, sep);
        SplitAfterPiece(parts[0], sep, Join(tail, sep));
      }
      assert Split(Join(tail, sep), sep) == tail by {
        SplitJoin(tail, sep);
      }
      assert parts == [parts[0]] + tail;
    }
  }

  /** A character absent from every piece and from the separator is absent
      from the join. */
  lemma {:induction false} JoinLacksChar(parts: seq<string>, sep: string, c: char)
    requires c !in sep
    requires forall i :: 0 <= i < |parts| ==> c !in parts[i]
    ensures c !in Join(parts, sep)
    decreases |parts|
  {
    if |parts| > 1 {
      JoinLacksChar(parts[1..], sep, c);
    }
  }

  // ---------------------------------------------------------------------
  // strip and lower
  // ---------------------------------------------------------------------

  /** Python's `str.isspace()` for one character: the characters `strip()`
      and `int()` remove. */
  predicate IsSpace(c: char) {
    || c == ' ' || c == '\t' || c == '\n' || c == '\r'
    || c == '\U{0B}' || c == '\U{0C}'
    || ('\U{1C}' <= c <= '\U{1F}')
    || c == '\U{85}' || c == '\U{A0}' || c == '\U{1680}'
    || ('\U{2000}' <= c <= '\U{200A}')
    || c == '\U{2028}' || c == '\U{2029}' || c == '\U{202F}' || c == '\U{205F}'
    || c == '\U{3000}'
  }

  predicate AllSpace(s: string) {
    forall i :: 0 <= i < |s| ==> IsSpace(s[i])
  }

  /** Neither end of `s` is whitespace: what `strip()` leaves. */
  predicate IsStripped(s: string) {
    |s| > 0 ==> !IsSpace(s[0]) && !IsSpace(s[|s| - 1])
  }

  /** The first index at or after `i` that does not hold whitespace. */
  function SkipSpaces(s: string, i: nat): (j: nat)
    requires i <= |s|
    ensures i <= j <= |s|
    ensures forall k :: i <= k < j ==> IsSpace(s[k])
    ensures j < |s| ==> !IsSpace(s[j])
    decreases |s| - i
  {
    if i < |s| && IsSpace(s[i]) then SkipSpaces(s, i + 1) else i
  }

  /** The end of `s[a..j]` once its trailing whitespace is dropped. */
  function TrimEnd(s: string, a: nat, j: nat): (e: nat)
    requires a <= j <= |s|
    ensures a <= e <= j
    ensures forall k :: e <= k < j ==> IsSpace(s[k])
    ensures e > a ==> !IsSpace(s[e - 1])
    decreases j
  {
    if j > a && IsSpace(s[j - 1]) then TrimEnd(s, a, j - 1) else j
  }

  /** Where the text `strip()` keeps begins and ends. */
  function StripStart(s: string): nat
    ensures StripStart(s) <= |s|
  {
    SkipSpaces(s, 0)
  }

  function StripEnd(s: string): (e: nat)
    ensures StripStart(s) <= e <= |s|
  {
    TrimEnd(s, StripStart(s), |s|)
  }

  /** Python's `str.strip()`: the text between the leading and the trailing
      whitespace. */
  function Strip(s: string): (r: string)
    ensures IsStripped(r)
    ensures |r| <= |s|
  {
    s[StripStart(s)..StripEnd(s)]
  }

  lemma {:induction false} SkipSpacesTo(s: string, i: nat, j: nat)
    requires i <= j <= |s|
    requires forall k :: i <= k < j ==> IsSpace(s[k])
    requires j < |s| ==> !IsSpace(s[j])
    ensures SkipSpaces(s, i) == j
    decreases j - i
  {
    if i < j {
      SkipSpacesTo(s, i + 1, j);
    }
  }

  lemma {:induction false} TrimEndTo(s: string, a: nat, e: nat, j: nat)
    requires a <= e <= j <= |s|
    requires forall k :: e <= k < j ==> IsSpace(s[k])
    requires e > a ==> !IsSpace(s[e - 1])
    ensures TrimEnd(s, a, j) == e
    decreases j - e
  {
    if e < j {
      TrimEndTo(s, a, e, j - 1);
    }
  }

  /** `strip()` undoes padding a stripped text with whitespace. */
  lemma StripPadded(w1: string, p: string, w2: string)
    requires AllSpace(w1) && AllSpace(w2)
    requires IsStripped(p)
    ensures Strip(w1 + p + w2) == p
  {
    var s := w1 + p + w2;
    if |p| > 0 {
      assert forall k :: 0 <= k < |w1| ==> s[k] == w1[k];
      assert s[|w1|] == p[0];
      SkipSpacesTo(s, 0, |w1|);
      assert forall k :: |w1| + |p| <= k < |s| ==> s[k] == w2[k - |w1| - |p|];
      assert s[|w1| + |p| - 1] == p[|p| - 1];
      TrimEndTo(s, |w1|, |w1| + |p|, |s|);
      assert s[|w1|..|w1| + |p|] == p;
    } else {
      assert forall k :: 0 <= k < |s| ==> IsSpace(s[k]) by {
        forall k | 0 <= k < |s|
          ensures IsSpace(s[k])
        {
          if k < |w1| {
            assert s[k] == w1[k];
          } else {
            assert s[k] == w2[k - |w1|];
          }
        }
      }
      SkipSpacesTo(s, 0, |s|);
    }
  }

  /** `strip()` leaves a stripped text alone. */
  lemma StripStripped(p: string)
    requires IsStripped(p)
    ensures Strip(p) == p
  {
    StripPadded([], p, []);
    assert [] + p + [] == p;
  }

  /** `strip()` removes the blank written before an item. */
  lemma StripBlankItem(p: string)
    requires IsStripped(p)
    ensures Strip(" " + p) == p
  {
    StripPadded(" ", p, []);
    assert " " + p + [] == " " + p;
  }

  /** Each piece stripped. */
  function StripAll(parts: seq<string>): (r: seq<string>)
    ensures |r| == |parts|
    ensures forall i {:trigger r[i]} :: 0 <= i < |parts| ==> r[i] == Strip(parts[i])
  {
    seq(|parts|, i requires 0 <= i < |parts| => Strip(parts[i]))
  }

  /** `str.lower()` on one character (letters A to Z). */
  function LowerChar(c: char): char {
    if 'A' <= c <= 'Z' then (c as int + 32) as char else c
  }

  /** `str.lower()`. */
  function Lower(s: string): (r: string)
    ensures |r| == |s|
  {
    seq(|s|, i requires 0 <= i < |s| => LowerChar(s[i]))
  }

  // ---------------------------------------------------------------------
  // int()
  // ---------------------------------------------------------------------

  predicate IsDigit(c: char) {
    '0' <= c <= '9'
  }

  predicate AllDigits(s: string) {
    forall i :: 0 <= i < |s| ==> IsDigit(s[i])
  }

  /** Decimal value of a string of ASCII digits (the empty string is 0). */
  function DigitsValue(s: string): nat
    requires AllDigits(s)
  {
    if |s| == 0 then 0
    else DigitsValue(s[..|s| - 1]) * 10 + (s[|s| - 1] as int - '0' as int)
  }

  /** Python's `int(text)`: surrounding whitespace, then an optional sign,
      then one or more digits. */
  function ParseInt(text: string): Option<int> {
    var t := Strip(text);
    if |t| == 0 then None
    else if t[0] == '+' || t[0] == '-' then
      var ds := t[1..];
      if |ds| > 0 && AllDigits(ds) then
        var v: int := DigitsValue(ds);
        Some(if t[0] == '-' then -v else v)
      else None
    else if AllDigits(t) then Some(DigitsValue(t))
    else None
  }

  function Pow10(n: nat): (r: nat)
    ensures r >= 1
  {
    if n == 0 then 1 else 10 * Pow10(n - 1)
  }

  lemma {:induction false} Pow10Grows(a: nat, b: nat)
    requires a <= b
    ensures Pow10(a) <= Pow10(b)
    decreases b
  {
    if a < b {
      Pow10Grows(a, b - 1);
    }
  }

  /** `n` written with exactly `width` digits, zero-padded on the left
      (`'%0*d' % (width, n)` for `n < 10 ** width`). */
  function PadDigits(n: nat, width: nat): (r: string)
    ensures |r| == width
    ensures AllDigits(r)
  {
    if width == 0 then []
    else PadDigits(n / 10, width - 1) + [('0' as int + n % 10) as char]
  }

  /** The digits of `PadDigits(n, width)` read back as `n`. */
  lemma {:induction false} PadDigitsValue(n: nat, width: nat)
    requires n < Pow10(width)
    ensures DigitsValue(PadDigits(n, width)) == n
  {
    if width > 0 {
      var r := PadDigits(n, width);
      assert r[..|r| - 1] == PadDigits(n / 10, width - 1);
      PadDigitsValue(n / 10, width - 1);
    }
  }

  /** A digit string is the padded rendering of its own value. */
  lemma {:induction false} DigitsValuePad(s: string)
    requires AllDigits(s)
    ensures DigitsValue(s) < Pow10(|s|)
    ensures PadDigits(DigitsValue(s), |s|) == s
  {
    if |s| > 0 {
      var init := s[..|s| - 1];
      DigitsValuePad(init);
      var d := s[|s| - 1] as int - '0' as int;
      var v := DigitsValue(s);
      assert v == DigitsValue(init) * 10 + d;
      assert v / 10 == DigitsValue(init) && v % 10 == d;
      assert s == init + [s[|s| - 1]];
    }
  }

  /** `int()` reads a non-empty string of plain digits as its value. */
  lemma ParseIntDigits(s: string)
    requires |s| > 0 && AllDigits(s)
    ensures ParseInt(s) == Some(DigitsValue(s))
  {
    assert Strip(s) == s by {
      StripPadded([], s, []);
      assert [] + s + [] == s;
    }
    assert IsDigit(s[0]);
  }

  // ---------------------------------------------------------------------
  // Lists
  // ---------------------------------------------------------------------

  /** Index of the first element satisfying `p`: the `[...][0]` of a
      filtered list comprehension, `None` where Python raises `IndexError`. */
  function FirstWhere<T>(s: seq<T>, p: T -> bool): (r: Option<nat>)
    ensures r.Some? ==> r.value < |s| && p(s[r.value])
    ensures r.Some? ==> forall j :: 0 <= j < r.value ==> !p(s[j])
    ensures r.None? ==> forall j :: 0 <= j < |s| ==> !p(s[j])
    decreases |s|
  {
    if |s| == 0 then None
    else if p(s[0]) then Some(0)
    else match FirstWhere(s[1..], p)
      case None => None
      case Some(k) => Some(k + 1)
  }

  /** The elements of `s` that satisfy `p`, in order. */
  function Filter<T>(s: seq<T>, p: T -> bool): (r: seq<T>)
    ensures forall x :: x in r ==> x in s && p(x)
    decreases |s|
  {
    if |s| == 0 then []
    else if p(s[0]) then [s[0]] + Filter(s[1..], p)
    else Filter(s[1..], p)
  }

  /** Filtering by a condition implied by `p` does not change the first
      element satisfying `p`. */
  lemma {:induction false} FirstWhereFilter<T>(s: seq<T>, q: T -> bool, p: T -> bool)
    requires forall x :: p(x) ==> q(x)
    ensures var a := FirstWhere(Filter(s, q), p); var b := FirstWhere(s, p);
            a.Some? == b.Some? && (a.Some? ==> Filter(s, q)[a.value] == s[b.value])
    decreases |s|
  {
    if |s| > 0 {
      FirstWhereFilter(s[1..], q, p);
      if p(s[0]) {
        assert Filter(s, q) == [s[0]] + Filter(s[1..], q);
      } else if q(s[0]) {
        var f := Filter(s, q);
        assert f == [s[0]] + Filter(s[1..], q);
        assert f[1..] == Filter(s[1..], q);
      } else {
        assert Filter(s, q) == Filter(s[1..], q);
      }
    }
  }
}
