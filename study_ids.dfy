/**
 Study-ID extraction (`extract_unique_study_ids`): every occurrence of the
 pattern `[A-EX]-\d{5}-[FMTX]-\d` that `re.findall` reports, without
 duplicates, in ascending code-point order.

 `re.findall` with this fixed-width pattern tries each index from left to
 right; after a hit it resumes right after the 11 matched characters, so a
 candidate that overlaps a reported one is never reported.
 */
module StudyIds {
  import opened Text

  /** Every study ID is exactly this long. */
  const IdLength: nat := 11

  /** One position of a fixed-width regular expression. */
  datatype CharClass =
    | Exactly(c: char)      // a literal character
    | OneOf(chars: string)  // a bracket class such as `[FMTX]`
    | Digit                 // `\d`

  predicate ClassMatches(cc: CharClass, c: char) {
    match cc
    case Exactly(d) => c == d
    case OneOf(chars) => c in chars
    case Digit => IsDigit(c)
  }

  /** `w` matches the fixed-width pattern `p` in full, position by position. */
  predicate MatchesPattern(p: seq<CharClass>, w: string) {
    |p| == |w| && forall k :: 0 <= k < |p| ==> ClassMatches(p[k], w[k])
  }

  /** `STUDY_ID_REGEX`, `[A-EX]-\d{5}-[FMTX]-\d`, one entry per matched character. */
  const StudyIdPattern: seq<CharClass> :=
    [OneOf("ABCDEX"), Exactly('-'), Digit, Digit, Digit, Digit, Digit,
     Exactly('-'), OneOf("FMTX"), Exactly('-'), Digit]

  /** `w` is a study ID: it matches `STUDY_ID_REGEX` in full. */
  predicate IsStudyId(w: string) {
    MatchesPattern(StudyIdPattern, w)
  }

  /**
   The `width` characters of `text` from index `j` on are accepted by `accept`.
   `re.findall` with a fixed-width pattern sees the pattern only through this.
   */
  predicate MatchesAt(accept: string -> bool, width: nat, text: string, j: int) {
    0 <= j && j + width <= |text| && accept(text[j..j + width])
  }

  // ---------------------------------------------------------------------------
  // What a left-to-right, non-overlapping scan for `p` from index i may report
  // ---------------------------------------------------------------------------

  /** Every reported index is at or after `i` and starts a match. */
  predicate AllMatchesFrom(accept: string -> bool, width: nat, text: string, i: int, ps: seq<nat>) {
    forall k :: 0 <= k < |ps| ==> i <= ps[k] && MatchesAt(accept, width, text, ps[k])
  }

  /** Reported matches are in increasing order and never overlap. */
  predicate NonOverlapping(width: nat, ps: seq<nat>) {
    forall a, b :: 0 <= a < b < |ps| ==> ps[a] + width <= ps[b]
  }

  /** Some reported match occupies index `j`. */
  predicate Covered(width: nat, ps: seq<nat>, j: int) {
    exists k :: 0 <= k < |ps| && ps[k] <= j < ps[k] + width
  }

  /** Every match at or after `i` lies inside a reported one. */
  ghost predicate CoversFrom(accept: string -> bool, width: nat, text: string, i: int, ps: seq<nat>) {
    forall j {:trigger Covered(width, ps, j)} :: i <= j && MatchesAt(accept, width, text, j) ==> Covered(width, ps, j)
  }

  /**
   The start indices of the accepted windows that `re.findall` reports from
   index `i` on: try each index in turn and, after a hit, resume right after it.
   */
  function MatchStarts(accept: string -> bool, width: nat, text: string, i: nat): (ps: seq<nat>)
    requires width > 0
    ensures AllMatchesFrom(accept, width, text, i, ps)
    ensures NonOverlapping(width, ps)
    decreases |text| - i
  {
    if i + width > |text| then []
    else if MatchesAt(accept, width, text, i) then
      SoundAfterHit(accept, width, text, i, MatchStarts(accept, width, text, i + width));
      [i] + MatchStarts(accept, width, text, i + width)
    else MatchStarts(accept, width, text, i + 1)
  }

  /** A match at `i` followed by sound, disjoint reports from `i + width` on is sound and disjoint. */
  lemma SoundAfterHit(accept: string -> bool, width: nat, text: string, i: nat, rest: seq<nat>)
    requires MatchesAt(accept, width, text, i)
    requires AllMatchesFrom(accept, width, text, i + width, rest) && NonOverlapping(width, rest)
    ensures AllMatchesFrom(accept, width, text, i, [i] + rest) && NonOverlapping(width, [i] + rest)
  {
    var ps := [i] + rest;
    forall k | 0 < k < |ps|
      ensures ps[k] == rest[k - 1]
    {
    }
  }

  lemma CoveredHead(width: nat, i: nat, rest: seq<nat>, j: int)
    requires i <= j < i + width
    ensures Covered(width, [i] + rest, j)
  {
    assert ([i] + rest)[0] == i;
  }

  lemma CoveredCons(width: nat, i: nat, rest: seq<nat>, j: int)
    requires Covered(width, rest, j)
    ensures Covered(width, [i] + rest, j)
  {
    var k :| 0 <= k < |rest| && rest[k] <= j < rest[k] + width;
    assert ([i] + rest)[k + 1] == rest[k];
  }

  /** A match at `i` followed by covering reports from `i + width` on covers everything from `i` on. */
  lemma CoverAfterHit(accept: string -> bool, width: nat, text: string, i: nat, rest: seq<nat>)
    requires CoversFrom(accept, width, text, i + width, rest)
    ensures CoversFrom(accept, width, text, i, [i] + rest)
  {
    forall j | i <= j && MatchesAt(accept, width, text, j)
      ensures Covered(width, [i] + rest, j)
    {
      if j < i + width {
        CoveredHead(width, i, rest, j);
      } else {
        CoveredCons(width, i, rest, j);
      }
    }
  }

  /** Without a match at `i`, covering from `i + 1` on covers from `i` on. */
  lemma CoverAfterMiss(accept: string -> bool, width: nat, text: string, i: nat, ps: seq<nat>)
    requires CoversFrom(accept, width, text, i + 1, ps) && !MatchesAt(accept, width, text, i)
    ensures CoversFrom(accept, width, text, i, ps)
  {
  }

  /** The scan misses no match: each one is reported or overlaps a reported one. */
  lemma {:induction false} MatchStartsCover(accept: string -> bool, width: nat, text: string, i: nat)
    requires width > 0
    ensures CoversFrom(accept, width, text, i, MatchStarts(accept, width, text, i))
    decreases |text| - i
  {
    if i + width > |text| {
    } else if MatchesAt(accept, width, text, i) {
      MatchStartsCover(accept, width, text, i + width);
      CoverAfterHit(accept, width, text, i, MatchStarts(accept, width, text, i + width));
    } else {
      MatchStartsCover(accept, width, text, i + 1);
      CoverAfterMiss(accept, width, text, i, MatchStarts(accept, width, text, i + 1));
    }
  }

  /** Without any match from `i` on, the scan reports nothing. */
  lemma {:induction false} NoMatchNoStarts(accept: string -> bool, width: nat, text: string, i: nat)
    requires width > 0
    requires forall j :: i <= j ==> !MatchesAt(accept, width, text, j)
    ensures MatchStarts(accept, width, text, i) == []
    decreases |text| - i
  {
    if i + width <= |text| {
      NoMatchNoStarts(accept, width, text, i + 1);
    }
  }

  lemma FirstReport(accept: string -> bool, width: nat, text: string, i: int, ps: seq<nat>)
    requires AllMatchesFrom(accept, width, text, i, ps) && |ps| > 0
    ensures i <= ps[0] && MatchesAt(accept, width, text, ps[0])
  {
  }

  /** Non-overlapping reports never start before the first one. */
  lemma FirstIsLeast(width: nat, ps: seq<nat>, k: int)
    requires NonOverlapping(width, ps) && 0 <= k < |ps|
    ensures ps[0] <= ps[k]
  {
    if k > 0 {
      assert ps[0] + width <= ps[k];
    }
  }

  /** A match at the scan position is the first report. */
  lemma MatchReportedFirst(accept: string -> bool, width: nat, text: string, i: nat, ps: seq<nat>)
    requires AllMatchesFrom(accept, width, text, i, ps) && NonOverlapping(width, ps)
    requires CoversFrom(accept, width, text, i, ps) && MatchesAt(accept, width, text, i)
    ensures |ps| > 0 && ps[0] == i
  {
    assert Covered(width, ps, i);
    var k :| 0 <= k < |ps| && ps[k] <= i < ps[k] + width;
    FirstReport(accept, width, text, i, ps);
    FirstIsLeast(width, ps, k);
  }

  /** Dropping the first report keeps the rest sound, from just after it. */
  lemma ReportsAfterFirstSound(accept: string -> bool, width: nat, text: string, i: nat, ps: seq<nat>)
    requires AllMatchesFrom(accept, width, text, i, ps) && NonOverlapping(width, ps)
    requires |ps| > 0 && ps[0] == i
    ensures AllMatchesFrom(accept, width, text, i + width, ps[1..])
  {
    forall m | 0 <= m < |ps| - 1
      ensures i + width <= ps[1..][m] && MatchesAt(accept, width, text, ps[1..][m])
    {
      assert ps[1..][m] == ps[m + 1];
      assert ps[0] + width <= ps[m + 1];
    }
  }

  /** Dropping the first report keeps the rest non-overlapping. */
  lemma ReportsAfterFirstDisjoint(width: nat, ps: seq<nat>)
    requires NonOverlapping(width, ps) && |ps| > 0
    ensures NonOverlapping(width, ps[1..])
  {
    forall a, b | 0 <= a < b < |ps| - 1
      ensures ps[1..][a] + width <= ps[1..][b]
    {
      assert ps[1..][a] == ps[a + 1] && ps[1..][b] == ps[b + 1];
    }
  }

  /** Dropping the first report keeps every later match covered. */
  lemma ReportsAfterFirstCover(accept: string -> bool, width: nat, text: string, i: nat, ps: seq<nat>)
    requires CoversFrom(accept, width, text, i, ps) && |ps| > 0 && ps[0] == i
    ensures CoversFrom(accept, width, text, i + width, ps[1..])
  {
    forall j | i + width <= j && MatchesAt(accept, width, text, j)
      ensures Covered(width, ps[1..], j)
    {
      assert Covered(width, ps, j);
      var m :| 0 <= m < |ps| && ps[m] <= j < ps[m] + width;
      assert m != 0;
      assert ps[1..][m - 1] == ps[m];
    }
  }

  /** Without a match at `i`, the reports describe the scan from `i + 1` just as well. */
  lemma ReportsSkipNonMatch(accept: string -> bool, width: nat, text: string, i: nat, ps: seq<nat>)
    requires AllMatchesFrom(accept, width, text, i, ps) && CoversFrom(accept, width, text, i, ps)
    requires !MatchesAt(accept, width, text, i)
    ensures AllMatchesFrom(accept, width, text, i + 1, ps) && CoversFrom(accept, width, text, i + 1, ps)
  {
    forall m | 0 <= m < |ps|
      ensures i + 1 <= ps[m]
    {
      assert MatchesAt(accept, width, text, ps[m]);
    }
  }

  /** No window fits from `i` on, so sound reports are empty. */
  lemma NoRoomNoReports(accept: string -> bool, width: nat, text: string, i: nat, ps: seq<nat>)
    requires AllMatchesFrom(accept, width, text, i, ps) && i + width > |text|
    ensures ps == []
  {
    if |ps| > 0 {
      FirstReport(accept, width, text, i, ps);
    }
  }

  /** One step of the scan at a match: the report at `i`, then the scan from `i + width`. */
  lemma ScanStepHit(accept: string -> bool, width: nat, text: string, i: nat, rest: seq<nat>)
    requires width > 0 && MatchesAt(accept, width, text, i)
    requires rest == MatchStarts(accept, width, text, i + width)
    ensures [i] + rest == MatchStarts(accept, width, text, i)
  {
  }

  /** One step of the scan past a non-match. */
  lemma ScanStepMiss(accept: string -> bool, width: nat, text: string, i: nat, ps: seq<nat>)
    requires width > 0 && i + width <= |text| && !MatchesAt(accept, width, text, i)
    requires ps == MatchStarts(accept, width, text, i + 1)
    ensures ps == MatchStarts(accept, width, text, i)
  {
  }

  /**
   Sound, non-overlapping and covering reports are unique: they are exactly
   what the left-to-right scan reports.
   */
  lemma {:induction false} MatchStartsUnique(accept: string -> bool, width: nat, text: string, i: nat, ps: seq<nat>)
    requires width > 0
    requires AllMatchesFrom(accept, width, text, i, ps)
    requires NonOverlapping(width, ps)
    requires CoversFrom(accept, width, text, i, ps)
    ensures ps == MatchStarts(accept, width, text, i)
    decreases |text| - i, 1
  {
    if i + width > |text| {
      NoRoomNoReports(accept, width, text, i, ps);
    } else if MatchesAt(accept, width, text, i) {
      ReportsAfterHit(accept, width, text, i, ps);
      UniqueAtHit(accept, width, text, i, ps[1..]);
      assert ps == [i] + ps[1..];
    } else {
      UniqueAtMiss(accept, width, text, i, ps);
    }
  }

  /** Reports describing the scan from a match at `i`: `i` first, then reports describing the scan from `i + width`. */
  lemma ReportsAfterHit(accept: string -> bool, width: nat, text: string, i: nat, ps: seq<nat>)
    requires MatchesAt(accept, width, text, i)
    requires AllMatchesFrom(accept, width, text, i, ps)
    requires NonOverlapping(width, ps)
    requires CoversFrom(accept, width, text, i, ps)
    ensures |ps| > 0 && ps[0] == i
    ensures AllMatchesFrom(accept, width, text, i + width, ps[1..])
    ensures NonOverlapping(width, ps[1..])
    ensures CoversFrom(accept, width, text, i + width, ps[1..])
  {
    MatchReportedFirst(accept, width, text, i, ps);
    ReportsAfterFirstSound(accept, width, text, i, ps);
    ReportsAfterFirstDisjoint(width, ps);
    ReportsAfterFirstCover(accept, width, text, i, ps);
  }

  lemma {:induction false} UniqueAtHit(accept: string -> bool, width: nat, text: string, i: nat, rest: seq<nat>)
    requires width > 0 && i + width <= |text| && MatchesAt(accept, width, text, i)
    requires AllMatchesFrom(accept, width, text, i + width, rest)
    requires NonOverlapping(width, rest)
    requires CoversFrom(accept, width, text, i + width, rest)
    ensures [i] + rest == MatchStarts(accept, width, text, i)
    decreases |text| - i, 0
  {
    MatchStartsUnique(accept, width, text, i + width, rest);
    ScanStepHit(accept, width, text, i, rest);
  }

  lemma {:induction false} UniqueAtMiss(accept: string -> bool, width: nat, text: string, i: nat, ps: seq<nat>)
    requires width > 0 && i + width <= |text| && !MatchesAt(accept, width, text, i)
    requires AllMatchesFrom(accept, width, text, i, ps)
    requires NonOverlapping(width, ps)
    requires CoversFrom(accept, width, text, i, ps)
    ensures ps == MatchStarts(accept, width, text, i)
    decreases |text| - i, 0
  {
    ReportsSkipNonMatch(accept, width, text, i, ps);
    MatchStartsUnique(accept, width, text, i + 1, ps);
    ScanStepMiss(accept, width, text, i, ps);
  }

  /** The `width`-character windows of `text` at the indices `ps`. */
  function Windows(text: string, width: nat, ps: seq<nat>): (ws: seq<string>)
    requires forall k :: 0 <= k < |ps| ==> ps[k] + width <= |text|
    ensures |ws| == |ps|
    ensures forall k :: 0 <= k < |ps| ==> ws[k] == text[ps[k]..ps[k] + width]
  {
    seq(|ps|, k requires 0 <= k < |ps| => text[ps[k]..ps[k] + width])
  }

  /** `re.findall(STUDY_ID_REGEX, text)`: the reported matches, left to right. */
  function FindAll(text: string): (ws: seq<string>)
    ensures forall w :: w in ws ==> IsStudyId(w) && IsSubstring(w, text)
  {
    var ps := MatchStarts(IsStudyId, IdLength, text, 0);
    var ws := Windows(text, IdLength, ps);
    assert forall k :: 0 <= k < |ws| ==> OccursAt(ws[k], text, ps[k]);
    ws
  }

  // ---------------------------------------------------------------------------
  // sorted(set(...)): the distinct elements in ascending order
  // ---------------------------------------------------------------------------

  function Elements(s: seq<string>): set<string> {
    set x | x in s
  }

  lemma ElementsEmpty(s: seq<string>)
    ensures Elements(s) == {} <==> s == []
  {
    if s != [] {
      assert s[0] in Elements(s);
    }
  }

  predicate StrictlyIncreasing(s: seq<string>) {
    forall a, b :: 0 <= a < b < |s| ==> Less(s[a], s[b])
  }

  lemma AboveFirst(s: seq<string>)
    requires StrictlyIncreasing(s) && |s| > 0
    ensures forall x :: x in s[1..] ==> Less(s[0], x)
  {
    forall x | x in s[1..]
      ensures Less(s[0], x)
    {
      var m :| 0 <= m < |s[1..]| && s[1..][m] == x;
      assert s[m + 1] == x;
    }
  }

  lemma BelowAll(x: string, s: seq<string>)
    requires StrictlyIncreasing(s) && |s| > 0 && Less(x, s[0])
    ensures forall k :: 0 <= k < |s| ==> Less(x, s[k])
  {
    forall k | 0 < k < |s|
      ensures Less(x, s[k])
    {
      LessTransitive(x, s[0], s[k]);
    }
  }

  /** The tail of an ascending list is ascending and holds everything but the head. */
  lemma TailIncreasing(s: seq<string>)
    requires StrictlyIncreasing(s) && |s| > 0
    ensures StrictlyIncreasing(s[1..])
    ensures Elements(s) == {s[0]} + Elements(s[1..])
  {
    forall a, b | 0 <= a < b < |s| - 1
      ensures Less(s[1..][a], s[1..][b])
    {
      assert s[1..][a] == s[a + 1] && s[1..][b] == s[b + 1];
    }
    assert s == [s[0]] + s[1..];
  }

  /** Putting a string below all elements in front of an ascending list keeps it ascending. */
  lemma ConsIncreasing(h: string, t: seq<string>)
    requires StrictlyIncreasing(t)
    requires forall y :: y in t ==> Less(h, y)
    ensures StrictlyIncreasing([h] + t)
    ensures Elements([h] + t) == {h} + Elements(t)
  {
    var r := [h] + t;
    forall a, b | 0 <= a < b < |r|
      ensures Less(r[a], r[b])
    {
      assert r[b] == t[b - 1];
      if a > 0 {
        assert r[a] == t[a - 1];
      }
    }
  }

  /** Everything inserted into the tail of an ascending list lies above its head. */
  lemma HeadBelowInserted(h: string, rest: seq<string>, x: string, t: seq<string>)
    requires forall y :: y in rest ==> Less(h, y)
    requires Less(h, x)
    requires Elements(t) == Elements(rest) + {x}
    ensures forall y :: y in t ==> Less(h, y)
  {
    forall y | y in t
      ensures Less(h, y)
    {
      assert y in Elements(t);
      if y != x {
        assert y in Elements(rest);
      }
    }
  }

  /** Adds `x` to an ascending list of distinct strings, keeping it so. */
  function Insert(s: seq<string>, x: string): (r: seq<string>)
    requires StrictlyIncreasing(s)
    ensures StrictlyIncreasing(r)
    ensures Elements(r) == Elements(s) + {x}
  {
    if |s| == 0 then [x]
    else if x == s[0] then s
    else if Less(x, s[0]) then
      BelowAll(x, s);
      ConsIncreasing(x, s);
      [x] + s
    else
      LessTotal(x, s[0]);
      AboveFirst(s);
      TailIncreasing(s);
      var tail := Insert(s[1..], x);
      HeadBelowInserted(s[0], s[1..], x, tail);
      ConsIncreasing(s[0], tail);
      [s[0]] + tail
  }

  /** `sorted(set(xs))`: the distinct elements of `xs`, ascending. */
  function SortedUnique(xs: seq<string>): (r: seq<string>)
    ensures StrictlyIncreasing(r)
    ensures Elements(r) == Elements(xs)
  {
    if |xs| == 0 then []
    else
      var init := xs[..|xs| - 1];
      assert xs == init + [xs[|xs| - 1]];
      Insert(SortedUnique(init), xs[|xs| - 1])
  }

  /** An ascending list of distinct strings is determined by its elements. */
  lemma {:induction false} StrictlyIncreasingUnique(r1: seq<string>, r2: seq<string>)
    requires StrictlyIncreasing(r1) && StrictlyIncreasing(r2)
    requires Elements(r1) == Elements(r2)
    ensures r1 == r2
    decreases |r1|
  {
    if |r1| == 0 {
      ElementsEmpty(r1);
      ElementsEmpty(r2);
    } else {
      assert r1[0] in Elements(r1);
      assert |r2| > 0;
      assert r2[0] in Elements(r2);
      var i :| 0 <= i < |r1| && r1[i] == r2[0];
      var j :| 0 <= j < |r2| && r2[j] == r1[0];
      if i != 0 && j != 0 {
        LessAsymmetric(r1[0], r1[i]);
        assert false;
      }
      assert r1[0] == r2[0];
      AboveFirst(r1);
      AboveFirst(r2);
      LessIrreflexive(r1[0]);
      assert r1 == [r1[0]] + r1[1..] && r2 == [r2[0]] + r2[1..];
      assert Elements(r1[1..]) == Elements(r1) - {r1[0]};
      assert Elements(r2[1..]) == Elements(r2) - {r2[0]};
      StrictlyIncreasingUnique(r1[1..], r2[1..]);
    }
  }

  /** `extract_unique_study_ids(text)`. */
  function ExtractUniqueStudyIds(text: string): (ids: seq<string>)
    ensures StrictlyIncreasing(ids)
    ensures forall w :: w in ids ==> IsStudyId(w) && IsSubstring(w, text)
    ensures Elements(ids) == Elements(FindAll(text))
  {
    var ids := SortedUnique(FindAll(text));
    assert forall w :: w in ids ==> w in Elements(ids);
    ids
  }

  /** The text holds a study ID exactly when the extracted list is non-empty. */
  lemma NoMatchIffEmpty(text: string)
    ensures ExtractUniqueStudyIds(text) == [] <==> forall j :: !MatchesAt(IsStudyId, IdLength, text, j)
  {
    var ids := ExtractUniqueStudyIds(text);
    var ps := MatchStarts(IsStudyId, IdLength, text, 0);
    if j :| MatchesAt(IsStudyId, IdLength, text, j) {
      MatchStartsCover(IsStudyId, IdLength, text, 0);
      assert Covered(IdLength, ps, j);
      assert FindAll(text)[0] in Elements(FindAll(text));
    } else {
      NoMatchNoStarts(IsStudyId, IdLength, text, 0);
      ElementsEmpty(FindAll(text));
      ElementsEmpty(ids);
    }
  }

  /** The leftmost study ID in the text is always extracted. */
  lemma LeftmostMatchReported(text: string, j: nat)
    requires MatchesAt(IsStudyId, IdLength, text, j)
    requires forall m :: 0 <= m < j ==> !MatchesAt(IsStudyId, IdLength, text, m)
    ensures text[j..j + IdLength] in ExtractUniqueStudyIds(text)
  {
    var ps := MatchStarts(IsStudyId, IdLength, text, 0);
    MatchStartsCover(IsStudyId, IdLength, text, 0);
    assert Covered(IdLength, ps, j);
    var k :| 0 <= k < |ps| && ps[k] <= j < ps[k] + IdLength;
    assert MatchesAt(IsStudyId, IdLength, text, ps[k]);
    assert ps[k] == j;
    assert FindAll(text)[k] == text[j..j + IdLength];
    assert text[j..j + IdLength] in Elements(ExtractUniqueStudyIds(text));
  }

  lemma ExampleIdsMatch()
    ensures IsStudyId("A-12345-X-1") && IsStudyId("X-12345-F-1")
  {
    assert forall k :: 0 <= k < IdLength ==> ClassMatches(StudyIdPattern[k], "A-12345-X-1"[k]);
    assert forall k :: 0 <= k < IdLength ==> ClassMatches(StudyIdPattern[k], "X-12345-F-1"[k]);
  }

  /**
   In "A-12345-X-12345-F-1" a second study ID starts at index 8, but it
   overlaps the first one, so only the first is extracted.
   */
  lemma OverlappingMatchDropped()
    ensures MatchesAt(IsStudyId, IdLength, "A-12345-X-12345-F-1", 0)
    ensures MatchesAt(IsStudyId, IdLength, "A-12345-X-12345-F-1", 8)
    ensures ExtractUniqueStudyIds("A-12345-X-12345-F-1") == ["A-12345-X-1"]
  {
    var text := "A-12345-X-12345-F-1";
    ExampleIdsMatch();
    assert text[0..11] == "A-12345-X-1";
    assert text[8..19] == "X-12345-F-1";
    assert MatchesAt(IsStudyId, IdLength, text, 0);
    assert MatchStarts(IsStudyId, IdLength, text, 11) == [];
    assert MatchStarts(IsStudyId, IdLength, text, 0) == [0] + MatchStarts(IsStudyId, IdLength, text, 11);
    assert FindAll(text) == ["A-12345-X-1"];
    assert SortedUnique(["A-12345-X-1"]) == Insert([], "A-12345-X-1");
  }
}
