/** Material metadata inferred from a file's name and its ancestor folder
    names: the material type (`inferMaterialType` over
    `MATERIAL_TYPE_PATTERNS`), the semester and year
    (`parseSemesterAndYear`, `capitalize`) and the title (`normaliseTitle`).

    The case-insensitive patterns are ASCII keywords; under the JavaScript `i`
    flag without `u`, a character matches an ASCII letter exactly when its
    ASCII lower-case form is that letter, so `ToLower` decides matching. */
module MaterialInference {
  import opened Wrappers
  import opened Text

  /** `${pathSegments.join(" ")} ${name}`: the string every pattern is matched against. */
  function Haystack(name: string, pathSegments: seq<string>): string {
    JoinWith(pathSegments, " ") + " " + name
  }

  // ---------------------------------------------------------------------------
  // Case-insensitive keyword search

  /** The lower-case keyword `kw` occurs in `h` at `i`, ignoring ASCII case. */
  predicate MatchesAt(h: string, kw: string, i: nat) {
    i + |kw| <= |h| && Lower(h[i..i + |kw|]) == kw
  }

  /** Whether `kw` occurs at `i` or later. */
  function ContainsFrom(h: string, kw: string, i: nat): (b: bool)
    requires i <= |h|
    ensures b <==> exists p :: i <= p && MatchesAt(h, kw, p)
    decreases |h| - i
  {
    if MatchesAt(h, kw, i) then true
    else if i == |h| then false
    else ContainsFrom(h, kw, i + 1)
  }

  /** `/kw/i.test(h)`. */
  function Test(h: string, kw: string): (b: bool)
    ensures b <==> exists p :: MatchesAt(h, kw, p)
  {
    ContainsFrom(h, kw, 0)
  }

  /** `patterns.some((pattern) => pattern.test(h))`. */
  function TestAny(h: string, patterns: seq<string>): (b: bool)
    ensures b <==> exists k, p :: 0 <= k < |patterns| && MatchesAt(h, patterns[k], p)
  {
    if patterns == [] then false
    else Test(h, patterns[0]) || TestAny(h, patterns[1..])
  }

  // ---------------------------------------------------------------------------
  // Material type

  datatype MaterialType = Exam | Quiz | Assignment | Notes | Solution | Other

  /** The value stored in the `type` column. */
  function TypeName(t: MaterialType): string {
    match t
    case Exam => "exam"
    case Quiz => "quiz"
    case Assignment => "assignment"
    case Notes => "notes"
    case Solution => "solution"
    case Other => "other"
  }

  lemma TypeNameInjective(a: MaterialType, b: MaterialType)
    ensures TypeName(a) == TypeName(b) <==> a == b
  {
  }

  /** `MATERIAL_TYPE_PATTERNS`, in priority order. `/notes?/i` matches
      exactly where "note" occurs, so it is the keyword "note". */
  const MaterialTypePatterns: seq<(MaterialType, seq<string>)> := [
    (Exam, ["exam", "midterm", "final", "makeup"]),
    (Quiz, ["quiz"]),
    (Assignment, ["assignment", "project", "homework", "hw"]),
    (Notes, ["note", "lecture", "summary"]),
    (Solution, ["solution", "answer", "key"])
  ]

  /** The type of the first group in `table` with a keyword occurring in
      `h`, or Other. */
  function FirstMatchingType(h: string, table: seq<(MaterialType, seq<string>)>): MaterialType {
    if table == [] then Other
    else if TestAny(h, table[0].1) then table[0].0
    else FirstMatchingType(h, table[1..])
  }

  /** `inferMaterialType(name, pathSegments)`. */
  function InferMaterialType(name: string, pathSegments: seq<string>): MaterialType {
    FirstMatchingType(Haystack(name, pathSegments), MaterialTypePatterns)
  }

  /** Some keyword of group `g` of `table` occurs in `h`. */
  ghost predicate GroupHits(h: string, table: seq<(MaterialType, seq<string>)>, g: nat)
    requires g < |table|
  {
    exists k, p :: 0 <= k < |table[g].1| && MatchesAt(h, table[g].1[k], p)
  }

  /** The types of a table are distinct and none of them is Other. */
  ghost predicate DistinctTypes(table: seq<(MaterialType, seq<string>)>) {
    && (forall g :: 0 <= g < |table| ==> table[g].0 != Other)
    && (forall g, g' :: 0 <= g < g' < |table| ==> table[g].0 != table[g'].0)
  }

  /** No keyword of a group before `g` occurs in `h`. */
  ghost predicate NoEarlierHit(h: string, table: seq<(MaterialType, seq<string>)>, g: nat)
    requires g <= |table|
  {
    forall g' :: 0 <= g' < g ==> !GroupHits(h, table, g')
  }

  lemma GroupHitsTail(h: string, table: seq<(MaterialType, seq<string>)>, g: nat)
    requires 0 < g < |table|
    ensures GroupHits(h, table, g) == GroupHits(h, table[1..], g - 1)
  {
    assert table[g] == table[1..][g - 1];
  }

  lemma NoEarlierHitTail(h: string, table: seq<(MaterialType, seq<string>)>, g: nat)
    requires 0 < g <= |table|
    ensures NoEarlierHit(h, table, g) <==> !GroupHits(h, table, 0) && NoEarlierHit(h, table[1..], g - 1)
  {
    forall g' | 0 < g' < g ensures GroupHits(h, table, g') == GroupHits(h, table[1..], g' - 1) {
      GroupHitsTail(h, table, g');
    }
    if !GroupHits(h, table, 0) && NoEarlierHit(h, table[1..], g - 1) {
      forall g' | 0 <= g' < g ensures !GroupHits(h, table, g') {
        if g' > 0 {
          assert !GroupHits(h, table[1..], g' - 1);
        }
      }
    }
    if NoEarlierHit(h, table, g) {
      forall g' | 0 <= g' < g - 1 ensures !GroupHits(h, table[1..], g') {
        assert !GroupHits(h, table, g' + 1);
      }
    }
  }

  /** The result is Other or the type of one of the groups. */
  lemma {:induction false} FirstMatchingTypeRange(h: string, table: seq<(MaterialType, seq<string>)>)
    ensures FirstMatchingType(h, table) == Other
            || exists g :: 0 <= g < |table| && FirstMatchingType(h, table) == table[g].0
  {
    if table != [] && !TestAny(h, table[0].1) {
      FirstMatchingTypeRange(h, table[1..]);
      if FirstMatchingType(h, table) != Other {
        var g :| 0 <= g < |table[1..]| && FirstMatchingType(h, table[1..]) == table[1..][g].0;
        assert FirstMatchingType(h, table) == table[g + 1].0;
      }
    }
  }

  /** First match wins: the result is group `g`'s type exactly when one of
      its keywords occurs and none of any earlier group does. */
  lemma {:induction false} FirstMatchingTypeAt(h: string, table: seq<(MaterialType, seq<string>)>, g: nat)
    requires DistinctTypes(table) && g < |table|
    ensures FirstMatchingType(h, table) == table[g].0 <==> GroupHits(h, table, g) && NoEarlierHit(h, table, g)
  {
    var rest := table[1..];
    assert TestAny(h, table[0].1) == GroupHits(h, table, 0);
    if g == 0 {
      if !TestAny(h, table[0].1) {
        FirstMatchingTypeRange(h, rest);
        if FirstMatchingType(h, rest) != Other {
          var g' :| 0 <= g' < |rest| && FirstMatchingType(h, rest) == rest[g'].0;
          assert rest[g'] == table[g' + 1];
        }
      }
    } else {
      assert DistinctTypes(rest) by {
        forall a | 0 <= a < |rest| ensures rest[a] == table[a + 1] { }
      }
      FirstMatchingTypeAt(h, rest, g - 1);
      GroupHitsTail(h, table, g);
      NoEarlierHitTail(h, table, g);
      assert rest[g - 1] == table[g];
    }
  }

  /** The result is Other exactly when no keyword of any group occurs. */
  lemma {:induction false} FirstMatchingTypeOther(h: string, table: seq<(MaterialType, seq<string>)>)
    requires DistinctTypes(table)
    ensures FirstMatchingType(h, table) == Other <==> NoEarlierHit(h, table, |table|)
  {
    if table != [] {
      var rest := table[1..];
      assert TestAny(h, table[0].1) == GroupHits(h, table, 0);
      assert DistinctTypes(rest) by {
        forall a | 0 <= a < |rest| ensures rest[a] == table[a + 1] { }
      }
      FirstMatchingTypeOther(h, rest);
      NoEarlierHitTail(h, table, |table|);
    }
  }

  lemma MaterialTypePatternsDistinct()
    ensures DistinctTypes(MaterialTypePatterns)
  {
  }

  /** An exam keyword anywhere in the path or name makes the file an exam,
      whatever else occurs: "final exam solution" is an exam, not a solution. */
  lemma ExamTakesPriority(name: string, pathSegments: seq<string>, k: nat, p: nat)
    requires k < 4 && MatchesAt(Haystack(name, pathSegments), MaterialTypePatterns[0].1[k], p)
    ensures InferMaterialType(name, pathSegments) == Exam
  {
    MaterialTypePatternsDistinct();
    FirstMatchingTypeAt(Haystack(name, pathSegments), MaterialTypePatterns, 0);
    assert GroupHits(Haystack(name, pathSegments), MaterialTypePatterns, 0);
  }

  /** Other is returned exactly when no keyword of any group (including
      "hw", "key" and "note") occurs in the path or the name. */
  lemma OtherOnlyWithoutKeywords(name: string, pathSegments: seq<string>)
    ensures InferMaterialType(name, pathSegments) == Other
            <==> forall g, k, p :: 0 <= g < |MaterialTypePatterns| && 0 <= k < |MaterialTypePatterns[g].1|
                                  ==> !MatchesAt(Haystack(name, pathSegments), MaterialTypePatterns[g].1[k], p)
  {
    var h := Haystack(name, pathSegments);
    var table := MaterialTypePatterns;
    MaterialTypePatternsDistinct();
    FirstMatchingTypeOther(h, table);
    if InferMaterialType(name, pathSegments) == Other {
      forall g, k, p | 0 <= g < |table| && 0 <= k < |table[g].1| ensures !MatchesAt(h, table[g].1[k], p) {
        assert !GroupHits(h, table, g);
      }
    } else {
      var g :| 0 <= g < |table| && GroupHits(h, table, g);
      var k, p :| 0 <= k < |table[g].1| && MatchesAt(h, table[g].1[k], p);
    }
  }

  // ---------------------------------------------------------------------------
  // Semester and year

  const Seasons: seq<string> := ["spring", "summer", "fall", "winter"]

  /** The first alternative of `(spring|summer|fall|winter)` matching at `i`. */
  function SeasonAt(h: string, i: nat): (r: Option<string>)
    ensures r.Some? ==> r.value in Seasons && MatchesAt(h, r.value, i)
    ensures r.None? ==> forall w :: w in Seasons ==> !MatchesAt(h, w, i)
  {
    if MatchesAt(h, "spring", i) then Some("spring")
    else if MatchesAt(h, "summer", i) then Some("summer")
    else if MatchesAt(h, "fall", i) then Some("fall")
    else if MatchesAt(h, "winter", i) then Some("winter")
    else None
  }

  /** The leftmost position at or after `i` where a season word occurs. */
  function FirstSeason(h: string, i: nat): (r: Option<nat>)
    requires i <= |h|
    ensures r.Some? ==> i <= r.value <= |h| && SeasonAt(h, r.value).Some?
                        && forall q :: i <= q < r.value ==> SeasonAt(h, q).None?
    ensures r.None? ==> forall q :: i <= q ==> SeasonAt(h, q).None?
    decreases |h| - i
  {
    if SeasonAt(h, i).Some? then Some(i)
    else if i == |h| then None
    else FirstSeason(h, i + 1)
  }

  /** `20\d{2}` occurs at `p`. */
  predicate YearAt(h: string, p: nat) {
    p + 4 <= |h| && h[p] == '2' && h[p + 1] == '0' && IsDigit(h[p + 2]) && IsDigit(h[p + 3])
  }

  /** The leftmost position at or after `i` where `20\d{2}` occurs. */
  function FirstYear(h: string, i: nat): (r: Option<nat>)
    requires i <= |h|
    ensures r.Some? ==> i <= r.value && YearAt(h, r.value)
                        && forall q :: i <= q < r.value ==> !YearAt(h, q)
    ensures r.None? ==> forall q :: i <= q ==> !YearAt(h, q)
    decreases |h| - i
  {
    if YearAt(h, i) then Some(i)
    else if i == |h| then None
    else FirstYear(h, i + 1)
  }

  function DigitValue(c: char): nat
    requires IsDigit(c)
  {
    c as int - '0' as int
  }

  predicate AllDigits(s: string) { forall k :: 0 <= k < |s| ==> IsDigit(s[k]) }

  function Pow10(n: nat): nat { if n == 0 then 1 else 10 * Pow10(n - 1) }

  /** `Number.parseInt(s, 10)` of a string of decimal digits. */
  function DigitsValue(s: string): (v: nat)
    requires AllDigits(s)
    ensures v < Pow10(|s|)
  {
    if s == [] then 0 else 10 * DigitsValue(s[..|s| - 1]) + DigitValue(s[|s| - 1])
  }

  /** The value of `20\d{2}` lies in 2000..2099. */
  lemma {:induction false} YearValueRange(h: string, p: nat)
    requires YearAt(h, p)
    ensures AllDigits(h[p..p + 4])
    ensures 2000 <= DigitsValue(h[p..p + 4]) <= 2099
  {
    var s := h[p..p + 4];
    assert AllDigits(s);
    DigitsValueFour(s);
  }

  /** The value of four decimal digits, digit by digit. */
  lemma DigitsValueFour(s: string)
    requires |s| == 4 && AllDigits(s)
    ensures DigitsValue(s) == 1000 * DigitValue(s[0]) + 100 * DigitValue(s[1]) + 10 * DigitValue(s[2]) + DigitValue(s[3])
  {
    var a, b, c := s[..1], s[..2], s[..3];
    assert c[..2] == b && b[..1] == a && a[..0] == [];
    assert DigitsValue(a) == DigitValue(s[0]);
    assert DigitsValue(b) == 10 * DigitsValue(a) + DigitValue(s[1]);
    assert DigitsValue(c) == 10 * DigitsValue(b) + DigitValue(s[2]);
    assert DigitsValue(s) == 10 * DigitsValue(c) + DigitValue(s[3]);
  }

  /** `capitalize(str)`: the first character upper-cased and the rest
      lower-cased; the empty string is returned unchanged. */
  function Capitalize(s: string): (r: string)
    ensures |r| == |s|
  {
    if s == [] then s else [ToUpper(s[0])] + Lower(s[1..])
  }

  /** The semester name that a season word capitalises to. */
  function SemesterName(w: string): string {
    if w == [] then w else [ToUpper(w[0])] + w[1..]
  }

  /** Whatever the case of the matched season, `capitalize` gives its
      canonical semester name. */
  lemma CapitalizeSeason(x: string, w: string)
    requires w in Seasons && Lower(x) == w
    ensures Capitalize(x) == SemesterName(w)
    ensures Capitalize(x) in ["Spring", "Summer", "Fall", "Winter"]
  {
    assert Lower(x)[0] == ToLower(x[0]) == w[0];
    assert ToUpper(x[0]) == ToUpper(w[0]);
    assert Lower(x[1..]) == Lower(x)[1..];
    SemesterNames(w);
  }

  lemma SemesterNames(w: string)
    requires w in Seasons
    ensures SemesterName(w) in ["Spring", "Summer", "Fall", "Winter"]
  {
    if w == "spring" {
      assert SemesterName(w) == "Spring";
    } else if w == "summer" {
      assert SemesterName(w) == "Summer";
    } else if w == "fall" {
      assert SemesterName(w) == "Fall";
    } else {
      assert SemesterName(w) == "Winter";
    }
  }

  /** Whitespace runs from `i` to `q` and four decimal digits follow it. */
  ghost predicate DigitsAfterSpace(h: string, i: nat, q: nat) {
    i <= q && q + 4 <= |h| && AllSpace(h[i..q]) && AllDigits(h[q..q + 4])
  }

  /** The four digits that `\s*(\d{4})?` captures after position `i`: the
      digits right after the whitespace run, when there are four of them. */
  function YearAfter(h: string, i: nat): (r: Option<string>)
    requires i <= |h|
    ensures r.Some? <==> exists q: nat :: DigitsAfterSpace(h, i, q)
    ensures forall q: nat :: DigitsAfterSpace(h, i, q) ==> r == Some(h[q..q + 4])
  {
    var q := SkipWhile(h, i, IsSpace);
    assert forall q': nat :: DigitsAfterSpace(h, i, q') ==> q' == q by {
      forall q': nat | DigitsAfterSpace(h, i, q') ensures q' == q {
        assert h[q'..q' + 4][0] == h[q'];
        forall k | i <= k < q' ensures IsSpace(h[k]) {
          assert h[i..q'][k - i] == h[k];
        }
        SkipWhileUnique(h, i, q', IsSpace);
      }
    }
    if q + 4 <= |h| && AllDigits(h[q..q + 4]) then
      assert DigitsAfterSpace(h, i, q);
      Some(h[q..q + 4])
    else None
  }

  datatype SemesterYear = SemesterYear(semester: Option<string>, year: Option<nat>)

  /** `w` is a season word occurring at `p`, and no season word occurs before `p`. */
  ghost predicate LeftmostSeasonAt(h: string, p: nat, w: string) {
    w in Seasons && MatchesAt(h, w, p) && NoSeasonBefore(h, p)
  }

  /** The leftmost season word `w` is at `p` and is followed, after
      whitespace, by four digits starting at `q`. */
  ghost predicate YearFollowsSeason(h: string, p: nat, w: string, q: nat) {
    LeftmostSeasonAt(h, p, w) && DigitsAfterSpace(h, p + |w|, q)
  }

  /** At most one season word matches at a position: the four words differ
      in their first two letters. */
  lemma SeasonWordsDiffer(h: string, p: nat, w: string, w': string)
    requires w in Seasons && w' in Seasons && MatchesAt(h, w, p) && MatchesAt(h, w', p)
    ensures w == w'
  {
    assert Lower(h[p..p + |w|])[0] == ToLower(h[p]) == Lower(h[p..p + |w'|])[0];
    assert Lower(h[p..p + |w|])[1] == ToLower(h[p + 1]) == Lower(h[p..p + |w'|])[1];
  }

  /** The leftmost season match is the one `FirstSeason` finds. */
  lemma LeftmostSeasonUnique(h: string, p: nat, w: string)
    requires LeftmostSeasonAt(h, p, w)
    ensures FirstSeason(h, 0) == Some(p) && SeasonAt(h, p) == Some(w)
  {
    var here := SeasonAt(h, p);
    assert here.Some?;
    var first := FirstSeason(h, 0);
    assert first.Some?;
    var p0 := first.value;
    assert p0 == p;
    SeasonWordsDiffer(h, p, w, here.value);
  }

  /** The digits `(\d{4})?` captures right after the leftmost season word
      (whitespace allowed between): present exactly when four digits follow
      that word, and then those digits. */
  function AdjacentYear(h: string): (r: Option<string>)
    ensures r.Some? <==> exists p: nat, w, q: nat :: YearFollowsSeason(h, p, w, q)
    ensures forall p: nat, w, q: nat :: YearFollowsSeason(h, p, w, q) ==> r == Some(h[q..q + 4])
  {
    match FirstSeason(h, 0)
    case None => NoYearFollowsSeason(h); None
    case Some(p) =>
      var w := SeasonAt(h, p).value;
      var e := p + |w|;
      YearAfterFirstSeason(h, p, w, e);
      FirstSeasonYearFollows(h, p, w, e);
      YearAfter(h, e)
  }

  /** A year that follows the leftmost season follows the season word
      `FirstSeason` finds. */
  lemma YearAfterFirstSeason(h: string, p: nat, w: string, e: nat)
    requires FirstSeason(h, 0) == Some(p) && SeasonAt(h, p) == Some(w) && e == p + |w|
    ensures forall p': nat, w', q: nat :: YearFollowsSeason(h, p', w', q) ==> DigitsAfterSpace(h, e, q)
  {
    forall p': nat, w', q: nat | YearFollowsSeason(h, p', w', q) ensures DigitsAfterSpace(h, e, q) {
      YearFollowsFirstSeason(h, p, w, e, p', w', q);
    }
  }

  /** Digits after the season word `FirstSeason` finds follow the leftmost
      season. */
  lemma FirstSeasonYearFollows(h: string, p: nat, w: string, e: nat)
    requires FirstSeason(h, 0) == Some(p) && SeasonAt(h, p) == Some(w) && e == p + |w|
    ensures forall q: nat :: DigitsAfterSpace(h, e, q) ==> YearFollowsSeason(h, p, w, q)
  {
    forall q: nat | DigitsAfterSpace(h, e, q) ensures YearFollowsSeason(h, p, w, q) {
      YearFollowsAtFirstSeason(h, p, w, e, q);
    }
  }

  /** Four digits after the season word `FirstSeason` finds follow the
      leftmost season. */
  lemma YearFollowsAtFirstSeason(h: string, p: nat, w: string, e: nat, q: nat)
    requires FirstSeason(h, 0) == Some(p) && SeasonAt(h, p) == Some(w) && e == p + |w|
    requires DigitsAfterSpace(h, e, q)
    ensures YearFollowsSeason(h, p, w, q)
  {
    LeftmostSeason(h, p, w);
  }

  /** Without a season word, no year follows one. */
  lemma NoYearFollowsSeason(h: string)
    requires FirstSeason(h, 0).None?
    ensures forall p: nat, w, q: nat :: !YearFollowsSeason(h, p, w, q)
  {
    forall p: nat, w, q: nat | YearFollowsSeason(h, p, w, q) ensures false {
      LeftmostSeasonUnique(h, p, w);
    }
  }

  /** A year that follows the leftmost season follows, at `e`, the season
      word `FirstSeason` finds. */
  lemma YearFollowsFirstSeason(h: string, p: nat, w: string, e: nat, p': nat, w': string, q: nat)
    requires FirstSeason(h, 0) == Some(p) && SeasonAt(h, p) == Some(w) && e == p + |w|
    requires YearFollowsSeason(h, p', w', q)
    ensures p' == p && w' == w && DigitsAfterSpace(h, e, q)
  {
    LeftmostSeasonUnique(h, p', w');
  }

  /** The value of the leftmost `20\d{2}` anywhere, the year used when no
      year follows a season. */
  function FallbackYear(h: string): (r: Option<nat>)
    ensures r.Some? <==> exists p: nat :: YearAt(h, p)
    ensures r.Some? ==> && 2000 <= r.value <= 2099
                        && exists p: nat :: YearAt(h, p) && r.value == DigitsValue(h[p..p + 4])
                                            && forall q: nat :: q < p ==> !YearAt(h, q)
  {
    match FirstYear(h, 0)
    case None => None
    case Some(p) => YearValueRange(h, p); Some(DigitsValue(h[p..p + 4]))
  }

  /** `parseSemesterAndYear(name, pathSegments)`. */
  function ParseSemesterAndYear(name: string, pathSegments: seq<string>): SemesterYear {
    var h := Haystack(name, pathSegments);
    SemesterYear(SemesterIn(h), YearIn(h))
  }

  /** The semester: the capitalised leftmost season word, if any. */
  function SemesterIn(h: string): Option<string> {
    match FirstSeason(h, 0)
    case None => None
    case Some(p) =>
      var w := SeasonAt(h, p).value;
      Some(Capitalize(h[p..p + |w|]))
  }

  /** The year: the digits captured after the season word, else the leftmost
      `20\d{2}`. */
  function YearIn(h: string): Option<nat> {
    var adjacent := AdjacentYear(h);
    if adjacent.Some? then Some(DigitsValue(adjacent.value)) else FallbackYear(h)
  }

  /** A season word occurs in `h` (ignoring case). */
  ghost predicate HasSeason(h: string) {
    exists w, p: nat :: w in Seasons && MatchesAt(h, w, p)
  }

  /** The semester is set exactly when a season word occurs in the path or
      the name, whether or not a year follows it. */
  lemma SemesterIffSeason(name: string, pathSegments: seq<string>)
    ensures ParseSemesterAndYear(name, pathSegments).semester.Some? <==> HasSeason(Haystack(name, pathSegments))
  {
    var h := Haystack(name, pathSegments);
    match FirstSeason(h, 0)
    case None =>
      forall w, p: nat | w in Seasons ensures !MatchesAt(h, w, p) {
        assert SeasonAt(h, p).None?;
      }
    case Some(p) =>
      assert MatchesAt(h, SeasonAt(h, p).value, p);
  }

  /** No season word starts before `p`. */
  ghost predicate NoSeasonBefore(h: string, p: nat) {
    forall q: nat, w :: q < p && w in Seasons ==> !MatchesAt(h, w, q)
  }

  /** A semester, when set, is the capitalised form of the leftmost season
      word, whatever its case. */
  lemma SemesterIsLeftmostSeason(name: string, pathSegments: seq<string>)
    ensures var h := Haystack(name, pathSegments);
            var r := ParseSemesterAndYear(name, pathSegments);
            r.semester.Some? ==>
              exists p: nat, w :: LeftmostSeasonAt(h, p, w) && r.semester.value == SemesterName(w)
  {
    SemesterInLeftmost(Haystack(name, pathSegments));
  }

  lemma SemesterInLeftmost(h: string)
    ensures SemesterIn(h).Some? ==>
              exists p: nat, w :: LeftmostSeasonAt(h, p, w) && SemesterIn(h).value == SemesterName(w)
  {
    match FirstSeason(h, 0)
    case None =>
    case Some(p) =>
      var w := SeasonAt(h, p).value;
      LeftmostSeason(h, p, w);
      SemesterOfFirstSeason(h, p, w);
  }

  /** The season word `FirstSeason` finds capitalises to its semester name,
      whatever its case. */
  lemma SemesterOfFirstSeason(h: string, p: nat, w: string)
    requires FirstSeason(h, 0) == Some(p) && SeasonAt(h, p) == Some(w)
    ensures SemesterIn(h) == Some(SemesterName(w))
  {
    var x := h[p..p + |w|];
    assert SemesterIn(h) == Some(Capitalize(x));
    assert w in Seasons && Lower(x) == w;
    CapitalizeSeason(x, w);
  }

  /** The season `FirstSeason` finds is the leftmost season word. */
  lemma LeftmostSeason(h: string, p: nat, w: string)
    requires FirstSeason(h, 0) == Some(p) && SeasonAt(h, p) == Some(w)
    ensures LeftmostSeasonAt(h, p, w)
  {
    NoSeasonBeforeFirst(h, p);
  }

  lemma NoSeasonBeforeFirst(h: string, p: nat)
    requires FirstSeason(h, 0) == Some(p)
    ensures NoSeasonBefore(h, p)
  {
    forall q: nat, w' | q < p && w' in Seasons ensures !MatchesAt(h, w', q) {
      assert SeasonAt(h, q).None?;
    }
  }

  /** Where the year comes from: when four digits follow the leftmost season
      word after whitespace only, their value (below 10000); otherwise the
      value of the leftmost `20\d{2}` (in 2000..2099); null exactly when
      neither occurs. */
  lemma YearSources(name: string, pathSegments: seq<string>)
    ensures var h := Haystack(name, pathSegments);
            var r := ParseSemesterAndYear(name, pathSegments);
            && (forall p: nat, w, q: nat :: YearFollowsSeason(h, p, w, q)
                  ==> r.year == Some(DigitsValue(h[q..q + 4])) && r.year.value < 10000)
            && ((forall p: nat, w, q: nat :: !YearFollowsSeason(h, p, w, q)) ==> r.year == FallbackYear(h))
            && (r.year.None? <==> (forall p: nat, w, q: nat :: !YearFollowsSeason(h, p, w, q))
                                  && forall p: nat :: !YearAt(h, p))
  {
    var h := Haystack(name, pathSegments);
    var adjacent := AdjacentYear(h);
    if adjacent.Some? {
      assert |adjacent.value| == 4;
      assert Pow10(4) == 10000;
    }
  }

  /** A year captured after a season is only looked for when a season occurs. */
  lemma AdjacentYearNeedsSeason(h: string)
    ensures AdjacentYear(h).Some? ==> HasSeason(h)
  {
    match FirstSeason(h, 0)
    case None =>
    case Some(p) =>
      var w := SeasonAt(h, p).value;
      assert MatchesAt(h, w, p);
  }

  // Title

  /** `s[i]` is the dot that `/\.[^.]+$/` removes from: followed by at least
      one character and no further dot. */
  ghost predicate ExtensionDot(s: string, i: nat) {
    i + 1 < |s| && s[i] == '.' && forall k :: i < k < |s| ==> s[k] != '.'
  }

  /** The index of the last '.', if any. */
  function LastDot(s: string): (r: Option<nat>)
    ensures r.Some? ==> r.value < |s| && s[r.value] == '.' && forall k :: r.value < k < |s| ==> s[k] != '.'
    ensures r.None? ==> forall k :: 0 <= k < |s| ==> s[k] != '.'
  {
    if s == [] then None
    else if s[|s| - 1] == '.' then Some(|s| - 1)
    else LastDot(s[..|s| - 1])
  }

  /** `name.replace(/\.[^.]+$/, "")`: only a suffix is ever removed. */
  function StripExtension(s: string): (r: string)
    ensures |r| <= |s| && r == s[..|r|]
  {
    var d := LastDot(s);
    if d.Some? && d.value + 1 < |s| then s[..d.value] else s
  }

  /** Only the final dot and the non-empty, dot-free suffix after it are
      removed; a name with no dot, or ending in a dot, is kept whole. */
  lemma StripExtensionRemovesExtension(s: string)
    ensures forall i: nat :: ExtensionDot(s, i) ==> StripExtension(s) == s[..i]
    ensures (forall i: nat :: !ExtensionDot(s, i)) ==> StripExtension(s) == s
  {
    var d := LastDot(s);
    if d.Some? && d.value + 1 < |s| {
      assert ExtensionDot(s, d.value);
      assert forall i: nat :: ExtensionDot(s, i) ==> i == d.value;
    } else {
      assert forall i: nat :: !ExtensionDot(s, i);
    }
  }

  predicate IsDashOrUnderscore(c: char) { c == '_' || c == '-' }

  /** `s.replace(/[_-]+/g, " ")`: every maximal run of '_' and '-' becomes
      one space. */
  function ReplaceDashRuns(s: string): (r: string)
    ensures forall k :: 0 <= k < |r| ==> !IsDashOrUnderscore(r[k])
    decreases |s|
  {
    if s == [] then []
    else if IsDashOrUnderscore(s[0]) then [' '] + ReplaceDashRuns(s[SkipWhile(s, 0, IsDashOrUnderscore)..])
    else [s[0]] + ReplaceDashRuns(s[1..])
  }

  /** `normaliseTitle(name)`. */
  function NormaliseTitle(name: string): string {
    Trim(ReplaceDashRuns(StripExtension(name)))
  }

  /** A title has no '_' or '-' left and no whitespace at either end. */
  lemma NormaliseTitleShape(name: string)
    ensures var r := NormaliseTitle(name);
            && (forall k :: 0 <= k < |r| ==> !IsDashOrUnderscore(r[k]))
            && (r == [] || (!IsSpace(r[0]) && !IsSpace(r[|r| - 1])))
  {
    TrimIsSlice(ReplaceDashRuns(StripExtension(name)));
  }

  lemma TrimIsSlice(s: string)
    ensures forall k :: 0 <= k < |Trim(s)| ==> Trim(s)[k] in s
  {
    var t := TrimStart(s);
    var r := TrimEnd(t);
    var i := |s| - |t|;
    forall k | 0 <= k < |r| ensures r[k] in s {
      assert r[k] == t[k] == s[i + k];
    }
  }

  /** The characters that are neither whitespace nor '_' or '-', in order. */
  function NonSeparators(s: string): string {
    if s == [] then []
    else (if IsSpace(s[0]) || IsDashOrUnderscore(s[0]) then [] else [s[0]]) + NonSeparators(s[1..])
  }

  lemma {:induction false} NonSeparatorsAppend(a: string, b: string)
    ensures NonSeparators(a + b) == NonSeparators(a) + NonSeparators(b)
    decreases |a|
  {
    if a == [] {
      assert a + b == b;
    } else {
      assert (a + b)[1..] == a[1..] + b;
      NonSeparatorsAppend(a[1..], b);
    }
  }

  lemma {:induction false} SeparatorsOnlyKeepNothing(s: string)
    requires forall k :: 0 <= k < |s| ==> IsSpace(s[k]) || IsDashOrUnderscore(s[k])
    ensures NonSeparators(s) == []
    decreases |s|
  {
    if s != [] {
      SeparatorsOnlyKeepNothing(s[1..]);
    }
  }

  /** Replacing the runs changes only separators: every other character is
      kept, in order. */
  lemma {:induction false} ReplaceDashRunsKeepsNonSeparators(s: string)
    ensures NonSeparators(ReplaceDashRuns(s)) == NonSeparators(s)
    decreases |s|
  {
    if s != [] {
      if IsDashOrUnderscore(s[0]) {
        var j := SkipWhile(s, 0, IsDashOrUnderscore);
        ReplaceDashRunsKeepsNonSeparators(s[j..]);
        NonSeparatorsAppend([' '], ReplaceDashRuns(s[j..]));
        assert s == s[..j] + s[j..];
        NonSeparatorsAppend(s[..j], s[j..]);
        SeparatorsOnlyKeepNothing(s[..j]);
      } else {
        ReplaceDashRunsKeepsNonSeparators(s[1..]);
      }
    }
  }

  lemma TrimKeepsNonSeparators(s: string)
    ensures NonSeparators(Trim(s)) == NonSeparators(s)
  {
    var t := TrimStart(s);
    var a := s[..|s| - |t|];
    assert s == a + t;
    NonSeparatorsAppend(a, t);
    SeparatorsOnlyKeepNothing(a);
    var r := TrimEnd(t);
    var b := t[|r|..];
    assert t == r + b;
    NonSeparatorsAppend(r, b);
    SeparatorsOnlyKeepNothing(b);
  }

  /** The title keeps every character of the name without its extension
      except whitespace, '_' and '-', in order. */
  lemma NormaliseTitleKeepsNonSeparators(name: string)
    ensures NonSeparators(NormaliseTitle(name)) == NonSeparators(StripExtension(name))
  {
    var t := ReplaceDashRuns(StripExtension(name));
    TrimKeepsNonSeparators(t);
    ReplaceDashRunsKeepsNonSeparators(StripExtension(name));
  }

  /** A name without separators, whitespace ends or extension is its own title. */
  lemma NormaliseTitleFixesPlainNames(name: string)
    requires forall k :: 0 <= k < |name| ==> !IsDashOrUnderscore(name[k]) && name[k] != '.'
    requires name == [] || (!IsSpace(name[0]) && !IsSpace(name[|name| - 1]))
    ensures NormaliseTitle(name) == name
  {
    assert StripExtension(name) == name;
    ReplaceDashRunsIdentity(name);
    TrimTrimmed(name);
  }

  lemma {:induction false} ReplaceDashRunsIdentity(s: string)
    requires forall k :: 0 <= k < |s| ==> !IsDashOrUnderscore(s[k])
    ensures ReplaceDashRuns(s) == s
    decreases |s|
  {
    if s != [] {
      ReplaceDashRunsIdentity(s[1..]);
    }
  }

  predicate NoDashes(s: string) { forall k :: 0 <= k < |s| ==> !IsDashOrUnderscore(s[k]) }

  predicate AllDashes(s: string) { forall k :: 0 <= k < |s| ==> IsDashOrUnderscore(s[k]) }

  /** Characters before the first '_' or '-' are kept as they are. */
  lemma {:induction false} ReplaceDashRunsNoDashPrefix(a: string, b: string)
    requires NoDashes(a)
    ensures ReplaceDashRuns(a + b) == a + ReplaceDashRuns(b)
    decreases |a|
  {
    if a == [] {
      assert a + b == b;
    } else {
      var ab := a + b;
      assert ab[0] == a[0] && !IsDashOrUnderscore(a[0]);
      assert ab[1..] == a[1..] + b;
      assert NoDashes(a[1..]) by {
        forall k | 0 <= k < |a| - 1 ensures !IsDashOrUnderscore(a[1..][k]) {
          assert a[1..][k] == a[k + 1];
        }
      }
      ReplaceDashRunsNoDashPrefix(a[1..], b);
      assert ReplaceDashRuns(ab) == [a[0]] + (a[1..] + ReplaceDashRuns(b));
      assert a == [a[0]] + a[1..];
    }
  }

  /** A maximal run of '_' and '-' at the start becomes one space. */
  lemma ReplaceDashRunsFromRun(s: string, p: nat, q: nat)
    requires p < q <= |s| && AllDashes(s[p..q]) && (q == |s| || !IsDashOrUnderscore(s[q]))
    ensures ReplaceDashRuns(s[p..]) == [' '] + ReplaceDashRuns(s[q..])
  {
    var tail := s[p..];
    assert tail[q - p..] == s[q..];
    assert tail[0] == s[p..q][0];
    forall k | 0 <= k < q - p ensures IsDashOrUnderscore(tail[k]) {
      assert tail[k] == s[p..q][k];
    }
    SkipWhileUnique(tail, 0, q - p, IsDashOrUnderscore);
  }

  /** Replacing in a string whose first run of '_' and '-' is `s[p..q]`: that
      whole run becomes exactly one space, what precedes it is kept, and the
      rest is replaced in the same way. */
  lemma ReplaceDashRunsAtFirstRun(s: string, p: nat, q: nat)
    requires p < q <= |s| && NoDashes(s[..p]) && AllDashes(s[p..q]) && (q == |s| || !IsDashOrUnderscore(s[q]))
    ensures ReplaceDashRuns(s) == s[..p] + " " + ReplaceDashRuns(s[q..])
  {
    var head, tail := s[..p], s[p..];
    var rest := ReplaceDashRuns(s[q..]);
    ReplaceDashRunsFromRun(s, p, q);
    assert s == head + tail;
    ReplaceDashRunsNoDashPrefix(head, tail);
    assert ReplaceDashRuns(s) == head + ([' '] + rest);
    assert head + ([' '] + rest) == head + " " + rest;
  }

  /** A name with an extension and runs of '_' and '-': the extension is
      dropped and each run becomes one space. */
  lemma NormaliseTitleExample()
    ensures NormaliseTitle("a_b--c.pdf") == "a b c"
  {
    var name := "a_b--c.pdf";
    assert ExtensionDot(name, 6);
    StripExtensionRemovesExtension(name);
    assert StripExtension(name) == "a_b--c";
    ReplaceDashRunsExample();
    TrimTrimmed("a b c");
  }

  lemma ReplaceDashRunsExample()
    ensures ReplaceDashRuns("a_b--c") == "a b c"
  {
    var stem := "a_b--c";
    var rest := stem[2..];
    assert rest == "b--c";
    ReplaceDashRunsAtFirstRun(rest, 1, 3);
    ReplaceDashRunsIdentity("c");
    assert rest[..1] == "b" && rest[3..] == "c";
    assert ReplaceDashRuns(rest) == "b c";
    ReplaceDashRunsAtFirstRun(stem, 1, 2);
    assert stem[..1] == "a" && stem[2..] == rest;
  }

}
