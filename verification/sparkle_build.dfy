/**
 Build numbers of the macOS app (openclaw/scripts/sparkle-build.ts) and the check of the app's update
 feed that uses them (openclaw/scripts/release-check.ts).
 */
module SparkleBuild {
  import opened Prelude

  // ---------- Decimal numbers ----------

  predicate IsDigit(c: char) {
    '0' <= c <= '9'
  }

  predicate AllDigits(s: string) {
    forall i :: 0 <= i < |s| ==> IsDigit(s[i])
  }

  function Digit(n: nat): char
    requires n < 10
  {
    "0123456789"[n]
  }

  /** `String(n)` */
  function Decimal(n: nat): (s: string)
    ensures s != "" && AllDigits(s)
  {
    if n < 10 then [Digit(n)] else Decimal(n / 10) + [Digit(n % 10)]
  }

  /** `Number(s)` and `Number.parseInt(s, 10)` for a text of digits. */
  function Value(s: string): nat
    requires AllDigits(s)
  {
    if s == "" then 0 else 10 * Value(s[..|s| - 1]) + (s[|s| - 1] as nat - '0' as nat)
  }

  function Pow10(k: nat): (p: nat)
    ensures p >= 1
  {
    if k == 0 then 1 else 10 * Pow10(k - 1)
  }

  lemma {:induction false} DecimalReads(n: nat)
    ensures Value(Decimal(n)) == n
  {
    ValueLast(Decimal(n));
    DigitReads(n % 10);
    if n < 10 {
      assert Decimal(n)[..0] == "";
    } else {
      DecimalReads(n / 10);
      assert Decimal(n)[..|Decimal(n)| - 1] == Decimal(n / 10);
    }
  }

  lemma DigitReads(n: nat)
    requires n < 10
    ensures Digit(n) as nat - '0' as nat == n
  {
  }

  lemma {:induction false} ValuePlus(a: string, b: string)
    requires AllDigits(a) && AllDigits(b)
    ensures AllDigits(a + b) && Value(a + b) == Value(a) * Pow10(|b|) + Value(b)
  {
    if b == "" {
      assert a + b == a;
    } else {
      var init := b[..|b| - 1];
      ValuePlus(a, init);
      ValueLast(a + b);
      ValueLast(b);
      assert (a + b)[..|a + b| - 1] == a + init;
      TimesTen(Value(a), Pow10(|init|));
    }
  }

  lemma {:induction false} ValueLast(s: string)
    requires AllDigits(s) && s != ""
    ensures Value(s) == 10 * Value(s[..|s| - 1]) + (s[|s| - 1] as nat - '0' as nat)
  {
  }

  lemma TimesTen(x: nat, y: nat)
    ensures x * (10 * y) == 10 * (x * y)
  {
  }

  lemma {:induction false} ValueBound(s: string)
    requires AllDigits(s)
    ensures Value(s) < Pow10(|s|)
  {
    if s != "" {
      ValueBound(s[..|s| - 1]);
    }
  }

  /** `String(n).padStart(2, "0")` */
  function Padded(n: nat): (s: string)
    ensures AllDigits(s)
  {
    if n < 10 then "0" + Decimal(n) else Decimal(n)
  }

  lemma PaddedReads(n: nat)
    requires n < 100
    ensures |Padded(n)| == 2 && Value(Padded(n)) == n
  {
    DecimalReads(n);
    if n < 10 {
      ValuePlus("0", Decimal(n));
      assert "0"[..0] == "";
    }
  }

  // ---------- Versions ----------

  datatype Version = Version(year: nat, month: nat, day: nat, suffix: string)

  predicate IsLineBreak(c: char) {
    c == '\n' || c == '\r' || c == '\U{2028}' || c == '\U{2029}'
  }

  /** How many digits a text starts with, at most `limit`. */
  function LeadingDigits(s: string, limit: nat): (n: nat)
    ensures n <= |s| && n <= limit && AllDigits(s[..n])
    ensures n < limit && n < |s| ==> !IsDigit(s[n])
  {
    if limit == 0 || s == "" || !IsDigit(s[0]) then 0
    else
      var n := LeadingDigits(s[1..], limit - 1);
      assert s[..n + 1] == [s[0]] + s[1..][..n];
      n + 1
  }

  predicate IsSuffix(s: string) {
    s == "" || ((s[0] == '.' || s[0] == '-') && forall i :: 0 <= i < |s| ==> !IsLineBreak(s[i]))
  }

  /** The version pattern: a year of four digits, a month and a day of one or two, and a suffix. */
  function ParseVersion(s: string): Option<Version> {
    var y := LeadingDigits(s, 4);
    if y < 4 || |s| == 4 || s[4] != '.' then None
    else
      var s1 := s[5..];
      var m := LeadingDigits(s1, 2);
      if m == 0 || |s1| == m || s1[m] != '.' then None
      else
        var s2 := s1[m + 1..];
        var d := LeadingDigits(s2, 2);
        if d == 0 || !IsSuffix(s2[d..]) then None
        else Some(Version(Value(s[..4]), Value(s1[..m]), Value(s2[..d]), s2[d..]))
  }

  /** The pattern, said of the parts. */
  predicate IsVersionText(s: string, y: string, m: string, d: string, suffix: string) {
    && |y| == 4 && 1 <= |m| <= 2 && 1 <= |d| <= 2 && (forall c :: c in y || c in m || c in d ==> '0' <= c <= '9')
    && (suffix == "" || suffix[0] == '.' || suffix[0] == '-')
    && (forall c :: c in suffix ==> c != '\n' && c != '\r' && c != '\U{2028}' && c != '\U{2029}')
    && s == y + ("." + (m + ("." + (d + suffix))))
  }

  lemma VersionParts(s: string, y: string, m: string, d: string, suffix: string)
    ensures IsVersionText(s, y, m, d, suffix)
            <==> && AllDigits(y) && |y| == 4 && AllDigits(m) && 1 <= |m| <= 2 && AllDigits(d) && 1 <= |d| <= 2
                 && IsSuffix(suffix) && s == y + ("." + (m + ("." + (d + suffix))))
  {
    DigitsIn(y);
    DigitsIn(m);
    DigitsIn(d);
    SuffixIs(suffix);
  }

  lemma SuffixIs(s: string)
    ensures IsSuffix(s)
            <==> && (s == "" || s[0] == '.' || s[0] == '-')
                 && forall c :: c in s ==> c != '\n' && c != '\r' && c != '\U{2028}' && c != '\U{2029}'
  {
    if forall c :: c in s ==> !IsLineBreak(c) {
      assert forall i :: 0 <= i < |s| ==> s[i] in s;
    }
  }

  lemma DigitsIn(s: string)
    ensures AllDigits(s) <==> forall c :: c in s ==> '0' <= c <= '9'
  {
    if forall c :: c in s ==> '0' <= c <= '9' {
      assert forall i :: 0 <= i < |s| ==> s[i] in s;
    }
  }

  lemma {:induction false} LeadingDigitsOf(digits: string, rest: string, limit: nat)
    requires AllDigits(digits) && |digits| <= limit
    requires |digits| == limit || rest == "" || !IsDigit(rest[0])
    ensures LeadingDigits(digits + rest, limit) == |digits|
    ensures (digits + rest)[..|digits|] == digits && (digits + rest)[|digits|..] == rest
    decreases |digits|
  {
    if digits == "" {
      assert digits + rest == rest;
    } else {
      assert (digits + rest)[1..] == digits[1..] + rest;
      LeadingDigitsOf(digits[1..], rest, limit - 1);
    }
  }

  /** Digits before a dot are read up to the dot. */
  lemma {:induction false} PartOf(digits: string, rest: string, limit: nat)
    requires AllDigits(digits) && |digits| <= limit
    ensures var s := digits + ("." + rest);
            && LeadingDigits(s, limit) == |digits| < |s| && s[|digits|] == '.'
            && s[..|digits|] == digits && s[|digits| + 1..] == rest
  {
    LeadingDigitsOf(digits, "." + rest, limit);
  }

  /** A text is read as a version if and only if it has the pattern, and then with the pattern's parts. */
  lemma {:induction false} ParseExact(s: string, y: string, m: string, d: string, suffix: string)
    requires IsVersionText(s, y, m, d, suffix)
    ensures AllDigits(y) && AllDigits(m) && AllDigits(d)
    ensures ParseVersion(s) == Some(Version(Value(y), Value(m), Value(d), suffix))
  {
    VersionParts(s, y, m, d, suffix);
    var s2 := d + suffix;
    var s1 := m + ("." + s2);
    PartOf(y, s1, 4);
    PartOf(m, s2, 2);
    LeadingDigitsOf(d, suffix, 2);
  }

  lemma ParsedHasPattern(s: string) returns (y: string, m: string, d: string, suffix: string)
    requires ParseVersion(s).Some?
    ensures IsVersionText(s, y, m, d, suffix)
  {
    var s1 := s[5..];
    var n := LeadingDigits(s1, 2);
    var s2 := s1[n + 1..];
    var k := LeadingDigits(s2, 2);
    y, m, d, suffix := s[..4], s1[..n], s2[..k], s2[k..];
    Regroups(s, s1, n, s2, k);
    VersionParts(s, y, m, d, suffix);
  }

  lemma Regroups(s: string, s1: string, m: nat, s2: string, d: nat)
    requires |s| > 4 && s[4] == '.' && s1 == s[5..]
    requires m < |s1| && s1[m] == '.' && s2 == s1[m + 1..] && d <= |s2|
    ensures s == s[..4] + ("." + (s1[..m] + ("." + (s2[..d] + s2[d..]))))
  {
    assert s2 == s2[..d] + s2[d..];
    SplitAt(s1, m);
    SplitAt(s, 4);
  }

  lemma SplitAt(s: string, n: nat)
    requires n < |s|
    ensures s == s[..n] + ([s[n]] + s[n + 1..])
  {
  }

  // ---------- Floors ----------

  datatype Floors = Floors(dateKey: nat, legacyFloor: nat, laneFloor: nat, lane: nat)

  /** The digits a text ends with. */
  function TrailingDigits(s: string): (digits: string)
    ensures AllDigits(digits)
  {
    if s != "" && IsDigit(s[|s| - 1]) then TrailingDigits(s[..|s| - 1]) + [s[|s| - 1]] else ""
  }

  function Lane(suffix: string): nat {
    if suffix == "" then 90
    else
      var digits := TrailingDigits(suffix);
      if digits == "" then 1 else if Value(digits) < 89 then Value(digits) else 89
  }

  predicate IsDate(v: Version) {
    1 <= v.month <= 12 && 1 <= v.day <= 31
  }

  /** The floors of a version: the numbers are put together from their digits. */
  function FloorsOf(v: Version): Floors {
    var dateKey := Value(Decimal(v.year) + Padded(v.month) + Padded(v.day));
    var lane := Lane(v.suffix);
    Floors(dateKey, Value(Decimal(dateKey) + "0"), Value(Decimal(dateKey) + Padded(lane)), lane)
  }

  /** sparkleBuildFloorsFromShortVersion */
  function BuildFloors(shortVersion: string): Option<Floors> {
    var parsed := ParseVersion(Trim(shortVersion));
    if parsed.None? || !IsDate(parsed.value) then None else Some(FloorsOf(parsed.value))
  }

  /** The number that two digits after a number's digits make. */
  lemma {:induction false} TwoDigitsAfter(s: string, n: nat)
    requires AllDigits(s) && n < 100
    ensures AllDigits(s + Padded(n)) && Value(s + Padded(n)) == Value(s) * 100 + n
  {
    assert Pow10(2) == 100;
    PaddedReads(n);
    ValuePlus(s, Padded(n));
  }

  lemma {:induction false} FourDigits(s: string)
    requires AllDigits(s) && |s| == 4
    ensures Value(s) <= 9999
  {
    assert Pow10(2) == 100 && Pow10(4) == 10 * (10 * Pow10(2));
    ValueBound(s);
  }

  lemma {:induction false} ZeroAfter(s: string)
    requires AllDigits(s)
    ensures AllDigits(s + "0") && Value(s + "0") == Value(s) * 10
  {
    assert Pow10(1) == 10 && "0"[..0] == "";
    ValuePlus(s, "0");
  }

  lemma LaneBound(suffix: string)
    ensures Lane(suffix) <= 90 && (Lane(suffix) == 90 <==> suffix == "")
  {
  }

  lemma {:induction false} TrailingDigitsOf(prefix: string, digits: string)
    requires AllDigits(digits) && prefix != "" && !IsDigit(prefix[|prefix| - 1])
    ensures TrailingDigits(prefix + digits) == digits
    decreases |digits|
  {
    if digits == "" {
      assert prefix + digits == prefix;
    } else {
      var init := digits[..|digits| - 1];
      TrailingDigitsOf(prefix, init);
      assert (prefix + digits)[..|prefix + digits| - 1] == prefix + init;
      assert digits == init + [digits[|digits| - 1]];
    }
  }

  /** A suffix that ends in digits has their number as its lane, but at most 89; any other suffix has lane 1. */
  lemma {:induction false} LaneExact(prefix: string, digits: string)
    requires prefix != "" && !IsDigit(prefix[|prefix| - 1]) && AllDigits(digits)
    ensures Lane(prefix + digits) == if digits == "" then 1 else if Value(digits) < 89 then Value(digits) else 89
  {
    TrailingDigitsOf(prefix, digits);
  }

  /** What the numbers are. The lane is 90 for a release and at most 89 for a version with a suffix. */
  lemma FloorsExact(v: Version)
    requires IsDate(v)
    ensures var f := FloorsOf(v);
            && f.dateKey == v.year * 10000 + v.month * 100 + v.day
            && f.legacyFloor == f.dateKey * 10 && f.laneFloor == f.dateKey * 100 + f.lane
            && f.lane <= 90 && (f.lane == 90 <==> v.suffix == "")
  {
    DecimalReads(v.year);
    TwoDigitsAfter(Decimal(v.year), v.month);
    TwoDigitsAfter(Decimal(v.year) + Padded(v.month), v.day);
    var dateKey := Value(Decimal(v.year) + Padded(v.month) + Padded(v.day));
    DecimalReads(dateKey);
    ZeroAfter(Decimal(dateKey));
    LaneBound(v.suffix);
    TwoDigitsAfter(Decimal(dateKey), Lane(v.suffix));
  }

  lemma ParsedYear(s: string)
    requires ParseVersion(s).Some?
    ensures ParseVersion(s).value.year <= 9999
  {
    FourDigits(s[..4]);
  }

  /** One date is before another. */
  predicate Before(a: Version, b: Version) {
    a.year < b.year || (a.year == b.year && (a.month < b.month || (a.month == b.month && a.day < b.day)))
  }

  lemma DateKeysKeepOrder(v: Version, w: Version)
    requires IsDate(v) && IsDate(w)
    ensures v.year * 10000 + v.month * 100 + v.day < w.year * 10000 + w.month * 100 + w.day <==> Before(v, w)
  {
  }

  /** Build numbers are ordered as the versions are: by date, and on the same date by lane. */
  lemma BuildsKeepOrder(v: Version, w: Version)
    requires IsDate(v) && IsDate(w)
    ensures FloorsOf(v).laneFloor < FloorsOf(w).laneFloor <==>
            Before(v, w) || (!Before(w, v) && FloorsOf(v).lane < FloorsOf(w).lane)
  {
    FloorsExact(v);
    FloorsExact(w);
    DateKeysKeepOrder(v, w);
    DateKeysKeepOrder(w, v);
  }

  const LANE_BUILD_MIN := 1_000_000_000
  const LANE_FLOOR_ADOPTION_DATE_KEY := 20260227

  /** No legacy floor of a four-digit year reaches the least lane number; a lane floor does from the year 1000 on. */
  lemma FloorsApart(v: Version)
    requires IsDate(v) && v.year <= 9999
    ensures FloorsOf(v).legacyFloor < LANE_BUILD_MIN
    ensures FloorsOf(v).laneFloor >= LANE_BUILD_MIN <==> v.year >= 1000
  {
    FloorsExact(v);
  }

  // ---------- The update feed ----------

  // The texts of an item's tags, trimmed; None for a tag that is not there.
  datatype Item = Item(title: Option<string>, shortVersion: Option<string>, sparkleVersion: Option<string>)

  datatype Error =
    | NoItems
    | MissingVersion(title: string)
    | NonNumeric(title: string, version: string)
    | BelowFloor(title: string, build: nat, lane: bool, floor: nat)

  datatype Dated = Dated(title: string, build: nat, floors: Floors)

  function Title(item: Item): string {
    if item.title.Some? then item.title.value else "unknown"
  }

  /** The error that an item's build number is, if it is one. */
  function FormatError(item: Item): Option<Error> {
    if item.sparkleVersion.None? || item.sparkleVersion.value == "" then Some(MissingVersion(Title(item)))
    else if !AllDigits(item.sparkleVersion.value) then Some(NonNumeric(Title(item), item.sparkleVersion.value))
    else None
  }

  /** An item whose version is a date; the others are not compared. */
  function DatedItem(item: Item): Option<Dated> {
    if FormatError(item).Some? || item.shortVersion.None? then None
    else
      var floors := BuildFloors(item.shortVersion.value);
      if floors.None? then None else Some(Dated(Title(item), Value(item.sparkleVersion.value), floors.value))
  }

  function FormatErrors(items: seq<Item>): seq<Error> {
    if items == [] then []
    else
      var last := FormatError(items[|items| - 1]);
      FormatErrors(items[..|items| - 1]) + if last.Some? then [last.value] else []
  }

  function DatedItems(items: seq<Item>): seq<Dated> {
    if items == [] then []
    else
      var last := DatedItem(items[|items| - 1]);
      DatedItems(items[..|items| - 1]) + if last.Some? then [last.value] else []
  }

  /** The first date from which lane numbers are expected. */
  function Adoption(dated: seq<Dated>): nat {
    if dated == [] then LANE_FLOOR_ADOPTION_DATE_KEY
    else
      var before, last := Adoption(dated[..|dated| - 1]), dated[|dated| - 1];
      if last.build >= LANE_BUILD_MIN && last.floors.dateKey < before then last.floors.dateKey else before
  }

  predicate ExpectsLane(d: Dated, adoption: nat) {
    d.build >= LANE_BUILD_MIN || d.floors.dateKey >= adoption
  }

  function Floor(d: Dated, adoption: nat): nat {
    if ExpectsLane(d, adoption) then d.floors.laneFloor else d.floors.legacyFloor
  }

  /** The error that a dated item's build number is, if it is one. */
  function FloorError(d: Dated, adoption: nat): Option<Error> {
    if d.build < Floor(d, adoption)
    then Some(BelowFloor(d.title, d.build, ExpectsLane(d, adoption), Floor(d, adoption))) else None
  }

  function FloorErrors(dated: seq<Dated>, adoption: nat): seq<Error> {
    if dated == [] then []
    else
      var last := FloorError(dated[|dated| - 1], adoption);
      FloorErrors(dated[..|dated| - 1], adoption) + if last.Some? then [last.value] else []
  }

  /** The first loop: the items whose version is a date, and the errors of the others. */
  method CollectCalverItems(items: seq<Item>) returns (errors: seq<Error>, calverItems: seq<Dated>)
    ensures errors == FormatErrors(items) && calverItems == DatedItems(items)
  {
    errors, calverItems := [], [];
    for i := 0 to |items|
      invariant errors == FormatErrors(items[..i]) && calverItems == DatedItems(items[..i])
    {
      assert items[..i + 1][..i] == items[..i];
      var item := items[i];
      if item.sparkleVersion.None? || item.sparkleVersion.value == "" {
        errors := errors + [MissingVersion(Title(item))];
        continue;
      }
      if !AllDigits(item.sparkleVersion.value) {
        errors := errors + [NonNumeric(Title(item), item.sparkleVersion.value)];
        continue;
      }
      if item.shortVersion.None? || item.shortVersion.value == "" {
        continue;
      }
      var floors := BuildFloors(item.shortVersion.value);
      if floors.None? {
        continue;
      }
      calverItems := calverItems + [Dated(Title(item), Value(item.sparkleVersion.value), floors.value)];
    }
    assert items[..|items|] == items;
  }

  /** The first date with a lane number, or the fixed adoption date if that is earlier. */
  method AdoptionDateKey(calverItems: seq<Dated>) returns (adoption: nat)
    ensures adoption == Adoption(calverItems)
  {
    var observed: Option<nat> := None;
    for i := 0 to |calverItems|
      invariant Adoption(calverItems[..i]) == Least(observed)
    {
      assert calverItems[..i + 1][..i] == calverItems[..i];
      var item := calverItems[i];
      if item.build >= LANE_BUILD_MIN && (observed.None? || item.floors.dateKey < observed.value) {
        observed := Some(item.floors.dateKey);
      }
    }
    assert calverItems[..|calverItems|] == calverItems;
    adoption := Least(observed);
  }

  method CollectAppcastSparkleVersionErrors(items: seq<Item>) returns (errors: seq<Error>)
    ensures errors == FeedErrors(items)
  {
    var formatErrors, calverItems := CollectCalverItems(items);
    errors := (if items == [] then [NoItems] else []) + formatErrors;
    var adoption := AdoptionDateKey(calverItems);
    ghost var before := errors;
    for i := 0 to |calverItems|
      invariant errors == before + FloorErrors(calverItems[..i], adoption)
    {
      assert calverItems[..i + 1][..i] == calverItems[..i];
      var item := calverItems[i];
      var expectLaneFloor := item.build >= LANE_BUILD_MIN || item.floors.dateKey >= adoption;
      var floor := if expectLaneFloor then item.floors.laneFloor else item.floors.legacyFloor;
      if item.build < floor {
        errors := errors + [BelowFloor(item.title, item.build, expectLaneFloor, floor)];
      }
    }
    assert calverItems[..|calverItems|] == calverItems;
  }

  function FeedErrors(items: seq<Item>): seq<Error> {
    var dated := DatedItems(items);
    (if items == [] then [NoItems] else []) + FormatErrors(items) + FloorErrors(dated, Adoption(dated))
  }

  /** `Math.min(observed, LANE_FLOOR_ADOPTION_DATE_KEY)`, if there is an observed date. */
  function Least(observed: Option<nat>): nat {
    if observed.Some? && observed.value < LANE_FLOOR_ADOPTION_DATE_KEY then observed.value
    else LANE_FLOOR_ADOPTION_DATE_KEY
  }

  lemma {:induction false} AdoptionBound(dated: seq<Dated>)
    ensures Adoption(dated) <= LANE_FLOOR_ADOPTION_DATE_KEY
    ensures forall d :: d in dated && d.build >= LANE_BUILD_MIN ==> Adoption(dated) <= d.floors.dateKey
    ensures Adoption(dated) == LANE_FLOOR_ADOPTION_DATE_KEY
            || exists d :: d in dated && d.build >= LANE_BUILD_MIN && d.floors.dateKey == Adoption(dated)
  {
    if dated != [] {
      AdoptionBound(dated[..|dated| - 1]);
      assert dated == dated[..|dated| - 1] + [dated[|dated| - 1]];
    }
  }

  lemma {:induction false} NoFloorErrors(dated: seq<Dated>, adoption: nat)
    ensures FloorErrors(dated, adoption) == [] <==> forall d :: d in dated ==> d.build >= Floor(d, adoption)
  {
    if dated != [] {
      NoFloorErrors(dated[..|dated| - 1], adoption);
      assert dated == dated[..|dated| - 1] + [dated[|dated| - 1]];
    }
  }

  lemma {:induction false} DatedComeFromItems(items: seq<Item>)
    ensures forall d :: d in DatedItems(items) <==> exists item :: item in items && DatedItem(item) == Some(d)
  {
    if items != [] {
      var init, last := items[..|items| - 1], items[|items| - 1];
      DatedComeFromItems(init);
      assert items == init + [last];
      forall d
        ensures d in DatedItems(items) <==> d in DatedItems(init) || DatedItem(last) == Some(d)
      {
      }
    }
  }

  lemma {:induction false} NoFormatErrors(items: seq<Item>)
    ensures FormatErrors(items) == [] <==> forall item :: item in items ==> FormatError(item).None?
  {
    if items != [] {
      NoFormatErrors(items[..|items| - 1]);
      assert items == items[..|items| - 1] + [items[|items| - 1]];
    }
  }

  /** A feed passes if and only if it has items, each with a number, and none is below its floor. */
  lemma {:induction false} AcceptedExactly(items: seq<Item>)
    ensures FeedErrors(items) == [] <==>
            && items != [] && (forall item :: item in items ==> FormatError(item).None?)
            && forall item :: item in items && DatedItem(item).Some? ==>
                 DatedItem(item).value.build >= Floor(DatedItem(item).value, Adoption(DatedItems(items)))
  {
    var dated := DatedItems(items);
    NoFormatErrors(items);
    NoFloorErrors(dated, Adoption(dated));
    DatedComeFromItems(items);
    forall item | item in items && DatedItem(item).Some?
      ensures DatedItem(item).value in dated
    {
    }
    forall d | d in dated
      ensures exists item :: item in items && DatedItem(item) == Some(d)
    {
    }
  }

  /** The version of an item, if it is a date. */
  function DateOf(item: Item): Option<Version> {
    if item.shortVersion.None? then None
    else
      match ParseVersion(Trim(item.shortVersion.value))
      case None => None
      case Some(v) => if 1 <= v.month <= 12 && 1 <= v.day <= 31 then Some(v) else None
  }

  lemma DatedExactly(item: Item)
    requires FormatError(item).None?
    ensures DatedItem(item).Some? <==> DateOf(item).Some?
    ensures DateOf(item).Some? ==>
              var d, v := DatedItem(item).value, DateOf(item).value;
              && d.title == (if item.title.Some? then item.title.value else "unknown")
              && d.build == Value(item.sparkleVersion.value)
              && d.floors.dateKey == v.year * 10000 + v.month * 100 + v.day
              && d.floors.legacyFloor == d.floors.dateKey * 10
              && d.floors.laneFloor == d.floors.dateKey * 100 + Lane(v.suffix)
  {
    if DateOf(item).Some? {
      FloorsExact(DateOf(item).value);
    }
  }

  /**
   What is wrong with an item: it has no build number; or it is not all digits; or its version is a date, and
   the number is below ten times that date, or below a hundred times that date and its lane if it is a lane
   number or the date is not before the adoption of these.
   */
  ghost predicate Wrong(item: Item, adoption: nat, error: Error) {
    var title := if item.title.Some? then item.title.value else "unknown";
    if item.sparkleVersion.None? || item.sparkleVersion.value == "" then error == MissingVersion(title)
    else
      var number := item.sparkleVersion.value;
      if exists i :: 0 <= i < |number| && !('0' <= number[i] <= '9') then error == NonNumeric(title, number)
      else DateOf(item).Some? && TooLow(title, Value(number), DateOf(item).value, adoption, error)
  }

  ghost predicate TooLow(title: string, build: nat, v: Version, adoption: nat, error: Error) {
    var date := v.year * 10000 + v.month * 100 + v.day;
    if build >= 1_000_000_000 || date >= adoption then
      build < date * 100 + Lane(v.suffix) && error == BelowFloor(title, build, true, date * 100 + Lane(v.suffix))
    else
      build < date * 10 && error == BelowFloor(title, build, false, date * 10)
  }

  lemma TooLowExactly(d: Dated, v: Version, adoption: nat, error: Error)
    requires d.floors.dateKey == v.year * 10000 + v.month * 100 + v.day
    requires d.floors.legacyFloor == d.floors.dateKey * 10
    requires d.floors.laneFloor == d.floors.dateKey * 100 + Lane(v.suffix)
    ensures TooLow(d.title, d.build, v, adoption, error) <==> FloorError(d, adoption) == Some(error)
  {
  }

  lemma WrongIfLow(item: Item, adoption: nat, error: Error)
    requires FormatError(item).None?
    ensures Wrong(item, adoption, error)
            <==> && DateOf(item).Some?
                 && TooLow(if item.title.Some? then item.title.value else "unknown", Value(item.sparkleVersion.value),
                           DateOf(item).value, adoption, error)
  {
    assert AllDigits(item.sparkleVersion.value);
  }

  /** An item without an error of form is wrong exactly if it is dated and its number is below its floor. */
  lemma WrongDated(item: Item, adoption: nat, error: Error)
    requires FormatError(item).None?
    ensures Wrong(item, adoption, error)
            <==> DatedItem(item).Some? && FloorError(DatedItem(item).value, adoption) == Some(error)
  {
    WrongIfLow(item, adoption, error);
    DatedExactly(item);
    if DateOf(item).Some? {
      TooLowExactly(DatedItem(item).value, DateOf(item).value, adoption, error);
    }
  }

  lemma WrongForm(item: Item, adoption: nat, error: Error)
    requires FormatError(item).Some?
    ensures Wrong(item, adoption, error) <==> FormatError(item) == Some(error)
  {
  }

  /** The error of an item whose number is below its floor. */
  function LowError(item: Item, adoption: nat): Option<Error> {
    if DatedItem(item).Some? then FloorError(DatedItem(item).value, adoption) else None
  }

  function FormErrors(items: seq<Item>): (errors: seq<Option<Error>>)
    ensures |errors| == |items| && forall i :: 0 <= i < |items| ==> errors[i] == FormatError(items[i])
  {
    seq(|items|, i requires 0 <= i < |items| => FormatError(items[i]))
  }

  function LowErrors(items: seq<Item>, adoption: nat): (errors: seq<Option<Error>>)
    ensures |errors| == |items| && forall i :: 0 <= i < |items| ==> errors[i] == LowError(items[i], adoption)
  {
    seq(|items|, i requires 0 <= i < |items| => LowError(items[i], adoption))
  }

  lemma {:induction false} FormErrorsAre(items: seq<Item>)
    ensures FormatErrors(items) == Somes(FormErrors(items))
  {
    if items != [] {
      FormErrorsAre(items[..|items| - 1]);
      assert FormErrors(items)[..|items| - 1] == FormErrors(items[..|items| - 1]);
    }
  }

  lemma {:induction false} FloorErrorsPlus(dated: seq<Dated>, d: Dated, adoption: nat)
    ensures FloorErrors(dated + [d], adoption) ==
            FloorErrors(dated, adoption) + if FloorError(d, adoption).Some? then [FloorError(d, adoption).value] else []
  {
    assert (dated + [d])[..|dated|] == dated;
  }

  lemma {:induction false} LowErrorsAre(items: seq<Item>, adoption: nat)
    ensures FloorErrors(DatedItems(items), adoption) == Somes(LowErrors(items, adoption))
  {
    if items != [] {
      var init, last := items[..|items| - 1], DatedItem(items[|items| - 1]);
      LowErrorsAre(init, adoption);
      assert LowErrors(items, adoption)[..|items| - 1] == LowErrors(init, adoption);
      if last.Some? {
        FloorErrorsPlus(DatedItems(init), last.value, adoption);
      } else {
        assert DatedItems(items) == DatedItems(init);
      }
    }
  }

  lemma WrongExactly(item: Item, adoption: nat, error: Error)
    ensures Wrong(item, adoption, error)
            <==> FormatError(item) == Some(error) || LowError(item, adoption) == Some(error)
    ensures FormatError(item) == Some(error) ==> !error.BelowFloor?
    ensures LowError(item, adoption) == Some(error) ==> error.BelowFloor?
  {
    if FormatError(item).None? {
      WrongDated(item, adoption, error);
    } else {
      WrongForm(item, adoption, error);
    }
  }

  lemma {:induction false} FeedErrorsAre(items: seq<Item>)
    ensures FeedErrors(items) ==
            (if items == [] then [NoItems] else []) + Somes(FormErrors(items))
            + Somes(LowErrors(items, Adoption(DatedItems(items))))
  {
    FormErrorsAre(items);
    LowErrorsAre(items, Adoption(DatedItems(items)));
  }

  lemma {:induction false} FeedErrorsParts(items: seq<Item>)
    ensures var forms, lows := Somes(FormErrors(items)), Somes(LowErrors(items, Adoption(DatedItems(items))));
            if items == [] then FeedErrors(items) == [NoItems] && forms == [] && lows == []
            else FeedErrors(items) == forms + lows
  {
    FeedErrorsAre(items);
    var forms, lows := Somes(FormErrors(items)), Somes(LowErrors(items, Adoption(DatedItems(items))));
    if items == [] {
      assert FormErrors(items) == [] && LowErrors(items, Adoption(DatedItems(items))) == [];
      assert [NoItems] + [] + [] == [NoItems];
    } else {
      assert [] + forms == forms;
    }
  }

  /** The errors of one kind, and the positions of their items: all that are wrong in that way, in order. */
  ghost predicate WrongAt(items: seq<Item>, adoption: nat, tooLow: bool, errors: seq<Error>, at: seq<nat>) {
    && |at| == |errors| && (forall i, j :: 0 <= i < j < |at| ==> at[i] < at[j])
    && (forall j :: 0 <= j < |at| ==> at[j] < |items| && Wrong(items[at[j]], adoption, errors[j]))
    && (forall j :: 0 <= j < |at| ==> errors[j].BelowFloor? == tooLow)
    && forall i, error ::
         0 <= i < |items| && Wrong(items[i], adoption, error) && error.BelowFloor? == tooLow ==> i in at
  }

  lemma {:induction false} FormAt(items: seq<Item>, adoption: nat) returns (at: seq<nat>)
    ensures WrongAt(items, adoption, false, Somes(FormErrors(items)), at)
  {
    var forms := FormErrors(items);
    at := SomesAt(forms, |items|);
    assert forms[..|items|] == forms;
    forall j | 0 <= j < |at|
      ensures Wrong(items[at[j]], adoption, Somes(forms)[j]) && !Somes(forms)[j].BelowFloor?
    {
      WrongExactly(items[at[j]], adoption, Somes(forms)[j]);
    }
    forall i, error | 0 <= i < |items| && Wrong(items[i], adoption, error) && !error.BelowFloor?
      ensures i in at
    {
      WrongExactly(items[i], adoption, error);
    }
  }

  lemma {:induction false} LowAt(items: seq<Item>, adoption: nat) returns (at: seq<nat>)
    ensures WrongAt(items, adoption, true, Somes(LowErrors(items, adoption)), at)
  {
    var lows := LowErrors(items, adoption);
    at := SomesAt(lows, |items|);
    assert lows[..|items|] == lows;
    forall j | 0 <= j < |at|
      ensures Wrong(items[at[j]], adoption, Somes(lows)[j]) && Somes(lows)[j].BelowFloor?
    {
      WrongExactly(items[at[j]], adoption, Somes(lows)[j]);
    }
    forall i, error | 0 <= i < |items| && Wrong(items[i], adoption, error) && error.BelowFloor?
      ensures i in at
    {
      WrongExactly(items[i], adoption, error);
    }
  }

  /** The errors of a feed: those of form, and then those of too low a number; or else that it has no items. */
  lemma {:induction false} FeedErrorsInOrder(items: seq<Item>)
    returns (form: seq<Error>, formAt: seq<nat>, low: seq<Error>, lowAt: seq<nat>)
    ensures FeedErrors(items) == if items == [] then [NoItems] else form + low
    ensures WrongAt(items, Adoption(DatedItems(items)), false, form, formAt)
    ensures WrongAt(items, Adoption(DatedItems(items)), true, low, lowAt)
  {
    var adoption := Adoption(DatedItems(items));
    FeedErrorsParts(items);
    form, low := Somes(FormErrors(items)), Somes(LowErrors(items, adoption));
    formAt := FormAt(items, adoption);
    lowAt := LowAt(items, adoption);
  }

  /** The item has a lane number, and this date. */
  ghost predicate LaneItem(item: Item, date: nat) {
    && FormatError(item).None? && Value(item.sparkleVersion.value) >= 1_000_000_000 && DateOf(item).Some?
    && var v := DateOf(item).value; date == v.year * 10000 + v.month * 100 + v.day
  }

  lemma LaneDated(item: Item, date: nat)
    ensures LaneItem(item, date)
            <==> exists d :: DatedItem(item) == Some(d) && d.build >= LANE_BUILD_MIN && d.floors.dateKey == date
  {
    if FormatError(item).None? {
      DatedExactly(item);
      if LaneItem(item, date) {
        assert DatedItem(item) == Some(DatedItem(item).value);
      }
    }
  }

  /** Lane numbers have been adopted with the first dated item that has one, or on 27 February 2026 at the latest. */
  lemma {:induction false} AdoptionExact(items: seq<Item>)
    ensures var adoption := Adoption(DatedItems(items));
            && adoption <= 20260227
            && (forall item, date :: item in items && LaneItem(item, date) ==> adoption <= date)
            && (adoption == 20260227 || exists item :: item in items && LaneItem(item, adoption))
  {
    var dated := DatedItems(items);
    AdoptionBound(dated);
    DatedComeFromItems(items);
    forall item, date | item in items && LaneItem(item, date)
      ensures Adoption(dated) <= date
    {
      LaneDated(item, date);
    }
    if Adoption(dated) != LANE_FLOOR_ADOPTION_DATE_KEY {
      var d :| d in dated && d.build >= LANE_BUILD_MIN && d.floors.dateKey == Adoption(dated);
      var item :| item in items && DatedItem(item) == Some(d);
      LaneDated(item, Adoption(dated));
    }
  }

  lemma {:induction false} DatedNoReturn(dated: seq<Dated>, early: Dated, late: Dated)
    requires FloorErrors(dated, Adoption(dated)) == [] && early in dated && late in dated
    requires || (early.build >= LANE_BUILD_MIN && late.floors.dateKey >= early.floors.dateKey)
             || late.floors.dateKey >= LANE_FLOOR_ADOPTION_DATE_KEY
    ensures late.build >= late.floors.laneFloor
  {
    AdoptionBound(dated);
    NoFloorErrors(dated, Adoption(dated));
  }

  /** A legacy floor is below every lane number, and a lane floor is a lane number from the year 1000 on. */
  lemma VersionFloors(version: string)
    requires BuildFloors(version).Some?
    ensures var floors := BuildFloors(version).value;
            && floors.legacyFloor < LANE_BUILD_MIN
            && (floors.laneFloor >= LANE_BUILD_MIN <==> floors.dateKey >= 1000_00_00)
  {
    var s := Trim(version);
    ParsedYear(s);
    FloorsExact(ParseVersion(s).value);
    FloorsApart(ParseVersion(s).value);
  }

  lemma {:induction false} DatedFloors(items: seq<Item>, d: Dated)
    requires d in DatedItems(items)
    ensures d.floors.laneFloor >= LANE_BUILD_MIN <==> d.floors.dateKey >= 1000_00_00
  {
    DatedComeFromItems(items);
    var item :| item in items && DatedItem(item) == Some(d);
    VersionFloors(item.shortVersion.value);
  }

  /**
   In a feed that passes, an item dated on or after one with a lane number, or on or after the fixed
   adoption date, has at least its own lane floor; from the year 1000 on that is a lane number.
   */
  lemma {:induction false} NoReturnToLegacy(items: seq<Item>, early: Dated, late: Dated)
    requires FeedErrors(items) == [] && early in DatedItems(items) && late in DatedItems(items)
    requires || (early.build >= LANE_BUILD_MIN && late.floors.dateKey >= early.floors.dateKey)
             || late.floors.dateKey >= LANE_FLOOR_ADOPTION_DATE_KEY
    ensures late.build >= late.floors.laneFloor
    ensures late.floors.dateKey >= 1000_00_00 ==> late.build >= LANE_BUILD_MIN
  {
    DatedNoReturn(DatedItems(items), early, late);
    DatedFloors(items, late);
  }

  /** The item of a version with the given build number. */
  function ItemOf(version: string, build: nat): Item {
    Item(None, Some(version), Some(Decimal(build)))
  }

  lemma ItemOfExact(version: string, build: nat)
    requires BuildFloors(version).Some?
    ensures FormatError(ItemOf(version, build)).None?
    ensures DatedItem(ItemOf(version, build)) == Some(Dated("unknown", build, BuildFloors(version).value))
  {
    DecimalReads(build);
  }

  lemma {:induction false} OneMoreItem(items: seq<Item>, item: Item, d: Dated)
    requires FormatError(item).None? && DatedItem(item) == Some(d)
    ensures FormatErrors(items + [item]) == FormatErrors(items) && DatedItems(items + [item]) == DatedItems(items) + [d]
  {
    assert (items + [item])[..|items|] == items;
  }

  lemma Pair(items: seq<Item>)
    requires |items| == 2
    ensures [] + [items[0]] == [items[0]] && [items[0]] + [items[1]] == items
  {
  }

  lemma {:induction false} TwoItems(version: string, a: nat, b: nat)
    requires BuildFloors(version).Some?
    ensures var floors, items := BuildFloors(version).value, [ItemOf(version, a), ItemOf(version, b)];
            && FormatErrors(items) == []
            && DatedItems(items) == [] + [Dated("unknown", a, floors)] + [Dated("unknown", b, floors)]
  {
    ItemOfExact(version, a);
    ItemOfExact(version, b);
    Pair([ItemOf(version, a), ItemOf(version, b)]);
    OneMoreItem([], ItemOf(version, a), Dated("unknown", a, BuildFloors(version).value));
    OneMoreItem([ItemOf(version, a)], ItemOf(version, b), Dated("unknown", b, BuildFloors(version).value));
  }

  /** Two items of one date pass if the first has a lane number and the second at least the lane floor. */
  lemma {:induction false} TwoDated(x: Dated, y: Dated)
    requires x.floors == y.floors && x.build >= LANE_BUILD_MIN && x.build >= x.floors.laneFloor
    requires y.build >= y.floors.laneFloor && y.floors.dateKey < LANE_FLOOR_ADOPTION_DATE_KEY
    ensures FloorErrors([] + [x] + [y], Adoption([] + [x] + [y])) == []
  {
    var dated := [] + [x] + [y];
    AdoptionBound(dated);
    assert dated[0] == x && dated[1] == y;
    NoFloorErrors(dated, Adoption(dated));
  }

  /**
   Before the year 1000 the condition is needed: for every such version, a feed passes in which an item
   with a lane number is followed by one of the same version without.
   */
  lemma {:induction false} LegacyReturns(version: string)
    requires BuildFloors(version).Some? && BuildFloors(version).value.dateKey < 1000_00_00
    ensures var floors := BuildFloors(version).value;
            var early, late := ItemOf(version, LANE_BUILD_MIN), ItemOf(version, floors.laneFloor);
            && FeedErrors([early, late]) == []
            && DatedItem(early) == Some(Dated("unknown", LANE_BUILD_MIN, floors))
            && DatedItem(late) == Some(Dated("unknown", floors.laneFloor, floors))
            && floors.laneFloor < LANE_BUILD_MIN
  {
    var floors := BuildFloors(version).value;
    VersionFloors(version);
    ItemOfExact(version, LANE_BUILD_MIN);
    ItemOfExact(version, floors.laneFloor);
    var x, y := Dated("unknown", LANE_BUILD_MIN, floors), Dated("unknown", floors.laneFloor, floors);
    TwoItems(version, LANE_BUILD_MIN, floors.laneFloor);
    TwoDated(x, y);
  }
}
