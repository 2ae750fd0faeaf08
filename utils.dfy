/**
 * The presentation helpers of the site (src/lib/utils.ts): total functions
 * from nullable record fields to display strings. The locale formatters
 * (`Intl.NumberFormat`, `Intl.DateTimeFormat`) and the clock are foreign and
 * enter as parameters; what is modelled is every decision these helpers make.
 */
module Utils {
  import opened Wrappers
  import opened Text
  import opened ArrayOps

  // ---------------------------------------------------------------------------
  // Null branches of the locale formatters

  /** `formatCurrency`: a missing amount reads "Price TBD"; a present one, zero
      included, goes to the whole-dollar USD formatter `usd`. */
  function FormatCurrency(amount: Option<real>, usd: real -> string): (s: string)
    ensures amount.None? ==> s == "Price TBD"
    ensures amount.Some? ==> s == usd(amount.value)
  {
    match amount
    case None => "Price TBD"
    case Some(a) => usd(a)
  }

  /** `formatDate`: a null or empty date string gives ''; any other goes to the
      long-date formatter `longDate`. */
  function FormatDate(dateString: Option<string>, longDate: string -> string): (s: string)
    ensures !Truthy(dateString) ==> s == ""
    ensures Truthy(dateString) ==> s == longDate(dateString.value)
  {
    if !Truthy(dateString) then "" else longDate(dateString.value)
  }

  /** `formatSqft`: a missing area gives ''; a present one is the grouped number
      followed by " sq ft". */
  function FormatSqft(sqft: Option<real>, grouped: real -> string): (s: string)
    ensures sqft.None? ==> s == ""
    ensures sqft.Some? ==> |s| >= 6 && s[..|s| - 6] == grouped(sqft.value) && s[|s| - 6..] == " sq ft"
  {
    match sqft
    case None => ""
    case Some(x) => grouped(x) + " sq ft"
  }

  // ---------------------------------------------------------------------------
  // formatRelativeDate

  /** The bucket a whole number of elapsed days falls in. */
  datatype Elapsed =
    | Today
    | Yesterday
    | DaysAgo(days: nat)
    | WeeksAgo(weeks: nat)
    | MonthsAgo(months: nat)
    | YearsAgo(years: nat)

  /** The day-count ladder of `formatRelativeDate`: each bucket covers a range of
      day counts, and the count it shows is the number of whole units elapsed. */
  function DayBucket(diffDays: nat): (e: Elapsed)
    ensures e == Today <==> diffDays == 0
    ensures e == Yesterday <==> diffDays == 1
    ensures e.DaysAgo? <==> 2 <= diffDays < 7
    ensures e.WeeksAgo? <==> 7 <= diffDays < 30
    ensures e.MonthsAgo? <==> 30 <= diffDays < 365
    ensures e.YearsAgo? <==> 365 <= diffDays
    ensures e.DaysAgo? ==> e.days == diffDays
    ensures e.WeeksAgo? ==> 1 <= e.weeks <= 4 && 7 * e.weeks <= diffDays < 7 * (e.weeks + 1)
    ensures e.MonthsAgo? ==> 1 <= e.months <= 12 && 30 * e.months <= diffDays < 30 * (e.months + 1)
    ensures e.YearsAgo? ==> 1 <= e.years && 365 * e.years <= diffDays < 365 * (e.years + 1)
  {
    if diffDays == 0 then Today
    else if diffDays == 1 then Yesterday
    else if diffDays < 7 then DaysAgo(diffDays)
    else if diffDays < 30 then WeeksAgo(diffDays / 7)
    else if diffDays < 365 then MonthsAgo(diffDays / 30)
    else YearsAgo(diffDays / 365)
  }

  function ElapsedText(e: Elapsed): string {
    match e
    case Today => "Today"
    case Yesterday => "Yesterday"
    case DaysAgo(n) => NatToString(n) + " days ago"
    case WeeksAgo(n) => NatToString(n) + " weeks ago"
    case MonthsAgo(n) => NatToString(n) + " months ago"
    case YearsAgo(n) => NatToString(n) + " years ago"
  }

  /** `formatRelativeDate`, given the whole number of days between now and the
      date (`Math.floor(Math.abs(now - date) / 86400000)`, never negative). */
  function FormatRelativeDate(dateString: Option<string>, diffDays: nat): (s: string)
    ensures !Truthy(dateString) ==> s == ""
    ensures Truthy(dateString) ==> s == ElapsedText(DayBucket(diffDays))
  {
    if !Truthy(dateString) then "" else ElapsedText(DayBucket(diffDays))
  }

  /** A count above one day is printed as "N <unit>s ago" with N at least 1, so
      the label never reads "0 weeks ago" and names the elapsed count exactly. */
  lemma RelativeDateShowsCount(dateString: Option<string>, diffDays: nat)
    requires Truthy(dateString) && diffDays >= 2
    ensures var e := DayBucket(diffDays);
            var n := match e
                     case DaysAgo(d) => d
                     case WeeksAgo(w) => w
                     case MonthsAgo(m) => m
                     case YearsAgo(y) => y
                     case _ => 0;
            && n >= 1
            && var s := FormatRelativeDate(dateString, diffDays);
               var digits := NatToString(n);
               |digits| < |s| && s[..|digits|] == digits && DigitsValue(digits) == n
  {
    var e := DayBucket(diffDays);
    match e
    case DaysAgo(d) => NatToStringRoundTrip(d);
    case WeeksAgo(w) => NatToStringRoundTrip(w);
    case MonthsAgo(m) => NatToStringRoundTrip(m);
    case YearsAgo(y) => NatToStringRoundTrip(y);
  }

  // ---------------------------------------------------------------------------
  // formatBedBath

  /** `${n} <noun>${n !== 1 ? 's' : ''}`. */
  function CountLabel(n: int, noun: string): (s: string)
    ensures var head := IntToString(n) + " " + noun;
            && |s| == |head| + (if n != 1 then 1 else 0)
            && s[..|head|] == head
    ensures n != 1 ==> s[|s| - 1] == 's'
  {
    IntToString(n) + " " + noun + (if n != 1 then "s" else "")
  }

  /** `formatBedBath`: the present counts only, bedrooms first, joined by " | ". */
  function FormatBedBath(beds: Option<int>, baths: Option<int>): (s: string)
    ensures s == "" <==> beds.None? && baths.None?
    ensures beds.Some? && baths.None? ==> s == CountLabel(beds.value, "bed")
    ensures beds.None? && baths.Some? ==> s == CountLabel(baths.value, "bath")
    ensures beds.Some? && baths.Some? ==>
              s == CountLabel(beds.value, "bed") + " | " + CountLabel(baths.value, "bath")
  {
    var parts := (if beds.Some? then [CountLabel(beds.value, "bed")] else [])
               + (if baths.Some? then [CountLabel(baths.value, "bath")] else []);
    assert beds.Some? && baths.Some? ==>
      parts == [CountLabel(beds.value, "bed"), CountLabel(baths.value, "bath")]
      && parts[1..] == [parts[1]] && Join(parts[1..], " | ") == parts[1];
    Join(parts, " | ")
  }

  /** A count label starts with the count's decimal text and takes the plural
      's' exactly when the count is not 1. */
  lemma CountLabelPlural(n: int, noun: string)
    requires noun != [] && noun[|noun| - 1] != 's'
    ensures var s, digits := CountLabel(n, noun), IntToString(n);
            && |digits| < |s| && s[..|digits|] == digits
            && (s[|s| - 1] == 's' <==> n != 1)
  {
  }

  // ---------------------------------------------------------------------------
  // getStatusColor

  /** A status badge's Tailwind background and text classes. */
  datatype BadgeColors = BadgeColors(bg: string, text: string)

  const ActiveColors := BadgeColors("bg-green-100", "text-green-800")
  const SoldColors := BadgeColors("bg-blue-100", "text-blue-800")
  const LeasedColors := BadgeColors("bg-purple-100", "text-purple-800")
  const PendingColors := BadgeColors("bg-yellow-100", "text-yellow-800")
  const DefaultColors := BadgeColors("bg-gray-100", "text-gray-800")

  predicate IsKnownStatus(lower: string) {
    lower == "active" || lower == "sold" || lower == "leased" || lower == "pending"
  }

  /** `getStatusColor`: defined for every string; the four known statuses match
      whatever their case, anything else gets the gray pair. */
  function StatusColor(status: string): (c: BadgeColors)
    ensures ToLower(status) == "active" ==> c == ActiveColors
    ensures ToLower(status) == "sold" ==> c == SoldColors
    ensures ToLower(status) == "leased" ==> c == LeasedColors
    ensures ToLower(status) == "pending" ==> c == PendingColors
    ensures c == DefaultColors <==> !IsKnownStatus(ToLower(status))
  {
    match ToLower(status)
    case "active" => ActiveColors
    case "sold" => SoldColors
    case "leased" => LeasedColors
    case "pending" => PendingColors
    case _ => DefaultColors
  }

  /** Lower-casing twice is lower-casing once. */
  lemma ToLowerIdempotent(s: string)
    ensures ToLower(ToLower(s)) == ToLower(s)
  {
  }

  /** Case does not matter: a status and its lower-case form get the same badge,
      and so do two statuses that differ only in case. */
  lemma StatusColorIgnoresCase(s: string, t: string)
    requires ToLower(s) == ToLower(t)
    ensures StatusColor(s) == StatusColor(ToLower(s)) == StatusColor(t)
  {
    ToLowerIdempotent(s);
  }

  /** Different known statuses get different badges, so the badge tells them apart. */
  lemma StatusColorDistinguishesStatuses(s: string, t: string)
    requires IsKnownStatus(ToLower(s)) && IsKnownStatus(ToLower(t))
    requires ToLower(s) != ToLower(t)
    ensures StatusColor(s) != StatusColor(t)
  {
  }

  // ---------------------------------------------------------------------------
  // getStarRating

  const FullStar: char := '\U{2605}'
  const HalfStar: char := '\U{BD}'
  const EmptyStar: char := '\U{2606}'

  function Repeat(c: char, n: nat): (s: string)
    ensures |s| == n && forall i :: 0 <= i < n ==> s[i] == c
  {
    seq(n, _ => c)
  }

  /** `rating % 1 >= 0.5` for a non-negative rating. */
  predicate HasHalf(rating: real) {
    rating - rating.Floor as real >= 0.5
  }

  /** The outcome of a call that may throw: `String.prototype.repeat` throws a
      RangeError when asked for a negative number of copies. */
  datatype Rendered = Rendered(text: string) | RangeError

  /** `getStarRating`: '' for a missing rating; otherwise floor(rating) full
      stars, a half star when the fractional part is at least one half, and
      empty stars up to five. Ratings below 0 or from 5.5 up ask `repeat` for a
      negative count and throw. */
  function StarRating(rating: Option<real>): (r: Rendered)
    ensures rating.None? ==> r == Rendered("")
    ensures rating.Some? ==> (r.Rendered? <==> 0.0 <= rating.value < 5.5)
    ensures rating.Some? && r.Rendered? ==>
              var v := rating.value;
              && |r.text| == 5
              && forall k :: 0 <= k < 5 ==>
                   && (r.text[k] == FullStar <==> k < v.Floor)
                   && (r.text[k] == HalfStar <==> k == v.Floor && HasHalf(v))
                   && (r.text[k] == EmptyStar <==> k >= v.Floor + (if HasHalf(v) then 1 else 0))
  {
    match rating
    case None => Rendered("")
    case Some(v) =>
      var full := v.Floor;
      var half := if full >= 0 then HasHalf(v) else false;
      if full < 0 then RangeError
      else
        var empty := 5 - full - (if half then 1 else 0);
        if empty < 0 then RangeError
        else Rendered(Repeat(FullStar, full) + (if half then [HalfStar] else []) + Repeat(EmptyStar, empty))
  }

  // ---------------------------------------------------------------------------
  // truncateText

  function Max(a: int, b: int): int {
    if a < b then b else a
  }

  /** `kept` is what trimming the first `cut` characters of `t` leaves: no
      white space at its ends, a slice of `t` that starts after the leading
      white space, and only white space after it up to `cut`. */
  ghost predicate IsTrimmedCut(t: string, cut: nat, kept: string)
    requires cut <= |t|
  {
    && (kept == [] || (!IsWhitespace(kept[0]) && !IsWhitespace(kept[|kept| - 1])))
    && var i := LeadingWhitespace(t[..cut]);
       && i + |kept| <= cut && kept == t[i..i + |kept|]
       && (forall k :: 0 <= k < i ==> IsWhitespace(t[k]))
       && (forall k :: i + |kept| <= k < cut ==> IsWhitespace(t[k]))
  }

  /** `truncateText`: '' for a null or empty text; a text that fits is returned
      as it is; a longer one is cut to `maxLength` characters, trimmed at both
      ends and marked with "...". */
  function TruncateText(text: Option<string>, maxLength: int): (r: string)
    ensures !Truthy(text) ==> r == ""
    ensures Truthy(text) && |text.value| <= maxLength ==> r == text.value
    ensures Truthy(text) && |text.value| > maxLength ==>
              && 3 <= |r| <= Max(maxLength, 0) + 3
              && r[|r| - 3..] == "..."
              && IsTrimmedCut(text.value, Max(maxLength, 0), r[..|r| - 3])
  {
    if !Truthy(text) then ""
    else if |text.value| <= maxLength then text.value
    else
      var kept := Trim(text.value[..Max(maxLength, 0)]);
      TrimmedPrefix(text.value, Max(maxLength, 0));
      var r := kept + "...";
      assert r[..|r| - 3] == kept;
      r
  }

  /** Trimming the first `cut` characters of `t`, described on `t` itself. */
  lemma TrimmedPrefix(t: string, cut: nat)
    requires cut <= |t|
    ensures IsTrimmedCut(t, cut, Trim(t[..cut]))
  {
    var kept, i := Trim(t[..cut]), LeadingWhitespace(t[..cut]);
    assert kept == t[i..i + |kept|] by {
      SliceOfPrefix(t, cut, i, i + |kept|);
    }
    assert forall k :: 0 <= k < i ==> IsWhitespace(t[k]) by {
      WhitespaceInPrefix(t, cut, 0, i);
    }
    assert forall k :: i + |kept| <= k < cut ==> IsWhitespace(t[k]) by {
      WhitespaceInPrefix(t, cut, i + |kept|, cut);
    }
  }

  lemma SliceOfPrefix(t: string, cut: nat, a: nat, b: nat)
    requires a <= b <= cut <= |t|
    ensures t[..cut][a..b] == t[a..b]
  {
  }

  lemma WhitespaceInPrefix(t: string, cut: nat, a: nat, b: nat)
    requires a <= b <= cut <= |t|
    requires forall k :: a <= k < b ==> IsWhitespace(t[..cut][k])
    ensures forall k :: a <= k < b ==> IsWhitespace(t[k])
  {
    forall k | a <= k < b
      ensures IsWhitespace(t[k])
    {
      assert t[..cut][k] == t[k];
    }
  }

  // ---------------------------------------------------------------------------
  // slugify

  predicate NoDoubleHyphen(s: string) {
    forall i :: 0 <= i < |s| - 1 ==> !(s[i] == '-' && s[i + 1] == '-')
  }

  /** A URL slug: lower-case letters, digits and single hyphens, with no hyphen
      at either end. */
  predicate IsSlug(s: string) {
    && (forall i :: 0 <= i < |s| ==> IsLowerAlnum(s[i]) || s[i] == '-')
    && NoDoubleHyphen(s)
    && (s == [] || (s[0] != '-' && s[|s| - 1] != '-'))
  }

  /** `.replace(/[^a-z0-9]+/g, '-')`: every maximal run of characters outside
      [a-z0-9] becomes one hyphen. `inRun` says a run is already open, its
      hyphen already written. */
  function CollapseRuns(s: string, inRun: bool): (r: string)
    ensures forall i :: 0 <= i < |r| ==> IsLowerAlnum(r[i]) || r[i] == '-'
    ensures NoDoubleHyphen(r)
    ensures inRun ==> r == [] || r[0] != '-'
  {
    if s == [] then []
    else if IsLowerAlnum(s[0]) then [s[0]] + CollapseRuns(s[1..], false)
    else if inRun then CollapseRuns(s[1..], true)
    else ['-'] + CollapseRuns(s[1..], true)
  }

  /** `.replace(/(^-|-$)/g, '')`: drops a hyphen at the start and one at the end. */
  function StripEdgeHyphens(s: string): (r: string)
    ensures |r| <= |s| <= |r| + 2
    ensures (s == [] || (s[0] != '-' && s[|s| - 1] != '-')) ==> r == s
    ensures NoDoubleHyphen(s) ==> r == [] || (r[0] != '-' && r[|r| - 1] != '-')
    ensures exists a, e :: && 0 <= a <= 1 && a <= e <= |s| && |s| <= e + 1
                           && r == s[a..e]
                           && (a == 1 <==> s != [] && s[0] == '-')
                           && (e < |s| <==> a < |s| && s[|s| - 1] == '-')
  {
    var t := if s != [] && s[0] == '-' then s[1..] else s;
    var r := if t != [] && t[|t| - 1] == '-' then t[..|t| - 1] else t;
    var a := |s| - |t|;
    assert r == s[a..a + |r|];
    r
  }

  /** `slugify`: lower-case, collapse the runs, strip the edge hyphens; the
      result is always a slug. */
  function Slugify(text: string): (r: string)
    ensures IsSlug(r)
  {
    StripEdgeHyphens(CollapseRuns(ToLower(text), false))
  }

  /** A slug survives the run collapsing unchanged. */
  lemma {:induction false} CollapseRunsKeepsSlugText(s: string, inRun: bool)
    requires forall i :: 0 <= i < |s| ==> IsLowerAlnum(s[i]) || s[i] == '-'
    requires NoDoubleHyphen(s)
    requires inRun ==> s == [] || s[0] != '-'
    ensures CollapseRuns(s, inRun) == s
  {
    if s != [] {
      CollapseRunsKeepsSlugText(s[1..], s[0] == '-');
      assert s == [s[0]] + s[1..];
    }
  }

  /** Run collapsing keeps every letter and digit, in order: it only replaces
      the other characters. */
  lemma {:induction false} CollapseRunsKeepsLettersAndDigits(s: string, inRun: bool)
    ensures Filter(CollapseRuns(s, inRun), IsLowerAlnum) == Filter(s, IsLowerAlnum)
  {
    if s != [] {
      var rest := CollapseRuns(s[1..], !IsLowerAlnum(s[0]));
      CollapseRunsKeepsLettersAndDigits(s[1..], !IsLowerAlnum(s[0]));
      assert s == [s[0]] + s[1..];
      FilterCons(s[0], s[1..], IsLowerAlnum);
      if IsLowerAlnum(s[0]) {
        FilterCons(s[0], rest, IsLowerAlnum);
      } else if !inRun {
        FilterCons('-', rest, IsLowerAlnum);
      }
    }
  }

  /** Stripping the edge hyphens drops no letter or digit. */
  lemma StripEdgeHyphensKeepsLettersAndDigits(s: string)
    ensures Filter(StripEdgeHyphens(s), IsLowerAlnum) == Filter(s, IsLowerAlnum)
  {
    var t := if s != [] && s[0] == '-' then s[1..] else s;
    if s != [] && s[0] == '-' {
      assert s == [s[0]] + s[1..];
      FilterCons(s[0], s[1..], IsLowerAlnum);
    }
    if t != [] && t[|t| - 1] == '-' {
      var init := t[..|t| - 1];
      assert t == init + ['-'];
      FilterAppend(init, ['-'], IsLowerAlnum);
      FilterCons('-', [], IsLowerAlnum);
    }
  }

  /** A slug keeps exactly the letters and digits of the lower-cased text, in
      their order. */
  lemma SlugifyKeepsLettersAndDigits(text: string)
    ensures Filter(Slugify(text), IsLowerAlnum) == Filter(ToLower(text), IsLowerAlnum)
  {
    CollapseRunsKeepsLettersAndDigits(ToLower(text), false);
    StripEdgeHyphensKeepsLettersAndDigits(CollapseRuns(ToLower(text), false));
  }

  /** Whether a run is open after collapsing `a` from the state `inRun`. */
  function RunOpenAfter(a: string, inRun: bool): bool {
    if a == [] then inRun else !IsLowerAlnum(a[|a| - 1])
  }

  /** Collapsing a concatenation collapses the two halves, the second from the
      state the first leaves. */
  lemma {:induction false} CollapseRunsAppend(a: string, c: string, inRun: bool)
    ensures CollapseRuns(a + c, inRun) == CollapseRuns(a, inRun) + CollapseRuns(c, RunOpenAfter(a, inRun))
  {
    if a == [] {
      assert a + c == c;
    } else {
      var t, open := a[1..], !IsLowerAlnum(a[0]);
      CollapseRunsAppend(t, c, open);
      CollapseRunsStepAppend(a, c, inRun);
      CollapseRunsStep(a, inRun);
      assert RunOpenAfter(t, open) == RunOpenAfter(a, inRun);
      ConcatRegroup(CollapsedChar(a[0], inRun), CollapseRuns(t, open), CollapseRuns(c, RunOpenAfter(a, inRun)),
                    CollapseRuns(a + c, inRun), CollapseRuns(a, inRun));
    }
  }

  /** A solver step: regrouping a concatenation, kept apart so that the
      verifier sees only the four sequences and not what they hold. */
  lemma ConcatRegroup(p: string, x: string, y: string, whole: string, front: string)
    requires whole == p + (x + y) && front == p + x
    ensures whole == front + y
  {
  }

  /** What collapsing writes for one character, given whether a run is open. */
  function CollapsedChar(c: char, inRun: bool): string {
    if IsLowerAlnum(c) then [c] else if inRun then [] else "-"
  }

  /** One step of `CollapseRuns` on a concatenation with a non-empty front. */
  lemma CollapseRunsStepAppend(a: string, c: string, inRun: bool)
    requires a != []
    ensures CollapseRuns(a + c, inRun) == CollapsedChar(a[0], inRun) + CollapseRuns(a[1..] + c, !IsLowerAlnum(a[0]))
  {
    assert (a + c)[0] == a[0] && (a + c)[1..] == a[1..] + c;
    CollapseRunsStep(a + c, inRun);
  }

  /** One step of `CollapseRuns`. */
  lemma CollapseRunsStep(s: string, inRun: bool)
    requires s != []
    ensures CollapseRuns(s, inRun) == CollapsedChar(s[0], inRun) + CollapseRuns(s[1..], !IsLowerAlnum(s[0]))
  {
  }

  /** A run of characters outside [a-z0-9] collapses to nothing inside an open
      run and to one hyphen otherwise. */
  lemma {:induction false} CollapseRunOfOthers(r: string, inRun: bool)
    requires r != [] && forall i :: 0 <= i < |r| ==> !IsLowerAlnum(r[i])
    ensures CollapseRuns(r, inRun) == if inRun then [] else "-"
  {
    if |r| > 1 {
      CollapseRunOfOthers(r[1..], true);
    }
  }

  /** A maximal run of characters outside [a-z0-9], between letters or digits
      or at an end of the text, becomes exactly one hyphen. */
  lemma RunBecomesOneHyphen(a: string, r: string, c: string)
    requires a == [] || IsLowerAlnum(a[|a| - 1])
    requires r != [] && forall i :: 0 <= i < |r| ==> !IsLowerAlnum(r[i])
    requires c == [] || IsLowerAlnum(c[0])
    ensures CollapseRuns(a + r + c, false) == CollapseRuns(a, false) + "-" + CollapseRuns(c, false)
  {
    CollapseRunsAppend(a + r, c, false);
    CollapseRunsAppend(a, r, false);
    CollapseRunOfOthers(r, false);
    assert (a + r)[|a + r| - 1] == r[|r| - 1];
  }

  /** Letters and digits pass through the run collapsing unchanged. */
  lemma LettersAndDigitsPassThrough(w: string, inRun: bool)
    requires forall i :: 0 <= i < |w| ==> IsLowerAlnum(w[i])
    ensures CollapseRuns(w, inRun) == w
  {
    CollapseRunsKeepsSlugText(w, inRun);
  }

  /** Slugs are exactly the fixed points of `Slugify`. */
  lemma SlugifyFixesSlugs(s: string)
    ensures IsSlug(s) <==> Slugify(s) == s
  {
    if IsSlug(s) {
      assert ToLower(s) == s;
      CollapseRunsKeepsSlugText(s, false);
    }
  }

  /** `slugify(slugify(s)) == slugify(s)`. */
  lemma SlugifyIdempotent(s: string)
    ensures Slugify(Slugify(s)) == Slugify(s)
  {
    SlugifyFixesSlugs(Slugify(s));
  }

  /** A worked case: a space and trailing punctuation become one hyphen each,
      and the trailing one is then stripped. */
  lemma SlugifyExample()
    ensures Slugify("Oak St!") == "oak-st"
  {
    LowerCaseExample();
    CollapseRunsExample();
    assert StripEdgeHyphens("oak-st-") == "oak-st";
  }

  /** A name with punctuation: the space, the spaced em dash and the final "!"
      each become one hyphen, and the trailing hyphen is then stripped. */
  lemma SlugifyHeightsExample()
    ensures Slugify("The Heights — Houston!") == "the-heights-houston"
  {
    HeightsCollapse();
    assert StripEdgeHyphens("the-heights-houston-") == "the-heights-houston";
  }

  /** Lower-casing then replacing the runs of the example. */
  lemma HeightsCollapse()
    ensures CollapseRuns(ToLower("The Heights — Houston!"), false) == "the-heights-houston-"
  {
    HeightsLowerCase();
    HeightsLoweredCollapse(ToLower("The Heights — Houston!"));
  }

  /** A solver step: the lower-cased example taken as a parameter, so that the
      verifier does not evaluate `CollapseRuns` on the literal character by
      character. */
  lemma HeightsLoweredCollapse(s: string)
    requires s == "the heights — houston!"
    ensures CollapseRuns(s, false) == "the-heights-houston-"
  {
    assert s == "the" + " " + ("heights" + " — " + ("houston" + "!"));
    HeightsWordsCollapse("the", " ", "heights", " — ", "houston", "!");
  }

  /** A solver step: the example split into its three words and three runs,
      each passed as a parameter for the same reason. */
  lemma HeightsWordsCollapse(w1: string, r1: string, w2: string, r2: string, w3: string, r3: string)
    requires w1 == "the" && w2 == "heights" && w3 == "houston"
    requires r1 == " " && r2 == " — " && r3 == "!"
    ensures CollapseRuns(w1 + r1 + (w2 + r2 + (w3 + r3)), false) == "the-heights-houston-"
  {
    assert IsWord(w1) && IsWord(w2) && IsWord(w3);
    assert IsRun(r1) && IsRun(r2) && IsRun(r3);
    CollapseThreeWords(w1, r1, w2, r2, w3, r3);
    assert w1 + "-" + (w2 + "-" + (w3 + "-")) == "the-heights-houston-";
  }

  lemma HeightsLowerCase()
    ensures ToLower("The Heights — Houston!") == "the heights — houston!"
  {
    var r := ToLower("The Heights — Houston!");
    assert r[0] == 't' && r[4] == 'h' && r[12] == '—' && r[14] == 'h';
  }

  /** Three words, each followed by a run of other characters, collapse to the
      words each followed by one hyphen. */
  lemma CollapseThreeWords(w1: string, r1: string, w2: string, r2: string, w3: string, r3: string)
    requires IsWord(w1) && IsWord(w2) && IsWord(w3)
    requires IsRun(r1) && IsRun(r2) && IsRun(r3)
    ensures CollapseRuns(w1 + r1 + (w2 + r2 + (w3 + r3)), false) == w1 + "-" + (w2 + "-" + (w3 + "-"))
  {
    var c3 := w3 + r3;
    var c2 := w2 + r2 + c3;
    assert c3 + [] == c3 && c3[0] == w3[0] && c2[0] == w2[0];
    WordThenRun(w3, r3, []);
    WordThenRun(w2, r2, c3);
    WordThenRun(w1, r1, c2);
  }

  /** A word followed by a run of other characters collapses to the word and
      one hyphen, before whatever the rest collapses to. */
  lemma WordThenRun(w: string, r: string, rest: string)
    requires IsWord(w) && IsRun(r) && (rest == [] || IsLowerAlnum(rest[0]))
    ensures CollapseRuns(w + r + rest, false) == w + "-" + CollapseRuns(rest, false)
  {
    RunBecomesOneHyphen(w, r, rest);
    LettersAndDigitsPassThrough(w, false);
  }

  /** A non-empty text of letters and digits. */
  predicate IsWord(w: string) {
    w != [] && forall i :: 0 <= i < |w| ==> IsLowerAlnum(w[i])
  }

  /** A non-empty text with no letter or digit. */
  predicate IsRun(r: string) {
    r != [] && forall i :: 0 <= i < |r| ==> !IsLowerAlnum(r[i])
  }

  lemma LowerCaseExample()
    ensures ToLower("Oak St!") == "oak st!"
  {
    var r := ToLower("Oak St!");
    assert r[0] == 'o' && r[4] == 's';
  }

  lemma CollapseRunsExample()
    ensures CollapseRuns("oak st!", false) == "oak-st-"
  {
    assert CollapseRuns("!", false) == "-";
    assert CollapseRuns("t!", false) == "t-";
    assert CollapseRuns("st!", false) == "st-";
    assert CollapseRuns(" st!", false) == "-st-";
  }

  // ---------------------------------------------------------------------------
  // calculateAverageRating

  /** `ratings.filter(r => r !== null)`. */
  function ValidRatings(ratings: seq<Option<real>>): (v: seq<real>)
    ensures |v| <= |ratings|
  {
    if ratings == [] then []
    else
      var rest := ValidRatings(ratings[1..]);
      match ratings[0]
      case None => rest
      case Some(x) => [x] + rest
  }

  /** The filter keeps exactly the present ratings. */
  lemma {:induction false} ValidRatingsMembers(ratings: seq<Option<real>>)
    ensures forall x :: x in ValidRatings(ratings) <==> Some(x) in ratings
  {
    if ratings != [] {
      ValidRatingsMembers(ratings[1..]);
      assert ratings == [ratings[0]] + ratings[1..];
    }
  }

  function Sum(v: seq<real>): real {
    if v == [] then 0.0 else v[0] + Sum(v[1..])
  }

  /** `calculateAverageRating`: the mean of the present ratings, 0 when none is present. */
  function AverageRating(ratings: seq<Option<real>>): (avg: real)
    ensures ValidRatings(ratings) == [] ==> avg == 0.0
    ensures ValidRatings(ratings) != [] ==> avg * |ValidRatings(ratings)| as real == Sum(ValidRatings(ratings))
  {
    Mean(ValidRatings(ratings))
  }

  function Mean(v: seq<real>): (m: real)
    ensures v == [] ==> m == 0.0
    ensures v != [] ==> m * |v| as real == Sum(v)
  {
    if |v| == 0 then 0.0 else Sum(v) / |v| as real
  }

  lemma {:induction false} ValidRatingsAppend(a: seq<Option<real>>, b: seq<Option<real>>)
    ensures ValidRatings(a + b) == ValidRatings(a) + ValidRatings(b)
  {
    if a != [] {
      assert (a + b)[0] == a[0];
      assert (a + b)[1..] == a[1..] + b;
      ValidRatingsAppend(a[1..], b);
    } else {
      assert a + b == b;
    }
  }

  /** A null rating anywhere in the list changes nothing. */
  lemma AverageIgnoresNulls(a: seq<Option<real>>, b: seq<Option<real>>)
    ensures AverageRating(a + [None] + b) == AverageRating(a + b)
  {
    var none: seq<Option<real>> := [None];
    assert ValidRatings(none) == [];
    ValidRatingsAppend(a, none);
    ValidRatingsAppend(a + none, b);
    ValidRatingsAppend(a, b);
    assert ValidRatings(a + none + b) == ValidRatings(a + b);
  }

  lemma {:induction false} SumBounds(v: seq<real>, lo: real, hi: real)
    requires forall i :: 0 <= i < |v| ==> lo <= v[i] <= hi
    ensures |v| as real * lo <= Sum(v) <= |v| as real * hi
  {
    if v != [] {
      SumBounds(v[1..], lo, hi);
    }
  }

  /** The average of the present ratings lies between the smallest and the
      largest of them. */
  lemma AverageBetweenExtremes(ratings: seq<Option<real>>, lo: real, hi: real)
    requires Some(lo) in ratings && Some(hi) in ratings
    requires forall x :: Some(x) in ratings ==> lo <= x <= hi
    ensures lo <= AverageRating(ratings) <= hi
  {
    var v := ValidRatings(ratings);
    ValidRatingsMembers(ratings);
    forall i | 0 <= i < |v|
      ensures lo <= v[i] <= hi
    {
      assert v[i] in v;
    }
    assert |v| > 0 by {
      assert lo in v;
    }
    MeanBetween(v, lo, hi);
    assert AverageRating(ratings) == Mean(v);
  }

  /** The mean of values between two bounds lies between them. */
  lemma MeanBetween(v: seq<real>, lo: real, hi: real)
    requires |v| > 0 && forall i :: 0 <= i < |v| ==> lo <= v[i] <= hi
    ensures lo <= Mean(v) <= hi
  {
    SumBounds(v, lo, hi);
    QuotientBounds(Sum(v), |v| as real, lo, hi);
  }

  lemma QuotientBounds(sum: real, n: real, lo: real, hi: real)
    requires n > 0.0 && n * lo <= sum <= n * hi
    ensures lo <= sum / n <= hi
  {
  }

  /** The worked case: ratings 5, 4, null and 3 average to 4. */
  lemma AverageRatingExample()
    ensures AverageRating([Some(5.0), Some(4.0), None, Some(3.0)]) == 4.0
  {
    var r: seq<Option<real>> := [Some(5.0), Some(4.0), None, Some(3.0)];
    assert r[1..][1..][1..][1..] == [];
    assert ValidRatings(r) == [5.0, 4.0, 3.0];
    var v: seq<real> := [5.0, 4.0, 3.0];
    assert v[1..][1..][1..] == [];
  }
}
