/**
 * The two pieces of logic in the review card (src/components/ReviewCard.tsx):
 * the initials shown in place of a missing reviewer photo, and which of the
 * five rating stars are drawn filled.
 */
module ReviewCard {
  import opened Wrappers
  import opened Text
  import Utils

  // ---------------------------------------------------------------------------
  // getInitials

  /** `${part[0]}` inside a template literal: an empty part has no first
      character, and the template prints the word "undefined". */
  function FirstCharText(part: string): string {
    if part == "" then "undefined" else [part[0]]
  }

  /** `getInitials` as written: "?" for a null or empty name; the first
      characters of the first and last space-separated parts when there are
      two parts or more; otherwise the first character of the name; all
      upper-cased. The contract reads the parts off the first and the last
      space instead of the split. */
  function GetInitials(name: Option<string>): (r: string)
    ensures !Truthy(name) ==> r == "?"
    ensures Truthy(name) && ' ' !in name.value ==> r == [UpperChar(name.value[0])]
    ensures Truthy(name) && ' ' in name.value ==>
              var s := name.value;
              r == ToUpper(FirstCharText(s[..IndexOf(s, ' ').value])
                           + FirstCharText(s[LastIndexOf(s, ' ').value + 1..]))
  {
    if !Truthy(name) then "?"
    else
      var s := name.value;
      var parts := Split(s, ' ');
      if |parts| >= 2 then
        var first, last := parts[0], parts[|parts| - 1];
        SplitFirstPart(s, ' ');
        SplitLastPart(s, ' ');
        assert first == s[..IndexOf(s, ' ').value];
        assert last == s[LastIndexOf(s, ' ').value + 1..];
        ToUpper(FirstCharText(first) + FirstCharText(last))
      else
        ToUpper([s[0]])
  }

  /** A name with a space that neither starts nor ends with a space (its split
      has two non-empty parts or more) gets two letters: its first character
      and the one after its last space. */
  lemma InitialsOfSpacedName(s: string)
    requires ' ' in s && s[0] != ' ' && s[|s| - 1] != ' '
    ensures var q := LastIndexOf(s, ' ').value;
            q + 1 < |s| && s[q + 1] != ' '
            && GetInitials(Some(s)) == [UpperChar(s[0]), UpperChar(s[q + 1])]
  {
    var p, q := IndexOf(s, ' ').value, LastIndexOf(s, ' ').value;
    assert FirstCharText(s[..p]) == [s[0]];
    assert FirstCharText(s[q + 1..]) == [s[q + 1]];
    UpperCaseTwo(s[0], s[q + 1]);
  }

  lemma UpperCaseTwo(a: char, b: char)
    ensures ToUpper([a] + [b]) == [UpperChar(a), UpperChar(b)]
  {
  }

  /** A name that starts with a space splits into an empty first part, whose
      missing first character prints as "undefined": the avatar reads
      "UNDEFINED" followed by another letter. */
  lemma InitialsOfLeadingSpaceName(s: string)
    requires s != [] && s[0] == ' '
    ensures var r := GetInitials(Some(s));
            |r| >= 9 && r[..9] == "UNDEFINED"
  {
    assert IndexOf(s, ' ') == Some(0);
    var tail := FirstCharText(s[LastIndexOf(s, ' ').value + 1..]);
    assert GetInitials(Some(s)) == ToUpper("undefined" + tail);
    UpperCasePrefix("undefined", tail);
    UpperCaseUndefined();
  }

  /** Upper-casing works character by character, so it keeps prefixes. */
  lemma UpperCasePrefix(a: string, b: string)
    ensures |ToUpper(a + b)| >= |a| && ToUpper(a + b)[..|a|] == ToUpper(a)
  {
  }

  lemma UpperCaseUndefined()
    ensures ToUpper("undefined") == "UNDEFINED"
  {
    var u := ToUpper("undefined");
    assert u[0] == 'U' && u[1] == 'N' && u[2] == 'D' && u[3] == 'E' && u[4] == 'F';
    assert u[5] == 'I' && u[6] == 'N' && u[7] == 'E' && u[8] == 'D';
  }

  /** The same, for the name " Ana Lima": the avatar reads "UNDEFINEDL". */
  lemma InitialsOfLeadingSpaceExample()
    ensures GetInitials(Some(" Ana Lima")) == "UNDEFINEDL"
  {
    LeadingSpaceAnaLima(" Ana Lima");
  }

  /** A solver step: the example name taken as a parameter, so that the
      verifier does not evaluate `GetInitials` on the literal. */
  lemma LeadingSpaceAnaLima(s: string)
    requires s == " Ana Lima"
    ensures GetInitials(Some(s)) == "UNDEFINEDL"
  {
    assert s == " Ana" + [' '] + "Lima";
    LastSeparatorBefore(s, " Ana", ' ', "Lima");
    assert IndexOf(s, ' ') == Some(0);
    assert GetInitials(Some(s)) == ToUpper("undefined" + "L");
    UpperCasePrefix("undefined", "L");
    UpperCaseUndefined();
  }

  /** `c` is the upper-cased form of a character of `name` that is not a space. */
  ghost predicate IsNameInitial(name: string, c: char) {
    exists j :: 0 <= j < |name| && name[j] != ' ' && c == UpperChar(name[j])
  }

  /** The evidently intended initials: those of the name with the white space
      at both ends trimmed, "?" when nothing is left. */
  function GetInitialsTrimmed(name: Option<string>): (r: string)
    ensures !Truthy(name) || Trim(name.value) == "" ==> r == "?"
    ensures Truthy(name) && Trim(name.value) != "" ==>
              var t := Trim(name.value);
              && (' ' !in t ==> r == [UpperChar(t[0])])
              && (' ' in t ==> var q := LastIndexOf(t, ' ').value;
                               q + 1 < |t| && r == [UpperChar(t[0]), UpperChar(t[q + 1])])
    ensures Truthy(name) && Trim(name.value) != "" ==>
              1 <= |r| <= 2 && forall k :: 0 <= k < |r| ==> IsNameInitial(name.value, r[k])
  {
    if !Truthy(name) then "?"
    else
      var t := Trim(name.value);
      if t == "" then "?"
      else
        TrimmedInitialsComeFromName(name.value);
        GetInitials(Some(t))
  }

  /** Each initial of the trimmed name is an upper-cased character of the name
      that is not a space. */
  lemma TrimmedInitialsComeFromName(s: string)
    requires Trim(s) != ""
    ensures var t, r := Trim(s), GetInitials(Some(Trim(s)));
            && (' ' !in t ==> r == [UpperChar(t[0])])
            && (' ' in t ==> var q := LastIndexOf(t, ' ').value;
                             q + 1 < |t| && r == [UpperChar(t[0]), UpperChar(t[q + 1])])
            && 1 <= |r| <= 2 && forall k :: 0 <= k < |r| ==> IsNameInitial(s, r[k])
  {
    var t := Trim(s);
    assert !IsWhitespace(t[0]) && !IsWhitespace(t[|t| - 1]);
    InitialsOfCleanName(t);
    var r := GetInitials(Some(t));
    forall k | 0 <= k < |r|
      ensures IsNameInitial(s, r[k])
    {
      TrimmedNameInitial(s, r[k]);
    }
  }

  /** A name with no white space at its ends gets one or two initials, each
      taken from a character of the name that is not a space. */
  lemma InitialsOfCleanName(t: string)
    requires t != [] && !IsWhitespace(t[0]) && !IsWhitespace(t[|t| - 1])
    ensures var r := GetInitials(Some(t));
            && (' ' !in t ==> r == [UpperChar(t[0])])
            && (' ' in t ==> var q := LastIndexOf(t, ' ').value;
                             q + 1 < |t| && r == [UpperChar(t[0]), UpperChar(t[q + 1])])
            && 1 <= |r| <= 2 && forall k :: 0 <= k < |r| ==> IsNameInitial(t, r[k])
  {
    var r := GetInitials(Some(t));
    assert t[0] != ' ' && t[|t| - 1] != ' ';
    InitialAt(t, 0);
    if ' ' in t {
      InitialsOfSpacedName(t);
      var q := LastIndexOf(t, ' ').value;
      InitialAt(t, q + 1);
      assert r == [UpperChar(t[0]), UpperChar(t[q + 1])];
    } else {
      assert r == [UpperChar(t[0])];
    }
  }

  lemma InitialAt(name: string, j: nat)
    requires j < |name| && name[j] != ' '
    ensures IsNameInitial(name, UpperChar(name[j]))
  {
  }

  /** An initial taken from the trimmed name is one of the name itself. */
  lemma TrimmedNameInitial(s: string, c: char)
    requires IsNameInitial(Trim(s), c)
    ensures IsNameInitial(s, c)
  {
    var t, i := Trim(s), LeadingWhitespace(s);
    var m :| 0 <= m < |t| && t[m] != ' ' && c == UpperChar(t[m]);
    assert t[m] == s[i..i + |t|][m];
    InitialAt(s, i + m);
  }

  /** With the leading space trimmed, " Ana Lima" gets the initials "AL". */
  lemma TrimmedInitialsExample()
    ensures GetInitialsTrimmed(Some(" Ana Lima")) == "AL"
  {
    AnaLimaTrim();
    AnaLimaLastSpace(Trim(" Ana Lima"));
  }

  lemma AnaLimaTrim()
    ensures Trim(" Ana Lima") == "Ana Lima"
  {
    var s, t := " Ana Lima", "Ana Lima";
    assert IsWhitespace(s[0]) && s[1..] == t;
    assert !IsWhitespace(t[0]) && !IsWhitespace(t[|t| - 1]);
    assert TrimStart(t) == t && TrimEnd(t) == t;
  }

  /** A solver step: where the last space of the trimmed example name is, with
      the name taken as a parameter for the same reason. */
  lemma AnaLimaLastSpace(t: string)
    requires t == "Ana Lima"
    ensures ' ' in t && LastIndexOf(t, ' ') == Some(3)
    ensures [UpperChar(t[0]), UpperChar(t[4])] == "AL"
  {
    assert t == "Ana" + [' '] + "Lima";
    LastSeparatorBefore(t, "Ana", ' ', "Lima");
  }


  /** For a name without white space at its ends the fix changes nothing. */
  lemma InitialsFixAgreesOnTrimmedNames(name: Option<string>)
    requires Truthy(name)
    requires !IsWhitespace(name.value[0]) && !IsWhitespace(name.value[|name.value| - 1])
    ensures GetInitialsTrimmed(name) == GetInitials(name)
  {
    assert TrimStart(name.value) == name.value;
    assert TrimEnd(name.value) == name.value;
  }

  // ---------------------------------------------------------------------------
  // renderStars

  /** `renderStars`: nothing for a null rating; otherwise five stars, the star
      numbered k + 1 filled when k + 1 <= rating. */
  function RenderStars(rating: Option<real>): (stars: Option<seq<bool>>)
    ensures rating.None? <==> stars.None?
    ensures stars.Some? ==> |stars.value| == 5
    ensures stars.Some? ==> forall k :: 0 <= k < 5 ==> (stars.value[k] <==> (k + 1) as real <= rating.value)
  {
    match rating
    case None => None
    case Some(v) => Some(seq(5, i requires 0 <= i < 5 => (i + 1) as real <= v))
  }

  function CountFilled(stars: seq<bool>): nat {
    if stars == [] then 0 else (if stars[0] then 1 else 0) + CountFilled(stars[1..])
  }

  function Clamp(x: int, lo: int, hi: int): int {
    if x < lo then lo else if x > hi then hi else x
  }

  lemma {:induction false} CountFilledPrefix(stars: seq<bool>, n: nat)
    requires n <= |stars|
    requires forall k :: 0 <= k < |stars| ==> (stars[k] <==> k < n)
    ensures CountFilled(stars) == n
  {
    if stars != [] {
      CountFilledPrefix(stars[1..], if n > 0 then n - 1 else 0);
    }
  }

  /** The filled stars come first, and there are as many as the whole part of
      the rating, kept between 0 and 5. */
  lemma FilledStarsAreWholePart(v: real)
    ensures var stars, n := RenderStars(Some(v)).value, Clamp(v.Floor, 0, 5);
            && (forall k :: 0 <= k < 5 ==> (stars[k] <==> k < n))
            && CountFilled(stars) == n
  {
    var stars, n := RenderStars(Some(v)).value, Clamp(v.Floor, 0, 5);
    assert forall k :: 0 <= k < 5 ==> (stars[k] <==> k < n) by {
      forall k | 0 <= k < 5
        ensures stars[k] <==> k < n
      {
        assert stars[k] <==> (k + 1) as real <= v;
      }
    }
    CountFilledPrefix(stars, n);
  }

  /** For a whole rating from 0 to 5 the card's filled stars sit exactly where
      the text rating of src/lib/utils.ts puts its full stars. */
  lemma StarIconsAgreeWithStarText(v: real)
    requires 0.0 <= v <= 5.0 && v == v.Floor as real
    ensures Utils.StarRating(Some(v)).Rendered?
    ensures forall k :: 0 <= k < 5 ==>
              (RenderStars(Some(v)).value[k] <==> Utils.StarRating(Some(v)).text[k] == Utils.FullStar)
  {
    FilledStarsAreWholePart(v);
  }
}
