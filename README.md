# Elisa Rocha real-estate site: verified model of the data and form core

This project models in Dafny the logic behind a real-estate agent's brochure
site. It covers four pieces:

- the formatting helpers used across the pages: price, dates, relative dates,
  square footage, bed/bath counts, status badge colours, star text,
  truncation, slugs and average ratings;
- the demo-mode data accessors, which filter, sort, truncate and look up
  listings, reviews, recommendations and neighbourhoods held in a fixed
  in-memory collection;
- the review card's initials and star-icon helpers;
- the contact-form endpoint's validation, notification payload and replies.

Modules follow the source:

| module | models |
|---|---|
| `Wrappers` | `Option`, which stands for `null`/`undefined` |
| `Text` | the JavaScript string operations the core relies on: truthiness, the `\s` whitespace set, `toLowerCase`/`toUpperCase`, `trim`, `split`/`join`, `localeCompare`, number-to-text |
| `ArrayOps` | `Array.prototype.sort` with a comparator, `filter`, `slice(0, end)` and `find` |
| `Utils` | `src/lib/utils.ts` |
| `Entities` | the record shapes the accessors return |
| `Queries` | `src/lib/supabase.ts` in demo mode |
| `ReviewCard` | `getInitials` and `renderStars` from `src/components/ReviewCard.tsx` |
| `ContactRoute` | `POST` in `src/app/api/contact/route.ts` |

Some choices in the model:

- The demo collections are parameters. Dafny sequences are values, so the
  property "never mutates the backing collection" holds by construction.
- The three list accessors are methods, because the source copies the
  collection and then reassigns the result in steps. Each method is proved
  against `ArrayOps.SortBy` and `ArrayOps.SliceTo`.
- Things the source gets from the runtime are parameters: the `Intl`
  formatters, the number of days since a date, whether a webhook is
  configured, and whether the webhook call threw.

Two behaviours of the code are easy to misread, and the model states them as written:

- The listing date key is `sold_date || listing_date || ''`. That is the
  first present date, not the later of the two (`src/lib/supabase.ts:42-43`).
  `Queries.ListingDateKey` states this.
- `truncateText` trims both ends of the cut text, not only the trailing end
  (`src/lib/utils.ts:84`). `Utils.TruncateText` states this.

## Model

| member | source | states |
|---|---|---|
| Text.Truthy | src/lib/utils.ts:13 | definition: a nullable string is truthy exactly when it is present and not empty, as `!dateString` tests it |
| Text.OrElse | src/lib/supabase.ts:71-72 | definition: `value \|\| fallback` for a nullable string, the value when truthy and the fallback otherwise |
| Text.IsWhitespace | src/app/api/contact/route.ts:20 | definition: the characters of the ECMAScript WhiteSpace and LineTerminator productions, which `\s` and `trim` use |
| Text.ToLower | src/lib/utils.ts:58 | the result has the same length, and each character is mapped through the ASCII lower-case table |
| Text.ToUpper | src/components/ReviewCard.tsx:15-17 | the result has the same length, and each character is mapped through the ASCII upper-case table |
| Text.CompareStrings | src/lib/supabase.ts:44 | `localeCompare` gives -1, 0 or 1, and gives 0 exactly when the strings are equal |
| Text.CompareStringsIsLexicographic | src/lib/supabase.ts:44 | `localeCompare` is negative exactly when the first string is a proper prefix of the second, or has the smaller character where they first differ |
| Text.LexLessTail | src/lib/supabase.ts:44 | after an equal first character, which string sorts first is decided by the rest |
| Text.CompareAntisymmetric | src/lib/supabase.ts:44 | swapping the operands of `localeCompare` negates the result |
| Text.StringLeTotal | src/lib/supabase.ts:109 | any two names are ordered one way or the other |
| Text.StringLeTransitive | src/lib/supabase.ts:109 | the name order is transitive |
| Text.EmptyIsLeast | src/lib/supabase.ts:71-73 | the empty date key sorts below every other key and equals only itself |
| Text.Trim | src/lib/utils.ts:84 | the result is the input with its leading and trailing whitespace removed; it neither starts nor ends with whitespace |
| Text.TrimStart | src/lib/utils.ts:84 | dropping leading whitespace leaves a suffix that does not start with whitespace, after only whitespace |
| Text.TrimEnd | src/lib/utils.ts:84 | dropping trailing whitespace leaves a prefix that does not end with whitespace, before only whitespace |
| Text.IndexOf | src/components/ReviewCard.tsx:13 | `indexOf` finds nothing exactly when the character is absent; otherwise it finds the first position holding it |
| Text.IndexFrom | src/components/ReviewCard.tsx:13 | the search from a position finds nothing exactly when the character does not occur from there on; otherwise the first position from there that holds it |
| Text.IndexBefore | src/components/ReviewCard.tsx:15 | the search before a position finds nothing exactly when the character does not occur before it; otherwise the last such position |
| Text.LastIndexOf | src/components/ReviewCard.tsx:15 | `lastIndexOf` finds nothing exactly when the character is absent; otherwise it finds the last position holding it |
| Text.LastIndexOfUnique | src/components/ReviewCard.tsx:15 | a position holding the character with none after it is the one `lastIndexOf` finds |
| Text.Split | src/components/ReviewCard.tsx:13 | `split(' ')` gives at least one part, and exactly one when there is no space; no part contains a space |
| Text.SplitFrom | src/components/ReviewCard.tsx:13 | splitting from a position gives one part exactly when no separator follows, and no part holds a separator |
| Text.JoinSplitFrom | src/components/ReviewCard.tsx:13 | joining the parts split from a position gives back the text from that position |
| Text.JoinSplit | src/components/ReviewCard.tsx:13 | joining the parts of a split with the separator gives back the input |
| Text.SplitFirstPart | src/components/ReviewCard.tsx:13-15 | with a separator present, the first part is the text before the first separator |
| Text.SplitLastPart | src/components/ReviewCard.tsx:13-15 | with a separator present, the last part is the text after the last separator |
| Text.JoinEndsWithLast | src/components/ReviewCard.tsx:15 | a join of two parts or more ends with a separator and then the last part |
| Text.JoinInFront | src/components/ReviewCard.tsx:13 | a join is the first part, the separator, then the join of the rest |
| Text.Join | src/lib/utils.ts:53 | `join` of no parts is the empty text; otherwise the joined text starts with the first part |
| Text.NatToString | src/lib/utils.ts:32-35 | the decimal text of a count is non-empty, all digits, with no leading zero |
| Text.NatToStringRoundTrip | src/lib/utils.ts:32-35 | reading back the decimal digits gives the original number |
| Text.IntToString | src/lib/utils.ts:48-51 | an integer's text is a minus sign for negatives, followed by the digits of its magnitude |
| Utils.FormatCurrency | src/lib/utils.ts:2-9 | a missing amount gives "Price TBD"; any other amount goes to the USD formatter |
| Utils.FormatDate | src/lib/utils.ts:12-20 | a falsy date string gives ""; otherwise the long-date formatter's output |
| Utils.FormatSqft | src/lib/utils.ts:39-42 | a missing area gives ""; otherwise the grouped number followed by " sq ft" |
| Utils.DayBucket | src/lib/utils.ts:28-35 | the thresholds 0, 1, 7, 30 and 365 days, each as an if-and-only-if; the shown count is the floor of days/7, days/30 or days/365, with its range |
| Utils.FormatRelativeDate | src/lib/utils.ts:23-36 | a falsy date gives ""; otherwise the bucket's text |
| Utils.ElapsedText | src/lib/utils.ts:30-35 | definition: the label of each bucket, "Today", "Yesterday", or the count followed by " days ago", " weeks ago", " months ago" or " years ago" |
| Utils.RelativeDateShowsCount | src/lib/utils.ts:32-35 | from two days on, the shown count is at least 1, and the text starts with its decimal digits, which read back as that count |
| Utils.FormatBedBath | src/lib/utils.ts:45-54 | the result is "" exactly when both counts are missing; otherwise the present labels, joined by " \| " |
| Utils.CountLabel | src/lib/utils.ts:48 | the label is the count's decimal text, a space and the noun, followed by exactly one more character, the plural 's', when the count is not 1 and by nothing when it is 1 |
| Utils.CountLabelPlural | src/lib/utils.ts:48-51 | for a noun not ending in "s", the label starts with the number's digits and ends in "s" exactly when the count is not 1 |
| Utils.StatusColor | src/lib/utils.ts:57-70 | the lower-cased status picks its colour pair; the default grey pair comes back exactly when the status is not one of the four known ones |
| Utils.IsKnownStatus | src/lib/utils.ts:59-66 | definition: the lower-cased status is one of the four `case` labels "active", "sold", "leased" and "pending" |
| Utils.ToLowerIdempotent | src/lib/utils.ts:58 | lower-casing twice is the same as lower-casing once |
| Utils.StatusColorIgnoresCase | src/lib/utils.ts:58 | statuses that differ only in letter case get the same colours |
| Utils.StatusColorDistinguishesStatuses | src/lib/utils.ts:59-66 | the four known statuses get four different colour pairs |
| Utils.Repeat | src/lib/utils.ts:77 | `repeat(n)` gives n copies of the character |
| Utils.HasHalf | src/lib/utils.ts:76 | definition: the fractional part of the rating is at least one half; this is `rating % 1 >= 0.5` for the non-negative ratings that reach it, since a negative one makes `repeat` throw first |
| Utils.StarRating | src/lib/utils.ts:73-78 | null gives ""; a rating outside [0, 5.5) makes `repeat` throw; otherwise five characters: full stars up to the floor, a half star when the fraction is at least 0.5, then empty stars |
| Utils.TruncateText | src/lib/utils.ts:81-85 | falsy text gives ""; text that fits comes back unchanged; longer text is its first maxLength characters (none for a negative maxLength), trimmed, followed by "..." |
| Utils.TrimmedPrefix | src/lib/utils.ts:84 | trimming the cut text keeps a stretch of the original text that follows only whitespace and is followed by only whitespace up to the cut |
| Utils.Slugify | src/lib/utils.ts:88-93 | the result is always a slug: lower-case letters, digits and single inner hyphens |
| Utils.SlugifyKeepsLettersAndDigits | src/lib/utils.ts:88-93 | the slug holds exactly the letters and digits of the lower-cased text, in their order |
| Utils.CollapseRuns | src/lib/utils.ts:91 | replacing runs gives only `[a-z0-9-]` characters and never two hyphens in a row |
| Utils.CollapseRunsKeepsLettersAndDigits | src/lib/utils.ts:91 | replacing runs keeps every letter and digit, in order |
| Utils.StripEdgeHyphensKeepsLettersAndDigits | src/lib/utils.ts:92 | stripping the edge hyphens drops no letter or digit |
| Utils.CollapseRunsStep | src/lib/utils.ts:91 | one character is written as itself if a letter or digit, as a hyphen if it opens a run, and not at all inside a run |
| Utils.CollapseRunsStepAppend | src/lib/utils.ts:91 | the same step, at the front of a concatenation |
| Utils.CollapseRunsAppend | src/lib/utils.ts:91 | replacing runs in a concatenation replaces them in each half, the second half starting inside a run exactly when the first ends in one |
| Utils.CollapseRunOfOthers | src/lib/utils.ts:91 | a run of characters outside `[a-z0-9]` becomes one hyphen, or nothing when a run is already open |
| Utils.RunBecomesOneHyphen | src/lib/utils.ts:91 | a maximal run of characters outside `[a-z0-9]` between letters or digits, or at an end, becomes exactly one hyphen |
| Utils.LettersAndDigitsPassThrough | src/lib/utils.ts:91 | letters and digits are not replaced |
| Utils.WordThenRun | src/lib/utils.ts:91 | a word followed by a run becomes the word and one hyphen, before what the rest becomes |
| Utils.CollapseThreeWords | src/lib/utils.ts:91 | three words, each followed by a run, become the words each followed by one hyphen |
| Utils.CollapseRunsKeepsSlugText | src/lib/utils.ts:91 | text already in slug form passes through the run replacement unchanged |
| Utils.StripEdgeHyphens | src/lib/utils.ts:92 | the result is the slice of the input that drops a leading '-' when there is one and then a trailing '-' when one is left, and nothing else; text with no double hyphen comes out with no hyphen at either end |
| Utils.SlugifyFixesSlugs | src/lib/utils.ts:88-93 | a string is a slug exactly when slugify leaves it unchanged |
| Utils.SlugifyIdempotent | src/lib/utils.ts:88-93 | slugify applied twice is the same as slugify applied once |
| Utils.SlugifyExample | src/lib/utils.ts:88-93 | "Oak St!" becomes "oak-st" |
| Utils.SlugifyHeightsExample | src/lib/utils.ts:88-93 | "The Heights — Houston!" becomes "the-heights-houston" |
| Utils.HeightsLowerCase | src/lib/utils.ts:90 | "The Heights — Houston!" lower-cases to "the heights — houston!" |
| Utils.HeightsCollapse | src/lib/utils.ts:90-91 | lower-casing then replacing runs gives "the-heights-houston-" |
| Utils.HeightsLoweredCollapse | src/lib/utils.ts:91 | replacing the runs of "the heights — houston!" gives "the-heights-houston-" |
| Utils.HeightsWordsCollapse | src/lib/utils.ts:91 | the same, for the text given as its three words and three runs |
| Utils.ValidRatings | src/lib/utils.ts:97 | filtering out nulls never lengthens the list |
| Utils.ValidRatingsMembers | src/lib/utils.ts:97 | the kept ratings are exactly the non-null ones |
| Utils.ValidRatingsAppend | src/lib/utils.ts:97 | filtering distributes over concatenation |
| Utils.AverageRating | src/lib/utils.ts:96-100 | with no valid rating the result is 0; otherwise the result times the count equals the sum |
| Utils.Mean | src/lib/utils.ts:98-99 | 0 for no ratings; otherwise the mean times the count is the sum |
| Utils.Sum | src/lib/utils.ts:99 | definition: `reduce((sum, r) => sum + r, 0)`, the sum of the ratings from left to right, 0 for none |
| Utils.AverageIgnoresNulls | src/lib/utils.ts:96-100 | inserting a null anywhere leaves the average unchanged |
| Utils.SumBounds | src/lib/utils.ts:99 | a sum lies between count times the smallest and count times the largest rating |
| Utils.AverageBetweenExtremes | src/lib/utils.ts:96-100 | the average lies between the smallest and the largest rating |
| Utils.QuotientBounds | src/lib/utils.ts:99 | dividing the bounded sum by the count keeps it within the bounds |
| Utils.MeanBetween | src/lib/utils.ts:99 | the mean of values between two bounds lies between them |
| Utils.AverageRatingExample | src/lib/utils.ts:96-100 | ratings 5, 4, null and 3 average to 4 |
| ArrayOps.InsertBy | src/lib/supabase.ts:39-45 | inserting adds exactly the one element, and keeps a sorted list sorted under a total preorder |
| ArrayOps.PrependSorted | src/lib/supabase.ts:39-45 | an element that may precede the head of a sorted list keeps it sorted when put in front |
| ArrayOps.HeadThenInsertedSorted | src/lib/supabase.ts:39-45 | the head of a sorted list followed by the rest with an element inserted after it is sorted |
| ArrayOps.SortBy | src/lib/supabase.ts:39-45 | `sort` returns a permutation of the same length, sorted whenever the comparator is a total preorder |
| ArrayOps.InsertByKeepsTiedOrder | src/lib/supabase.ts:39-45 | inserting keeps the relative order of elements the comparator ties |
| ArrayOps.SortByIsStable | src/lib/supabase.ts:39-45 | `sort` is stable: elements the comparator ties come out in their input order |
| ArrayOps.SliceEnd | src/lib/supabase.ts:48 | the end index of `slice(0, end)`, including negative and too-large ends |
| ArrayOps.SliceTo | src/lib/supabase.ts:48 | `slice(0, end)` is the prefix of that length |
| ArrayOps.PrefixKeepsOrder | src/lib/supabase.ts:47-49 | a prefix is a sub-multiset, and stays sorted if the list was sorted |
| ArrayOps.FilterMeaning | src/lib/supabase.ts:35 | `filter` keeps exactly the elements that pass, each as often as it occurs |
| ArrayOps.Filter | src/lib/supabase.ts:35 | `filter` never lengthens the list |
| ArrayOps.FilterAppend | src/lib/utils.ts:97 | filtering distributes over concatenation; the slug lemmas rest on it |
| ArrayOps.FilterCons | src/lib/supabase.ts:35 | filtering a list with a head keeps the head exactly when it passes |
| ArrayOps.FindFirst | src/lib/supabase.ts:59 | `find` gives nothing exactly when no element matches; otherwise the first match |
| Queries.GetAgentProfile | src/lib/supabase.ts:21-27 | demo mode returns the stored profile |
| Queries.ListingDateKey | src/lib/supabase.ts:42-43 | the key is the sold date if truthy, else the listing date if truthy, else ""; it is "" exactly when both are falsy |
| Queries.IsActive | src/lib/supabase.ts:40-41 | definition: `status === 'active'`, an exact comparison |
| Queries.CompareListings | src/lib/supabase.ts:39-45 | the comparator gives -1, 0 or 1: -1 for an active listing against an inactive one, 1 the other way round, and within one group 0 exactly for equal date keys and a negative value exactly when the second key is lexicographically smaller |
| Queries.ListingBefore | src/lib/supabase.ts:39-45 | definition: a listing may come before another when the comparator gives a non-positive result; `ListingBeforeMeaning` states what that means |
| Queries.ListingBeforeMeaning | src/lib/supabase.ts:39-45 | in the listing order, active listings come first, and within a group later date keys come first |
| Queries.ListingOrderIsTotalPreorder | src/lib/supabase.ts:39-45 | the listing comparator is total and transitive |
| Queries.FilterByStatus | src/lib/supabase.ts:34-36 | the filter keeps every listing with the status, with its multiplicity, and nothing else |
| Queries.TruthyLimit | src/lib/supabase.ts:47 | a limit is falsy exactly when it is missing or 0 |
| Queries.MatchingListings | src/lib/supabase.ts:32-36 | without a truthy status, the whole fixture; with one, exactly the listings with that status, each as often as in the fixture |
| Queries.LimitedCount | src/lib/supabase.ts:47-49 | never more than the records there are; all of them when the limit is falsy; exactly the limit when it is positive and at most the count |
| Queries.GetListings | src/lib/supabase.ts:30-54 | the result is a prefix of the sorted, filtered copy: only the requested status; all matches when the limit is falsy; length from `slice`; active first; non-increasing date keys within each group |
| Queries.StatusKeptInSubset | src/lib/supabase.ts:34-36 | records drawn from a collection where every status matches have that status too |
| Queries.SortedListingsMeaning | src/lib/supabase.ts:39-45 | a list sorted by the listing order has active listings first and date keys non-increasing within each group |
| Queries.GetListing | src/lib/supabase.ts:57-62 | null exactly when no listing has the id; otherwise a stored listing with that id |
| Queries.ReviewOrderIsTotalPreorder | src/lib/supabase.ts:70-74 | the review comparator is total and transitive |
| Queries.ReviewDateKey | src/lib/supabase.ts:71-72 | the key is the review date when it is truthy, and "" exactly when it is falsy |
| Queries.ReviewBefore | src/lib/supabase.ts:70-74 | a review may come first exactly when the keys are equal or the other key is lexicographically smaller; a dated review comes before an undated one |
| Queries.GetReviews | src/lib/supabase.ts:65-83 | a prefix of the reviews sorted newest first: all of them when the limit is falsy; length from `slice`; non-increasing date keys; undated reviews last |
| Queries.RecommendationOrderIsTotalPreorder | src/lib/supabase.ts:91-95 | the recommendation comparator is total and transitive |
| Queries.RecommendationDateKey | src/lib/supabase.ts:92-93 | the key is the recommendation date when it is truthy, and "" exactly when it is falsy |
| Queries.RecommendationBefore | src/lib/supabase.ts:91-95 | a recommendation may come first exactly when the keys are equal or the other key is lexicographically smaller; a dated one comes before an undated one |
| Queries.GetRecommendations | src/lib/supabase.ts:86-104 | a prefix of the recommendations sorted newest first: all of them when the limit is falsy; length from `slice`; non-increasing date keys; undated ones last |
| Queries.NameOrderIsTotalPreorder | src/lib/supabase.ts:109 | the neighbourhood name comparator is total and transitive |
| Queries.NameBefore | src/lib/supabase.ts:109 | a neighbourhood may come first exactly when the names are equal or its name is lexicographically smaller |
| Queries.GetNeighborhoods | src/lib/supabase.ts:107-112 | a permutation of the neighbourhoods with names in ascending code-point order |
| Queries.GetNeighborhood | src/lib/supabase.ts:115-120 | null exactly when no neighbourhood has the slug; otherwise a stored one with that slug |
| ReviewCard.GetInitials | src/components/ReviewCard.tsx:11-18 | a falsy name gives "?"; a name without a space gives its upper-cased first character; a name with a space gives, upper-cased, the first character of the text before its first space and the first character of the text after its last space, an empty text reading "undefined" |
| ReviewCard.FirstCharText | src/components/ReviewCard.tsx:15 | definition: `${part[0]}`, the first character of a part, or the text "undefined" for an empty part |
| ReviewCard.InitialsOfSpacedName | src/components/ReviewCard.tsx:13-16 | a name that splits into two non-empty parts or more (a space inside, none at either end) gives exactly two characters: its first character and the character after its last space, upper-cased |
| ReviewCard.UpperCasePrefix | src/components/ReviewCard.tsx:15 | upper-casing keeps prefixes |
| ReviewCard.UpperCaseUndefined | src/components/ReviewCard.tsx:15 | "undefined" upper-cases to "UNDEFINED" |
| ReviewCard.InitialsOfLeadingSpaceName | src/components/ReviewCard.tsx:13-15 | a name that starts with a space gives initials beginning "UNDEFINED" |
| ReviewCard.InitialsOfLeadingSpaceExample | src/components/ReviewCard.tsx:11-18 | " Ana Lima" gives "UNDEFINEDL", not "AL" |
| ReviewCard.LeadingSpaceAnaLima | src/components/ReviewCard.tsx:13-15 | the same, for the name passed as a parameter |
| ReviewCard.GetInitialsTrimmed | src/components/ReviewCard.tsx:11-18 | a blank name gives "?"; otherwise, with t the trimmed name, the upper-cased first character of t when t has no space, and else that character followed by the upper-cased character just after the last space of t, which is not the last character; each initial is an upper-cased non-space character of the name |
| ReviewCard.TrimmedInitialsExample | src/components/ReviewCard.tsx:11-18 | with the leading space trimmed, " Ana Lima" gets "AL" |
| ReviewCard.AnaLimaTrim | src/components/ReviewCard.tsx:11-18 | trimming " Ana Lima" gives "Ana Lima" |
| ReviewCard.AnaLimaLastSpace | src/components/ReviewCard.tsx:15 | the last space of "Ana Lima" is at position 3, and the two initials around it are "AL" |
| ReviewCard.TrimmedInitialsComeFromName | src/components/ReviewCard.tsx:13-15 | the initials of a trimmed name are its upper-cased first character, followed, when it has a space, by the upper-cased character after its last space; each comes from a non-space character of the untrimmed name |
| ReviewCard.InitialsOfCleanName | src/components/ReviewCard.tsx:13-17 | a name without whitespace at its ends gets its upper-cased first character, followed, when it has a space, by the upper-cased character after its last space; each is a non-space character of the name |
| ReviewCard.TrimmedNameInitial | src/components/ReviewCard.tsx:13-15 | an initial taken from the trimmed name is one of the name itself |
| ReviewCard.InitialsFixAgreesOnTrimmedNames | src/components/ReviewCard.tsx:11-18 | on names without whitespace at either end, the corrected initials equal the original ones |
| ReviewCard.RenderStars | src/components/ReviewCard.tsx:21-36 | null renders nothing; otherwise five icons, where star number i (1 to 5) is filled exactly when i is at most the rating |
| ReviewCard.CountFilledPrefix | src/components/ReviewCard.tsx:25-33 | when the first n icons are filled, n icons are filled |
| ReviewCard.FilledStarsAreWholePart | src/components/ReviewCard.tsx:25-33 | the filled icons are the first floor(rating) icons, clamped to 0..5 |
| ReviewCard.StarIconsAgreeWithStarText | src/components/ReviewCard.tsx:25-33 | for whole ratings 0..5, filled icons are exactly where the star text shows a full star |
| ContactRoute.AtomSlice | src/app/api/contact/route.ts:20 | a stretch of atom characters forms an atom |
| ContactRoute.IsTruthy | src/app/api/contact/route.ts:12 | definition: a missing field and the empty string are falsy, any other string is truthy, and any other JSON value carries its own truthiness |
| ContactRoute.MatchesEmailPattern | src/app/api/contact/route.ts:20 | definition: the regular expression read literally, as three non-empty runs without white space or '@', with '@' after the first run and '.' after the second |
| ContactRoute.IsEmailShaped | src/app/api/contact/route.ts:20-21 | definition: the direct check, with no white space, one '@' with text before it, and a '.' after it that is neither the first nor the last character of the domain |
| ContactRoute.AsText | src/app/api/contact/route.ts:21 | definition: `String(email)`, the text `test` sees: "undefined" for a missing field, the string itself, or the value's own text |
| ContactRoute.IsAcceptable | src/app/api/contact/route.ts:12-29 | definition: the submissions that pass validation: a parsed body with truthy name, email and message, an email matching the pattern, and a string message that `substring` accepts |
| ContactRoute.EmailCheckSound | src/app/api/contact/route.ts:20-21 | every string the executable check accepts matches the email pattern |
| ContactRoute.EmailCheckComplete | src/app/api/contact/route.ts:20-21 | every string that matches the email pattern passes the executable check |
| ContactRoute.EmailCheckMatchesPattern | src/app/api/contact/route.ts:20-21 | the executable check and the pattern agree on every string |
| ContactRoute.NotificationFor | src/app/api/contact/route.ts:43-46 | name and email are passed as given; the phone defaults to "Not provided" when falsy; the message is cut to its first 1000 characters |
| ContactRoute.HandleContact | src/app/api/contact/route.ts:6-70 | an unparseable body gives 500; a missing name, email or message gives 400; a bad email gives 400; a message that is not a string gives 500, because `substring` throws; success (200) exactly for acceptable submissions; a notification exactly when the submission is acceptable and a webhook is configured; the webhook error is logged exactly when that call threw |
| ContactRoute.ReplyIgnoresWebhook | src/app/api/contact/route.ts:56-62 | a webhook that throws never changes the reply |
| ContactRoute.MissingEmailIsRejected | src/app/api/contact/route.ts:12-17 | a body without an email always gets the 400 required-fields reply |

## Left out

- The `Intl.NumberFormat` and `Intl.DateTimeFormat` outputs are function parameters. Their locale-dependent digit grouping and month names are not modelled.
- The clock is left out. `formatRelativeDate` takes the whole number of days between the date and now as a parameter, and date parsing is not modelled.
- The `USE_SUPABASE` branch of every accessor is not modelled, because it is switched off. `src/lib/data.ts` (the demo records) is not part of this model: the accessors take the collections as parameters.
- `submitContactForm` is not modelled. It only writes to the console and returns true.
- `async`/`await`, `console` output, `request.json()` and `fetch` are left out. The parsed body and the webhook's result are inputs, and a failed parse is the `Unparseable` body. A body that parses to JSON `null` is also `Unparseable`, because destructuring `null` throws and the handler's catch answers 500.
- The JSON payload's timestamp, colour and footer are not modelled.
- `Text.CompareStrings`: `localeCompare` is modelled as comparison by code point. Locale collation rules are not modelled. The two agree on ISO dates of the same shape, which the listing, review and recommendation orders compare.
- `Queries.GetNeighborhoods`: the order by name is code-point order. It can differ from the locale order for names that differ in case: "WestU" comes before "Westchase" here, because 'U' precedes 'c' as a code point, while locale collation puts "Westchase" first. The model does not promise the locale order of mixed-case names.
- `Text.ToLower` and `Text.ToUpper`: only ASCII letters change case. Unicode case mapping, and the changes of length it can cause, are not modelled.
- String lengths count characters, not UTF-16 code units, so `substring` and `length` on astral characters are not modelled.
- Ratings, prices and areas are reals. `NaN`, `Infinity` and floating-point rounding in the average are not modelled.
- Bed and bath counts are integers, so fractional bathroom counts such as 2.5 are not modelled.

## Findings

| source | as written | input that shows it | evidently intended | confidence | as-written member | corrected member |
|---|---|---|---|---|---|---|
| src/components/ReviewCard.tsx:13-15 | `name.split(' ')` yields an empty first or last part when the name starts or ends with a space, and `''[0]` is `undefined`, which the template turns into "undefined" | " Ana Lima" gives "UNDEFINEDL" | the initials of the first and last words, "AL" | not executed | ReviewCard.InitialsOfLeadingSpaceName | ReviewCard.GetInitialsTrimmed |
