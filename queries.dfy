/**
 * The data-access layer in fixture mode (src/lib/supabase.ts): every accessor
 * reads one fixed collection, copies it, filters, sorts and cuts the copy, or
 * looks one record up. The collections are parameters here, so an accessor
 * cannot change them; the result is always a new sequence.
 */
module Queries {
  import opened Wrappers
  import opened Text
  import opened ArrayOps
  import opened Entities

  /** `getAgentProfile`: the configured profile, never absent in fixture mode. */
  function GetAgentProfile(profile: AgentProfile): (r: Option<AgentProfile>)
    ensures r.Some? && r.value == profile
  {
    Some(profile)
  }

  // ---------------------------------------------------------------------------
  // getListings

  predicate IsActive(l: Listing) {
    l.status == "active"
  }

  /** `l.sold_date || l.listing_date || ''`: the first date that is set, not the later one. */
  function ListingDateKey(l: Listing): (k: string)
    ensures Truthy(l.soldDate) ==> k == l.soldDate.value
    ensures !Truthy(l.soldDate) && Truthy(l.listingDate) ==> k == l.listingDate.value
    ensures k == "" <==> !Truthy(l.soldDate) && !Truthy(l.listingDate)
  {
    OrElse(l.soldDate, OrElse(l.listingDate, ""))
  }

  /** The comparator `getListings` hands to `sort`: an active listing sorts
      before an inactive one; within a group the later date key (in string
      order) sorts first. */
  function CompareListings(a: Listing, b: Listing): (c: int)
    ensures -1 <= c <= 1
    ensures IsActive(a) && !IsActive(b) ==> c == -1
    ensures !IsActive(a) && IsActive(b) ==> c == 1
    ensures IsActive(a) == IsActive(b) ==>
              && (c == 0 <==> ListingDateKey(a) == ListingDateKey(b))
              && (c < 0 <==> LexLess(ListingDateKey(b), ListingDateKey(a)))
  {
    if IsActive(a) && !IsActive(b) then -1
    else if !IsActive(a) && IsActive(b) then 1
    else
      CompareStringsIsLexicographic(ListingDateKey(b), ListingDateKey(a));
      CompareStrings(ListingDateKey(b), ListingDateKey(a))
  }

  predicate ListingBefore(a: Listing, b: Listing) {
    CompareListings(a, b) <= 0
  }

  /** What "a may come before b" means for listings: actives first, then the
      later date key first. */
  lemma ListingBeforeMeaning(a: Listing, b: Listing)
    requires ListingBefore(a, b)
    ensures !IsActive(a) ==> !IsActive(b)
    ensures IsActive(a) == IsActive(b) ==> StringLe(ListingDateKey(b), ListingDateKey(a))
  {
  }

  /** The listing comparator is consistent, so `sort` is well defined on it. */
  lemma ListingOrderIsTotalPreorder()
    ensures IsTotalPreorder(ListingBefore)
  {
    forall a: Listing, b: Listing
      ensures ListingBefore(a, b) || ListingBefore(b, a)
    {
      CompareAntisymmetric(ListingDateKey(a), ListingDateKey(b));
    }
    forall a: Listing, b: Listing, c: Listing | ListingBefore(a, b) && ListingBefore(b, c)
      ensures ListingBefore(a, c)
    {
      if IsActive(a) == IsActive(b) == IsActive(c) {
        StringLeTransitive(ListingDateKey(c), ListingDateKey(b), ListingDateKey(a));
      }
    }
  }

  /** `result.filter(l => l.status === status)`. */
  function FilterByStatus(s: seq<Listing>, status: string): (r: seq<Listing>)
    ensures forall i :: 0 <= i < |r| ==> r[i].status == status
    ensures forall l :: multiset(r)[l] == if l.status == status then multiset(s)[l] else 0
  {
    FilterMeaning(s, (l: Listing) => l.status == status);
    Filter(s, (l: Listing) => l.status == status)
  }

  /** `if (limit)`: a missing limit and a limit of 0 both mean "no limit". */
  predicate TruthyLimit(limit: Option<int>): (t: bool)
    ensures !t <==> limit == None || limit == Some(0)
  {
    limit.Some? && limit.value != 0
  }

  /** How many of `n` sorted records an accessor returns under `limit`. */
  function LimitedCount(n: nat, limit: Option<int>): (c: nat)
    ensures c <= n
    ensures !TruthyLimit(limit) ==> c == n
    ensures TruthyLimit(limit) && 0 < limit.value <= n ==> c == limit.value
  {
    if TruthyLimit(limit) then SliceEnd(n, limit.value) else n
  }

  /** The listings `getListings` keeps before sorting: all of them, or those
      whose status equals a non-empty `status` exactly. */
  function MatchingListings(fixture: seq<Listing>, status: Option<string>): (r: seq<Listing>)
    ensures !Truthy(status) ==> r == fixture
    ensures Truthy(status) ==> forall i :: 0 <= i < |r| ==> r[i].status == status.value
    ensures Truthy(status) ==>
              forall l :: multiset(r)[l] == if l.status == status.value then multiset(fixture)[l] else 0
  {
    if Truthy(status) then FilterByStatus(fixture, status.value) else fixture
  }

  /** `getListings(status, limit)`: copy the fixture, keep the matching
      listings, sort them with the active ones first and the most recent date
      key first within each group, and keep a leading slice when `limit` is
      truthy. */
  method GetListings(fixture: seq<Listing>, status: Option<string>, limit: Option<int>)
    returns (result: seq<Listing>)
    ensures multiset(result) <= multiset(fixture)
    ensures Truthy(status) ==> forall i :: 0 <= i < |result| ==> result[i].status == status.value
    ensures !TruthyLimit(limit) ==> multiset(result) == multiset(MatchingListings(fixture, status))
    ensures |result| == LimitedCount(|MatchingListings(fixture, status)|, limit)
    ensures result <= SortBy(MatchingListings(fixture, status), ListingBefore)
    ensures forall i, j :: 0 <= i < j < |result| && !IsActive(result[i]) ==> !IsActive(result[j])
    ensures forall i, j :: 0 <= i < j < |result| && IsActive(result[i]) == IsActive(result[j]) ==>
              StringLe(ListingDateKey(result[j]), ListingDateKey(result[i]))
  {
    result := fixture;
    if Truthy(status) {
      result := FilterByStatus(result, status.value);
    }
    ghost var matching := result;
    ListingOrderIsTotalPreorder();
    result := SortBy(result, ListingBefore);
    ghost var sorted := result;
    if TruthyLimit(limit) {
      result := SliceTo(result, limit.value);
    }
    PrefixKeepsOrder(sorted, result, ListingBefore);
    SortedListingsMeaning(result);
    MatchingListingsAreFromFixture(fixture, status);
    if Truthy(status) {
      StatusKeptInSubset(result, matching, status.value);
    }
  }

  /** The listings kept before sorting are some of the fixture's. */
  lemma MatchingListingsAreFromFixture(fixture: seq<Listing>, status: Option<string>)
    ensures multiset(MatchingListings(fixture, status)) <= multiset(fixture)
  {
  }

  /** Records taken from a collection whose statuses all equal `status` have that status too. */
  lemma StatusKeptInSubset(r: seq<Listing>, s: seq<Listing>, status: string)
    requires multiset(r) <= multiset(s)
    requires forall i :: 0 <= i < |s| ==> s[i].status == status
    ensures forall i :: 0 <= i < |r| ==> r[i].status == status
  {
    forall i | 0 <= i < |r|
      ensures r[i].status == status
    {
      assert r[i] in multiset(r);
      assert r[i] in multiset(s);
    }
  }

  /** A listing sequence in comparator order has its active listings first and
      non-increasing date keys within each group. */
  lemma SortedListingsMeaning(s: seq<Listing>)
    requires SortedBy(s, ListingBefore)
    ensures forall i, j :: 0 <= i < j < |s| && !IsActive(s[i]) ==> !IsActive(s[j])
    ensures forall i, j :: 0 <= i < j < |s| && IsActive(s[i]) == IsActive(s[j]) ==>
              StringLe(ListingDateKey(s[j]), ListingDateKey(s[i]))
  {
    forall i, j | 0 <= i < j < |s|
      ensures !IsActive(s[i]) ==> !IsActive(s[j])
      ensures IsActive(s[i]) == IsActive(s[j]) ==> StringLe(ListingDateKey(s[j]), ListingDateKey(s[i]))
    {
      ListingBeforeMeaning(s[i], s[j]);
    }
  }

  /** `getListing(id)`: the first listing with that id, or null. */
  function GetListing(fixture: seq<Listing>, id: string): (r: Option<Listing>)
    ensures r.None? <==> forall i :: 0 <= i < |fixture| ==> fixture[i].id != id
    ensures r.Some? ==> exists k :: 0 <= k < |fixture| && fixture[k] == r.value && r.value.id == id
                                    && forall i :: 0 <= i < k ==> fixture[i].id != id
  {
    match FindFirst(fixture, (l: Listing) => l.id == id)
    case None => None
    case Some(k) => Some(fixture[k])
  }

  // ---------------------------------------------------------------------------
  // getReviews and getRecommendations

  /** `r.review_date || ''`. */
  function ReviewDateKey(r: Review): (k: string)
    ensures Truthy(r.reviewDate) ==> k == r.reviewDate.value
    ensures k == "" <==> !Truthy(r.reviewDate)
  {
    OrElse(r.reviewDate, "")
  }

  /** The comparator `getReviews` hands to `sort`: later dates first. */
  predicate ReviewBefore(a: Review, b: Review): (r: bool)
    ensures r <==> ReviewDateKey(a) == ReviewDateKey(b) || LexLess(ReviewDateKey(b), ReviewDateKey(a))
    ensures Truthy(a.reviewDate) && !Truthy(b.reviewDate) ==> r
    ensures !Truthy(a.reviewDate) && Truthy(b.reviewDate) ==> !r
  {
    CompareStringsIsLexicographic(ReviewDateKey(b), ReviewDateKey(a));
    EmptyIsLeast(ReviewDateKey(a));
    EmptyIsLeast(ReviewDateKey(b));
    CompareStrings(ReviewDateKey(b), ReviewDateKey(a)) <= 0
  }

  lemma ReviewOrderIsTotalPreorder()
    ensures IsTotalPreorder(ReviewBefore)
  {
    forall a: Review, b: Review
      ensures ReviewBefore(a, b) || ReviewBefore(b, a)
    {
      CompareAntisymmetric(ReviewDateKey(a), ReviewDateKey(b));
    }
    forall a: Review, b: Review, c: Review | ReviewBefore(a, b) && ReviewBefore(b, c)
      ensures ReviewBefore(a, c)
    {
      StringLeTransitive(ReviewDateKey(c), ReviewDateKey(b), ReviewDateKey(a));
    }
  }

  /** `getReviews(limit)`: the reviews, latest first with the undated ones
      last, cut to a leading slice when `limit` is truthy. */
  method GetReviews(fixture: seq<Review>, limit: Option<int>) returns (result: seq<Review>)
    ensures multiset(result) <= multiset(fixture)
    ensures !TruthyLimit(limit) ==> multiset(result) == multiset(fixture)
    ensures |result| == LimitedCount(|fixture|, limit)
    ensures result <= SortBy(fixture, ReviewBefore)
    ensures forall i, j :: 0 <= i < j < |result| ==>
              StringLe(ReviewDateKey(result[j]), ReviewDateKey(result[i]))
    ensures forall i, j :: 0 <= i < j < |result| && !Truthy(result[i].reviewDate) ==>
              !Truthy(result[j].reviewDate)
  {
    result := fixture;
    ReviewOrderIsTotalPreorder();
    result := SortBy(result, ReviewBefore);
    ghost var sorted := result;
    if TruthyLimit(limit) {
      result := SliceTo(result, limit.value);
    }
    PrefixKeepsOrder(sorted, result, ReviewBefore);
    forall i, j | 0 <= i < j < |result| && !Truthy(result[i].reviewDate)
      ensures !Truthy(result[j].reviewDate)
    {
      assert ReviewBefore(result[i], result[j]);
      EmptyIsLeast(ReviewDateKey(result[j]));
    }
  }

  /** `r.recommendation_date || ''`. */
  function RecommendationDateKey(r: Recommendation): (k: string)
    ensures Truthy(r.recommendationDate) ==> k == r.recommendationDate.value
    ensures k == "" <==> !Truthy(r.recommendationDate)
  {
    OrElse(r.recommendationDate, "")
  }

  /** The comparator `getRecommendations` hands to `sort`: later dates first. */
  predicate RecommendationBefore(a: Recommendation, b: Recommendation): (r: bool)
    ensures r <==> RecommendationDateKey(a) == RecommendationDateKey(b)
                   || LexLess(RecommendationDateKey(b), RecommendationDateKey(a))
    ensures Truthy(a.recommendationDate) && !Truthy(b.recommendationDate) ==> r
    ensures !Truthy(a.recommendationDate) && Truthy(b.recommendationDate) ==> !r
  {
    CompareStringsIsLexicographic(RecommendationDateKey(b), RecommendationDateKey(a));
    EmptyIsLeast(RecommendationDateKey(a));
    EmptyIsLeast(RecommendationDateKey(b));
    CompareStrings(RecommendationDateKey(b), RecommendationDateKey(a)) <= 0
  }

  lemma RecommendationOrderIsTotalPreorder()
    ensures IsTotalPreorder(RecommendationBefore)
  {
    forall a: Recommendation, b: Recommendation
      ensures RecommendationBefore(a, b) || RecommendationBefore(b, a)
    {
      CompareAntisymmetric(RecommendationDateKey(a), RecommendationDateKey(b));
    }
    forall a: Recommendation, b: Recommendation, c: Recommendation
      | RecommendationBefore(a, b) && RecommendationBefore(b, c)
      ensures RecommendationBefore(a, c)
    {
      StringLeTransitive(RecommendationDateKey(c), RecommendationDateKey(b), RecommendationDateKey(a));
    }
  }

  /** `getRecommendations(limit)`: the recommendations, latest first with the
      undated ones last, cut to a leading slice when `limit` is truthy. */
  method GetRecommendations(fixture: seq<Recommendation>, limit: Option<int>)
    returns (result: seq<Recommendation>)
    ensures multiset(result) <= multiset(fixture)
    ensures !TruthyLimit(limit) ==> multiset(result) == multiset(fixture)
    ensures |result| == LimitedCount(|fixture|, limit)
    ensures result <= SortBy(fixture, RecommendationBefore)
    ensures forall i, j :: 0 <= i < j < |result| ==>
              StringLe(RecommendationDateKey(result[j]), RecommendationDateKey(result[i]))
    ensures forall i, j :: 0 <= i < j < |result| && !Truthy(result[i].recommendationDate) ==>
              !Truthy(result[j].recommendationDate)
  {
    result := fixture;
    RecommendationOrderIsTotalPreorder();
    result := SortBy(result, RecommendationBefore);
    ghost var sorted := result;
    if TruthyLimit(limit) {
      result := SliceTo(result, limit.value);
    }
    PrefixKeepsOrder(sorted, result, RecommendationBefore);
    forall i, j | 0 <= i < j < |result| && !Truthy(result[i].recommendationDate)
      ensures !Truthy(result[j].recommendationDate)
    {
      assert RecommendationBefore(result[i], result[j]);
      EmptyIsLeast(RecommendationDateKey(result[j]));
    }
  }

  // ---------------------------------------------------------------------------
  // getNeighborhoods and getNeighborhood

  /** The comparator `getNeighborhoods` hands to `sort`: names in ascending order. */
  predicate NameBefore(a: Neighborhood, b: Neighborhood): (r: bool)
    ensures r <==> a.name == b.name || LexLess(a.name, b.name)
  {
    CompareStringsIsLexicographic(a.name, b.name);
    CompareStrings(a.name, b.name) <= 0
  }

  lemma NameOrderIsTotalPreorder()
    ensures IsTotalPreorder(NameBefore)
  {
    forall a: Neighborhood, b: Neighborhood
      ensures NameBefore(a, b) || NameBefore(b, a)
    {
      CompareAntisymmetric(a.name, b.name);
    }
    forall a: Neighborhood, b: Neighborhood, c: Neighborhood | NameBefore(a, b) && NameBefore(b, c)
      ensures NameBefore(a, c)
    {
      StringLeTransitive(a.name, b.name, c.name);
    }
  }

  /** `getNeighborhoods()`: a sorted copy, names in ascending order. */
  function GetNeighborhoods(fixture: seq<Neighborhood>): (r: seq<Neighborhood>)
    ensures multiset(r) == multiset(fixture)
    ensures forall i, j :: 0 <= i < j < |r| ==> StringLe(r[i].name, r[j].name)
  {
    NameOrderIsTotalPreorder();
    SortBy(fixture, NameBefore)
  }

  /** `getNeighborhood(slug)`: the first neighborhood with that slug, or null. */
  function GetNeighborhood(fixture: seq<Neighborhood>, slug: string): (r: Option<Neighborhood>)
    ensures r.None? <==> forall i :: 0 <= i < |fixture| ==> fixture[i].slug != slug
    ensures r.Some? ==> exists k :: 0 <= k < |fixture| && fixture[k] == r.value && r.value.slug == slug
                                    && forall i :: 0 <= i < k ==> fixture[i].slug != slug
  {
    match FindFirst(fixture, (n: Neighborhood) => n.slug == slug)
    case None => None
    case Some(k) => Some(fixture[k])
  }
}
