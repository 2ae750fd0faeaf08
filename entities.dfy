/**
 * The records the site displays, with the fields the modelled code reads.
 * Nullable columns are `Option`s; numbers the code only prints or compares
 * are `real`, counts that are printed as integers are `int`.
 */
module Entities {
  import opened Wrappers

  datatype AgentProfile = AgentProfile(
    id: string,
    name: string,
    title: Option<string>,
    phone: Option<string>,
    email: Option<string>,
    yearsExperience: Option<int>,
    totalSales: Option<int>)

  datatype Listing = Listing(
    id: string,
    address: string,
    city: Option<string>,
    price: Option<real>,
    bedrooms: Option<int>,
    bathrooms: Option<int>,
    sqft: Option<real>,
    status: string,
    soldDate: Option<string>,
    soldPrice: Option<real>,
    listingDate: Option<string>)

  datatype Review = Review(
    id: string,
    reviewerName: Option<string>,
    rating: Option<real>,
    reviewText: Option<string>,
    reviewDate: Option<string>,
    transactionType: Option<string>)

  datatype Recommendation = Recommendation(
    id: string,
    recommenderName: Option<string>,
    recommenderTitle: Option<string>,
    relationship: Option<string>,
    recommendationText: Option<string>,
    recommendationDate: Option<string>)

  datatype Neighborhood = Neighborhood(
    id: string,
    name: string,
    slug: string,
    description: Option<string>,
    avgPrice: Option<real>,
    totalListings: Option<int>)
}
