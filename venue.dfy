/**
 * A job posting as extracted from a listing page, and the keys every
 * extracted posting must carry.
 */
module Venues {
  import opened Csv

  /** One posting; every field is a string. */
  datatype Venue = Venue(title: string, category: string, date: string, location: string, url: string)

  /** The keys a posting must have to be accepted from the extractor. */
  const RequiredKeys: seq<string> := ["title", "category", "date", "location", "url"]

  /** The posting as the dict the crawl loop handles: exactly the required keys. */
  function AsDict(v: Venue): (d: Row)
    ensures d.Keys == set k | k in RequiredKeys
  {
    map["title" := v.title, "category" := v.category, "date" := v.date,
        "location" := v.location, "url" := v.url]
  }

  /** The postings of `vs` as dicts, in order. */
  function AsDicts(vs: seq<Venue>): (ds: seq<Row>)
    ensures |ds| == |vs| && forall i :: 0 <= i < |vs| ==> ds[i] == AsDict(vs[i])
  {
    seq(|vs|, i requires 0 <= i < |vs| => AsDict(vs[i]))
  }
}
