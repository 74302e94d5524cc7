/**
  Query selection from a JIRA search URL (`extract_query_from_url`, the same
  function in all three scripts) and the search string sent for it.

  `urlparse` and `parse_qs` are not modelled: the input is the parameter map
  `parse_qs` returns, in which every name maps to a non-empty list of
  non-empty values (blank values such as `jql=` are dropped by `parse_qs`).
*/
module Query {

  /** The result of `parse_qs(urlparse(url).query)`. */
  type Params = map<string, seq<string>>

  /** The shape `parse_qs` guarantees with its default `keep_blank_values=False`. */
  predicate ParsedParams(params: Params) {
    forall name :: name in params ==>
      params[name] != [] && forall j :: 0 <= j < |params[name]| ==> params[name][j] != ""
  }

  /** The pair `(query_or_filter, is_filter)`. */
  datatype Query = Query(text: string, isFilter: bool)

  /**
    `extract_query_from_url`: the first `jql` value, else the first `filter`
    value flagged as a filter id, else the empty query.
  */
  function ExtractQuery(params: Params): (r: Query)
    requires ParsedParams(params)
    ensures r.text == "" <==> "jql" !in params && "filter" !in params
    ensures r.isFilter <==> "jql" !in params && "filter" in params
    ensures r.text != "" ==> r.text == params[if r.isFilter then "filter" else "jql"][0]
  {
    if "jql" in params then Query(params["jql"][0], false)
    else if "filter" in params then Query(params["filter"][0], true)
    else Query("", false)
  }

  /** A `jql` parameter wins over a `filter` parameter given alongside it. */
  lemma JqlWins(params: Params)
    requires ParsedParams(params) && "jql" in params && "filter" in params
    ensures ExtractQuery(params) == Query(params["jql"][0], false)
  {
  }

  /** The string passed to `jira.search_issues`. */
  function SearchString(q: Query): (r: string)
    ensures q.isFilter ==> |r| == |q.text| + 7 && r[7..] == q.text
    ensures !q.isFilter ==> r == q.text
  {
    if q.isFilter then "filter=" + q.text else q.text
  }
}
