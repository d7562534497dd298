/**
 * `extract_data`: evaluate every named XPath expression against one parsed page and collect
 * the results under the same names.
 */
module Extraction {
  import opened Wrappers

  /** Evaluating the expression stored under `key` raised. */
  datatype ExtractError = XPathEvalError(key: string)

  /**
   * `eval(expr)` stands for `tree.xpath(expr)` on the parsed page: `Some` of the matches, or
   * `None` when the query engine raises.
   */
  method ExtractData<V>(xpaths: map<string, string>, eval: string -> Option<V>)
    returns (r: Result<map<string, V>, ExtractError>)
    ensures r.Success? <==> forall key :: key in xpaths ==> eval(xpaths[key]).Some?
    ensures r.Success? ==> r.value.Keys == xpaths.Keys
    ensures r.Success? ==> forall key :: key in xpaths ==> eval(xpaths[key]) == Some(r.value[key])
    ensures r.Failure? ==> r.error.key in xpaths && eval(xpaths[r.error.key]).None?
  {
    var extracted: map<string, V> := map[];
    var remaining := xpaths.Keys;
    while remaining != {}
      invariant remaining <= xpaths.Keys
      invariant extracted.Keys == xpaths.Keys - remaining
      invariant forall key :: key in extracted ==> eval(xpaths[key]) == Some(extracted[key])
      decreases remaining
    {
      var key :| key in remaining;
      var matches := eval(xpaths[key]);
      if matches.None? {
        return Failure(XPathEvalError(key));
      }
      extracted := extracted[key := matches.value];
      remaining := remaining - {key};
    }
    return Success(extracted);
  }
}
