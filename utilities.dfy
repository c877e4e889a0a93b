/** Lower-level utilities: building HTTPS URLs and re-raising errors outside debugging mode. */
module Utilities {
  import opened Wrappers
  import opened Text

  const HTTPS := "https://"

  /** The `k=v` strings of the URL parameters, in insertion order. */
  function ParamStrings(params: seq<(string, string)>): (pairs: seq<string>)
    ensures |pairs| == |params|
    ensures forall i :: 0 <= i < |params| ==> pairs[i] == params[i].0 + "=" + params[i].1
  {
    seq(|params|, i requires 0 <= i < |params| => params[i].0 + "=" + params[i].1)
  }

  /**
   * `as_HTTPS_URL(*parts, **url_params)`: "https://", the parts joined by
   * "/", then "?" and the `k=v` pairs joined by "&" when there are any.
   * Parameter values are taken already converted by `str`.
   */
  function AsHttpsUrl(parts: seq<string>, params: seq<(string, string)>): (url: string)
    ensures |url| >= |HTTPS| && url[..|HTTPS|] == HTTPS
    ensures |params| == 0 ==> url[|HTTPS|..] == Join(parts, "/")
    ensures |params| > 0 ==> url[|HTTPS|..] == Join(parts, "/") + "?" + Join(ParamStrings(params), "&")
  {
    var url := HTTPS + Join(parts, "/");
    if |params| > 0 then url + "?" + Join(ParamStrings(params), "&") else url
  }

  /** Neither a key nor a value of the parameters holds `c`. */
  predicate NoChar(params: seq<(string, string)>, c: char) {
    forall i :: 0 <= i < |params| ==> c !in params[i].0 && c !in params[i].1
  }

  lemma ParamStringsFree(params: seq<(string, string)>, c: char)
    requires c != '=' && NoChar(params, c)
    ensures forall k :: 0 <= k < |params| ==> c !in ParamStrings(params)[k]
  {
  }

  /** When the path parts hold no '?', the URL holds one exactly when parameters are given. */
  lemma AsHttpsUrlHasQuery(parts: seq<string>, params: seq<(string, string)>)
    requires forall k :: 0 <= k < |parts| ==> '?' !in parts[k]
    requires NoChar(params, '?')
    ensures '?' in AsHttpsUrl(parts, params) <==> |params| > 0
  {
    var url := AsHttpsUrl(parts, params);
    JoinFree(parts, "/", '?');
    ParamStringsFree(params, '?');
    JoinFree(ParamStrings(params), "&", '?');
    assert url == HTTPS + url[|HTTPS|..];
    if |params| > 0 {
      assert url[|HTTPS| + |Join(parts, "/")|] == '?';
    }
  }

  /**
   * The URL splits back: after "https://", at '?' into the path and the
   * query; the path at '/' into the parts; the query at '&' into the
   * `k=v` strings, when no piece holds the character it is split at.
   */
  lemma AsHttpsUrlRoundTrip(parts: seq<string>, params: seq<(string, string)>)
    requires |parts| >= 1 && |params| >= 1
    requires forall k :: 0 <= k < |parts| ==> '?' !in parts[k] && '/' !in parts[k]
    requires NoChar(params, '?') && NoChar(params, '&')
    ensures var url := AsHttpsUrl(parts, params);
      var pieces := Split(url[|HTTPS|..], "?");
      && pieces == [Join(parts, "/"), Join(ParamStrings(params), "&")]
      && Split(pieces[0], "/") == parts
      && Split(pieces[1], "&") == ParamStrings(params)
  {
    var path := Join(parts, "/");
    var query := Join(ParamStrings(params), "&");
    JoinFree(parts, "/", '?');
    ParamStringsFree(params, '?');
    ParamStringsFree(params, '&');
    JoinFree(ParamStrings(params), "&", '?');
    SplitAtQuery(path, query);
    SplitJoin(parts, "/");
    SplitJoin(ParamStrings(params), "&");
  }

  lemma SplitAtQuery(path: string, query: string)
    requires '?' !in path && '?' !in query
    ensures Split(path + "?" + query, "?") == [path, query]
  {
    SplitSepCons(path, "?", query);
    SplitSepAbsent(query, "?");
  }

  /**
   * `Debuggable.debug_or_raise` outside debugging mode: the error is raised
   * again. In debugging mode the interactive debugger runs instead and
   * nothing is raised. This records the promise only: the members that
   * call it in the source (`ReplyTo.__init__`, `write`, `get_emails_from`) are modelled on
   * the non-debugging path, where the error simply propagates.
   */
  function DebugOrRaise(debugging: bool, err: PyError): (raised: Option<PyError>)
    ensures !debugging ==> raised == Some(err)
    ensures debugging ==> raised == None
  {
    if debugging then None else Some(err)
  }
}
