/** composeSignalURL: the endpoint of one signal, from an override or from the base endpoint. */
module Factory {
  import opened Wrappers
  import opened Http

  /** strings.HasSuffix. */
  predicate HasSuffix(s: string, suffix: string)
  {
    |suffix| <= |s| && s[|s| - |suffix|..] == suffix
  }

  /** strings.TrimSuffix: s without one trailing suffix, if it has one. */
  function TrimSuffix(s: string, suffix: string): string
  {
    if HasSuffix(s, suffix) then s[..|s| - |suffix|] else s
  }

  /**
   * composeSignalURL(oCfg, signalOverrideURL, signalName, signalVersion), with
   * oCfg.Endpoint given as `endpoint`; only whether url.Parse succeeds matters.
   */
  function ComposeSignalUrl(endpoint: string, signalOverrideUrl: string, signalName: string, signalVersion: string,
                            parseUrl: UrlParser): (r: Result<string>)
    // An override that parses is used as it is; the base endpoint is ignored.
    ensures signalOverrideUrl != "" && parseUrl(signalOverrideUrl).Ok? ==> r == Ok(signalOverrideUrl)
    ensures signalOverrideUrl != "" && parseUrl(signalOverrideUrl).Err? ==>
              r == Err(signalName + "_endpoint must be a valid URL")
    ensures signalOverrideUrl == "" && endpoint == "" ==>
              r == Err("either endpoint or " + signalName + "_endpoint must be specified")
    // Otherwise the URL is always composed: the endpoint, then the signal's path.
    ensures signalOverrideUrl == "" && endpoint != "" ==>
              && r.Ok?
              && endpoint <= r.value
              && HasSuffix(r.value, "/" + signalVersion + "/" + signalName)
  {
    if signalOverrideUrl != "" then
      if parseUrl(signalOverrideUrl).Err? then Err(signalName + "_endpoint must be a valid URL")
      else Ok(signalOverrideUrl)
    else if endpoint == "" then
      Err("either endpoint or " + signalName + "_endpoint must be specified")
    else if HasSuffix(endpoint, "/") then
      Ok(endpoint + signalVersion + "/" + signalName)
    else
      Ok(endpoint + "/" + signalVersion + "/" + signalName)
  }

  /**
   * Composing from the endpoint joins the parts with exactly one slash: the
   * result is the endpoint without its trailing slash, then
   * "/<version>/<name>".
   */
  lemma ComposedUrlJoinsWithOneSlash(endpoint: string, signalName: string, signalVersion: string, parseUrl: UrlParser)
    requires endpoint != ""
    ensures ComposeSignalUrl(endpoint, "", signalName, signalVersion, parseUrl)
            == Ok(TrimSuffix(endpoint, "/") + "/" + signalVersion + "/" + signalName)
  {
    if HasSuffix(endpoint, "/") {
      var base := endpoint[..|endpoint| - 1];
      assert endpoint == base + "/";
    }
  }
}
