/** `addParamsToUrl` of `src/general/urls.ts`: keys and values are inserted verbatim. */
module GeneralUrls {
  import opened Queries

  /**
   * Appends `sep key=value` to `baseUrl` for every entry of `params` whose
   * value is not skipped, in order, reassigning the URL once per entry.
   */
  method AddParamsToUrl(baseUrl: string, params: seq<Entry>) returns (url: string)
    ensures url == WithParams(baseUrl, params, Verbatim)
    ensures url == baseUrl + Joined('?' in baseUrl, Kept(params), Verbatim)
  {
    url := baseUrl;
    var i := 0;
    while i < |params|
      invariant 0 <= i <= |params|
      invariant WithParams(url, params[i..], Verbatim) == WithParams(baseUrl, params, Verbatim)
    {
      var key, value := params[i].0, params[i].1;
      assert params[i..][1..] == params[i + 1..];
      assert WithParams(url, params[i..], Verbatim) == WithParams(Step(url, params[i], Verbatim), params[i + 1..], Verbatim);
      ghost var next := Step(url, params[i], Verbatim);
      if !Skipped(value) {
        url := url + [Separator(url)] + key + "=" + Display(value);
      }
      assert url == next;
      i := i + 1;
    }
    WithParamsExpansion(baseUrl, params, Verbatim);
  }
}
