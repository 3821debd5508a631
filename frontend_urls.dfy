/**
 * `addParamsToUrl` of `src/frontend/urls.ts`: keys and values go through
 * the host's `encodeURIComponent`, given here as `encode`.
 */
module FrontendUrls {
  import opened Queries

  /**
   * Appends `sep encode(key)=encode(value)` to `baseUrl` for every entry of
   * `params` whose value is not skipped, in order.
   */
  method AddParamsToUrl(baseUrl: string, params: seq<Entry>, encode: string -> string) returns (url: string)
    ensures url == WithParams(baseUrl, params, encode)
    ensures url == baseUrl + Joined('?' in baseUrl, Kept(params), encode)
  {
    url := baseUrl;
    var i := 0;
    while i < |params|
      invariant 0 <= i <= |params|
      invariant WithParams(url, params[i..], encode) == WithParams(baseUrl, params, encode)
    {
      var key, value := params[i].0, params[i].1;
      assert params[i..][1..] == params[i + 1..];
      assert WithParams(url, params[i..], encode) == WithParams(Step(url, params[i], encode), params[i + 1..], encode);
      ghost var next := Step(url, params[i], encode);
      if !Skipped(value) {
        url := url + [Separator(url)] + encode(key) + "=" + encode(Display(value));
      }
      assert url == next;
      i := i + 1;
    }
    WithParamsExpansion(baseUrl, params, encode);
  }
}
