/** The image-URL builder that both the cosmetics shop and the level catalogue
    apply to stored image paths. The base address comes from the `BASE_URL`
    environment variable, passed in here as `env` (the empty string when the
    variable is unset).
 */
module Urls {

  predicate StartsWith(s: string, prefix: string) {
    |prefix| <= |s| && s[..|prefix|] == prefix
  }

  /** A path that is already a full web address. */
  predicate IsAbsolute(url: string) {
    StartsWith(url, "http://") || StartsWith(url, "https://")
  }

  const DefaultBaseUrl := "http://localhost:3000"

  /** `process.env.BASE_URL || 'http://localhost:3000'`: an unset or empty
      variable falls back to the local server. */
  function BaseUrl(env: string): (r: string)
    ensures r != []
    ensures env != "" ==> r == env
    ensures env == "" ==> IsAbsolute(r)
  {
    if env == "" then DefaultBaseUrl else env
  }

  /** Absolute addresses pass through; anything else is appended to the base
      address, with a `/` inserted exactly when the path does not start with
      one. */
  function BuildImageUrl(env: string, path: string): (r: string)
    ensures IsAbsolute(path) ==> r == path
    ensures !IsAbsolute(path) ==>
      var base := BaseUrl(env);
      && StartsWith(r, base)
      && StartsWith(r[|base|..], "/")
      && (if StartsWith(path, "/") then r[|base|..] == path else r[|base|..] == "/" + path)
      && |r| == |base| + |path| + (if StartsWith(path, "/") then 0 else 1)
  {
    if IsAbsolute(path) then path
    else
      var cleanPath := if StartsWith(path, "/") then path else "/" + path;
      var r := BaseUrl(env) + cleanPath;
      assert r[|BaseUrl(env)|..] == cleanPath;
      r
  }

  lemma StartsWithPrefix(s: string, p: string, q: string)
    requires StartsWith(s, p) && StartsWith(p, q)
    ensures StartsWith(s, q)
  {
    assert s[..|q|] == s[..|p|][..|q|];
  }

  /** With an absolute base address (the default one is), building a URL from
      an already built URL changes nothing. */
  lemma BuildImageUrlIdempotent(env: string, path: string)
    requires IsAbsolute(BaseUrl(env))
    ensures BuildImageUrl(env, BuildImageUrl(env, path)) == BuildImageUrl(env, path)
  {
    var r := BuildImageUrl(env, path);
    if !IsAbsolute(path) {
      var base := BaseUrl(env);
      if StartsWith(base, "http://") {
        StartsWithPrefix(r, base, "http://");
      } else {
        StartsWithPrefix(r, base, "https://");
      }
    }
  }

  lemma DefaultBaseUrlIsAbsolute()
    ensures IsAbsolute(BaseUrl(""))
  {
    assert DefaultBaseUrl[..|"http://"|] == "http://";
  }
}
