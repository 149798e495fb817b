/** The startup check of the completion-service settings: the API key and
    the base URL must be present, and the base URL must end in `/v1` once
    trailing slashes are stripped.  The client wrapper repeats the same rule
    before it builds its client. */
module Config {
  import opened Records

  /** `s.endswith(suffix)`: `s` is something followed by `suffix`. */
  function EndsWith(s: string, suffix: string): (b: bool)
    ensures b <==> |suffix| <= |s| && s == s[..|s| - |suffix|] + suffix
  {
    |suffix| <= |s| && s[|s| - |suffix|..] == suffix
  }

  /** `n` slashes. */
  function Slashes(n: nat): (s: string)
    ensures |s| == n
    ensures forall i :: 0 <= i < n ==> s[i] == '/'
  {
    if n == 0 then "" else Slashes(n - 1) + "/"
  }

  /** `s.rstrip("/")`: the longest prefix of `s` that does not end in a
      slash, with only slashes after it. */
  function StripTrailingSlashes(s: string): (r: string)
    ensures |r| <= |s| && r == s[..|r|]
    ensures r == "" || r[|r| - 1] != '/'
    ensures forall i :: |r| <= i < |s| ==> s[i] == '/'
    decreases |s|
  {
    if |s| > 0 && s[|s| - 1] == '/' then StripTrailingSlashes(s[..|s| - 1]) else s
  }

  /** `url` is `prefix` followed by `/v1` and `n` slashes. */
  predicate VersionedForm(url: string, prefix: string, n: nat)
  {
    url == prefix + "/v1" + Slashes(n)
  }

  /** The format rule for the base URL: accepted exactly when the URL is some
      prefix, then `/v1`, then any number of slashes. */
  function AcceptsBaseUrl(url: string): (b: bool)
    ensures b <==> exists prefix: string, n: nat :: VersionedForm(url, prefix, n)
  {
    AcceptedUrlShape(url);
    EndsWith(StripTrailingSlashes(url), "/v1")
  }

  /** A setting is missing when it is absent or empty (both falsy). */
  function Present(setting: Option<string>): (b: bool)
    ensures b <==> setting != None && setting != Some("")
  {
    setting.Some? && setting.value != ""
  }

  /** The outcome of the startup check; every outcome but `ConfigOk` shows
      an error and halts the page. */
  datatype ConfigCheck = MissingApiKey | MissingBaseUrl | MalformedBaseUrl | ConfigOk

  /** The three checks in their order: the key first, then the URL's
      presence, then its format. */
  function CheckConfig(apiKey: Option<string>, baseUrl: Option<string>): (r: ConfigCheck)
    ensures r == ConfigOk <==> Present(apiKey) && Present(baseUrl) && AcceptsBaseUrl(baseUrl.value)
    ensures r == MissingApiKey <==> !Present(apiKey)
    ensures r == MissingBaseUrl <==> Present(apiKey) && !Present(baseUrl)
    ensures r == MalformedBaseUrl ==> Present(baseUrl) && !AcceptsBaseUrl(baseUrl.value)
  {
    if !Present(apiKey) then MissingApiKey
    else if !Present(baseUrl) then MissingBaseUrl
    else if !AcceptsBaseUrl(baseUrl.value) then MalformedBaseUrl
    else ConfigOk
  }

  /** Any number of trailing slashes is stripped and nothing more. */
  lemma {:induction false} StripSlashesAfter(s: string, n: nat)
    requires s == "" || s[|s| - 1] != '/'
    ensures StripTrailingSlashes(s + Slashes(n)) == s
    decreases n
  {
    if n > 0 {
      assert (s + Slashes(n))[..|s| + n - 1] == s + Slashes(n - 1);
      StripSlashesAfter(s, n - 1);
    } else {
      assert s + Slashes(0) == s;
    }
  }

  /** Every URL that ends in `/v1` followed by any number of slashes is
      accepted. */
  lemma AcceptsVersionedUrl(prefix: string, n: nat)
    ensures AcceptsBaseUrl(prefix + "/v1" + Slashes(n))
  {
    assert VersionedForm(prefix + "/v1" + Slashes(n), prefix, n);
  }

  /** Every URL splits into its stripped form followed by slashes, and the
      stripped form ends in `/v1` exactly when the URL is a prefix, `/v1` and
      slashes. */
  lemma AcceptedUrlShape(url: string)
    ensures url == StripTrailingSlashes(url) + Slashes(|url| - |StripTrailingSlashes(url)|)
    ensures EndsWith(StripTrailingSlashes(url), "/v1") <==>
            exists prefix: string, n: nat :: VersionedForm(url, prefix, n)
  {
    var r := StripTrailingSlashes(url);
    var k := |url| - |r|;
    assert url[|r|..] == Slashes(k);
    assert url == url[..|r|] + url[|r|..];
    if EndsWith(r, "/v1") {
      var prefix := r[..|r| - 3];
      assert r == prefix + "/v1";
      assert VersionedForm(url, prefix, k);
    }
    if exists prefix: string, n: nat :: VersionedForm(url, prefix, n) {
      var prefix: string, n: nat :| VersionedForm(url, prefix, n);
      StripSlashesAfter(prefix + "/v1", n);
      assert url == (prefix + "/v1") + Slashes(n);
    }
  }

  /** The example the error message gives, with and without a trailing
      slash, is accepted. */
  lemma AcceptedExamples()
    ensures AcceptsBaseUrl("https://api.deepseek.com/v1/")
    ensures AcceptsBaseUrl("https://api.deepseek.com/v1")
  {
    assert VersionedForm("https://api.deepseek.com/v1/", "https://api.deepseek.com", 1);
    assert VersionedForm("https://api.deepseek.com/v1", "https://api.deepseek.com", 0);
  }

  /** Another version, or no version at all, is rejected. */
  lemma RejectedExamples()
    ensures !AcceptsBaseUrl("https://api.deepseek.com/v2")
    ensures !AcceptsBaseUrl("https://api.deepseek.com")
  {
    var v2 := "https://api.deepseek.com/v2";
    assert StripTrailingSlashes(v2) == v2;
    assert !EndsWith(v2, "/v1") by { assert v2[|v2| - 1] == '2'; }
    var bare := "https://api.deepseek.com";
    assert StripTrailingSlashes(bare) == bare;
    assert !EndsWith(bare, "/v1") by { assert bare[|bare| - 1] == 'm'; }
  }
}
