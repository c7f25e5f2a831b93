/**
 * Page-URL construction: the endpoint path for an optional page key, and the
 * parse that recovers the key from such a path.
 */
module StringExt {
  import opened Wrappers

  const EndpointPrefix: string := "interviews/challenges/android/doctors"
  const ResponseTypeSuffix: string := ".json"

  /** Kotlin's `isNullOrEmpty()`. */
  predicate IsNullOrEmpty(s: Option<string>) {
    s.None? || s.value == ""
  }

  /** The path of the first page when there is no key, otherwise the keyed page. */
  function ManipulateUrl(lastKey: Option<string>): (url: string)
    ensures |EndpointPrefix| + |ResponseTypeSuffix| <= |url|
    ensures url[..|EndpointPrefix|] == EndpointPrefix
    ensures url[|url| - |ResponseTypeSuffix|..] == ResponseTypeSuffix
  {
    if IsNullOrEmpty(lastKey) then
      EndpointPrefix + ResponseTypeSuffix
    else
      EndpointPrefix + "-" + lastKey.value + ResponseTypeSuffix
  }

  /** What a path names: the first page, a keyed page, or neither. */
  datatype PageUrl = FirstPage | KeyedPage(key: string) | NotAPageUrl

  /** Strips the prefix, the dash and the suffix off a path. */
  function ParseUrl(url: string): PageUrl {
    var p, s := |EndpointPrefix|, |ResponseTypeSuffix|;
    if url == EndpointPrefix + ResponseTypeSuffix then
      FirstPage
    else if p + 1 + s < |url| && url[..p] == EndpointPrefix && url[p] == '-'
            && url[|url| - s..] == ResponseTypeSuffix then
      KeyedPage(url[p + 1..|url| - s])
    else
      NotAPageUrl
  }

  /** The page a key asks for. */
  function PageOf(lastKey: Option<string>): PageUrl {
    if IsNullOrEmpty(lastKey) then FirstPage else KeyedPage(lastKey.value)
  }

  /** Round trip: the parse of a built path recovers the key exactly. */
  lemma ParseManipulatedUrl(lastKey: Option<string>)
    ensures ParseUrl(ManipulateUrl(lastKey)) == PageOf(lastKey)
  {
    var url := ManipulateUrl(lastKey);
    var p, s := |EndpointPrefix|, |ResponseTypeSuffix|;
    if !IsNullOrEmpty(lastKey) {
      var k := lastKey.value;
      assert url == EndpointPrefix + "-" + k + ResponseTypeSuffix;
      assert |url| == p + 1 + |k| + s;
      assert url != EndpointPrefix + ResponseTypeSuffix;
      assert url[..p] == EndpointPrefix;
      assert url[p] == '-';
      assert url[|url| - s..] == ResponseTypeSuffix;
      assert url[p + 1..|url| - s] == k;
    }
  }

  /** The converse: every path the parse accepts is the one built from its key. */
  lemma ManipulateParsedUrl(url: string)
    ensures ParseUrl(url) == FirstPage ==> ManipulateUrl(None) == url
    ensures ParseUrl(url).KeyedPage? ==>
      ParseUrl(url).key != "" && ManipulateUrl(Some(ParseUrl(url).key)) == url
  {
    var p, s := |EndpointPrefix|, |ResponseTypeSuffix|;
    if ParseUrl(url).KeyedPage? {
      var k := ParseUrl(url).key;
      assert url == url[..p] + [url[p]] + url[p + 1..|url| - s] + url[|url| - s..];
      assert |k| == |url| - p - 1 - s;
    }
  }

  /** Distinct non-empty keys give distinct paths. */
  lemma ManipulateUrlInjective(a: string, b: string)
    requires a != "" && b != ""
    requires ManipulateUrl(Some(a)) == ManipulateUrl(Some(b))
    ensures a == b
  {
    ParseManipulatedUrl(Some(a));
    ParseManipulatedUrl(Some(b));
  }

  /** A keyed path is never the keyless one. */
  lemma KeyedUrlIsNotFirstPage(k: string)
    requires k != ""
    ensures ManipulateUrl(Some(k)) != ManipulateUrl(None)
  {
    ParseManipulatedUrl(Some(k));
    ParseManipulatedUrl(None);
  }
}
