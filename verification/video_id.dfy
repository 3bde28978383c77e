/** `extractVideoId`, shared by all versions of the script. */
module VideoIds {
  import opened Options
  import opened Text

  /** What the browser's URL parser makes of the address: it throws on an
      address it cannot parse, and otherwise yields the `v` query parameter
      if there is one. */
  datatype ParsedUrl = Unparsable | Parsed(v: Option<string>)

  datatype UrlError = InvalidUrl

  /** `new URL(url).searchParams.get('v') || url.split('/').pop()`; the
      exception of `new URL` becomes an error value. */
  function ExtractVideoId(url: string, parsed: ParsedUrl): (r: Result<string, UrlError>)
    ensures r.Err? <==> parsed.Unparsable?
    ensures parsed.Parsed? && parsed.v.Some? && parsed.v.value != "" ==> r == Ok(parsed.v.value)
    ensures parsed.Parsed? && (parsed.v.None? || parsed.v.value == "") ==>
      && r.Ok?
      && '/' !in r.value
      && |r.value| <= |url| && url[|url| - |r.value|..] == r.value
      && (|r.value| < |url| ==> url[|url| - |r.value| - 1] == '/')
  {
    match parsed
    case Unparsable => Err(InvalidUrl)
    case Parsed(v) =>
      if v.Some? && v.value != "" then Ok(v.value) else Ok(LastPiece(url, '/'))
  }

  /** For a short link without a `v` parameter, the id is the last path
      segment: whatever precedes the last slash is discarded. */
  lemma ShortLinkId(prefix: string, id: string)
    requires '/' !in id
    ensures ExtractVideoId(prefix + "/" + id, Parsed(None)) == Ok(id)
  {
    var url := prefix + "/" + id;
    var r := ExtractVideoId(url, Parsed(None)).value;
    assert url[|url| - |id|..] == id;
    assert url[|url| - |id| - 1] == '/';
    assert r == url[|url| - |r|..] == id;
  }
}
