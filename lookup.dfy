/** The part of the popup's submit handler that runs before any tab is opened:
    the empty-input guard, the call to the ID parser, and the mapping of every
    minifigure ID to the catalogue URL that is looked up for it. */
module Lookup {
  import opened Results
  import opened Text
  import opened MinifigIds

  /** The catalogue page of a minifigure, up to its ID ... */
  const UrlPrefix := "https://www.bricklink.com/v2/catalog/catalogitem.page?M="
  /** ... and the fixed fragment the popup appends after the ID. */
  const UrlSuffix := "#T=S&O={\"ss\":\"IN\",\"cond\":\"N\",\"iconly\":0}"

  /** One entry of `urlData`: a minifigure ID and the page to look it up on. */
  datatype Entry = Entry(id: string, url: string)

  /** Why a submission produces no lookups: the trimmed input is empty, or the
      parser rejected it. */
  datatype SubmitError = EmptyInput | InvalidIds(cause: RangeError)

  /** The lookup URL of one minifigure ID, the ID inserted verbatim. */
  function UrlFor(id: string): string {
    UrlPrefix + id + UrlSuffix
  }

  /** Recovers the ID from a lookup URL, or `None` when the URL does not have the
      lookup shape. */
  function IdOfUrl(url: string): (r: Option<string>)
    ensures r.Some? ==> |r.value| + |UrlPrefix| + |UrlSuffix| == |url|
  {
    if |url| >= |UrlPrefix| + |UrlSuffix|
       && url[..|UrlPrefix|] == UrlPrefix
       && url[|url| - |UrlSuffix|..] == UrlSuffix
    then Some(url[|UrlPrefix|..|url| - |UrlSuffix|])
    else None
  }

  /** The ID can be read back from its URL, and only a lookup URL reads back:
      distinct IDs therefore get distinct URLs. */
  lemma UrlRoundTrip(id: string, url: string)
    ensures IdOfUrl(url) == Some(id) <==> url == UrlFor(id)
  {
    var u := UrlFor(id);
    assert u[..|UrlPrefix|] == UrlPrefix;
    assert u[|u| - |UrlSuffix|..] == UrlSuffix;
    assert u[|UrlPrefix|..|u| - |UrlSuffix|] == id;
    if IdOfUrl(url) == Some(id) {
      assert url == url[..|UrlPrefix|] + url[|UrlPrefix|..|url| - |UrlSuffix|] + url[|url| - |UrlSuffix|..];
    }
  }

  lemma UrlInjective(a: string, b: string)
    requires UrlFor(a) == UrlFor(b)
    ensures a == b
  {
    UrlRoundTrip(a, UrlFor(a));
    UrlRoundTrip(b, UrlFor(b));
  }

  /** The `forEach` that pushes `{id, url}` for each parsed ID: one entry per
      ID, in the same order. */
  method BuildUrlData(ids: seq<string>) returns (urlData: seq<Entry>)
    ensures |urlData| == |ids|
    ensures forall k :: 0 <= k < |ids| ==> urlData[k] == Entry(ids[k], UrlFor(ids[k]))
  {
    urlData := [];
    for i := 0 to |ids|
      invariant |urlData| == i
      invariant forall k :: 0 <= k < i ==> urlData[k] == Entry(ids[k], UrlFor(ids[k]))
    {
      var baseUrl := UrlPrefix + ids[i] + UrlSuffix;
      urlData := urlData + [Entry(ids[i], baseUrl)];
    }
  }

  /** The submit handler up to the point where tabs are opened: trims the input,
      refuses it when nothing is left, parses it and builds the URL list. Every
      entry's URL names exactly the entry's ID. */
  method PrepareLookups(value: string) returns (r: Result<seq<Entry>, SubmitError>)
    ensures r == Err(EmptyInput) <==> AllWhitespace(value)
    ensures !AllWhitespace(value) ==>
              match ParseIds(Trim(value))
              case Err(e) => r == Err(InvalidIds(e))
              case Ok(ids) =>
                && r.Ok? && |r.value| == |ids|
                && forall k :: 0 <= k < |ids| ==> r.value[k].id == ids[k] && IdOfUrl(r.value[k].url) == Some(ids[k])
  {
    TrimEmptyIff(value);
    var text := Trim(value);
    if text == [] {
      return Err(EmptyInput);
    }
    var parsed := ParseMinifigIds(text);
    if parsed.Err? {
      return Err(InvalidIds(parsed.error));
    }
    var urlData := BuildUrlData(parsed.value);
    forall k | 0 <= k < |urlData|
      ensures IdOfUrl(urlData[k].url) == Some(parsed.value[k])
    {
      UrlRoundTrip(parsed.value[k], urlData[k].url);
    }
    r := Ok(urlData);
  }
}
