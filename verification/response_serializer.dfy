/**
 * `Readme::Har::ResponseSerializer#as_json`: builds the HAR `response`
 * object from the request and response being logged and a filter.
 * Headers come from the response, cookies from the request, and both go
 * through a `HarCollection` over the filter; a JSON body is parsed,
 * filtered and printed again, any other body is logged verbatim.
 */
module ResponseSerializer {
  import opened Wrappers
  import opened RubyHash
  import opened Filters
  import opened HarCollections
  import opened Json
  import opened ContentType
  import opened StatusCodes

  /** What the serializer reads from the request. */
  datatype Request = Request(httpVersion: string, cookies: Hash<string, string>)

  /** What the serializer reads from the response; `body` is the list of chunks the body yields. */
  datatype Response = Response(
    status: int,
    headers: Hash<string, string>,
    contentType: Option<string>,
    contentLength: nat,
    location: Option<string>,
    body: Option<seq<string>>)

  /** HAR's `content` object; `text` is None when the key is absent. */
  datatype Content = Content(size: int, mimeType: string, text: Option<string>)

  /** HAR's `response` object. */
  datatype HarResponse = HarResponse(
    status: int,
    statusText: string,
    httpVersion: string,
    headers: seq<NameValue<string, string>>,
    cookies: seq<NameValue<string, string>>,
    headersSize: int,
    bodySize: int,
    redirectURL: string,
    content: Content)

  /** HAR's marker for a header size that was not measured. */
  const NotMeasured: int := -1

  /** The whole body as one string: its chunks, read in order. */
  function BodyText(chunks: seq<string>): (t: string)
    ensures |chunks| == 0 ==> t == ""
    ensures |chunks| == 1 ==> t == chunks[0]
    ensures forall c :: c in chunks ==> |c| <= |t|
  {
    if |chunks| == 0 then "" else chunks[0] + BodyText(chunks[1..])
  }

  /** Reading two runs of chunks one after the other reads their texts one after the other. */
  lemma {:induction false} BodyTextAppend(a: seq<string>, b: seq<string>)
    ensures BodyText(a + b) == BodyText(a) + BodyText(b)
  {
    if |a| == 0 {
      assert a + b == b;
    } else {
      assert (a + b)[1..] == a[1..] + b;
      BodyTextAppend(a[1..], b);
    }
  }

  /** `HarCollection.new(filter, hash).to_a` for a `Filter.for` policy. */
  function FilteredPairs(f: Filter, h: Hash<string, string>): (r: seq<NameValue<string, string>>)
    ensures r == Pairs(Apply(f, h))
    ensures forall k, v :: NameValue(k, v) in r <==> Entry(k, v) in h && k !in f.reject
  {
    FilteredPairsMembers(f, h);
    ToA(HarCollection((x: Hash<string, string>) => Apply(f, x), h))
  }

  /** A pair of the filtered projection is exactly a surviving entry of the hash. */
  lemma {:induction false} FilteredPairsMembers(f: Filter, h: Hash<string, string>)
    ensures forall k, v :: NameValue(k, v) in Pairs(Apply(f, h)) <==> Entry(k, v) in h && k !in f.reject
  {
    var c := HarCollection((x: Hash<string, string>) => Apply(f, x), h);
    assert ToH(c) == Apply(f, h);
    forall k, v ensures NameValue(k, v) in Pairs(Apply(f, h)) <==> Entry(k, v) in h && k !in f.reject {
      ToAHasExactlyToHEntries(c, k, v);
      ApplyMembers(f, h, Entry(k, v));
    }
  }

  /** The text logged for a body that is present. */
  function LoggedText(codec: Codec, f: Filter, contentType: Option<string>, raw: string): (t: string)
    ensures (contentType.Some? && IsJson(contentType.value) && codec.parse(raw).Some?) ==>
              t == codec.serialize(FilterJson(f, codec.parse(raw).value))
    ensures !(contentType.Some? && IsJson(contentType.value)) ==> t == raw
    ensures codec.parse(raw).None? ==> t == raw
  {
    if contentType.Some? && IsJson(contentType.value) then
      match codec.parse(raw)
      case Some(j) => codec.serialize(FilterJson(f, j))
      case None => raw
    else
      raw
  }

  /** HAR's `content`: sizes from the declared length, text only when there is a body. */
  function ContentOf(codec: Codec, resp: Response, f: Filter): (c: Content)
    ensures resp.body.None? ==> c == Content(0, "", None)
    ensures resp.body.Some? ==> c.size == resp.contentLength
    ensures resp.body.Some? ==> c.mimeType == resp.contentType.GetOr("")
    ensures c.text.Some? <==> resp.body.Some?
    ensures resp.body.Some? ==> c.text == Some(LoggedText(codec, f, resp.contentType, BodyText(resp.body.value)))
  {
    match resp.body
    case None => Content(0, "", None)
    case Some(chunks) =>
      Content(resp.contentLength, resp.contentType.GetOr(""), Some(LoggedText(codec, f, resp.contentType, BodyText(chunks))))
  }

  /** `as_json`. */
  function AsJson(codec: Codec, req: Request, resp: Response, f: Filter): (r: HarResponse)
    ensures r.status == resp.status && r.statusText == StatusText(resp.status)
    ensures r.httpVersion == req.httpVersion
    ensures forall k, v :: NameValue(k, v) in r.headers <==> Entry(k, v) in resp.headers && k !in f.reject
    ensures forall k, v :: NameValue(k, v) in r.cookies <==> Entry(k, v) in req.cookies && k !in f.reject
    ensures r.headers == Pairs(Apply(f, resp.headers)) && r.cookies == Pairs(Apply(f, req.cookies))
    ensures r.headersSize == -1
    ensures r.redirectURL == resp.location.GetOr("")
    ensures r.bodySize == r.content.size
    ensures r.content == ContentOf(codec, resp, f)
  {
    HarResponse(
      status := resp.status,
      statusText := StatusText(resp.status),
      httpVersion := req.httpVersion,
      headers := FilteredPairs(f, resp.headers),
      cookies := FilteredPairs(f, req.cookies),
      headersSize := NotMeasured,
      bodySize := if resp.body.Some? then resp.contentLength else 0,
      redirectURL := resp.location.GetOr(""),
      content := ContentOf(codec, resp, f))
  }

  /**
   * `bodySize` and `content.size` describe the body as sent: they are the
   * declared length whatever the filter or the codec make of the text.
   */
  lemma SizesAreDeclaredLength(c1: Codec, c2: Codec, req: Request, resp: Response, f1: Filter, f2: Filter)
    requires resp.body.Some?
    ensures AsJson(c1, req, resp, f1).bodySize == AsJson(c2, req, resp, f2).content.size == resp.contentLength
  {
  }

  /** Cookies depend on the request alone, headers on the response alone. */
  lemma CookiesFromRequestHeadersFromResponse(codec: Codec, req1: Request, req2: Request, resp1: Response, resp2: Response, f: Filter)
    requires req1.cookies == req2.cookies && resp1.headers == resp2.headers
    ensures AsJson(codec, req1, resp1, f).cookies == AsJson(codec, req2, resp2, f).cookies
    ensures AsJson(codec, req1, resp1, f).headers == AsJson(codec, req2, resp2, f).headers
  {
  }

  /**
   * A JSON body that parses to an object is logged as the printed object
   * without its rejected members; every other member keeps its value.
   */
  lemma JsonBodyLosesRejectedKeys(codec: Codec, req: Request, resp: Response, f: Filter, members: Hash<string, Json>)
    requires resp.body.Some? && resp.contentType.Some? && IsJson(resp.contentType.value)
    requires codec.parse(BodyText(resp.body.value)) == Some(Obj(members))
    ensures exists kept: Hash<string, Json> ::
              && AsJson(codec, req, resp, f).content.text == Some(codec.serialize(Obj(kept)))
              && forall k :: Lookup(kept, k) == if k in f.reject then None else Lookup(members, k)
  {
    var kept := Apply(f, members);
    var raw := BodyText(resp.body.value);
    assert FilterJson(f, Obj(members)) == Obj(kept);
    assert LoggedText(codec, f, resp.contentType, raw) == codec.serialize(Obj(kept));
    var text := AsJson(codec, req, resp, f).content.text;
    assert text == ContentOf(codec, resp, f).text;
    forall k ensures Lookup(kept, k) == if k in f.reject then None else Lookup(members, k) {
      ApplyLookup(f, members, k);
    }
    assert text == Some(codec.serialize(Obj(kept)));
  }

  /** Under `Filter.for` a JSON body the codec reprints exactly is logged unchanged. */
  lemma UnfilteredJsonBodyIsUnchanged(codec: Codec, req: Request, resp: Response)
    requires resp.body.Some? && resp.contentType.Some? && IsJson(resp.contentType.value)
    requires ReprintsExactly(codec, BodyText(resp.body.value))
    ensures AsJson(codec, req, resp, For([])).content.text == Some(BodyText(resp.body.value))
    ensures AsJson(codec, req, resp, For([])).content.mimeType == resp.contentType.value
  {
    EmptyFilterKeepsJson(codec.parse(BodyText(resp.body.value)).value);
  }

  /** A body that does not parse, or whose type is not JSON, is logged verbatim and never rejected. */
  lemma RawBodyPassesThrough(codec: Codec, req: Request, resp: Response, f: Filter)
    requires resp.body.Some?
    requires resp.contentType.None? || !IsJson(resp.contentType.value) || codec.parse(BodyText(resp.body.value)).None?
    ensures AsJson(codec, req, resp, f).content.text == Some(BodyText(resp.body.value))
  {
    var raw := BodyText(resp.body.value);
    assert LoggedText(codec, f, resp.contentType, raw) == raw;
    assert AsJson(codec, req, resp, f).content == ContentOf(codec, resp, f);
  }
}
