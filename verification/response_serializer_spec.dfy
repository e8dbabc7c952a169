/**
 * The examples of `ResponseSerializer#as_json`, stated over the model.
 * Where an example depends on Ruby's JSON library, the lemma names what
 * it takes the codec to do with the example's body.
 */
module ResponseSerializerExamples {
  import opened Wrappers
  import opened RubyHash
  import opened Filters
  import opened HarCollections
  import opened Json
  import opened ContentType
  import opened ResponseSerializer
  import opened StatusCodes

  /** `build_request` with no overrides. */
  function DefaultRequest(): Request {
    Request("HTTP/1.1", [Entry("default_cookie", "default")])
  }

  /** `build_response` with no overrides; `StringIO.new("OK")` is the one chunk "OK". */
  function DefaultResponse(): Response {
    Response(200, [Entry("X-Default", "default")], Some("text/plain"), 2, None, Some(["OK"]))
  }

  /** The default `text/plain` type is not JSON. */
  lemma PlainTextIsNotJson()
    ensures !IsJson("text/plain")
  {
    NoJIsNotJson("text/plain");
  }

  /** The five types of "handles multiple JSON mime types" are all parsed as JSON. */
  lemma ListedTypesAreJson()
    ensures forall mt :: mt in ["application/json", "application/x-json", "text/json", "text/x-json", "+json"] ==> IsJson(mt)
  {
    MediaTypesAreJson();
    JsonSuffixIsJson("");
    assert "" + "+json" == "+json";
  }

  /** "serializes values from the response, filtering cookies and headers". */
  lemma SerializesValuesFilteringCookiesAndHeaders(codec: Codec)
    ensures var req := DefaultRequest().(cookies := [Entry("cookie1", "value1"), Entry("reject", "reject")]);
            var resp := DefaultResponse().(status := 200, headers := [Entry("X-Custom", "custom"), Entry("reject", "reject")],
                                           location := None, body := Some(["OK"]));
            var r := AsJson(codec, req, resp, For(["reject"]));
            && r.status == 200
            && r.statusText == "OK"
            && r.httpVersion == req.httpVersion
            && r.headers == [NameValue("X-Custom", "custom")]
            && r.headersSize == -1
            && r.bodySize == resp.contentLength
            && r.redirectURL == ""
            && r.cookies == [NameValue("cookie1", "value1")]
            && r.content == Content(resp.contentLength, resp.contentType.value, Some("OK"))
  {
    var req := DefaultRequest().(cookies := [Entry("cookie1", "value1"), Entry("reject", "reject")]);
    var resp := DefaultResponse().(status := 200, headers := [Entry("X-Custom", "custom"), Entry("reject", "reject")],
                                   location := None, body := Some(["OK"]));
    var f := For(["reject"]);
    PlainTextIsNotJson();
    RejectFilterPairs();
    assert BodyText(["OK"]) == "OK";
    assert ContentOf(codec, resp, f) == Content(2, "text/plain", Some("OK"));
    assert AsJson(codec, req, resp, f) == HarResponse(200, "OK", "HTTP/1.1", [NameValue("X-Custom", "custom")],
                                                      [NameValue("cookie1", "value1")], -1, 2, "", Content(2, "text/plain", Some("OK")));
  }

  /** The example's headers and cookies lose their `reject` entry. */
  lemma RejectFilterPairs()
    ensures FilteredPairs(For(["reject"]), [Entry("X-Custom", "custom"), Entry("reject", "reject")])
            == [NameValue("X-Custom", "custom")]
    ensures FilteredPairs(For(["reject"]), [Entry("cookie1", "value1"), Entry("reject", "reject")])
            == [NameValue("cookie1", "value1")]
  {
    var f := For(["reject"]);
    assert f.reject == {"reject"};
    var headers := [Entry("X-Custom", "custom"), Entry("reject", "reject")];
    var cookies := [Entry("cookie1", "value1"), Entry("reject", "reject")];
    assert Apply(f, headers) == [Entry("X-Custom", "custom")];
    assert Apply(f, cookies) == [Entry("cookie1", "value1")];
    assert FilteredPairs(f, headers) == Pairs(Apply(f, headers));
    assert FilteredPairs(f, cookies) == Pairs(Apply(f, cookies));
  }

  /** `application/json` is one of the JSON media types. */
  lemma ApplicationJsonIsJson()
    ensures IsJson("application/json")
  {
    assert "application/json" == "application/" + "json" + "";
  }

  /** The body filter of the example leaves `{keep: "keep"}`. */
  lemma RejectFilterKeepsKeep()
    ensures FilterJson(For(["reject"]), Obj([Entry("reject", Str("reject")), Entry("keep", Str("keep"))]))
            == Obj([Entry("keep", Str("keep"))])
  {
    assert For(["reject"]).reject == {"reject"};
  }

  /** The text the JSON example logs for its body. */
  lemma RejectedMemberLeavesText(codec: Codec)
    requires codec.parse("{\"reject\":\"reject\",\"keep\":\"keep\"}")
             == Some(Obj([Entry("reject", Str("reject")), Entry("keep", Str("keep"))]))
    requires codec.serialize(Obj([Entry("keep", Str("keep"))])) == "{\"keep\":\"keep\"}"
    ensures LoggedText(codec, For(["reject"]), Some("application/json"), "{\"reject\":\"reject\",\"keep\":\"keep\"}")
            == "{\"keep\":\"keep\"}"
  {
    ApplicationJsonIsJson();
    RejectFilterKeepsKeep();
  }

  /** "filters JSON bodies": the rejected member is removed from the logged text. */
  lemma FiltersJsonBodies(codec: Codec)
    requires codec.parse("{\"reject\":\"reject\",\"keep\":\"keep\"}")
             == Some(Obj([Entry("reject", Str("reject")), Entry("keep", Str("keep"))]))
    requires codec.serialize(Obj([Entry("keep", Str("keep"))])) == "{\"keep\":\"keep\"}"
    ensures var resp := DefaultResponse().(contentType := Some("application/json"),
                                           body := Some(["{\"reject\":\"reject\",\"keep\":\"keep\"}"]));
            AsJson(codec, DefaultRequest(), resp, For(["reject"])).content
              == Content(resp.contentLength, "application/json", Some("{\"keep\":\"keep\"}"))
  {
    var f := For(["reject"]);
    var raw := "{\"reject\":\"reject\",\"keep\":\"keep\"}";
    var resp := DefaultResponse().(contentType := Some("application/json"), body := Some([raw]));
    RejectedMemberLeavesText(codec);
    assert BodyText([raw]) == raw;
    assert ContentOf(codec, resp, f) == Content(2, "application/json", Some("{\"keep\":\"keep\"}"));
    assert AsJson(codec, DefaultRequest(), resp, f).content == ContentOf(codec, resp, f);
  }

  /** "passes-through the raw body invalid JSON payloads". */
  lemma PassesThroughInvalidJson(codec: Codec)
    requires codec.parse("NOT JSON") == None
    ensures var resp := DefaultResponse().(contentType := Some("application/json"), body := Some(["NOT JSON"]));
            AsJson(codec, DefaultRequest(), resp, For([])).content
              == Content(resp.contentLength, "application/json", Some("NOT JSON"))
  {
  }

  /** "handles responses without a body": no `text` key, size 0 despite the declared 2, empty type. */
  lemma HandlesResponsesWithoutBody(codec: Codec)
    ensures var resp := DefaultResponse().(status := 204, contentType := None, body := None);
            AsJson(codec, DefaultRequest(), resp, For(["reject"])).content == Content(0, "", None)
  {
  }

  /** "handles multiple JSON mime types": under `Filter.for` the compact body comes back as it was. */
  lemma HandlesMultipleJsonMimeTypes(codec: Codec, mt: string)
    requires mt in ["application/json", "application/x-json", "text/json", "text/x-json", "+json"]
    requires codec.parse("{\"result\":\"value\"}") == Some(Obj([Entry("result", Str("value"))]))
    requires codec.serialize(Obj([Entry("result", Str("value"))])) == "{\"result\":\"value\"}"
    ensures var resp := DefaultResponse().(status := 200, contentType := Some(mt), body := Some(["{\"result\":\"value\"}"]));
            var c := AsJson(codec, DefaultRequest(), resp, For([])).content;
            c.text == Some("{\"result\":\"value\"}") && c.mimeType == mt
  {
    ListedTypesAreJson();
    EmptyFilterKeepsJson(Obj([Entry("result", Str("value"))]));
  }
}
