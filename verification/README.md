# HAR response serializer (Ruby SDK) in Dafny

This project models how the ReadMe Ruby SDK turns a logged HTTP exchange
into the `response` object of a HAR ("HTTP Archive") entry, redacting
keys named by a filter policy. The behaviour modelled is what the SDK's
RSpec examples for `Readme::Har::ResponseSerializer` and
`Readme::HarCollection` pin. There are three pieces.

- **Filter** (`filter.dfy`, module `Filters`). `Filter.for(reject: [...])`
  is a set of rejected keys. Applying it to a hash drops every entry with a
  rejected key and keeps the rest in order. `Filter.for` with no arguments
  is the identity.
- **HarCollection** (`har_collection.dfy`). It holds an injected filter
  (any function on hashes) and a hash. `to_h` is the filter's output.
  `to_a` is that output projected into `{name, value}` pairs, one per
  entry, with the key unchanged.
- **ResponseSerializer#as_json** (`response_serializer.dfy`). It builds
  the HAR response:
  - `status`, `statusText` and `httpVersion`; the version comes from the request.
  - `headers` from the response and `cookies` from the request, both
    filtered through a HarCollection.
  - `headersSize` is always -1.
  - `redirectURL` is the location, or "" when there is none.
  - `bodySize` and a `content` object whose size is the declared
    `content_length`.
  - A body whose content type contains `json` and that parses is filtered and printed again. Any other
    body is logged verbatim. With no body there is no `text` key and the
    size is 0.

Supporting modules:

- `ruby_hash.dfy`: Ruby's insertion-ordered Hash, as a sequence of entries.
- `json.dfy`: JSON documents, the codec boundary, and the body filter.
- `content_type.dfy`: which content types count as JSON.
- `status_codes.dfy`: the reason phrases.
- `wrappers.dfy`: `Option`.

The files `response_serializer_spec.dfy` and `har_collection_spec.dfy`
restate as a lemma over the model every RSpec example except the schema
check. Ruby's JSON library
is not part of this model. It enters as a `Codec` value holding a parse
function and a print function. Every property that depends on the codec
states what it assumes of it. The examples, for instance, assume that the
codec prints their compact bodies back exactly.

The example at `response_serializer_spec.rb:67` expects exactly
`{"keep":"keep"}`, so a rejected member of a JSON body is removed, just
as rejected headers and cookies are.

## Model

| member | source | states |
|---|---|---|
| Filters.For | packages/ruby/spec/readme/har/response_serializer_spec.rb:28 | `Filter.for(reject: keys)` rejects exactly the listed keys; with no keys it rejects nothing |
| Filters.Apply | packages/ruby/spec/readme/har/response_serializer_spec.rb:28-47 | `filter.filter(hash)` never returns more entries than it was given; which entries survive is stated by the lemmas below |
| Filters.ApplyMembers | packages/ruby/spec/readme/har/response_serializer_spec.rb:17-47 | an entry is in the filtered hash if and only if it is in the input and its key is not rejected: rejected entries are removed, not masked |
| Filters.ApplyLookup | packages/ruby/spec/readme/har/response_serializer_spec.rb:28-47 | after filtering, a rejected key is absent and every other key maps to its original value |
| Filters.ApplyIsKeyRemoval | packages/ruby/spec/readme/har/response_serializer_spec.rb:67 | in the unordered map view, filtering equals removing the rejected key set from the map |
| Filters.ApplyAppend | packages/ruby/spec/readme/har/response_serializer_spec.rb:28 | filtering acts entry by entry, so the surviving entries keep the hash's order; no example pins this order, because `match_array` at :35 and :43 ignores it |
| Filters.ApplyKeepsUniqueKeys | packages/ruby/spec/readme/har/response_serializer_spec.rb:17-20 | a filtered hash is still a valid hash (no key twice) |
| Filters.EmptyFilterIsIdentity | packages/ruby/spec/readme/har/response_serializer_spec.rb:82-86 | `Filter.for` with no arguments returns the hash unchanged |
| Filters.ApplyIdempotent | packages/ruby/spec/readme/har/response_serializer_spec.rb:25-30 | filtering an already filtered hash changes nothing |
| HarCollections.ToH | packages/ruby/spec/readme/har_collection_spec.rb:6-11 | `to_h` is exactly the injected filter's output for the wrapped hash; the collection adds or drops nothing itself |
| HarCollections.ToA | packages/ruby/spec/readme/har_collection_spec.rb:15-21 | `to_a` has one element per entry of `to_h`, at the same position, with the key as name and the filtered value as value |
| HarCollections.Pairs | packages/ruby/spec/readme/har_collection_spec.rb:21 | the `{name, value}` projection keeps length, order, keys and values |
| HarCollections.Unpairs | packages/ruby/spec/readme/har_collection_spec.rb:21 | reading a pair array back as a hash keeps length, order, names and values |
| HarCollections.PairsRoundTrip | packages/ruby/spec/readme/har_collection_spec.rb:11-21 | reading `to_a` back as a hash gives exactly `to_h` |
| HarCollections.UnpairsRoundTrip | packages/ruby/spec/readme/har_collection_spec.rb:21 | every pair array is the projection of the hash it reads back as |
| HarCollections.ToAHasExactlyToHEntries | packages/ruby/spec/readme/har_collection_spec.rb:17-21 | a `{name, value}` pair is in `to_a` if and only if the entry is in `to_h`, so a key the filter dropped never appears |
| HarCollections.ToANamesAreToHKeys | packages/ruby/spec/readme/har_collection_spec.rb:11-21 | a name occurs in `to_a` if and only if it is a key of `to_h`, and then with `to_h`'s value |
| HarCollectionExamples.ToHAppliesFilter | packages/ruby/spec/readme/har_collection_spec.rb:6-11 | with the filter double, `to_h` is `{keep: "kept"}` |
| HarCollectionExamples.ToAAppliesFilter | packages/ruby/spec/readme/har_collection_spec.rb:15-21 | with the filter double, `to_a` is `[{name: :keep, value: "kept"}]`: the symbol key unchanged, the filtered value |
| Json.FilterJson | packages/ruby/spec/readme/har/response_serializer_spec.rb:53-67 | the body filter maps objects to objects and leaves every non-object document unchanged |
| Json.EmptyFilterKeepsJson | packages/ruby/spec/readme/har/response_serializer_spec.rb:116-131 | under `Filter.for` with no arguments the parsed body is unchanged |
| Json.FilteredObjectLookup | packages/ruby/spec/readme/har/response_serializer_spec.rb:57-67 | in a filtered object a rejected member is absent and every other member keeps its value |
| ContentType.IsJson | packages/ruby/spec/readme/har/response_serializer_spec.rb:107-114 | a content type is JSON if and only if it has the form text + `json` + text |
| ContentType.MediaTypesAreJson | packages/ruby/spec/readme/har/response_serializer_spec.rb:108-112 | the four plain JSON media types are JSON |
| ContentType.JsonSuffixIsJson | packages/ruby/spec/readme/har/response_serializer_spec.rb:113 | every content type ending in `+json`, the bare `+json` included, is treated as JSON |
| ContentType.ParametersKeepJson | packages/ruby/spec/readme/har/response_serializer_spec.rb:56 | a JSON type stays JSON with parameters after it, as in `application/json; charset=utf-8` |
| ContentType.NoJIsNotJson | packages/ruby/spec/readme/har/response_serializer_spec.rb:48-50 | a type with no letter `j` in it, such as the default `text/plain` at :149, is not JSON |
| StatusCodes.StatusText | packages/ruby/spec/readme/har/response_serializer_spec.rb:32-33 | the reason phrase is "OK" exactly for status 200 |
| ResponseSerializer.BodyText | packages/ruby/spec/readme/har/response_serializer_spec.rb:116-131 | no chunks read as "", one chunk reads as itself, and no chunk is longer than the whole text |
| ResponseSerializer.BodyTextAppend | packages/ruby/spec/readme/har/response_serializer_spec.rb:116-131 | the body text is its chunks concatenated in order: reading two runs of chunks gives their texts one after the other |
| ResponseSerializer.FilteredPairs | packages/ruby/spec/readme/har/response_serializer_spec.rb:35-47 | one `{name, value}` pair per surviving entry, in hash order; a pair is emitted if and only if the entry is in the hash and its key is not rejected |
| ResponseSerializer.FilteredPairsMembers | packages/ruby/spec/readme/har/response_serializer_spec.rb:35-47 | the pairs of the filtered projection are exactly the entries of the hash whose keys are not rejected |
| ResponseSerializer.LoggedText | packages/ruby/spec/readme/har/response_serializer_spec.rb:48-88 | a JSON-typed body that parses is logged as the printed filtered document; a body that fails to parse, or is not JSON-typed, is logged verbatim without error |
| ResponseSerializer.ContentOf | packages/ruby/spec/readme/har/response_serializer_spec.rb:91-105 | with no body, `content` is size 0, mimeType "", no text; with a body, size is the declared length, mimeType the declared type (or ""), and text is present |
| ResponseSerializer.AsJson | packages/ruby/spec/readme/har/response_serializer_spec.rb:32-50 | status is copied, statusText is the reason phrase, httpVersion comes from the request, headers come from the response and cookies from the request with rejected keys dropped and exactly one `{name, value}` pair per surviving entry, in hash order, headersSize is -1, redirectURL is the location or "", and bodySize equals content.size |
| ResponseSerializer.SizesAreDeclaredLength | packages/ruby/spec/readme/har/response_serializer_spec.rb:41-49 | with a body, bodySize and content.size are the declared content_length, whatever the filter and codec do to the text |
| ResponseSerializer.CookiesFromRequestHeadersFromResponse | packages/ruby/spec/readme/har/response_serializer_spec.rb:17-20 | the output cookies depend only on the request's cookies and the headers only on the response's headers |
| ResponseSerializer.JsonBodyLosesRejectedKeys | packages/ruby/spec/readme/har/response_serializer_spec.rb:53-68 | a JSON body that parses to an object is logged as a printed object with every rejected member removed and every other member kept |
| ResponseSerializer.UnfilteredJsonBodyIsUnchanged | packages/ruby/spec/readme/har/response_serializer_spec.rb:107-133 | under `Filter.for` with no arguments, a JSON body the codec reprints exactly is logged unchanged and the mimeType is echoed |
| ResponseSerializer.RawBodyPassesThrough | packages/ruby/spec/readme/har/response_serializer_spec.rb:72-88 | a body that does not parse, or whose type is not JSON, is logged verbatim |
| ResponseSerializerExamples.ListedTypesAreJson | packages/ruby/spec/readme/har/response_serializer_spec.rb:107-114 | each of the five listed types is treated as JSON |
| ResponseSerializerExamples.SerializesValuesFilteringCookiesAndHeaders | packages/ruby/spec/readme/har/response_serializer_spec.rb:16-51 | the example's whole response: 200, "OK", "HTTP/1.1", only X-Custom and cookie1 survive, -1, size 2, "", text "OK" |
| ResponseSerializerExamples.FiltersJsonBodies | packages/ruby/spec/readme/har/response_serializer_spec.rb:53-70 | the JSON example is logged as `{"keep":"keep"}` with the declared size 2 and type application/json |
| ResponseSerializerExamples.PassesThroughInvalidJson | packages/ruby/spec/readme/har/response_serializer_spec.rb:72-89 | "NOT JSON" under application/json is logged verbatim |
| ResponseSerializerExamples.HandlesResponsesWithoutBody | packages/ruby/spec/readme/har/response_serializer_spec.rb:91-105 | no body means no text key, size 0 although the declared length is 2, and mimeType "" |
| ResponseSerializerExamples.HandlesMultipleJsonMimeTypes | packages/ruby/spec/readme/har/response_serializer_spec.rb:107-134 | for each of the five JSON types the compact body comes back unchanged and the type is echoed |

## Left out

- The schema check of the output (`match_json_schema`, response_serializer_spec.rb:13): it is an external validator.
- Ruby's JSON parser and printer: these are library calls. They are a `Codec` parameter. Each property that depends on them assumes only the parse results and printed strings it names.
- StatusCodes.StatusText: the full reason-phrase table is external. The model lists a selection of common reason phrases and gives "" for any other code. Only 200 -> "OK" is pinned.
- Reading the body from a `StringIO` or a chunk array as a stream. The body is its list of chunks, already read. An empty chunk list counts as a present, empty body; no example pins that case.
- Json.FilterJson: no example exercises nested objects or arrays, so only the top level is filtered. Nested objects and non-object documents pass through unchanged.
- ContentType.IsJson: beyond the five types the examples name as JSON, the rule is a choice. Only `application/json` is observed being filtered, at response_serializer_spec.rb:53-69. No example observes `text/plain`, because its body "OK" does not parse. The model accepts any type containing `json`, so `application/json; charset=utf-8` is JSON. A type such as `application/jsonp` is JSON too, and no example pins it either way.
- ResponseSerializer.AsJson: with no body, bodySize is 0 so that it matches content.size. The examples pin only content.size == 0 in that case.
- RSpec's `match_array` ignores order. The model fixes the order: headers and cookies follow the hash's insertion order.
- Filters.Apply compares keys exactly, on string keys only. Symbol keys reach a HarCollection only through an injected filter, as in the har_collection examples.
