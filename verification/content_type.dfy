/**
 * Which declared content types make the serializer treat a body as JSON:
 * any type with `json` somewhere in it. That covers the four plain JSON
 * media types, types with parameters such as
 * `application/json; charset=utf-8`, and vendor types with a `+json`
 * structured-syntax suffix (section 4.2.8 of RFC 6838).
 */
module ContentType {

  const JsonMediaTypes: set<string> := {"application/json", "application/x-json", "text/json", "text/x-json"}

  /** `p` occurs in `s` starting at index `i`. */
  predicate OccursAt(s: string, p: string, i: int) {
    0 <= i && i + |p| <= |s| && s[i..i + |p|] == p
  }

  /** Finding `p` at some index is the same as `s` splitting around `p`. */
  lemma OccursIffSplit(s: string, p: string)
    ensures (exists i | 0 <= i <= |s| - |p| :: OccursAt(s, p, i)) <==> exists pre, post :: s == pre + p + post
  {
    if exists i | 0 <= i <= |s| - |p| :: OccursAt(s, p, i) {
      var i :| 0 <= i <= |s| - |p| && OccursAt(s, p, i);
      assert s == s[..i] + p + s[i + |p|..];
    }
    if exists pre, post :: s == pre + p + post {
      var pre, post :| s == pre + p + post;
      assert s[|pre|..|pre| + |p|] == p;
      assert OccursAt(s, p, |pre|);
    }
  }

  /** The body of a response with content type `ct` is parsed as JSON: `ct` is some text, `json`, some text. */
  predicate IsJson(ct: string): (b: bool)
    ensures b <==> exists pre, post :: ct == pre + "json" + post
  {
    OccursIffSplit(ct, "json");
    exists i | 0 <= i <= |ct| - 4 :: OccursAt(ct, "json", i)
  }

  /** The four plain JSON media types are JSON. */
  lemma MediaTypesAreJson()
    ensures forall ct :: ct in JsonMediaTypes ==> IsJson(ct)
  {
    assert "application/json" == "application/" + "json" + "";
    assert "application/x-json" == "application/x-" + "json" + "";
    assert "text/json" == "text/" + "json" + "";
    assert "text/x-json" == "text/x-" + "json" + "";
  }

  /** Every vendor type ending in `+json` is treated as JSON. */
  lemma JsonSuffixIsJson(prefix: string)
    ensures IsJson(prefix + "+json")
  {
    assert prefix + "+json" == (prefix + "+") + "json" + "";
  }

  /** A media type keeps being JSON when parameters follow it. */
  lemma ParametersKeepJson(ct: string, params: string)
    requires IsJson(ct)
    ensures IsJson(ct + params)
  {
    var pre, post :| ct == pre + "json" + post;
    assert ct + params == pre + "json" + (post + params);
  }

  /** A type without the letter `j` is not JSON. */
  lemma NoJIsNotJson(ct: string)
    requires forall i :: 0 <= i < |ct| ==> ct[i] != 'j'
    ensures !IsJson(ct)
  {
    if exists pre, post :: ct == pre + "json" + post {
      var pre, post :| ct == pre + "json" + post;
      assert ct[|pre|] == 'j';
    }
  }
}
