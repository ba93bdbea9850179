/** The JSON content-type test shared (word for word) by both components. */
module MediaType {
  import Text

  /** `isJson`: the content type mentions `application/json` or a `+json` structured suffix. */
  function IsJson(contentType: string): (r: bool)
    ensures r <==> Text.Occurs("application/json", contentType) || Text.Occurs("+json", contentType)
  {
    Text.ContainsIffOccurs(contentType, "application/json");
    Text.ContainsIffOccurs(contentType, "+json");
    Text.Contains(contentType, "application/json") || Text.Contains(contentType, "+json")
  }

  /** The `content-type` entry of a header object, `''` when it is missing (`contentType || ''`). */
  function ContentTypeOf(headers: map<string, string>): (ct: string)
    ensures "content-type" !in headers ==> ct == ""
    ensures "content-type" in headers ==> ct == headers["content-type"]
  {
    if "content-type" in headers then headers["content-type"] else ""
  }

  /** A response without a content type is never taken for JSON. */
  lemma MissingContentTypeIsNotJson(headers: map<string, string>)
    requires "content-type" !in headers
    ensures !IsJson(ContentTypeOf(headers))
  {
    assert !Text.Occurs("+json", "");
    assert !Text.Occurs("application/json", "");
  }

  /** The media types a registry serves its documents with are recognised. */
  lemma RegistryTypesAreJson()
    ensures IsJson("application/json; charset=utf-8")
    ensures IsJson("application/vnd.npm.install-v1+json")
  {
    assert Text.OccursAt("application/json", "application/json; charset=utf-8", 0);
    assert Text.OccursAt("+json", "application/vnd.npm.install-v1+json", 30);
  }
}
