/** Picking the SAML assertion out of the identity provider's response page. */
module AssertionExtractor {
  import opened Wrappers

  const SAML_RESPONSE := "SAMLResponse"

  /** An `<input>` tag of the page, in document order: its `name` and `value` attributes,
      each absent when the tag does not carry it. */
  datatype InputTag = InputTag(name: Option<string>, value: Option<string>)

  predicate IsSamlTag(tag: InputTag) {
    tag.name == Some(SAML_RESPONSE)
  }

  /** Every tag after position `k` has another name. */
  ghost predicate NoSamlTagAfter(tags: seq<InputTag>, k: int) {
    forall m :: 0 <= m < |tags| && k < m ==> !IsSamlTag(tags[m])
  }

  /** getAssertionFromResponse: the `value` of the last input tag named `SAMLResponse`
      (absent when that tag has no value attribute), or "" when no tag has that name. */
  method GetAssertionFromResponse(tags: seq<InputTag>) returns (assertion: Option<string>)
    ensures NoSamlTagAfter(tags, -1) ==> assertion == Some("")
    ensures forall k :: 0 <= k < |tags| && IsSamlTag(tags[k]) && NoSamlTagAfter(tags, k) ==>
              assertion == tags[k].value
  {
    assertion := Some("");
    var i := 0;
    while i < |tags|
      invariant 0 <= i <= |tags|
      invariant (forall m :: 0 <= m < i ==> !IsSamlTag(tags[m])) ==> assertion == Some("")
      invariant forall k ::
        (0 <= k < i && IsSamlTag(tags[k]) && (forall m :: k < m < i ==> !IsSamlTag(tags[m])))
        ==> assertion == tags[k].value
    {
      if tags[i].name == Some(SAML_RESPONSE) {
        assertion := tags[i].value;
      }
      i := i + 1;
    }
  }
}
