/** `ResourceNotFoundException`: the catalogue's "not found" error and the
    message its three-argument constructor formats. */
module CatalogExceptions {
  import opened JavaStrings

  const NotFoundSuffix := "' nie został znaleziony"

  /** The head of the message, up to the opening quote of the value. */
  function NotFoundHead(resourceName: string, fieldName: string): string
  {
    resourceName + " o " + fieldName + ": '"
  }

  /** `String.format("%s o %s: '%s' nie został znaleziony", ...)`. */
  function NotFoundMessage(resourceName: string, fieldName: string, fieldValue: string): (m: string)
    ensures StartsWith(m, NotFoundHead(resourceName, fieldName))
    ensures EndsWith(m, NotFoundSuffix)
    ensures |m| == |NotFoundHead(resourceName, fieldName)| + |fieldValue| + |NotFoundSuffix|
  {
    NotFoundHead(resourceName, fieldName) + fieldValue + NotFoundSuffix
  }

  /** The value sits between the head and the suffix, unescaped, so the
      message names it exactly; two messages for the same resource and
      field are equal only when their values are. */
  lemma NotFoundMessageNamesValue(resourceName: string, fieldName: string, fieldValue: string, otherValue: string)
    ensures var head := NotFoundHead(resourceName, fieldName);
      var m := NotFoundMessage(resourceName, fieldName, fieldValue);
      m[|head|..|m| - |NotFoundSuffix|] == fieldValue
    ensures NotFoundMessage(resourceName, fieldName, fieldValue) == NotFoundMessage(resourceName, fieldName, otherValue)
      <==> fieldValue == otherValue
  {
    var head := NotFoundHead(resourceName, fieldName);
    var m := NotFoundMessage(resourceName, fieldName, fieldValue);
    assert m[|head|..|m| - |NotFoundSuffix|] == fieldValue;
    var n := NotFoundMessage(resourceName, fieldName, otherValue);
    if m == n {
      assert n[|head|..|n| - |NotFoundSuffix|] == otherValue;
    }
  }
}
