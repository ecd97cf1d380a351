/**
 * The key validation that processImage.ts:32-44 and processDelete.ts:25-37
 * both inline: decode the raw key, then require a "jpeg" or "png" suffix.
 */
module KeyCheck {
  import opened Wrappers
  import opened Events
  import ObjectKey
  import ImageType

  /** A decoded key that passed validation, or the error thrown on the way. */
  datatype Checked = Checked(key: string) | Refused(error: Outcome)

  /**
   * `decodeURIComponent(key.replace(/\+/g, " "))`, then the suffix and the
   * allow-list check, in that order: a key that does not decode throws
   * before its type is looked at.
   */
  function CheckKey(raw: string): (r: Checked)
    ensures r.Checked? <==>
      ObjectKey.DecodeKey(raw).Some? && ImageType.Classify(ObjectKey.DecodeKey(raw).value).Accept?
    ensures r.Checked? ==> ObjectKey.DecodeKey(raw) == Some(r.key)
    ensures r.Refused? ==> IsValidationError(r.error)
    ensures r == Refused(DecodeFailed) <==> ObjectKey.DecodeKey(raw).None?
    ensures r == Refused(NoExtension) <==>
      ObjectKey.DecodeKey(raw).Some? && '.' !in ObjectKey.DecodeKey(raw).value
  {
    match ObjectKey.DecodeKey(raw)
    case None => Refused(DecodeFailed)
    case Some(key) =>
      match ImageType.Classify(key)
      case Accept(_) => Checked(key)
      case NoExtension => Refused(NoExtension)
      case Unsupported(_) => Refused(UnsupportedType)
  }

  /** The decoded key a task would put or delete, when it passes validation. */
  function Target(t: Task): (k: Option<string>)
    ensures k.Some? <==> t.Handle? && CheckKey(t.record.key).Checked?
    ensures k.Some? ==> ObjectKey.DecodeKey(t.record.key) == k
  {
    if t.Handle? && CheckKey(t.record.key).Checked? then Some(CheckKey(t.record.key).key) else None
  }

  /**
   * S3 encodes an object's key before putting it in a notification; for
   * every key, validating the encoded form gives back the key itself when its
   * type is accepted, and the error its suffix calls for otherwise.
   */
  lemma CheckEncoded(k: string)
    ensures CheckKey(ObjectKey.EncodeKey(k)) ==
      match ImageType.Classify(k)
      case Accept(_) => Checked(k)
      case NoExtension => Refused(NoExtension)
      case Unsupported(_) => Refused(UnsupportedType)
  {
    ObjectKey.DecodeEncoded(k);
  }

  /** An accepted key keeps its suffix through validation: "A.PNG" passes as "A.PNG". */
  lemma UpperCaseKeyPasses(stem: string)
    requires '%' !in stem && '+' !in stem
    ensures CheckKey(stem + ".PNG") == Checked(stem + ".PNG")
  {
    var raw := stem + ".PNG";
    assert '%' !in raw && '+' !in raw by {
      assert forall j :: 0 <= j < |raw| ==> raw[j] == (if j < |stem| then stem[j] else ".PNG"[j - |stem|]);
    }
    ImageType.UpperCaseAccepted(stem);
  }
}
