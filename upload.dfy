/** The upload middleware for profile photos: where files go, what they are called, and
    which MIME types are let through. The post-image middleware applies the same filter. */
module Upload {
  import opened Wrappers
  import JsText

  /** The MIME types both upload middlewares accept. */
  const AllowedTypes: seq<string> := ["image/jpeg", "image/png", "image/jpg"]

  const RejectMessage := "Invalid file type. Only JPEG, PNG, and JPG are allowed."

  /** What a file filter hands its callback: accept the file, or an error. */
  datatype Verdict = Accept | Reject(message: string)

  /** `fileFilter`: membership of the declared MIME type in the allowed list. */
  function FileFilter(mimetype: string): (v: Verdict)
    ensures v.Accept? <==> mimetype == "image/jpeg" || mimetype == "image/png" || mimetype == "image/jpg"
    ensures v.Reject? ==> v.message == RejectMessage
  {
    if mimetype in AllowedTypes then Accept else Reject(RejectMessage)
  }

  /** Directory profile photos are written to. */
  const ProfileDestination := "photo_user"

  /** `filename` for a profile photo: `<_id>.jpg` from the `_id` body field, or
      `unknown.jpg` when it is missing; the original name plays no part. */
  function ProfileFilename(bodyId: Option<string>): string {
    JsText.OrElse(bodyId, "unknown") + ".jpg"
  }

  /** The name always ends in `.jpg`, is `unknown.jpg` without an `_id`, and otherwise
      begins with the `_id` itself. */
  lemma ProfileFilenameShape(bodyId: Option<string>)
    ensures var name := ProfileFilename(bodyId);
      && |name| >= 4 && name[|name| - 4..] == ".jpg"
      && (!JsText.Truthy(bodyId) ==> name == "unknown.jpg")
      && (JsText.Truthy(bodyId) ==> name[..|name| - 4] == bodyId.value)
  {
  }

  /** Two uploads get the same name exactly when they carry the same `_id` (a missing
      `_id` counting as `unknown`): a user's new photo replaces the old file. */
  lemma ProfileFilenameDeterminedById(a: Option<string>, b: Option<string>)
    ensures ProfileFilename(a) == ProfileFilename(b) <==> JsText.OrElse(a, "unknown") == JsText.OrElse(b, "unknown")
  {
    var x, y := JsText.OrElse(a, "unknown"), JsText.OrElse(b, "unknown");
    if ProfileFilename(a) == ProfileFilename(b) {
      assert x == ProfileFilename(a)[..|x|];
      assert y == ProfileFilename(b)[..|y|];
    }
  }
}
