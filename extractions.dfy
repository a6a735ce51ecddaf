/**
 * POST /uploads/:uploadId/extractions: ordered lookups and checks that only
 * read the database. When every check passes no response is sent.
 */
module Extractions {
  import opened Wrappers
  import opened Queries
  import opened Schema
  import opened Http

  /** The field names the 400 response lists, in the order it lists them. */
  const RequiredFields := ["clinicId", "userId", "uploadId"]

  // The checks, each one including the ones before it.

  predicate FieldsPresent(uploadId: Field, clinicId: Field, userId: Field)
  {
    Present(clinicId) && Present(userId) && Present(uploadId)
  }

  ghost predicate UploadFound(s: Store, uploadId: Field, clinicId: Field, userId: Field)
  {
    FieldsPresent(uploadId, clinicId, userId) && Has(s.uploads, UploadKey, uploadId.value)
  }

  ghost predicate UploadInClinic(s: Store, uploadId: Field, clinicId: Field, userId: Field)
  {
    UploadFound(s, uploadId, clinicId, userId) &&
    FindBy(s.uploads, UploadKey, uploadId.value).value.clinicId == clinicId.value
  }

  /** The tenant-scoped lookup: a user with this id AND this clinic. */
  ghost predicate UserFoundInClinic(s: Store, uploadId: Field, clinicId: Field, userId: Field)
  {
    UploadInClinic(s, uploadId, clinicId, userId) &&
    Has(s.users, UserInClinicKey, (userId.value, clinicId.value))
  }

  ghost predicate UserIsStaff(s: Store, uploadId: Field, clinicId: Field, userId: Field)
  {
    UserFoundInClinic(s, uploadId, clinicId, userId) &&
    FindBy(s.users, UserInClinicKey, (userId.value, clinicId.value)).value.role == Staff
  }

  /**
   * startExtraction. It returns only a response, never a new database: no
   * path writes. The first failing check decides the response, and when all
   * of them pass the handler sends nothing.
   */
  function StartExtraction(s: Store, uploadId: Field, clinicId: Field, userId: Field): (r: Response)
    ensures !FieldsPresent(uploadId, clinicId, userId) <==>
              r == Respond(400, MissingFields("Missing Fields", RequiredFields))
    ensures FieldsPresent(uploadId, clinicId, userId) ==>
              (!UploadFound(s, uploadId, clinicId, userId) <==> r == Respond(404, Error("Upload not found")))
    ensures UploadFound(s, uploadId, clinicId, userId) ==>
              (!UploadInClinic(s, uploadId, clinicId, userId) <==>
               r == Respond(403, Error("Upload does not belong to clinic")))
    ensures UploadInClinic(s, uploadId, clinicId, userId) ==>
              (!UserFoundInClinic(s, uploadId, clinicId, userId) <==> r == Respond(404, Error("User not found")))
    ensures UserFoundInClinic(s, uploadId, clinicId, userId) ==>
              (!UserIsStaff(s, uploadId, clinicId, userId) <==> r == Respond(403, Error("User not authorized")))
    ensures r == NoResponse <==> UserIsStaff(s, uploadId, clinicId, userId)
  {
    if !FieldsPresent(uploadId, clinicId, userId) then
      Respond(400, MissingFields("Missing Fields", RequiredFields))
    else
      match FindBy(s.uploads, UploadKey, uploadId.value)
      case None => Respond(404, Error("Upload not found"))
      case Some(upload) =>
        if upload.clinicId != clinicId.value then
          Respond(403, Error("Upload does not belong to clinic"))
        else
          match FindBy(s.users, UserInClinicKey, (userId.value, clinicId.value))
          case None => Respond(404, Error("User not found"))
          case Some(user) =>
            if user.role != Staff then Respond(403, Error("User not authorized"))
            else NoResponse
  }

  /**
   * A user who exists but belongs to another clinic is "not found" (404) to
   * startExtraction, whose lookup is scoped to the clinic; createUpload, which
   * looks the user up by id alone, answers 403 for the same user
   * (the lemma OtherClinicUserIsForbidden of createUpload).
   */
  lemma OtherClinicUserIsNotFound(s: Store, upload: Upload, user: User)
    requires Valid(s)
    requires upload in s.uploads && user in s.users
    requires upload.id != "" && upload.clinicId != "" && user.id != ""
    requires user.clinicId != upload.clinicId
    ensures StartExtraction(s, Some(upload.id), Some(upload.clinicId), Some(user.id)) ==
              Respond(404, Error("User not found"))
  {
    var p :| 0 <= p < |s.uploads| && s.uploads[p] == upload;
    FindByUnique(s.uploads, UploadKey, p);
    var q :| 0 <= q < |s.users| && s.users[q] == user;
    forall i | 0 <= i < |s.users| ensures UserInClinicKey(s.users[i]) != (user.id, upload.clinicId) {
      if i != q {
        assert UserKey(s.users[i]) != UserKey(s.users[q]);
      }
    }
    assert !Has(s.users, UserInClinicKey, (user.id, upload.clinicId));
  }
}
