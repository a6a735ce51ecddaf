/**
 * POST /uploads: six ordered checks over the request and the database, then
 * a single insert of the new upload record.
 */
module Uploads {
  import opened Wrappers
  import opened Queries
  import opened Schema
  import opened Http
  import opened StorageKeys
  import opened Persistence

  /** The field names the 400 response lists, in the order it lists them. */
  const RequiredFields := ["clinicId", "uploadedByUserId", "originalFilename", "mimeType"]

  /** The accepted MIME types, compared exactly (case-sensitive). */
  const AllowedMimeTypes := ["application/pdf", "image/png", "image/jpeg"]

  datatype UploadRequest = UploadRequest(
    clinicId: Field,
    uploadedByUserId: Field,
    originalFilename: Field,
    mimeType: Field)

  /** The checks either reject with a response or let the insert happen. */
  datatype Verdict = Reject(response: Response) | Accept

  // The checks, each one including the ones before it.

  predicate FieldsPresent(req: UploadRequest)
  {
    Present(req.clinicId) && Present(req.uploadedByUserId) &&
    Present(req.originalFilename) && Present(req.mimeType)
  }

  predicate MimeAllowed(req: UploadRequest)
  {
    FieldsPresent(req) && req.mimeType.value in AllowedMimeTypes
  }

  ghost predicate ClinicFound(s: Store, req: UploadRequest)
  {
    MimeAllowed(req) && Has(s.clinics, ClinicKey, req.clinicId.value)
  }

  ghost predicate UploaderFound(s: Store, req: UploadRequest)
  {
    ClinicFound(s, req) && Has(s.users, UserKey, req.uploadedByUserId.value)
  }

  ghost predicate UploaderInClinic(s: Store, req: UploadRequest)
  {
    UploaderFound(s, req) &&
    FindBy(s.users, UserKey, req.uploadedByUserId.value).value.clinicId == req.clinicId.value
  }

  ghost predicate UploaderIsStaff(s: Store, req: UploadRequest)
  {
    UploaderInClinic(s, req) &&
    FindBy(s.users, UserKey, req.uploadedByUserId.value).value.role == Staff
  }

  /**
   * The validation chain of createUpload: the first check that fails decides
   * the response, and the request is accepted exactly when all six pass.
   */
  function ValidateUpload(s: Store, req: UploadRequest): (v: Verdict)
    ensures !FieldsPresent(req) <==>
              v == Reject(Respond(400, MissingFields("Missing Fields", RequiredFields)))
    ensures FieldsPresent(req) ==>
              (!MimeAllowed(req) <==>
               v == Reject(Respond(400, InvalidMimeType("Invalid mimeType", AllowedMimeTypes, req.mimeType.value))))
    ensures MimeAllowed(req) ==>
              (!ClinicFound(s, req) <==> v == Reject(Respond(404, Error("Clinic not found"))))
    ensures ClinicFound(s, req) ==>
              (!UploaderFound(s, req) <==> v == Reject(Respond(404, Error("User not found"))))
    ensures UploaderFound(s, req) ==>
              (!UploaderInClinic(s, req) <==>
               v == Reject(Respond(403, Error("User does not belong to this clinic"))))
    ensures UploaderInClinic(s, req) ==>
              (!UploaderIsStaff(s, req) <==>
               v == Reject(Respond(403, Error("Only staff can upload intake forms"))))
    ensures v == Accept <==> UploaderIsStaff(s, req)
  {
    if !FieldsPresent(req) then
      Reject(Respond(400, MissingFields("Missing Fields", RequiredFields)))
    else if req.mimeType.value !in AllowedMimeTypes then
      Reject(Respond(400, InvalidMimeType("Invalid mimeType", AllowedMimeTypes, req.mimeType.value)))
    else if FindBy(s.clinics, ClinicKey, req.clinicId.value).None? then
      Reject(Respond(404, Error("Clinic not found")))
    else
      match FindBy(s.users, UserKey, req.uploadedByUserId.value)
      case None => Reject(Respond(404, Error("User not found")))
      case Some(user) =>
        if user.clinicId != req.clinicId.value then
          Reject(Respond(403, Error("User does not belong to this clinic")))
        else if user.role != Staff then
          Reject(Respond(403, Error("Only staff can upload intake forms")))
        else
          Accept
  }

  /**
   * The record createUpload inserts for an accepted request: the request's
   * four fields, status RECEIVED, and a key from which the upload time and the
   * filename can be read back.
   */
  function NewUpload(req: UploadRequest, id: string, now: nat, createdAt: int): (row: Upload)
    requires FieldsPresent(req)
    ensures row.id == id && row.createdAt == createdAt && row.status == Received
    ensures row.clinicId == req.clinicId.value && row.uploadedByUserId == req.uploadedByUserId.value
    ensures row.originalFilename == req.originalFilename.value && row.mimeType == req.mimeType.value
    ensures row.storageKey == StorageKey(now, row.originalFilename)
    ensures ParseStorageKey(row.storageKey) == Some((now, row.originalFilename))
  {
    StorageKeyRoundTrip(now, req.originalFilename.value);
    Upload(id, req.clinicId.value, req.uploadedByUserId.value, req.originalFilename.value,
           req.mimeType.value, StorageKey(now, req.originalFilename.value), Received, createdAt)
  }

  /**
   * createUpload. `now` stands for `Date.now()`; `newId` and `createdAt` are
   * the id and timestamp the database assigns to the new row. A rejected
   * request writes nothing; an accepted one inserts exactly one RECEIVED
   * upload and answers 201 with it.
   */
  method CreateUpload(db: Database, req: UploadRequest, now: nat, newId: string, createdAt: int)
    returns (resp: Response)
    requires !Has(db.uploads, UploadKey, newId)
    modifies db
    ensures db.clinics == old(db.clinics) && db.users == old(db.users)
    ensures ValidateUpload(old(db.State()), req).Reject? ==>
              resp == ValidateUpload(old(db.State()), req).response && db.uploads == old(db.uploads)
    ensures ValidateUpload(old(db.State()), req).Accept? ==>
              db.uploads == old(db.uploads) + [NewUpload(req, newId, now, createdAt)] &&
              resp == Respond(201, CreatedUpload(NewUpload(req, newId, now, createdAt)))
    ensures Valid(old(db.State())) ==> Valid(db.State())
    ensures TenantConsistent(old(db.State())) ==> TenantConsistent(db.State())
  {
    ghost var before := db.State();
    var verdict := ValidateUpload(db.State(), req);
    if verdict.Reject? {
      return verdict.response;
    }
    var row := NewUpload(req, newId, now, createdAt);
    db.InsertUpload(row);
    resp := Respond(201, CreatedUpload(row));
    AcceptedInsertKeepsInvariants(before, req, row);
  }

  /**
   * Inserting the record of an accepted request keeps the schema's
   * constraints and the tenancy rule: the checks are exactly what makes its
   * foreign keys valid and its uploader a STAFF member of its clinic.
   */
  lemma AcceptedInsertKeepsInvariants(s: Store, req: UploadRequest, row: Upload)
    requires ValidateUpload(s, req) == Accept
    requires row.clinicId == req.clinicId.value && row.uploadedByUserId == req.uploadedByUserId.value
    requires !Has(s.uploads, UploadKey, row.id)
    ensures Valid(s) ==> Valid(s.(uploads := s.uploads + [row]))
    ensures TenantConsistent(s) ==> TenantConsistent(s.(uploads := s.uploads + [row]))
  {
    var user := FindBy(s.users, UserKey, req.uploadedByUserId.value).value;
    assert user in s.users;
    if Valid(s) {
      UniqueByAppend(s.uploads, row, UploadKey);
    }
  }

  /**
   * A user of another clinic is rejected with 403 before the role is
   * looked at, whatever that user's role is.
   */
  lemma OtherClinicUserIsForbidden(s: Store, req: UploadRequest, user: User)
    requires Valid(s) && MimeAllowed(req) && Has(s.clinics, ClinicKey, req.clinicId.value)
    requires user in s.users && user.id == req.uploadedByUserId.value
    requires user.clinicId != req.clinicId.value
    ensures ValidateUpload(s, req) == Reject(Respond(403, Error("User does not belong to this clinic")))
  {
    var q :| 0 <= q < |s.users| && s.users[q] == user;
    FindByUnique(s.users, UserKey, q);
  }
}
