/**
 * The three tables of the clinic intake database (Clinic, User, Upload) and
 * the constraints the database keeps on them.
 */
module Schema {
  import opened Queries

  datatype Clinic = Clinic(id: string, name: string)

  datatype User = User(id: string, email: string, clinicId: string, role: string)

  /** `createdAt` is the database's creation timestamp, in epoch milliseconds. */
  datatype Upload = Upload(
    id: string,
    clinicId: string,
    uploadedByUserId: string,
    originalFilename: string,
    mimeType: string,
    storageKey: string,
    status: string,
    createdAt: int)

  /** The whole database: every table in row order. */
  datatype Store = Store(clinics: seq<Clinic>, users: seq<User>, uploads: seq<Upload>)

  /** The only role the handlers authorise. */
  const Staff := "STAFF"

  /** The status every new upload starts in. */
  const Received := "RECEIVED"

  // Key columns, as values so that lookups and unique constraints share them.
  function ClinicKey(c: Clinic): string { c.id }
  function ClinicNameKey(c: Clinic): string { c.name }
  function UserKey(u: User): string { u.id }
  function EmailKey(u: User): string { u.email }
  function UserInClinicKey(u: User): (string, string) { (u.id, u.clinicId) }
  function UploadKey(up: Upload): string { up.id }

  /**
   * The schema's constraints: unique ids, unique clinic names and user
   * emails, and every foreign key (a user's clinic, an upload's clinic and
   * uploader) referring to an existing row.
   */
  ghost predicate Valid(s: Store)
  {
    && UniqueBy(s.clinics, ClinicKey)
    && UniqueBy(s.clinics, ClinicNameKey)
    && UniqueBy(s.users, UserKey)
    && UniqueBy(s.users, EmailKey)
    && UniqueBy(s.uploads, UploadKey)
    && (forall u :: u in s.users ==> Has(s.clinics, ClinicKey, u.clinicId))
    && (forall up :: up in s.uploads ==>
          Has(s.clinics, ClinicKey, up.clinicId) && Has(s.users, UserKey, up.uploadedByUserId))
  }

  /**
   * The tenancy rule: every upload was submitted by a STAFF user of the
   * upload's own clinic.
   */
  ghost predicate TenantConsistent(s: Store)
  {
    forall up :: up in s.uploads ==>
      exists u :: u in s.users && u.id == up.uploadedByUserId &&
                  u.clinicId == up.clinicId && u.role == Staff
  }
}
