/** What a handler reads from a request and what it sends back. */
module Http {
  import opened Wrappers
  import opened Schema

  /**
   * A string field of the request body or path. JavaScript treats both an
   * absent field and the empty string as false, so both count as missing.
   */
  type Field = Option<string>

  predicate Present(f: Field)
  {
    f.Some? && f.value != ""
  }

  /** The `uploadedBy` projection of a listed upload. */
  datatype UserSummary = UserSummary(id: string, email: string, role: string)

  /** A listed upload: storage key, MIME type and clinic id are not exposed. */
  datatype UploadSummary = UploadSummary(
    id: string,
    originalFilename: string,
    status: string,
    createdAt: int,
    uploadedBy: UserSummary)

  /** A clinic with its users included. */
  datatype ClinicWithUsers = ClinicWithUsers(id: string, name: string, users: seq<User>)

  /** The JSON body of a response. */
  datatype Body =
    | Error(error: string)
    | MissingFields(error: string, required: seq<string>)
    | InvalidMimeType(error: string, allowed: seq<string>, received: string)
    | CreatedUpload(upload: Upload)
    | ClinicList(clinics: seq<ClinicWithUsers>)
    | UploadList(uploads: seq<UploadSummary>)

  /** A status code with a body, or nothing sent at all. */
  datatype Response = Respond(status: int, body: Body) | NoResponse
}
