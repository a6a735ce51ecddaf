/**
 * The database client: the tables as mutable state, with the two keyed
 * upserts and the insert that the handlers and the seed script issue.
 */
module Persistence {
  import opened Queries
  import opened Schema

  /** The outcome of an upsert: the new database and the row it returns. */
  datatype Upserted<T> = Upserted(store: Store, row: T)

  /**
   * `clinic.upsert` keyed by name with an empty `update`: an existing clinic
   * is returned as it is, otherwise a clinic with that name is created.
   */
  function UpsertClinicByName(s: Store, name: string, newId: string): (u: Upserted<Clinic>)
    ensures u.row.name == name
    ensures Has(s.clinics, ClinicNameKey, name) ==> u.store == s && u.row in s.clinics
    ensures !Has(s.clinics, ClinicNameKey, name) ==>
              u.row == Clinic(newId, name) && u.store == s.(clinics := s.clinics + [u.row])
  {
    match FindBy(s.clinics, ClinicNameKey, name)
    case Some(c) => Upserted(s, c)
    case None =>
      var c := Clinic(newId, name);
      Upserted(s.(clinics := s.clinics + [c]), c)
  }

  /**
   * `user.upsert` keyed by email with an empty `update`: an existing user is
   * returned as it is (clinic and role untouched), otherwise a user is
   * created from the given fields.
   */
  function UpsertUserByEmail(s: Store, email: string, newId: string, clinicId: string, role: string): (u: Upserted<User>)
    ensures u.row.email == email
    ensures Has(s.users, EmailKey, email) ==> u.store == s && u.row in s.users
    ensures !Has(s.users, EmailKey, email) ==>
              u.row == User(newId, email, clinicId, role) && u.store == s.(users := s.users + [u.row])
  {
    match FindBy(s.users, EmailKey, email)
    case Some(v) => Upserted(s, v)
    case None =>
      var v := User(newId, email, clinicId, role);
      Upserted(s.(users := s.users + [v]), v)
  }

  /** The clinic upsert keeps the schema's constraints when the generated id is new. */
  lemma UpsertClinicKeepsValid(s: Store, name: string, newId: string)
    requires Valid(s) && !Has(s.clinics, ClinicKey, newId)
    ensures Valid(UpsertClinicByName(s, name, newId).store)
  {
    var u := UpsertClinicByName(s, name, newId);
    if !Has(s.clinics, ClinicNameKey, name) {
      UniqueByAppend(s.clinics, u.row, ClinicKey);
      UniqueByAppend(s.clinics, u.row, ClinicNameKey);
      forall k | Has(s.clinics, ClinicKey, k) ensures Has(u.store.clinics, ClinicKey, k) {
        HasAppend(s.clinics, u.row, ClinicKey, k);
      }
    }
  }

  /**
   * The user upsert keeps the schema's constraints when the generated id is
   * new and the clinic it would attach a new user to exists.
   */
  lemma UpsertUserKeepsValid(s: Store, email: string, newId: string, clinicId: string, role: string)
    requires Valid(s) && !Has(s.users, UserKey, newId) && Has(s.clinics, ClinicKey, clinicId)
    ensures Valid(UpsertUserByEmail(s, email, newId, clinicId, role).store)
  {
    var u := UpsertUserByEmail(s, email, newId, clinicId, role);
    if !Has(s.users, EmailKey, email) {
      UniqueByAppend(s.users, u.row, UserKey);
      UniqueByAppend(s.users, u.row, EmailKey);
      forall k | Has(s.users, UserKey, k) ensures Has(u.store.users, UserKey, k) {
        HasAppend(s.users, u.row, UserKey, k);
      }
    }
  }

  /** The database as the handlers see it: three tables updated in place. */
  class Database {
    var clinics: seq<Clinic>
    var users: seq<User>
    var uploads: seq<Upload>

    function State(): Store
      reads this
    {
      Store(clinics, users, uploads)
    }

    /** `prisma.clinic.upsert({ where: { name }, update: {}, create: { name } })`. */
    method UpsertClinic(name: string, newId: string) returns (c: Clinic)
      modifies this
      ensures State() == UpsertClinicByName(old(State()), name, newId).store
      ensures c == UpsertClinicByName(old(State()), name, newId).row
    {
      match FindBy(clinics, ClinicNameKey, name) {
        case Some(existing) =>
          c := existing;
        case None =>
          c := Clinic(newId, name);
          clinics := clinics + [c];
      }
    }

    /** `prisma.user.upsert({ where: { email }, update: {}, create: { clinicId, email, role } })`. */
    method UpsertUser(email: string, newId: string, clinicId: string, role: string) returns (v: User)
      modifies this
      ensures State() == UpsertUserByEmail(old(State()), email, newId, clinicId, role).store
      ensures v == UpsertUserByEmail(old(State()), email, newId, clinicId, role).row
    {
      match FindBy(users, EmailKey, email) {
        case Some(existing) =>
          v := existing;
        case None =>
          v := User(newId, email, clinicId, role);
          users := users + [v];
      }
    }

    /** `prisma.upload.create`: one new row at the end of the Upload table. */
    method InsertUpload(row: Upload)
      modifies this
      ensures uploads == old(uploads) + [row]
      ensures clinics == old(clinics) && users == old(users)
    {
      uploads := uploads + [row];
    }
  }
}
