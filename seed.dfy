/**
 * The seed script: upsert the demo clinic by name, then upsert its staff
 * user by email, both with an empty `update`.
 */
module Seed {
  import opened Queries
  import opened Schema
  import opened Persistence

  const ClinicName := "CareConnect Mobile"
  const StaffEmail := "andres@careconnect.care"

  /** The database after seeding, and the two rows the upserts returned. */
  datatype Seeded = Seeded(store: Store, clinic: Clinic, staff: User)

  /**
   * What the seed script does to a database. `clinicId` and `userId` are the
   * ids the database would give newly created rows.
   */
  function SeedStore(s: Store, clinicId: string, userId: string): (r: Seeded)
    ensures r.clinic.name == ClinicName && r.staff.email == StaffEmail
    ensures r.store.uploads == s.uploads
    ensures Has(s.clinics, ClinicNameKey, ClinicName) ==>
              r.store.clinics == s.clinics && r.clinic in s.clinics
    ensures !Has(s.clinics, ClinicNameKey, ClinicName) ==>
              r.clinic == Clinic(clinicId, ClinicName) && r.store.clinics == s.clinics + [r.clinic]
    ensures Has(s.users, EmailKey, StaffEmail) ==>
              r.store.users == s.users && r.staff in s.users
    ensures !Has(s.users, EmailKey, StaffEmail) ==>
              r.staff == User(userId, StaffEmail, r.clinic.id, Staff) && r.store.users == s.users + [r.staff]
  {
    var c := UpsertClinicByName(s, ClinicName, clinicId);
    var u := UpsertUserByEmail(c.store, StaffEmail, userId, c.row.id, Staff);
    Seeded(u.store, c.row, u.row)
  }

  /** main() of the seed script, run against the database. */
  method SeedDatabase(db: Database, clinicId: string, userId: string) returns (clinic: Clinic, staff: User)
    modifies db
    ensures SeedStore(old(db.State()), clinicId, userId) == Seeded(db.State(), clinic, staff)
  {
    clinic := db.UpsertClinic(ClinicName, clinicId);
    staff := db.UpsertUser(StaffEmail, userId, clinic.id, Staff);
  }

  /** Seeding keeps the schema's constraints when the generated ids are new. */
  lemma SeedKeepsValid(s: Store, clinicId: string, userId: string)
    requires Valid(s) && !Has(s.clinics, ClinicKey, clinicId) && !Has(s.users, UserKey, userId)
    ensures Valid(SeedStore(s, clinicId, userId).store)
  {
    var c := UpsertClinicByName(s, ClinicName, clinicId);
    UpsertClinicKeepsValid(s, ClinicName, clinicId);
    var k :| 0 <= k < |c.store.clinics| && c.store.clinics[k] == c.row;
    assert Has(c.store.clinics, ClinicKey, c.row.id) by {
      assert ClinicKey(c.store.clinics[k]) == c.row.id;
    }
    UpsertUserKeepsValid(c.store, StaffEmail, userId, c.row.id, Staff);
  }

  /** Seeding keeps every upload's uploader a STAFF member of its clinic. */
  lemma SeedKeepsTenancy(s: Store, clinicId: string, userId: string)
    requires TenantConsistent(s)
    ensures TenantConsistent(SeedStore(s, clinicId, userId).store)
  {
  }

  /**
   * Running the seed a second time changes nothing and returns the same
   * clinic and staff user, whatever ids the second run would have used.
   */
  lemma SeedIdempotent(s: Store, clinicId: string, userId: string, clinicId2: string, userId2: string)
    ensures var once := SeedStore(s, clinicId, userId);
            SeedStore(once.store, clinicId2, userId2) == once
  {
    var once := SeedStore(s, clinicId, userId);
    FindByAppend(s.clinics, once.clinic, ClinicNameKey, ClinicName);
    FindByAppend(s.users, once.staff, EmailKey, StaffEmail);
    HasAppend(s.clinics, once.clinic, ClinicNameKey, ClinicName);
    HasAppend(s.users, once.staff, EmailKey, StaffEmail);
  }

  /**
   * After seeding there is exactly one clinic with the demo name and exactly
   * one user with the staff email, and they are the rows the script returned.
   */
  lemma SeedLeavesOneClinicAndOneStaff(s: Store, clinicId: string, userId: string)
    requires Valid(s) && !Has(s.clinics, ClinicKey, clinicId) && !Has(s.users, UserKey, userId)
    ensures var r := SeedStore(s, clinicId, userId);
            && r.clinic in r.store.clinics
            && (forall i :: 0 <= i < |r.store.clinics| && r.store.clinics[i].name == ClinicName ==>
                  r.store.clinics[i] == r.clinic)
            && r.staff in r.store.users
            && (forall i :: 0 <= i < |r.store.users| && r.store.users[i].email == StaffEmail ==>
                  r.store.users[i] == r.staff)
  {
    var r := SeedStore(s, clinicId, userId);
    SeedKeepsValid(s, clinicId, userId);
    assert r.clinic in r.store.clinics;
    OnlyRowWithKey(r.store.clinics, ClinicNameKey, r.clinic);
    assert r.staff in r.store.users;
    OnlyRowWithKey(r.store.users, EmailKey, r.staff);
  }
}
