/**
 * GET /clinics and GET /clinics/:clinicId/uploads: read-only listings.
 * Neither returns a new database, so neither writes.
 */
module Clinics {
  import opened Queries
  import opened Schema
  import opened Http

  /** A clinic with exactly its own users included. */
  function WithUsers(s: Store, c: Clinic): (r: ClinicWithUsers)
    ensures r.id == c.id && r.name == c.name
    ensures forall u :: multiset(r.users)[u] ==
              if u.clinicId == c.id then multiset(s.users)[u] else 0
  {
    ClinicWithUsers(c.id, c.name, Where(s.users, (u: User) => u.clinicId == c.id))
  }

  /**
   * listClinics: 200 with every clinic, in table order, each paired with
   * exactly the users whose clinic it is.
   */
  function ListClinics(s: Store): (r: Response)
    ensures r.Respond? && r.status == 200 && r.body.ClinicList?
    ensures |r.body.clinics| == |s.clinics|
    ensures forall i :: 0 <= i < |s.clinics| ==>
              var listed := r.body.clinics[i];
              listed.id == s.clinics[i].id && listed.name == s.clinics[i].name &&
              forall u :: multiset(listed.users)[u] ==
                if u.clinicId == s.clinics[i].id then multiset(s.users)[u] else 0
  {
    Respond(200, ClinicList(seq(|s.clinics|, i requires 0 <= i < |s.clinics| => WithUsers(s, s.clinics[i]))))
  }

  /** Newest first: `createdAt` never increases along the sequence. */
  ghost predicate NewestFirst(rows: seq<Upload>)
  {
    forall i, j :: 0 <= i < j < |rows| ==> rows[i].createdAt >= rows[j].createdAt
  }

  /** Places `x` in a newest-first sequence. */
  function InsertByCreatedAt(x: Upload, rows: seq<Upload>): (r: seq<Upload>)
    requires NewestFirst(rows)
    ensures NewestFirst(r)
    ensures multiset(r) == multiset(rows) + multiset{x}
    ensures r[0] == x || (rows != [] && r[0] == rows[0])
  {
    if rows == [] || x.createdAt >= rows[0].createdAt then
      assert forall k :: 0 <= k < |rows| ==> rows[0].createdAt >= rows[k].createdAt;
      [x] + rows
    else
      var rest := InsertByCreatedAt(x, rows[1..]);
      assert rows == [rows[0]] + rows[1..];
      NoneNewerAfterInsert(rows[0].createdAt, x, rows[1..], rest);
      [rows[0]] + rest
  }

  /** Inserting an upload no newer than `bound` among rows no newer than `bound`. */
  lemma NoneNewerAfterInsert(bound: int, x: Upload, rows: seq<Upload>, r: seq<Upload>)
    requires multiset(r) == multiset(rows) + multiset{x}
    requires x.createdAt <= bound
    requires forall k :: 0 <= k < |rows| ==> rows[k].createdAt <= bound
    ensures forall k :: 0 <= k < |r| ==> r[k].createdAt <= bound
  {
    forall k | 0 <= k < |r| ensures r[k].createdAt <= bound {
      assert r[k] in multiset(rows) + multiset{x};
      if r[k] != x {
        assert r[k] in rows;
      }
    }
  }

  /**
   * `orderBy: { createdAt: 'desc' }`. The database leaves the order of equal
   * timestamps open; this sort is one admissible order.
   */
  function SortNewestFirst(rows: seq<Upload>): (r: seq<Upload>)
    ensures NewestFirst(r)
    ensures multiset(r) == multiset(rows)
  {
    if rows == [] then []
    else
      assert rows == [rows[0]] + rows[1..];
      InsertByCreatedAt(rows[0], SortNewestFirst(rows[1..]))
  }

  /** `shown` is the id, email and role of a user of the table with id `userId`. */
  ghost predicate ShowsUser(s: Store, userId: string, shown: UserSummary)
  {
    exists u :: u in s.users && u.id == userId && shown == UserSummary(u.id, u.email, u.role)
  }

  /** The listing projection of an upload, with its uploader joined in. */
  function Summary(s: Store, up: Upload): (r: UploadSummary)
    requires Has(s.users, UserKey, up.uploadedByUserId)
    ensures r.id == up.id && r.originalFilename == up.originalFilename
    ensures r.status == up.status && r.createdAt == up.createdAt
    ensures r.uploadedBy.id == up.uploadedByUserId
  {
    var user := FindBy(s.users, UserKey, up.uploadedByUserId).value;
    UploadSummary(up.id, up.originalFilename, up.status, up.createdAt,
                  UserSummary(user.id, user.email, user.role))
  }

  /** `e` is the listing projection of some upload of the clinic. */
  ghost predicate SummarizesUploadOf(s: Store, clinicId: string, e: UploadSummary)
  {
    exists up :: up in s.uploads && up.clinicId == clinicId &&
      Has(s.users, UserKey, up.uploadedByUserId) && e == Summary(s, up)
  }

  /**
   * `listed` shows the clinic's uploads newest first, each exactly once
   * (the ids are distinct), and nothing else.
   */
  ghost predicate IsClinicListing(s: Store, clinicId: string, listed: seq<UploadSummary>)
    requires forall up :: up in s.uploads ==> Has(s.users, UserKey, up.uploadedByUserId)
  {
    && (forall i, j :: 0 <= i < j < |listed| ==> listed[i].createdAt >= listed[j].createdAt)
    && (forall i, j :: 0 <= i < j < |listed| ==> listed[i].id != listed[j].id)
    && (forall i :: 0 <= i < |listed| ==> SummarizesUploadOf(s, clinicId, listed[i]))
    && (forall up :: up in s.uploads && up.clinicId == clinicId ==> Summary(s, up) in listed)
  }

  /** The uploads of a clinic, newest first. */
  function ClinicUploads(s: Store, clinicId: string): (rows: seq<Upload>)
    ensures NewestFirst(rows)
    ensures forall up :: multiset(rows)[up] ==
              if up.clinicId == clinicId then multiset(s.uploads)[up] else 0
  {
    SortNewestFirst(Where(s.uploads, (up: Upload) => up.clinicId == clinicId))
  }

  /**
   * listClinicUploads: 404 for an unknown clinic; otherwise 200 with the
   * clinic's uploads, each exactly once, newest first, projected so that only
   * id, filename, status, timestamp and uploader are shown.
   */
  function ListClinicUploads(s: Store, clinicId: string): (r: Response)
    requires Valid(s)
    ensures !Has(s.clinics, ClinicKey, clinicId) <==> r == Respond(404, Error("Clinic not found"))
    ensures Has(s.clinics, ClinicKey, clinicId) ==> r.Respond? && r.status == 200 && r.body.UploadList?
    ensures Has(s.clinics, ClinicKey, clinicId) ==> IsClinicListing(s, clinicId, r.body.uploads)
  {
    if FindBy(s.clinics, ClinicKey, clinicId).None? then
      Respond(404, Error("Clinic not found"))
    else
      var rows := ClinicUploads(s, clinicId);
      ClinicUploadsAreTheClinics(s, clinicId);
      var listed := Project(s, rows);
      ProjectionListsEachOnce(s, clinicId, rows, listed);
      Respond(200, UploadList(listed))
  }

  /** A listed entry shows the email and role of the upload's own uploader row. */
  lemma SummaryShowsUploader(s: Store, up: Upload)
    requires Has(s.users, UserKey, up.uploadedByUserId)
    ensures ShowsUser(s, up.uploadedByUserId, Summary(s, up).uploadedBy)
  {
    var u := FindBy(s.users, UserKey, up.uploadedByUserId).value;
    assert u in s.users && u.id == up.uploadedByUserId;
  }

  /** The listing projection of each row, in order. */
  function Project(s: Store, rows: seq<Upload>): (listed: seq<UploadSummary>)
    requires forall k :: 0 <= k < |rows| ==> Has(s.users, UserKey, rows[k].uploadedByUserId)
    ensures |listed| == |rows|
    ensures forall k :: 0 <= k < |rows| ==>
              && listed[k].id == rows[k].id && listed[k].createdAt == rows[k].createdAt
              && listed[k].originalFilename == rows[k].originalFilename && listed[k].status == rows[k].status
              && listed[k].uploadedBy.id == rows[k].uploadedByUserId
  {
    seq(|rows|, k requires 0 <= k < |rows| => Summary(s, rows[k]))
  }

  /** Projecting the clinic's rows lists each of its uploads once, newest first. */
  lemma ProjectionListsEachOnce(s: Store, clinicId: string, rows: seq<Upload>, listed: seq<UploadSummary>)
    requires forall k :: 0 <= k < |rows| ==> rows[k] in s.uploads && rows[k].clinicId == clinicId
    requires forall up :: up in s.uploads && up.clinicId == clinicId ==> up in rows
    requires forall up :: up in s.uploads ==> Has(s.users, UserKey, up.uploadedByUserId)
    requires UniqueBy(rows, UploadKey) && NewestFirst(rows)
    requires |listed| == |rows| && forall k :: 0 <= k < |rows| ==> listed[k] == Summary(s, rows[k])
    ensures IsClinicListing(s, clinicId, listed)
  {
    ProjectionKeepsOrderAndIds(rows, listed);
    ProjectionShowsTheClinics(s, clinicId, rows, listed);
  }

  /** A projection keeping each row's id and timestamp keeps the order and the distinct ids. */
  lemma ProjectionKeepsOrderAndIds(rows: seq<Upload>, listed: seq<UploadSummary>)
    requires UniqueBy(rows, UploadKey) && NewestFirst(rows)
    requires |listed| == |rows|
    requires forall k :: 0 <= k < |rows| ==> listed[k].id == rows[k].id && listed[k].createdAt == rows[k].createdAt
    ensures forall i, j :: 0 <= i < j < |listed| ==> listed[i].createdAt >= listed[j].createdAt
    ensures forall i, j :: 0 <= i < j < |listed| ==> listed[i].id != listed[j].id
  {
    forall i, j | 0 <= i < j < |listed| ensures listed[i].id != listed[j].id {
      assert UploadKey(rows[i]) != UploadKey(rows[j]);
    }
  }

  /** The summaries of exactly the clinic's rows show exactly the clinic's uploads. */
  lemma ProjectionShowsTheClinics(s: Store, clinicId: string, rows: seq<Upload>, listed: seq<UploadSummary>)
    requires forall k :: 0 <= k < |rows| ==> rows[k] in s.uploads && rows[k].clinicId == clinicId
    requires forall up :: up in s.uploads && up.clinicId == clinicId ==> up in rows
    requires forall up :: up in s.uploads ==> Has(s.users, UserKey, up.uploadedByUserId)
    requires |listed| == |rows| && forall k :: 0 <= k < |rows| ==> listed[k] == Summary(s, rows[k])
    ensures forall i :: 0 <= i < |listed| ==> SummarizesUploadOf(s, clinicId, listed[i])
    ensures forall up :: up in s.uploads && up.clinicId == clinicId ==> Summary(s, up) in listed
  {
    forall i | 0 <= i < |listed| ensures SummarizesUploadOf(s, clinicId, listed[i]) {
      var up := rows[i];
      assert up in s.uploads && up.clinicId == clinicId && listed[i] == Summary(s, up);
    }
    forall up | up in s.uploads && up.clinicId == clinicId ensures Summary(s, up) in listed {
      var k :| 0 <= k < |rows| && rows[k] == up;
      assert listed[k] == Summary(s, up);
    }
  }

  /**
   * The clinic's sorted uploads are rows of the Upload table of that clinic,
   * every such row is among them, and none is repeated.
   */
  lemma ClinicUploadsAreTheClinics(s: Store, clinicId: string)
    requires Valid(s)
    ensures var rows := ClinicUploads(s, clinicId);
            && (forall k :: 0 <= k < |rows| ==> rows[k] in s.uploads && rows[k].clinicId == clinicId)
            && (forall up :: up in s.uploads && up.clinicId == clinicId ==> up in rows)
            && UniqueBy(rows, UploadKey)
  {
    var rows := ClinicUploads(s, clinicId);
    forall k | 0 <= k < |rows| ensures rows[k] in s.uploads && rows[k].clinicId == clinicId {
      assert rows[k] in multiset(rows);
    }
    forall up | up in s.uploads && up.clinicId == clinicId ensures up in rows {
      assert up in multiset(s.uploads);
    }
    assert multiset(rows) <= multiset(s.uploads);
    UniqueBySubMultiset(s.uploads, rows, UploadKey);
  }

  /**
   * An upload created strictly later than every other upload of its clinic
   * heads that clinic's listing.
   */
  lemma LatestUploadListedFirst(s: Store, row: Upload)
    requires Valid(s) && row in s.uploads
    requires forall up :: up in s.uploads && up.clinicId == row.clinicId && up != row ==>
               up.createdAt < row.createdAt
    ensures var r := ListClinicUploads(s, row.clinicId);
            r.Respond? && r.status == 200 && r.body.UploadList? &&
            |r.body.uploads| > 0 && r.body.uploads[0] == Summary(s, row)
  {
    assert Has(s.clinics, ClinicKey, row.clinicId);
    var r := ListClinicUploads(s, row.clinicId);
    NewestHeadsListing(s, row, r.body.uploads);
  }

  /** In any listing of a clinic, its strictly newest upload comes first. */
  lemma NewestHeadsListing(s: Store, row: Upload, listed: seq<UploadSummary>)
    requires forall up :: up in s.uploads ==> Has(s.users, UserKey, up.uploadedByUserId)
    requires IsClinicListing(s, row.clinicId, listed) && row in s.uploads
    requires forall up :: up in s.uploads && up.clinicId == row.clinicId && up != row ==>
               up.createdAt < row.createdAt
    ensures |listed| > 0 && listed[0] == Summary(s, row)
  {
    var k :| 0 <= k < |listed| && listed[k] == Summary(s, row);
    assert SummarizesUploadOf(s, row.clinicId, listed[0]);
    var first :| first in s.uploads && first.clinicId == row.clinicId &&
                 Has(s.users, UserKey, first.uploadedByUserId) && listed[0] == Summary(s, first);
    assert first.createdAt == listed[0].createdAt >= listed[k].createdAt == row.createdAt;
  }
}
