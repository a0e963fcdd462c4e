/** /api/stations/:id: get, update and delete one station. Ownership is
    derived through the station's exhibition. GET tells a missing station
    (404) from another admin's (403); PUT and DELETE go through
    `checkStationOwnership` and answer 403 to both. */
module StationRoutes {
  import opened Seqs
  import opened Json
  import opened Tables
  import opened Http
  import opened Store
  import opened ExhibitionStationRoutes

  const FieldsRequired := "Title and texts (as a non-empty JSON object) are required."
  const StationNotFound := "Station not found."
  const AccessDenied := "Access denied to this station."
  const UpdateDenied := "Access denied or station not found for update."
  const DeleteDenied := "Access denied or station not found for deletion."
  const StationRemoved := "Station deleted successfully."

  /** The rows `SELECT s.*, e.admin_user_id FROM Stations s JOIN Exhibitions e
      ON s.exhibition_id = e.id` produces from the stations `ss`, in order. */
  function JoinOwners(ss: seq<Station>, es: seq<Exhibition>): (rows: seq<(Station, nat)>)
    ensures forall row :: row in rows <==>
              row.0 in ss && exists e :: e in es && e.id == row.0.exhibitionId && e.adminUserId == row.1
    decreases |ss|
  {
    if ss == [] then []
    else
      var parents := Filter(es, ParentOf(ss[0]));
      var here := seq(|parents|, i requires 0 <= i < |parents| => (ss[0], parents[i].adminUserId));
      assert forall row :: row in here <==>
        row.0 == ss[0] && exists e :: e in parents && e.adminUserId == row.1 by {
        forall row | row in here ensures exists e :: e in parents && e.adminUserId == row.1 {
          var i := InIndex(here, row);
          assert parents[i] in parents;
        }
        forall row: (Station, nat) | row.0 == ss[0] && (exists e :: e in parents && e.adminUserId == row.1)
          ensures row in here
        {
          var e :| e in parents && e.adminUserId == row.1;
          var i := InIndex(parents, e);
          assert here[i] == row;
        }
      }
      assert forall x :: x in ss <==> x == ss[0] || x in ss[1..] by {
        assert ss == [ss[0]] + ss[1..];
      }
      here + JoinOwners(ss[1..], es)
  }

  /** The joined rows of the station with id `id`. */
  function StationJoin(stations: seq<Station>, exhibitions: seq<Exhibition>, id: nat): seq<(Station, nat)> {
    JoinOwners(Filter(stations, StationRow(id)), exhibitions)
  }

  /** `s.id = id` and the station's exhibition belongs to `caller`. */
  function OwnedStationRow(exhibitions: seq<Exhibition>, id: nat, caller: nat): Station -> bool {
    (s: Station) => s.id == id && Filter(exhibitions, OwnedRow(s.exhibitionId, caller)) != []
  }

  /** The caller owns the station with id `id`. */
  predicate OwnsStation(stations: seq<Station>, exhibitions: seq<Exhibition>, id: nat, caller: nat) {
    Filter(stations, OwnedStationRow(exhibitions, id, caller)) != []
  }

  /** Owning a station means: it is there and its exhibition is the caller's. */
  lemma OwnsStationMeans(stations: seq<Station>, exhibitions: seq<Exhibition>, id: nat, caller: nat)
    ensures OwnsStation(stations, exhibitions, id, caller) <==>
              exists s, e :: s in stations && e in exhibitions && s.id == id &&
                             e.id == s.exhibitionId && e.adminUserId == caller
  {
    var p := OwnedStationRow(exhibitions, id, caller);
    var owned := Filter(stations, p);
    if owned != [] {
      assert owned[0] in owned;
      var mine := Filter(exhibitions, OwnedRow(owned[0].exhibitionId, caller));
      assert mine[0] in mine;
    }
    forall s, e | s in stations && e in exhibitions && s.id == id &&
                  e.id == s.exhibitionId && e.adminUserId == caller
      ensures s in owned
    {
      assert e in Filter(exhibitions, OwnedRow(s.exhibitionId, caller));
    }
  }

  /** `checkStationOwnership(stationId, adminUserId)`: the join restricted to
      `s.id = id AND e.admin_user_id = caller` has a row. Reads the store,
      changes nothing. */
  method CheckStationOwnership(db: Db, id: nat, caller: nat) returns (owned: bool)
    ensures owned == OwnsStation(db.stations, db.exhibitions, id, caller)
  {
    var rows := StationJoin(db.stations, db.exhibitions, id);
    var mine := Filter(rows, (row: (Station, nat)) => row.1 == caller);
    assert mine != [] ==> mine[0] in mine;
    assert forall s, e :: (s in db.stations && e in db.exhibitions && s.id == id &&
                           e.id == s.exhibitionId && e.adminUserId == caller) ==> (s, caller) in mine;
    OwnsStationMeans(db.stations, db.exhibitions, id, caller);
    owned := |mine| > 0;
  }

  /** `GET /:id`: 404 when the join is empty, 403 when its owner is not the
      caller, else the station's own columns — `admin_user_id` taken off. */
  function Get(stations: seq<Station>, exhibitions: seq<Exhibition>, caller: nat, id: nat): (r: Response)
    ensures r.status in {Ok, Forbidden, NotFound}
    ensures r.status == NotFound <==>
              !exists s, e :: s in stations && e in exhibitions && s.id == id && e.id == s.exhibitionId
    ensures r.status == NotFound ==> r == Response(NotFound, Message(StationNotFound))
    ensures r.status == Forbidden ==>
              && r == Response(Forbidden, Message(AccessDenied))
              && exists s, e :: s in stations && e in exhibitions && s.id == id &&
                                e.id == s.exhibitionId && e.adminUserId != caller
    ensures r.status == Ok ==>
              && r.body.StationBody? && r.body.station in stations && r.body.station.id == id
              && exists e :: e in exhibitions && e.id == r.body.station.exhibitionId && e.adminUserId == caller
  {
    var rows := StationJoin(stations, exhibitions, id);
    assert forall s, e :: s in stations && e in exhibitions && s.id == id && e.id == s.exhibitionId ==>
                          (s, e.adminUserId) in rows;
    if rows == [] then Response(NotFound, Message(StationNotFound))
    else
      assert rows[0] in rows;
      if rows[0].1 != caller then Response(Forbidden, Message(AccessDenied))
      else Response(Ok, StationBody(rows[0].0))
  }

  /** With unique ids the join holds exactly the one station and its
      exhibition's owner. */
  lemma JoinSingle(stations: seq<Station>, exhibitions: seq<Exhibition>, k: nat, m: nat)
    requires IncreasingBy(stations, StationId) && IncreasingBy(exhibitions, ExhibitionId)
    requires k < |stations| && m < |exhibitions| && exhibitions[m].id == stations[k].exhibitionId
    ensures StationJoin(stations, exhibitions, stations[k].id) == [(stations[k], exhibitions[m].adminUserId)]
  {
    var s := stations[k];
    FilterSingle(stations, StationRow(s.id), StationId, s.id, k);
    FilterSingle(exhibitions, ParentOf(s), ExhibitionId, s.exhibitionId, m);
    assert [s][1..] == [];
    var parents := Filter(exhibitions, ParentOf(s));
    var here := seq(|parents|, i requires 0 <= i < |parents| => (s, parents[i].adminUserId));
    assert here == [(s, exhibitions[m].adminUserId)];
    assert JoinOwners([s], exhibitions) == here + JoinOwners([], exhibitions);
  }

  /** Under unique ids GET and the ownership check agree: 200 exactly when the
      caller owns the station, 403 exactly when it exists under another admin. */
  lemma GetAgreesWithOwnership(
      stations: seq<Station>, exhibitions: seq<Exhibition>, caller: nat, id: nat)
    requires IncreasingBy(stations, StationId) && IncreasingBy(exhibitions, ExhibitionId)
    ensures Get(stations, exhibitions, caller, id).status == Ok <==>
              OwnsStation(stations, exhibitions, id, caller)
    ensures Get(stations, exhibitions, caller, id).status == Forbidden <==>
              Get(stations, exhibitions, caller, id).status != NotFound &&
              !OwnsStation(stations, exhibitions, id, caller)
  {
    OwnsStationMeans(stations, exhibitions, id, caller);
    if s, e :| s in stations && e in exhibitions && s.id == id && e.id == s.exhibitionId {
      var k := InIndex(stations, s);
      var m := InIndex(exhibitions, e);
      JoinSingle(stations, exhibitions, k, m);
      forall s', e' | s' in stations && e' in exhibitions && s'.id == id && e'.id == s'.exhibitionId
        ensures s' == s && e' == e
      {
        IncreasingUnique(stations, StationId, s, s');
        IncreasingUnique(exhibitions, ExhibitionId, e, e');
      }
    }
  }

  /** The inconsistency between the handlers: for another admin's station GET
      answers 403 and for a missing one 404, while the ownership check behind
      PUT and DELETE is false for both. */
  lemma GetSplitsWhereCheckMerges(
      stations: seq<Station>, exhibitions: seq<Exhibition>, caller: nat, k: nat, m: nat, missing: nat)
    requires IncreasingBy(stations, StationId) && IncreasingBy(exhibitions, ExhibitionId)
    requires k < |stations| && m < |exhibitions| && exhibitions[m].id == stations[k].exhibitionId
    requires exhibitions[m].adminUserId != caller
    requires forall s :: s in stations ==> s.id != missing
    ensures Get(stations, exhibitions, caller, stations[k].id) == Response(Forbidden, Message(AccessDenied))
    ensures Get(stations, exhibitions, caller, missing) == Response(NotFound, Message(StationNotFound))
    ensures !OwnsStation(stations, exhibitions, stations[k].id, caller)
    ensures !OwnsStation(stations, exhibitions, missing, caller)
  {
    JoinSingle(stations, exhibitions, k, m);
    GetAgreesWithOwnership(stations, exhibitions, caller, stations[k].id);
    OwnsStationMeans(stations, exhibitions, missing, caller);
  }

  /** The ownership check passes only for a station that is there. */
  lemma OwnedStationExists(stations: seq<Station>, exhibitions: seq<Exhibition>, id: nat, caller: nat)
    requires OwnsStation(stations, exhibitions, id, caller)
    ensures Filter(stations, StationRow(id)) != []
  {
    var owned := Filter(stations, OwnedStationRow(exhibitions, id, caller));
    assert owned[0] in owned;
    assert owned[0] in Filter(stations, StationRow(id));
  }

  /** What the UPDATE writes into the station. */
  function ReviseStation(title: Json, texts: Json, now: nat): Station -> Station {
    (s: Station) => s.(title := title, texts := texts, updatedAt := now)
  }

  /** The Stations table after `UPDATE … WHERE id = $3` at time `now`. */
  function Revised(t: seq<Station>, id: nat, title: Json, texts: Json, now: nat): seq<Station> {
    MapWhere(t, StationRow(id), ReviseStation(title, texts, now))
  }

  /** A station revision at a later time keeps the Stations invariant and the
      foreign key. */
  lemma ReviseStationKeepsInvariants(
      t: seq<Station>, exhibitions: seq<Exhibition>, nextId: nat, clock: nat, id: nat,
      title: Json, texts: Json, now: nat)
    requires StationsWellFormed(t, nextId, clock) && ParentsExist(t, exhibitions)
    requires now > clock
    ensures var u := Revised(t, id, title, texts, now);
            StationsWellFormed(u, nextId, now) && ParentsExist(u, exhibitions)
  {
    var u := Revised(t, id, title, texts, now);
    forall i | 0 <= i < |u| ensures u[i].id == t[i].id && u[i].createdAt == t[i].createdAt
      && u[i].exhibitionId == t[i].exhibitionId && t[i].createdAt <= u[i].updatedAt <= now
    {
      assert t[i] in t;
    }
    forall s | s in u ensures 1 <= s.id < nextId && s.createdAt <= s.updatedAt <= now
      && exists e :: e in exhibitions && e.id == s.exhibitionId
    {
      var i := InIndex(u, s);
      assert t[i] in t;
    }
  }

  /** An update changes exactly the station with that id, and only its title,
      texts and `updated_at`, which becomes strictly later. */
  lemma UpdateTouchesOneStation(
      t: seq<Station>, nextId: nat, clock: nat, k: nat, title: Json, texts: Json, now: nat)
    requires StationsWellFormed(t, nextId, clock)
    requires k < |t| && now > clock
    ensures var u := Revised(t, t[k].id, title, texts, now);
            && |u| == |t|
            && u[k] == t[k].(title := title, texts := texts, updatedAt := now)
            && u[k].updatedAt > t[k].updatedAt
            && forall i :: 0 <= i < |t| && i != k ==> u[i] == t[i]
  {
    forall i | 0 <= i < |t| && i != k ensures t[i].id != t[k].id {
      if i < k { assert StationId(t[i]) < StationId(t[k]); }
      else { assert StationId(t[k]) < StationId(t[i]); }
    }
    assert t[k] in t;
  }

  /** The part of `PUT /:id` after the payload check: 403 with no change
      unless the caller owns the station, else `UPDATE Stations SET title,
      texts, updated_at = CURRENT_TIMESTAMP WHERE id = $3 RETURNING *`. */
  method UpdateOwned(db: Db, caller: nat, id: nat, title: Json, texts: Json) returns (r: Response)
    requires db.Valid()
    modifies db
    ensures db.Valid()
    ensures !OwnsStation(old(db.stations), old(db.exhibitions), id, caller) ==>
              r == Response(Forbidden, Message(UpdateDenied)) && unchanged(db)
    ensures OwnsStation(old(db.stations), old(db.exhibitions), id, caller) ==>
              && Filter(old(db.stations), StationRow(id)) != []
              && db.stations == Revised(old(db.stations), id, title, texts, old(db.clock) + 1)
              && r == Response(Ok, StationBody(Filter(old(db.stations), StationRow(id))[0].(
                                     title := title, texts := texts, updatedAt := old(db.clock) + 1)))
              && db.clock == old(db.clock) + 1
              && db.users == old(db.users) && db.exhibitions == old(db.exhibitions)
              && db.nextUserId == old(db.nextUserId) && db.nextExhibitionId == old(db.nextExhibitionId)
              && db.nextStationId == old(db.nextStationId)
  {
    var owned := CheckStationOwnership(db, id, caller);
    if !owned {
      return Response(Forbidden, Message(UpdateDenied));
    }
    OwnedStationExists(db.stations, db.exhibitions, id, caller);
    var matching := Filter(db.stations, StationRow(id));
    var now := db.clock + 1;
    ReviseStationKeepsInvariants(db.stations, db.exhibitions, db.nextStationId, db.clock, id, title, texts, now);
    ExhibitionsLater(db.exhibitions, db.nextExhibitionId, db.clock, now);
    db.clock := now;
    db.stations := Revised(db.stations, id, title, texts, now);
    r := Response(Ok, StationBody(matching[0].(title := title, texts := texts, updatedAt := now)));
  }

  /** `PUT /:id`: the same payload check as creation — `PayloadCheck`, the
      value the handlers' validation loop `CheckPayload` is proved to compute —
      answered 400 before any store access; then as `UpdateOwned`. The handler's 404 after the UPDATE
      cannot happen: the ownership check has just found the row. */
  method Update(db: Db, caller: nat, id: nat, title: Json, texts: Json) returns (r: Response)
    requires db.Valid()
    modifies db
    ensures db.Valid()
    ensures PayloadCheck(title, texts).Some? ==>
              r == Rejection(PayloadCheck(title, texts).value, FieldsRequired) && unchanged(db)
    ensures PayloadCheck(title, texts).None? &&
            !OwnsStation(old(db.stations), old(db.exhibitions), id, caller) ==>
              r == Response(Forbidden, Message(UpdateDenied)) && unchanged(db)
    ensures PayloadCheck(title, texts).None? &&
            OwnsStation(old(db.stations), old(db.exhibitions), id, caller) ==>
              && Filter(old(db.stations), StationRow(id)) != []
              && db.stations == Revised(old(db.stations), id, title, texts, old(db.clock) + 1)
              && r == Response(Ok, StationBody(Filter(old(db.stations), StationRow(id))[0].(
                                     title := title, texts := texts, updatedAt := old(db.clock) + 1)))
              && db.clock == old(db.clock) + 1
              && db.users == old(db.users) && db.exhibitions == old(db.exhibitions)
              && db.nextUserId == old(db.nextUserId) && db.nextExhibitionId == old(db.nextExhibitionId)
              && db.nextStationId == old(db.nextStationId)
  {
    var err := PayloadCheck(title, texts);
    if err.Some? {
      return Rejection(err.value, FieldsRequired);
    }
    r := UpdateOwned(db, caller, id, title, texts);
  }

  /** `DELETE /:id`: 403 with no change unless the caller owns the station;
      otherwise that station is removed and returned. The handler's 404 after
      the DELETE cannot happen, as for PUT. */
  method Delete(db: Db, caller: nat, id: nat) returns (r: Response)
    requires db.Valid()
    modifies db
    ensures db.Valid()
    ensures !OwnsStation(old(db.stations), old(db.exhibitions), id, caller) ==>
              r == Response(Forbidden, Message(DeleteDenied)) && unchanged(db)
    ensures OwnsStation(old(db.stations), old(db.exhibitions), id, caller) ==>
              && Filter(old(db.stations), StationRow(id)) != []
              && db.stations == Filter(old(db.stations), NotStationRow(id))
              && r == Response(Ok, StationDeleted(StationRemoved, Filter(old(db.stations), StationRow(id))[0]))
              && db.users == old(db.users) && db.exhibitions == old(db.exhibitions) && db.clock == old(db.clock)
              && db.nextUserId == old(db.nextUserId) && db.nextExhibitionId == old(db.nextExhibitionId)
              && db.nextStationId == old(db.nextStationId)
  {
    var owned := CheckStationOwnership(db, id, caller);
    if !owned {
      return Response(Forbidden, Message(DeleteDenied));
    }
    OwnedStationExists(db.stations, db.exhibitions, id, caller);
    var deleted := Filter(db.stations, StationRow(id));
    DeleteKeepsInvariants(db.stations, db.exhibitions, db.nextStationId, db.clock, id);
    db.stations := Filter(db.stations, NotStationRow(id));
    r := Response(Ok, StationDeleted(StationRemoved, deleted[0]));
  }

  /** Removing stations keeps the Stations invariant and the foreign key. */
  lemma DeleteKeepsInvariants(
      t: seq<Station>, exhibitions: seq<Exhibition>, nextId: nat, clock: nat, id: nat)
    requires StationsWellFormed(t, nextId, clock) && ParentsExist(t, exhibitions)
    ensures StationsWellFormed(Filter(t, NotStationRow(id)), nextId, clock)
    ensures ParentsExist(Filter(t, NotStationRow(id)), exhibitions)
  {
    FilterIncreasing(t, NotStationRow(id), StationId);
    FilterIncreasing(t, NotStationRow(id), StationCreated);
  }

  /** With unique ids the delete removes exactly the one station. */
  lemma DeleteRemovesOneStation(t: seq<Station>, nextId: nat, clock: nat, k: nat)
    requires StationsWellFormed(t, nextId, clock)
    requires k < |t|
    ensures Filter(t, NotStationRow(t[k].id)) == t[..k] + t[k + 1..]
    ensures Filter(t, StationRow(t[k].id)) == [t[k]]
  {
    forall i | 0 <= i < |t| && i != k ensures NotStationRow(t[k].id)(t[i]) {
      if i < k { assert StationId(t[i]) < StationId(t[k]); }
      else { assert StationId(t[k]) < StationId(t[i]); }
    }
    FilterAllBut(t, NotStationRow(t[k].id), k);
    FilterSingle(t, StationRow(t[k].id), StationId, t[k].id, k);
  }
}
