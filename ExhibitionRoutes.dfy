/** /api/exhibitions: create, list, get, update, delete and the QR code of
    the visitor page. `caller` is `req.user.id`, set by the token guard; every
    query is scoped by `admin_user_id = caller`, so a row of another admin and a
    missing row get the same 404. */
module ExhibitionRoutes {
  import opened Seqs
  import opened Json
  import opened Tables
  import opened Http
  import opened Store

  const TitleRequired := "Title is required for the exhibition."
  const CreateFailed := "Server error while creating exhibition."
  const NotFoundOrDenied := "Exhibition not found or access denied."
  const TitleEmpty := "Title cannot be empty."
  const UpdateNotFound := "Exhibition not found or access denied for update."
  const DeleteNotFound := "Exhibition not found or access denied for deletion."
  const Deleted := "Exhibition deleted successfully."
  const QrFailed := "Failed to generate QR code."
  const QrGenerated := "QR code generated successfully."
  const DefaultFrontendBaseUrl := "http://localhost:3000"

  /** `POST /`: 400 for a falsy title before anything else; otherwise one
      new row owned by the caller, stamped now, with a falsy description
      stored as null, sent back with 201. The store refuses (500) a caller
      id that names no account, by the foreign key on `admin_user_id`. */
  method Create(db: Db, caller: nat, title: Json, description: Json) returns (r: Response)
    requires db.Valid()
    modifies db
    ensures db.Valid()
    ensures !Truthy(title) ==> r == Response(BadRequest, Message(TitleRequired)) && unchanged(db)
    ensures Truthy(title) && Filter(old(db.users), UserWithId(caller)) == [] ==>
              r == Response(ServerError, Message(CreateFailed)) && unchanged(db)
    ensures Truthy(title) && Filter(old(db.users), UserWithId(caller)) != [] ==>
              var now := old(db.clock) + 1;
              var row := Exhibition(old(db.nextExhibitionId), caller, title, OrNull(description), now, now);
              && db.exhibitions == old(db.exhibitions) + [row]
              && r == Response(Created, ExhibitionBody(row))
              && db.nextExhibitionId == old(db.nextExhibitionId) + 1 && db.clock == now
              && db.users == old(db.users) && db.stations == old(db.stations)
              && db.nextUserId == old(db.nextUserId) && db.nextStationId == old(db.nextStationId)
  {
    if !Truthy(title) {
      return Response(BadRequest, Message(TitleRequired));
    }
    if Filter(db.users, UserWithId(caller)) == [] {
      return Response(ServerError, Message(CreateFailed));
    }
    var owner := Filter(db.users, UserWithId(caller))[0];
    assert owner in Filter(db.users, UserWithId(caller));
    var now := db.clock + 1;
    var row := Exhibition(db.nextExhibitionId, caller, title, OrNull(description), now, now);
    InsertExhibition(db.exhibitions, db.users, db.stations, db.nextExhibitionId, db.clock, row);
    StationsLater(db.stations, db.nextStationId, db.clock, now);
    db.clock := now;
    db.exhibitions := db.exhibitions + [row];
    db.nextExhibitionId := db.nextExhibitionId + 1;
    r := Response(Created, ExhibitionBody(row));
  }

  /** `GET /`: the caller's exhibitions, newest first. */
  function List(t: seq<Exhibition>, caller: nat): (r: Response)
    ensures r.status == Ok && r.body.ExhibitionList?
    ensures forall e :: e in r.body.exhibitions <==> e in t && e.adminUserId == caller
  {
    Response(Ok, ExhibitionList(Reverse(Filter(t, OwnedBy(caller)))))
  }

  /** `ORDER BY created_at DESC`: rows are stored in creation order, so the
      list is strictly newest first. */
  lemma ListNewestFirst(t: seq<Exhibition>, caller: nat)
    requires IncreasingBy(t, ExhibitionCreated)
    ensures DecreasingBy(List(t, caller).body.exhibitions, ExhibitionCreated)
  {
    FilterIncreasing(t, OwnedBy(caller), ExhibitionCreated);
    ReverseIncreasing(Filter(t, OwnedBy(caller)), ExhibitionCreated);
  }

  /** `GET /:id`: the row iff it exists and the caller owns it, else 404. */
  function Get(t: seq<Exhibition>, caller: nat, id: nat): (r: Response)
    ensures r.status in {Ok, NotFound}
    ensures r.status == Ok <==> exists e :: e in t && e.id == id && e.adminUserId == caller
    ensures r.status == Ok ==>
              && r.body.ExhibitionBody? && r.body.exhibition in t
              && r.body.exhibition.id == id && r.body.exhibition.adminUserId == caller
    ensures r.status == NotFound ==> r == Response(NotFound, Message(NotFoundOrDenied))
  {
    var rows := Filter(t, OwnedRow(id, caller));
    assert forall e :: e in t && e.id == id && e.adminUserId == caller ==> e in rows;
    if rows == [] then Response(NotFound, Message(NotFoundOrDenied))
    else
      assert rows[0] in rows;
      Response(Ok, ExhibitionBody(rows[0]))
  }

  /** Another admin's exhibition and an id no row has get the very same
      answer: existence is not revealed. */
  lemma ForeignLooksMissing(t: seq<Exhibition>, nextId: nat, clock: nat, caller: nat, k: nat, missing: nat)
    requires ExhibitionsWellFormed(t, nextId, clock)
    requires k < |t| && t[k].adminUserId != caller
    requires forall e :: e in t ==> e.id != missing
    ensures Get(t, caller, t[k].id) == Get(t, caller, missing) == Response(NotFound, Message(NotFoundOrDenied))
  {
    forall e | e in t && e.id == t[k].id ensures e.adminUserId != caller {
      var i := InIndex(t, e);
    }
  }

  /** A created exhibition is found by its owner with the title and
      description it was created with. */
  lemma CreateThenGet(t: seq<Exhibition>, row: Exhibition)
    requires forall e :: e in t ==> e.id != row.id
    ensures Get(t + [row], row.adminUserId, row.id) == Response(Ok, ExhibitionBody(row))
  {
    var p := OwnedRow(row.id, row.adminUserId);
    FilterNone(t, p);
    FilterAppend(t, row, p);
  }

  /** What the UPDATE writes into the matching row. */
  function Revise(title: Json, description: Json, now: nat): Exhibition -> Exhibition {
    (e: Exhibition) => e.(title := title, description := description, updatedAt := now)
  }

  /** `PUT /:id`: 400 for a falsy title before any store access; 404 with no
      change when the caller owns no such row; otherwise that row gets the new
      title, the description (null when falsy) and the current time. */
  method Update(db: Db, caller: nat, id: nat, title: Json, description: Json) returns (r: Response)
    requires db.Valid()
    modifies db
    ensures db.Valid()
    ensures !Truthy(title) ==> r == Response(BadRequest, Message(TitleEmpty)) && unchanged(db)
    ensures Truthy(title) && Filter(old(db.exhibitions), OwnedRow(id, caller)) == [] ==>
              r == Response(NotFound, Message(UpdateNotFound)) && unchanged(db)
    ensures Truthy(title) && Filter(old(db.exhibitions), OwnedRow(id, caller)) != [] ==>
              var now := old(db.clock) + 1;
              var revise := Revise(title, OrNull(description), now);
              && db.exhibitions == MapWhere(old(db.exhibitions), OwnedRow(id, caller), revise)
              && r == Response(Ok, ExhibitionBody(revise(Filter(old(db.exhibitions), OwnedRow(id, caller))[0])))
              && db.clock == now
              && db.users == old(db.users) && db.stations == old(db.stations)
              && db.nextUserId == old(db.nextUserId) && db.nextExhibitionId == old(db.nextExhibitionId)
              && db.nextStationId == old(db.nextStationId)
  {
    if !Truthy(title) {
      return Response(BadRequest, Message(TitleEmpty));
    }
    var matching := Filter(db.exhibitions, OwnedRow(id, caller));
    if matching == [] {
      return Response(NotFound, Message(UpdateNotFound));
    }
    var now := db.clock + 1;
    var desc := OrNull(description);
    var revise := Revise(title, desc, now);
    var updated := MapWhere(db.exhibitions, OwnedRow(id, caller), revise);
    ReviseKeepsWellFormed(db.exhibitions, db.nextExhibitionId, db.clock, OwnedRow(id, caller), title, desc, now);
    ReviseKeepsReferences(db.stations, db.exhibitions, OwnedRow(id, caller), title, desc, now);
    ReviseKeepsOwners(db.exhibitions, db.users, OwnedRow(id, caller), title, desc, now);
    db.clock := now;
    db.exhibitions := updated;
    r := Response(Ok, ExhibitionBody(revise(matching[0])));
  }

  /** A revision at a later time keeps every table invariant of Exhibitions. */
  lemma ReviseKeepsWellFormed(
      t: seq<Exhibition>, nextId: nat, clock: nat, p: Exhibition -> bool,
      title: Json, description: Json, now: nat)
    requires ExhibitionsWellFormed(t, nextId, clock)
    requires now > clock
    ensures ExhibitionsWellFormed(MapWhere(t, p, Revise(title, description, now)), nextId, now)
  {
    var u := MapWhere(t, p, Revise(title, description, now));
    forall i | 0 <= i < |u| ensures u[i].id == t[i].id && u[i].createdAt == t[i].createdAt
      && u[i].adminUserId == t[i].adminUserId
      && t[i].createdAt <= u[i].updatedAt <= now
    {
      assert t[i] in t;
    }
    forall e | e in u ensures 1 <= e.id < nextId && e.createdAt <= e.updatedAt <= now {
      var i := InIndex(u, e);
      assert t[i] in t;
    }
  }

  /** Revising rows keeps their ids, so every station still finds its parent. */
  lemma ReviseKeepsReferences(
      stations: seq<Station>, t: seq<Exhibition>, p: Exhibition -> bool,
      title: Json, description: Json, now: nat)
    requires ParentsExist(stations, t)
    ensures ParentsExist(stations, MapWhere(t, p, Revise(title, description, now)))
  {
    var u := MapWhere(t, p, Revise(title, description, now));
    forall s | s in stations ensures exists e :: e in u && e.id == s.exhibitionId {
      var e :| e in t && e.id == s.exhibitionId;
      var i := InIndex(t, e);
      assert u[i] in u && u[i].id == e.id;
    }
  }

  /** Revising rows keeps their owners. */
  lemma ReviseKeepsOwners(
      t: seq<Exhibition>, users: seq<AdminUser>, p: Exhibition -> bool,
      title: Json, description: Json, now: nat)
    requires OwnersExist(t, users)
    ensures OwnersExist(MapWhere(t, p, Revise(title, description, now)), users)
  {
    var u := MapWhere(t, p, Revise(title, description, now));
    forall e | e in u ensures exists a :: a in users && a.id == e.adminUserId {
      var i := InIndex(u, e);
      assert t[i] in t;
    }
  }

  /** An update changes exactly the one matching row, and only its title,
      description and `updated_at`, which becomes strictly later. */
  lemma UpdateTouchesOneRow(
      t: seq<Exhibition>, nextId: nat, clock: nat, caller: nat, k: nat,
      title: Json, description: Json, now: nat)
    requires ExhibitionsWellFormed(t, nextId, clock)
    requires k < |t| && t[k].adminUserId == caller
    requires now > clock
    ensures var u := MapWhere(t, OwnedRow(t[k].id, caller), Revise(title, description, now));
            && |u| == |t|
            && u[k] == t[k].(title := title, description := description, updatedAt := now)
            && u[k].updatedAt > t[k].updatedAt
            && forall i :: 0 <= i < |t| && i != k ==> u[i] == t[i]
  {
    forall i | 0 <= i < |t| && i != k ensures t[i].id != t[k].id {
      if i < k { assert ExhibitionId(t[i]) < ExhibitionId(t[k]); }
      else { assert ExhibitionId(t[k]) < ExhibitionId(t[i]); }
    }
    assert t[k] in t;
  }

  /** After an update the owner reads back the new title and description. */
  lemma UpdateThenGet(
      t: seq<Exhibition>, nextId: nat, clock: nat, caller: nat, k: nat,
      title: Json, description: Json, now: nat)
    requires ExhibitionsWellFormed(t, nextId, clock)
    requires k < |t| && t[k].adminUserId == caller
    requires now > clock
    ensures var u := MapWhere(t, OwnedRow(t[k].id, caller), Revise(title, description, now));
            Get(u, caller, t[k].id)
              == Response(Ok, ExhibitionBody(t[k].(title := title, description := description, updatedAt := now)))
  {
    var p := OwnedRow(t[k].id, caller);
    var u := MapWhere(t, p, Revise(title, description, now));
    UpdateTouchesOneRow(t, nextId, clock, caller, k, title, description, now);
    ReviseKeepsWellFormed(t, nextId, clock, p, title, description, now);
    FilterSingle(u, p, ExhibitionId, t[k].id, k);
  }

  /** `DELETE /:id`: 404 with no change when the caller owns no such row;
      otherwise that row is removed and returned, and by `ON DELETE CASCADE`
      every station of it goes too. */
  method Delete(db: Db, caller: nat, id: nat) returns (r: Response)
    requires db.Valid()
    modifies db
    ensures db.Valid()
    ensures Filter(old(db.exhibitions), OwnedRow(id, caller)) == [] ==>
              r == Response(NotFound, Message(DeleteNotFound)) && unchanged(db)
    ensures Filter(old(db.exhibitions), OwnedRow(id, caller)) != [] ==>
              && db.exhibitions == Filter(old(db.exhibitions), NotOwnedRow(id, caller))
              && db.stations == Filter(old(db.stations), NotChildOf(id))
              && r == Response(Ok, ExhibitionDeleted(Deleted, Filter(old(db.exhibitions), OwnedRow(id, caller))[0]))
              && db.users == old(db.users) && db.clock == old(db.clock)
              && db.nextUserId == old(db.nextUserId) && db.nextExhibitionId == old(db.nextExhibitionId)
              && db.nextStationId == old(db.nextStationId)
  {
    var deleted := Filter(db.exhibitions, OwnedRow(id, caller));
    if deleted == [] {
      return Response(NotFound, Message(DeleteNotFound));
    }
    DeleteKeepsWellFormed(db.exhibitions, db.stations, db.nextExhibitionId, db.nextStationId, db.clock, id, caller);
    DeleteKeepsReferences(db.exhibitions, db.stations, db.users, id, caller);
    db.exhibitions := Filter(db.exhibitions, NotOwnedRow(id, caller));
    db.stations := Filter(db.stations, NotChildOf(id));
    r := Response(Ok, ExhibitionDeleted(Deleted, deleted[0]));
  }

  /** Removing rows keeps both tables well formed. */
  lemma DeleteKeepsWellFormed(
      t: seq<Exhibition>, stations: seq<Station>, nextId: nat, nextStationId: nat, clock: nat,
      id: nat, caller: nat)
    requires ExhibitionsWellFormed(t, nextId, clock)
    requires StationsWellFormed(stations, nextStationId, clock)
    ensures ExhibitionsWellFormed(Filter(t, NotOwnedRow(id, caller)), nextId, clock)
    ensures StationsWellFormed(Filter(stations, NotChildOf(id)), nextStationId, clock)
  {
    FilterIncreasing(t, NotOwnedRow(id, caller), ExhibitionId);
    FilterIncreasing(t, NotOwnedRow(id, caller), ExhibitionCreated);
    FilterIncreasing(stations, NotChildOf(id), StationId);
    FilterIncreasing(stations, NotChildOf(id), StationCreated);
  }

  /** Referential integrity survives the cascading delete: no remaining
      station names the deleted exhibition, every remaining station still has
      its parent, and every remaining exhibition its owner. */
  lemma DeleteKeepsReferences(
      t: seq<Exhibition>, stations: seq<Station>, users: seq<AdminUser>, id: nat, caller: nat)
    requires ParentsExist(stations, t)
    requires OwnersExist(t, users)
    ensures forall s :: s in Filter(stations, NotChildOf(id)) ==> s.exhibitionId != id
    ensures ParentsExist(Filter(stations, NotChildOf(id)), Filter(t, NotOwnedRow(id, caller)))
    ensures OwnersExist(Filter(t, NotOwnedRow(id, caller)), users)
  {
    var kept := Filter(t, NotOwnedRow(id, caller));
    forall s | s in Filter(stations, NotChildOf(id)) ensures exists e :: e in kept && e.id == s.exhibitionId {
      var e :| e in t && e.id == s.exhibitionId;
      assert e in kept;
    }
  }

  /** With unique ids the delete removes exactly the one matching row. */
  lemma DeleteRemovesOneRow(t: seq<Exhibition>, nextId: nat, clock: nat, caller: nat, k: nat)
    requires ExhibitionsWellFormed(t, nextId, clock)
    requires k < |t| && t[k].adminUserId == caller
    ensures Filter(t, NotOwnedRow(t[k].id, caller)) == t[..k] + t[k + 1..]
    ensures Filter(t, OwnedRow(t[k].id, caller)) == [t[k]]
  {
    forall i | 0 <= i < |t| && i != k ensures NotOwnedRow(t[k].id, caller)(t[i]) {
      if i < k { assert ExhibitionId(t[i]) < ExhibitionId(t[k]); }
      else { assert ExhibitionId(t[k]) < ExhibitionId(t[i]); }
    }
    FilterAllBut(t, NotOwnedRow(t[k].id, caller), k);
    FilterSingle(t, OwnedRow(t[k].id, caller), ExhibitionId, t[k].id, k);
  }

  /** `process.env.FRONTEND_BASE_URL || 'http://localhost:3000'`. */
  function FrontendBaseUrl(env: Option<string>): (base: string)
    ensures env.Some? && env.value != "" ==> base == env.value
    ensures env.None? || env == Some("") ==> base == DefaultFrontendBaseUrl
    ensures base != ""
  {
    match env
    case Some(url) => if url != "" then url else DefaultFrontendBaseUrl
    case None => DefaultFrontendBaseUrl
  }

  /** The visitor page of an exhibition: `${base}/visitor/exhibition/${id}`. */
  function VisitorUrl(base: string, id: nat): (url: string)
    ensures base + "/visitor/exhibition/" <= url
    ensures |url| > |base + "/visitor/exhibition/"|
    ensures url[|base + "/visitor/exhibition/"|..] == NatToString(id)
  {
    base + "/visitor/exhibition/" + NatToString(id)
  }

  /** Different exhibitions get different visitor URLs. */
  lemma VisitorUrlsDistinct(base: string, m: nat, n: nat)
    requires m != n
    ensures VisitorUrl(base, m) != VisitorUrl(base, n)
  {
    var prefix := base + "/visitor/exhibition/";
    if VisitorUrl(base, m) == VisitorUrl(base, n) {
      assert VisitorUrl(base, m)[|prefix|..] == NatToString(m);
      assert VisitorUrl(base, n)[|prefix|..] == NatToString(n);
      NatToStringInjective(m, n);
    }
  }

  /** `GET /:id/qrcode`: 404 unless the caller owns the exhibition; then the
      visitor URL is encoded (`encode` is `qrcode.toDataURL` at error
      correction level H, None when it fails, which gives 500). `env` is
      `FRONTEND_BASE_URL`. */
  function QrCodeFor(t: seq<Exhibition>, caller: nat, id: nat, env: Option<string>,
                     encode: string -> Option<string>): (r: Response)
    ensures r.status in {Ok, NotFound, ServerError}
    ensures r.status == NotFound <==> Get(t, caller, id).status == NotFound
    ensures r.status == NotFound ==> r == Get(t, caller, id)
    ensures r.status == ServerError <==>
              Get(t, caller, id).status == Ok && encode(VisitorUrl(FrontendBaseUrl(env), id)).None?
    ensures r.status == ServerError ==> r == Response(ServerError, Message(QrFailed))
    ensures r.status == Ok ==>
              var url := VisitorUrl(FrontendBaseUrl(env), id);
              && encode(url).Some?
              && r == Response(Ok, QrCode(QrGenerated, id, Get(t, caller, id).body.exhibition.title,
                                          url, encode(url).value))
  {
    var rows := Filter(t, OwnedRow(id, caller));
    if rows == [] then Response(NotFound, Message(NotFoundOrDenied))
    else
      var url := VisitorUrl(FrontendBaseUrl(env), id);
      match encode(url)
      case None => Response(ServerError, Message(QrFailed))
      case Some(dataUrl) => Response(Ok, QrCode(QrGenerated, id, rows[0].title, url, dataUrl))
  }
}
