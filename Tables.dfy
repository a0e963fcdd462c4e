/** The rows of the three tables, the row selectors the handlers' `WHERE`
    clauses use, and the well-formedness each table keeps. */
module Tables {
  import opened Seqs
  import opened Json

  /** A row of AdminUsers. */
  datatype AdminUser = AdminUser(id: nat, email: string, passwordHash: string)

  /** A row of Exhibitions; `adminUserId` references AdminUsers. */
  datatype Exhibition = Exhibition(
    id: nat, adminUserId: nat, title: Json, description: Json, createdAt: nat, updatedAt: nat)

  /** A row of Stations; `exhibitionId` references Exhibitions; `texts` is the
      language-to-text document stored as given. */
  datatype Station = Station(
    id: nat, exhibitionId: nat, title: Json, texts: Json, createdAt: nat, updatedAt: nat)

  function UserId(u: AdminUser): int { u.id }
  function ExhibitionId(e: Exhibition): int { e.id }
  function ExhibitionCreated(e: Exhibition): int { e.createdAt }
  function StationId(s: Station): int { s.id }
  function StationCreated(s: Station): int { s.createdAt }

  // Row selectors, one per WHERE clause.

  /** `WHERE email = $1` on AdminUsers. */
  function WithEmail(email: string): AdminUser -> bool {
    (u: AdminUser) => u.email == email
  }

  /** `WHERE id = $1` on AdminUsers: the foreign-key lookup. */
  function UserWithId(id: nat): AdminUser -> bool {
    (u: AdminUser) => u.id == id
  }

  /** `WHERE admin_user_id = $1` on Exhibitions. */
  function OwnedBy(owner: nat): Exhibition -> bool {
    (e: Exhibition) => e.adminUserId == owner
  }

  /** `WHERE id = $1 AND admin_user_id = $2` on Exhibitions. */
  function OwnedRow(id: nat, owner: nat): Exhibition -> bool {
    (e: Exhibition) => e.id == id && e.adminUserId == owner
  }

  /** The rows a `DELETE … WHERE id = $1 AND admin_user_id = $2` keeps. */
  function NotOwnedRow(id: nat, owner: nat): Exhibition -> bool {
    (e: Exhibition) => !(e.id == id && e.adminUserId == owner)
  }

  /** `WHERE id = $1` on Stations. */
  function StationRow(id: nat): Station -> bool {
    (s: Station) => s.id == id
  }

  /** The rows a `DELETE FROM Stations WHERE id = $1` keeps. */
  function NotStationRow(id: nat): Station -> bool {
    (s: Station) => s.id != id
  }

  /** `ON s.exhibition_id = e.id`: the exhibition a station belongs to. */
  function ParentOf(s: Station): Exhibition -> bool {
    (e: Exhibition) => e.id == s.exhibitionId
  }

  /** `WHERE exhibition_id = $1` on Stations. */
  function ChildOf(exhibitionId: nat): Station -> bool {
    (s: Station) => s.exhibitionId == exhibitionId
  }

  /** The stations an `ON DELETE CASCADE` from exhibition `exhibitionId` keeps. */
  function NotChildOf(exhibitionId: nat): Station -> bool {
    (s: Station) => s.exhibitionId != exhibitionId
  }

  // Well-formedness of each table.

  /** Serial ids from 1, strictly increasing in insertion order, below the
      next serial value; emails unique. */
  ghost predicate UsersWellFormed(users: seq<AdminUser>, nextId: nat) {
    && 1 <= nextId
    && IncreasingBy(users, UserId)
    && (forall u :: u in users ==> 1 <= u.id < nextId)
    && (forall i, j :: 0 <= i < j < |users| ==> users[i].email != users[j].email)
  }

  /** Serial ids and creation times strictly increasing in insertion order;
      every timestamp at most the current clock. */
  ghost predicate ExhibitionsWellFormed(t: seq<Exhibition>, nextId: nat, clock: nat) {
    && 1 <= nextId
    && IncreasingBy(t, ExhibitionId)
    && IncreasingBy(t, ExhibitionCreated)
    && (forall e :: e in t ==> 1 <= e.id < nextId)
    && (forall e :: e in t ==> e.createdAt <= e.updatedAt <= clock)
  }

  ghost predicate StationsWellFormed(t: seq<Station>, nextId: nat, clock: nat) {
    && 1 <= nextId
    && IncreasingBy(t, StationId)
    && IncreasingBy(t, StationCreated)
    && (forall s :: s in t ==> 1 <= s.id < nextId)
    && (forall s :: s in t ==> s.createdAt <= s.updatedAt <= clock)
  }

  /** Foreign key Exhibitions.admin_user_id → AdminUsers.id. */
  ghost predicate OwnersExist(t: seq<Exhibition>, users: seq<AdminUser>) {
    forall e :: e in t ==> exists u :: u in users && u.id == e.adminUserId
  }

  /** Foreign key Stations.exhibition_id → Exhibitions.id. */
  ghost predicate ParentsExist(stations: seq<Station>, t: seq<Exhibition>) {
    forall s :: s in stations ==> exists e :: e in t && e.id == s.exhibitionId
  }

  // Inserting a row stamped with the next serial id and a later clock.

  /** Advancing the clock keeps a table well formed. */
  lemma ExhibitionsLater(t: seq<Exhibition>, nextId: nat, clock: nat, later: nat)
    requires ExhibitionsWellFormed(t, nextId, clock) && clock <= later
    ensures ExhibitionsWellFormed(t, nextId, later)
  {}

  lemma StationsLater(t: seq<Station>, nextId: nat, clock: nat, later: nat)
    requires StationsWellFormed(t, nextId, clock) && clock <= later
    ensures StationsWellFormed(t, nextId, later)
  {}

  /** A station inserted now under an existing exhibition keeps the Stations
      invariant and the foreign key. */
  lemma InsertStation(stations: seq<Station>, t: seq<Exhibition>, nextId: nat, clock: nat, row: Station)
    requires StationsWellFormed(stations, nextId, clock)
    requires ParentsExist(stations, t)
    requires row.id == nextId && row.createdAt == row.updatedAt == clock + 1
    requires exists e :: e in t && e.id == row.exhibitionId
    ensures StationsWellFormed(stations + [row], nextId + 1, clock + 1)
    ensures ParentsExist(stations + [row], t)
  {
    AppendIncreasing(stations, row, StationId);
    AppendIncreasing(stations, row, StationCreated);
  }

  /** An exhibition inserted now for an existing account keeps the
      Exhibitions invariant and the foreign keys. */
  lemma InsertExhibition(t: seq<Exhibition>, users: seq<AdminUser>, stations: seq<Station>,
                         nextId: nat, clock: nat, row: Exhibition)
    requires ExhibitionsWellFormed(t, nextId, clock)
    requires OwnersExist(t, users) && ParentsExist(stations, t)
    requires row.id == nextId && row.createdAt == row.updatedAt == clock + 1
    requires exists u :: u in users && u.id == row.adminUserId
    ensures ExhibitionsWellFormed(t + [row], nextId + 1, clock + 1)
    ensures OwnersExist(t + [row], users) && ParentsExist(stations, t + [row])
  {
    AppendIncreasing(t, row, ExhibitionId);
    AppendIncreasing(t, row, ExhibitionCreated);
  }
}
