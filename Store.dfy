/** The relational store the handlers query: the tables AdminUsers,
    Exhibitions and Stations, each with its serial id sequence, and a clock
    standing for CURRENT_TIMESTAMP. Rows are kept in insertion order. */
module Store {
  import opened Tables

  class Db {
    var users: seq<AdminUser>
    var exhibitions: seq<Exhibition>
    var stations: seq<Station>
    /** The next value of each table's serial id sequence. */
    var nextUserId: nat
    var nextExhibitionId: nat
    var nextStationId: nat
    /** The latest timestamp handed out; each statement that stamps rows
        first advances it, so CURRENT_TIMESTAMP is strictly later each time. */
    var clock: nat

    /** Every table well formed, both foreign keys satisfied. */
    ghost predicate Valid()
      reads this
    {
      && UsersWellFormed(users, nextUserId)
      && ExhibitionsWellFormed(exhibitions, nextExhibitionId, clock)
      && StationsWellFormed(stations, nextStationId, clock)
      && OwnersExist(exhibitions, users)
      && ParentsExist(stations, exhibitions)
    }

    /** An empty store: all tables empty, every serial sequence at 1. */
    constructor ()
      ensures Valid()
      ensures users == [] && exhibitions == [] && stations == []
      ensures nextUserId == 1 && nextExhibitionId == 1 && nextStationId == 1 && clock == 0
    {
      users, exhibitions, stations := [], [], [];
      nextUserId, nextExhibitionId, nextStationId := 1, 1, 1;
      clock := 0;
    }
  }
}
