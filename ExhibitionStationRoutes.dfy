/** /api/exhibitions/:exhibitionId/stations: create a station and list the
    stations of one exhibition, both gated by the caller owning the
    exhibition. Also the station payload check that PUT /api/stations/:id
    repeats. */
module ExhibitionStationRoutes {
  import opened Seqs
  import opened Json
  import opened Tables
  import opened Http
  import opened Store

  const StationFieldsRequired := "Title and texts (as a non-empty JSON object) are required for the station."
  const NotFoundOrDenied := "Exhibition not found or access denied."

  /** The message naming a language whose text is not a string. */
  function TextNotString(lang: string): (msg: string)
    ensures |msg| == |lang| + 38 && msg[19..|msg| - 19] == lang
  {
    "Text for language '" + lang + "' must be a string."
  }

  /** Why a station payload is refused. */
  datatype PayloadError = MissingFields | NonStringText(lang: string)

  /** The key of the first entry whose value is not a string, if any. */
  function FirstNonString(es: seq<(string, Json)>): (r: Option<string>)
    ensures r.None? <==> forall k :: 0 <= k < |es| ==> es[k].1.Str?
    ensures r.Some? ==> exists k :: 0 <= k < |es| && es[k].0 == r.value && !es[k].1.Str? &&
                                     forall j :: 0 <= j < k ==> es[j].1.Str?
    decreases |es|
  {
    if es == [] then None
    else if !es[0].1.Str? then Some(es[0].0)
    else
      var rest := FirstNonString(es[1..]);
      assert forall k :: 1 <= k < |es| ==> es[k] == es[1..][k - 1];
      rest
  }

  /** The first value that is not a string decides the answer. */
  lemma FirstNonStringAt(es: seq<(string, Json)>, i: nat)
    requires i < |es| && !es[i].1.Str?
    requires forall j :: 0 <= j < i ==> es[j].1.Str?
    ensures FirstNonString(es) == Some(es[i].0)
  {
    var r := FirstNonString(es);
    var k :| 0 <= k < |es| && es[k].0 == r.value && !es[k].1.Str? && forall j :: 0 <= j < k ==> es[j].1.Str?;
    assert k == i;
  }

  /** The checks at the head of the create and update handlers: a truthy
      title, `texts` a non-empty object (arrays are objects to `typeof`), and a
      string under every key, the first failing key named. */
  function PayloadCheck(title: Json, texts: Json): (err: Option<PayloadError>)
    ensures err == Some(MissingFields) <==>
              !Truthy(title) || !Truthy(texts) || !IsObject(texts) || |Entries(texts)| == 0
    ensures err.None? <==>
              && Truthy(title) && (texts.Obj? || texts.Arr?) && |Entries(texts)| > 0
              && forall k :: 0 <= k < |Entries(texts)| ==> Entries(texts)[k].1.Str?
    ensures err.Some? && err.value.NonStringText? ==>
              var es := Entries(texts);
              exists k :: 0 <= k < |es| && es[k].0 == err.value.lang && !es[k].1.Str? &&
                          forall j :: 0 <= j < k ==> es[j].1.Str?
  {
    if !Truthy(title) || !Truthy(texts) || !IsObject(texts) || |Entries(texts)| == 0 then Some(MissingFields)
    else match FirstNonString(Entries(texts))
      case None => None
      case Some(lang) => Some(NonStringText(lang))
  }

  /** The validation as the handlers run it: the `for (const lang in texts)`
      loop returns at the first value that is not a string. */
  method CheckPayload(title: Json, texts: Json) returns (err: Option<PayloadError>)
    ensures err == PayloadCheck(title, texts)
  {
    if !Truthy(title) || !Truthy(texts) || !IsObject(texts) || |Entries(texts)| == 0 {
      return Some(MissingFields);
    }
    var es := Entries(texts);
    var i := 0;
    while i < |es|
      invariant 0 <= i <= |es|
      invariant forall j :: 0 <= j < i ==> es[j].1.Str?
    {
      if !es[i].1.Str? {
        FirstNonStringAt(es, i);
        return Some(NonStringText(es[i].0));
      }
      i := i + 1;
    }
    return None;
  }

  /** The 400 response for a refused payload; `missing` is the handler's own
      message for missing fields. */
  function Rejection(e: PayloadError, missing: string): (r: Response)
    ensures r.status == BadRequest && r.body.Message?
    ensures e.MissingFields? ==> r.body.text == missing
    ensures e.NonStringText? ==>
              |r.body.text| == |e.lang| + 38 && r.body.text[19..|r.body.text| - 19] == e.lang
  {
    match e
    case MissingFields => Response(BadRequest, Message(missing))
    case NonStringText(lang) => Response(BadRequest, Message(TextNotString(lang)))
  }

  /** `POST /`: the payload is checked first, then the caller's ownership of
      the exhibition (404 otherwise); only then is one station inserted under
      that exhibition with the given title and texts, and sent with 201. A
      refused request changes nothing. */
  method Create(db: Db, caller: nat, exhibitionId: nat, title: Json, texts: Json) returns (r: Response)
    requires db.Valid()
    modifies db
    ensures db.Valid()
    ensures PayloadCheck(title, texts).Some? ==>
              r == Rejection(PayloadCheck(title, texts).value, StationFieldsRequired) && unchanged(db)
    ensures PayloadCheck(title, texts).None? && Filter(old(db.exhibitions), OwnedRow(exhibitionId, caller)) == [] ==>
              r == Response(NotFound, Message(NotFoundOrDenied)) && unchanged(db)
    ensures PayloadCheck(title, texts).None? && Filter(old(db.exhibitions), OwnedRow(exhibitionId, caller)) != [] ==>
              var now := old(db.clock) + 1;
              var row := Station(old(db.nextStationId), exhibitionId, title, texts, now, now);
              && db.stations == old(db.stations) + [row]
              && r == Response(Created, StationBody(row))
              && db.nextStationId == old(db.nextStationId) + 1 && db.clock == now
              && db.users == old(db.users) && db.exhibitions == old(db.exhibitions)
              && db.nextUserId == old(db.nextUserId) && db.nextExhibitionId == old(db.nextExhibitionId)
  {
    var err := CheckPayload(title, texts);
    if err.Some? {
      return Rejection(err.value, StationFieldsRequired);
    }
    var owned := Filter(db.exhibitions, OwnedRow(exhibitionId, caller));
    if owned == [] {
      return Response(NotFound, Message(NotFoundOrDenied));
    }
    assert owned[0] in owned;
    var row := InsertRow(db, exhibitionId, title, texts);
    r := Response(Created, StationBody(row));
  }

  /** `INSERT INTO Stations (exhibition_id, title, texts) VALUES ($1, $2, $3)
      RETURNING *` under an exhibition that is there. */
  method InsertRow(db: Db, exhibitionId: nat, title: Json, texts: Json) returns (row: Station)
    requires db.Valid()
    requires exists e :: e in db.exhibitions && e.id == exhibitionId
    modifies db
    ensures db.Valid()
    ensures var now := old(db.clock) + 1;
            && row == Station(old(db.nextStationId), exhibitionId, title, texts, now, now)
            && db.stations == old(db.stations) + [row]
            && db.nextStationId == old(db.nextStationId) + 1 && db.clock == now
            && db.users == old(db.users) && db.exhibitions == old(db.exhibitions)
            && db.nextUserId == old(db.nextUserId) && db.nextExhibitionId == old(db.nextExhibitionId)
  {
    var now := db.clock + 1;
    row := Station(db.nextStationId, exhibitionId, title, texts, now, now);
    InsertStation(db.stations, db.exhibitions, db.nextStationId, db.clock, row);
    ExhibitionsLater(db.exhibitions, db.nextExhibitionId, db.clock, now);
    db.clock := now;
    db.stations := db.stations + [row];
    db.nextStationId := db.nextStationId + 1;
  }

  /** `GET /`: 404 unless the caller owns the exhibition; otherwise exactly
      the stations of that exhibition. */
  function List(stations: seq<Station>, exhibitions: seq<Exhibition>, caller: nat, exhibitionId: nat)
    : (r: Response)
    ensures r.status in {Ok, NotFound}
    ensures r.status == NotFound <==>
              !exists e :: e in exhibitions && e.id == exhibitionId && e.adminUserId == caller
    ensures r.status == NotFound ==> r == Response(NotFound, Message(NotFoundOrDenied))
    ensures r.status == Ok ==>
              && r.body.StationList?
              && forall s :: s in r.body.stations <==> s in stations && s.exhibitionId == exhibitionId
  {
    var owned := Filter(exhibitions, OwnedRow(exhibitionId, caller));
    assert forall e :: e in exhibitions && e.id == exhibitionId && e.adminUserId == caller ==> e in owned;
    if owned == [] then Response(NotFound, Message(NotFoundOrDenied))
    else
      assert owned[0] in owned;
      Response(Ok, StationList(Filter(stations, ChildOf(exhibitionId))))
  }

  /** `ORDER BY created_at ASC`: stations are stored in creation order, so
      the list is strictly oldest first. */
  lemma ListOldestFirst(stations: seq<Station>, exhibitions: seq<Exhibition>, caller: nat, exhibitionId: nat)
    requires IncreasingBy(stations, StationCreated)
    requires List(stations, exhibitions, caller, exhibitionId).status == Ok
    ensures IncreasingBy(List(stations, exhibitions, caller, exhibitionId).body.stations, StationCreated)
  {
    FilterIncreasing(stations, ChildOf(exhibitionId), StationCreated);
  }

  /** Once an exhibition is deleted, listing its stations answers 404 (the
      parent is gone), not an empty list. */
  lemma DeleteThenList(stations: seq<Station>, exhibitions: seq<Exhibition>, caller: nat, id: nat)
    ensures List(Filter(stations, NotChildOf(id)), Filter(exhibitions, NotOwnedRow(id, caller)), caller, id)
              == Response(NotFound, Message(NotFoundOrDenied))
  {
    var kept := Filter(exhibitions, NotOwnedRow(id, caller));
    assert forall e :: e in kept ==> !(e.id == id && e.adminUserId == caller);
  }
}
