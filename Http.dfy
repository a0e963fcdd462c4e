/** What a handler sends back: a status code and a JSON body. */
module Http {
  import opened Json
  import opened Tables
  import opened Services

  /** The JSON bodies the handlers send. */
  datatype Body =
    | Message(text: string)
    | ExhibitionBody(exhibition: Exhibition)
    | ExhibitionList(exhibitions: seq<Exhibition>)
    | ExhibitionDeleted(message: string, exhibition: Exhibition)
    | QrCode(message: string, exhibitionId: nat, exhibitionTitle: Json,
             visitorUrl: string, qrCodeDataUrl: string)
    | StationBody(station: Station)
    | StationList(stations: seq<Station>)
    | StationDeleted(message: string, station: Station)
    | Session(message: string, token: string, user: Claims)

  datatype Response = Response(status: nat, body: Body)

  const Ok: nat := 200
  const Created: nat := 201
  const BadRequest: nat := 400
  const Unauthorized: nat := 401
  const Forbidden: nat := 403
  const NotFound: nat := 404
  const Conflict: nat := 409
  const ServerError: nat := 500
}
