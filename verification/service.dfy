/**
  The four endpoints as one request/response state machine over the table.

  A request body is validated before its handler runs; an invalid body is
  answered with the list of bad fields (HTTP 422) and the table is untouched.
  Each handler then issues exactly one statement; a statement failure is
  answered as a server error (HTTP 500) and, as the transaction is never
  committed, the table is untouched as well.
 */
module Service {
  import opened Addresses
  import opened AddressStore
  import opened Nearby

  datatype Request =
    | CreateAddress(body: Address)
    | UpdateAddress(id: int, body: Address)
    | DeleteAddress(id: int)
    | NearbyAddresses(lat: real, lon: real, radius: real)

  /** The three confirmation messages. */
  datatype Message = AddressCreated | AddressUpdated | AddressDeleted

  datatype Response =
    | Done(message: Message)
    | Listing(rows: seq<Row>)
    | Unprocessable(errors: seq<Field>)
    | ServerError(error: StorageError)

  datatype Outcome = Outcome(response: Response, table: Table)

  /** Every stored record satisfies the validator. */
  predicate StoredValid(t: Table) {
    forall id :: id in t.rows ==> Valid(t.rows[id])
  }

  /** The facts every endpoint keeps: the table stays well formed, stored records stay
      valid, the id counter never goes back, no id at or below it is newly filled, and
      only a confirmed write changes the table. */
  predicate Steps(t: Table, o: Outcome)
    requires Wf(t)
  {
    && Wf(o.table)
    && (StoredValid(t) ==> StoredValid(o.table))
    && o.table.issued >= t.issued
    && (forall id :: id in o.table.rows && id <= t.issued ==> id in t.rows)
    && (!o.response.Done? ==> o.table == t)
  }

  /** POST /addresses/: validates the body, then inserts it under the next id. */
  function CreateAddressEndpoint(t: Table, body: Address): (o: Outcome)
    requires Wf(t)
    ensures Steps(t, o)
    ensures o.response.Done? <==> Valid(body) && t.issued < MaxRowId
    ensures o.response.Done? ==> o.response.message == AddressCreated
    ensures !Valid(body) ==> o.response == Unprocessable(Validate(body).errors)
    ensures Valid(body) && t.issued == MaxRowId ==> o.response == ServerError(TableFull)
    ensures o.response.Done? ==>
      && Holds(o.table.rows, Row(o.table.issued, body))
      && o.table.issued !in t.rows
      && o.table == Table(t.rows[t.issued + 1 := body], t.issued + 1)
  {
    match Validate(body)
    case Rejected(errors) => Outcome(Unprocessable(errors), t)
    case Accepted(a) =>
      match Insert(t, a)
      case Err(e) => Outcome(ServerError(e), t)
      case Ok(Inserted(t', _)) =>
        assert t' == Table(t.rows[t.issued + 1 := a], t.issued + 1);
        Outcome(Done(AddressCreated), t')
  }

  /** PUT /addresses/{address_id}: validates the body, then overwrites the row with that
      id; an absent id is confirmed all the same. */
  function UpdateAddressEndpoint(t: Table, id: int, body: Address): (o: Outcome)
    requires Wf(t)
    ensures Steps(t, o)
    ensures o.response.Done? <==> Valid(body) && Bindable(id)
    ensures o.response.Done? ==> o.response.message == AddressUpdated
    ensures !Valid(body) ==> o.response == Unprocessable(Validate(body).errors)
    ensures Valid(body) && !Bindable(id) ==> o.response == ServerError(IdOutOfRange)
    ensures o.response.Done? && id in t.rows ==> o.table.rows == t.rows[id := body]
    ensures id !in t.rows ==> o.table == t
    ensures o.table.issued == t.issued
  {
    match Validate(body)
    case Rejected(errors) => Outcome(Unprocessable(errors), t)
    case Accepted(a) =>
      match Update(t, id, a)
      case Err(e) => Outcome(ServerError(e), t)
      case Ok(t') =>
        assert id in t.rows ==> t'.rows == t.rows[id := a];
        Outcome(Done(AddressUpdated), t')
  }

  /** DELETE /addresses/{address_id}: removes the row with that id; an absent id is
      confirmed all the same. */
  function DeleteAddressEndpoint(t: Table, id: int): (o: Outcome)
    requires Wf(t)
    ensures Steps(t, o)
    ensures o.response.Done? <==> Bindable(id)
    ensures o.response.Done? ==> o.response.message == AddressDeleted
    ensures !Bindable(id) ==> o.response == ServerError(IdOutOfRange)
    ensures id !in o.table.rows
    ensures o.response.Done? ==> o.table == Table(t.rows - {id}, t.issued)
  {
    match Delete(t, id)
    case Err(e) => Outcome(ServerError(e), t)
    case Ok(t') =>
      assert t' == Table(t.rows - {id}, t.issued);
      Outcome(Done(AddressDeleted), t')
  }

  /** GET /addresses/nearby/: the parameter errors, or the listing the query gives. */
  function NearbyEndpoint(t: Table, lat: real, lon: real, radius: real, dist: (Point, Point) -> real): (o: Outcome)
    requires Wf(t)
    ensures o.table == t
    ensures o.response.Listing? || o.response.Unprocessable?
    ensures o.response.Listing? <==> -90.0 <= lat <= 90.0 && -180.0 <= lon <= 180.0 && radius > 0.0
    ensures o.response.Listing? ==> Query(t, lat, lon, radius, dist) == Found(o.response.rows)
    ensures o.response.Unprocessable? ==> o.response.errors == CheckQuery(lat, lon, radius)
  {
    match Query(t, lat, lon, radius, dist)
    case BadQuery(errors) => Outcome(Unprocessable(errors), t)
    case Found(rows) => Outcome(Listing(rows), t)
  }

  /** Answers one request with its endpoint. */
  function Handle(t: Table, req: Request, dist: (Point, Point) -> real): (o: Outcome)
    requires Wf(t)
    ensures Steps(t, o)
  {
    match req
    case CreateAddress(body) => CreateAddressEndpoint(t, body)
    case UpdateAddress(id, body) => UpdateAddressEndpoint(t, id, body)
    case DeleteAddress(id) => DeleteAddressEndpoint(t, id)
    case NearbyAddresses(lat, lon, radius) => NearbyEndpoint(t, lat, lon, radius, dist)
  }

  /** The table after answering the requests one after another. */
  function Run(t: Table, reqs: seq<Request>, dist: (Point, Point) -> real): (r: Table)
    requires Wf(t)
    ensures Wf(r)
    decreases |reqs|
  {
    if |reqs| == 0 then t
    else Run(Handle(t, reqs[0], dist).table, reqs[1..], dist)
  }

  /** Since create and update only store validated bodies, every stored record
      satisfies the validator after any sequence of requests. */
  lemma {:induction false} RunKeepsStoredValid(t: Table, reqs: seq<Request>, dist: (Point, Point) -> real)
    requires Wf(t)
    ensures StoredValid(t) ==> StoredValid(Run(t, reqs, dist))
    decreases |reqs|
  {
    if |reqs| != 0 {
      RunKeepsStoredValid(Handle(t, reqs[0], dist).table, reqs[1..], dist);
    }
  }

  /** Ids are never handed out twice: after any sequence of requests, an id at or below
      the starting high-water mark is stored only if it was stored at the start. */
  lemma {:induction false} RunNeverReusesIds(t: Table, reqs: seq<Request>, dist: (Point, Point) -> real)
    requires Wf(t)
    ensures Run(t, reqs, dist).issued >= t.issued
    ensures forall id :: id in Run(t, reqs, dist).rows && id <= t.issued ==> id in t.rows
    decreases |reqs|
  {
    if |reqs| != 0 {
      RunNeverReusesIds(Handle(t, reqs[0], dist).table, reqs[1..], dist);
    }
  }

  /** A deleted record never comes back, whatever requests follow. */
  lemma DeletedStaysDeleted(t: Table, id: int, reqs: seq<Request>, dist: (Point, Point) -> real)
    requires Wf(t) && id in t.rows
    ensures id !in Run(Handle(t, DeleteAddress(id), dist).table, reqs, dist).rows
  {
    RunNeverReusesIds(Handle(t, DeleteAddress(id), dist).table, reqs, dist);
  }

  /** Records are stored with a longitude in [-90, 90], yet a query may be centred
      anywhere in [-180, 180]: a body that is valid but for a longitude in (90, 180] is
      rejected for its longitude alone, while a query centred on the same point is
      accepted. */
  lemma LongitudeRangesDisagree(a: Address, t: Table, radius: real, dist: (Point, Point) -> real)
    requires Wf(t)
    requires ValidName(a.name) && ValidCoordinate(a.latitude) && 90.0 < a.longitude <= 180.0
    requires radius > 0.0
    ensures Validate(a) == Rejected([Longitude])
    ensures Query(t, a.latitude, a.longitude, radius, dist).Found?
  {
  }

  /** The table after creating two records on an empty table. */
  lemma TwoCreatesFromEmpty(first: Address, second: Address, dist: (Point, Point) -> real)
    requires Valid(first) && Valid(second)
    ensures Run(Empty(), [CreateAddress(first), CreateAddress(second)], dist)
      == Table(map[1 := first, 2 := second], 2)
  {
    var reqs := [CreateAddress(first), CreateAddress(second)];
    var t1 := Table(map[1 := first], 1);
    var t2 := Table(map[1 := first, 2 := second], 2);
    assert Handle(Empty(), reqs[0], dist).table == t1 by {
      assert Validate(first) == Accepted(first);
      assert Insert(Empty(), first) == Ok(Inserted(t1, 1));
    }
    assert Handle(t1, reqs[1], dist).table == t2 by {
      assert Validate(second) == Accepted(second);
      assert Insert(t1, second) == Ok(Inserted(t2, 2));
    }
    assert reqs[1..][1..] == [];
    assert Run(t1, reqs[1..], dist) == Run(t2, [], dist);
  }

  /** Two records created on an empty table, the first within a small radius of the
      centre and the second only within a larger one (say a cafe at the centre and
      another 50 km away, with radii of 10 and 1000 km): the small query finds only the
      first, the large one finds both, in creation order. */
  lemma TwoAddressScenario(first: Address, second: Address, center: Point, small: real, large: real,
                           dist: (Point, Point) -> real)
    requires Valid(first) && Valid(second)
    requires -90.0 <= center.lat <= 90.0 && -180.0 <= center.lon <= 180.0 && small > 0.0
    requires dist(center, first.Location()) <= small < dist(center, second.Location()) <= large
    ensures
      var t := Run(Empty(), [CreateAddress(first), CreateAddress(second)], dist);
      && Query(t, center.lat, center.lon, small, dist) == Found([Row(1, first)])
      && Query(t, center.lat, center.lon, large, dist) == Found([Row(1, first), Row(2, second)])
  {
    TwoCreatesFromEmpty(first, second, dist);
    var t := Table(map[1 := first, 2 := second], 2);
    OnlyFirstWithinSmall(t, first, second, center, small, dist);
    BothWithinLarge(t, first, second, center, large, dist);
  }

  lemma OnlyFirstWithinSmall(t: Table, first: Address, second: Address, center: Point, small: real,
                             dist: (Point, Point) -> real)
    requires t == Table(map[1 := first, 2 := second], 2)
    requires -90.0 <= center.lat <= 90.0 && -180.0 <= center.lon <= 180.0 && small > 0.0
    requires dist(center, first.Location()) <= small < dist(center, second.Location())
    ensures Query(t, center.lat, center.lon, small, dist) == Found([Row(1, first)])
  {
    var one := [Row(1, first)];
    forall row
      ensures row in one <==> Holds(t.rows, row) && Near(row, center, small, dist)
    {
      if Holds(t.rows, row) {
        assert row == Row(1, first) || row == Row(2, second);
      }
    }
    QueryAnswers(t, center, small, dist, one);
  }

  lemma BothWithinLarge(t: Table, first: Address, second: Address, center: Point, large: real,
                        dist: (Point, Point) -> real)
    requires t == Table(map[1 := first, 2 := second], 2)
    requires -90.0 <= center.lat <= 90.0 && -180.0 <= center.lon <= 180.0 && large > 0.0
    requires dist(center, first.Location()) <= large && dist(center, second.Location()) <= large
    ensures Query(t, center.lat, center.lon, large, dist) == Found([Row(1, first), Row(2, second)])
  {
    var both := [Row(1, first), Row(2, second)];
    forall row
      ensures row in both <==> Holds(t.rows, row) && Near(row, center, large, dist)
    {
      if Holds(t.rows, row) {
        assert row == Row(1, first) || row == Row(2, second);
      }
    }
    QueryAnswers(t, center, large, dist, both);
  }

  /** A query that passes its checks answers with the given rows when those are, in id
      order, exactly the stored rows within the radius. */
  lemma QueryAnswers(t: Table, center: Point, radius: real, dist: (Point, Point) -> real, expected: seq<Row>)
    requires Wf(t)
    requires -90.0 <= center.lat <= 90.0 && -180.0 <= center.lon <= 180.0 && radius > 0.0
    requires IdsIncreasing(expected)
    requires forall row :: row in expected <==> Holds(t.rows, row) && Near(row, center, radius, dist)
    ensures Query(t, center.lat, center.lon, radius, dist) == Found(expected)
  {
    DeterminedByMembers(Query(t, center.lat, center.lon, radius, dist).rows, expected);
  }
}
