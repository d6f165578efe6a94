# Address book service: a Dafny model

This project models the logic of a small address-book web service. The service
stores named addresses with coordinates in an SQLite table. It offers four
endpoints: create, update and delete an address, and list the addresses within a
radius of a point. The model has four parts:

- `Addresses` (addresses.dfy): the `Address` request body and its field constraints.
  A name must have 1 to 255 characters. Latitude and longitude must both lie in
  [-90, 90]; the same bound applies to both, so a longitude of 120 is rejected. The
  address text is unconstrained. As in the request validation in front of the
  handlers, every failing field is reported, in declaration order.
- `AddressStore` (store.dfy): the `addresses` table and the effect of the four
  statements the handlers issue. These are INSERT, UPDATE by id, DELETE by id and
  `SELECT *`. The table is a map from id to record plus the AUTOINCREMENT high-water
  mark, so an id is never assigned twice. Update and delete of an absent id change
  nothing. An id that does not fit a 64-bit SQLite INTEGER makes the statement fail.
  Once id 2^63-1 has been assigned, an insert fails with SQLITE_FULL.
- `Nearby` (nearby.dfy): the nearby query. It first checks its parameters: latitude
  in [-90, 90], longitude in [-180, 180], distance > 0. It then keeps the rows of a
  full scan whose distance from the centre is at most the radius, boundary included,
  in scan order (ascending id). The geodesic distance is a foreign floating-point
  computation. It is the parameter `dist: (Point, Point) -> real`, applied as
  `dist(centre, record)`, and nothing is assumed about it: not symmetry, and not a
  zero distance from a point to itself.
- `Service` (service.dfy): the endpoints as a request/response state machine. It
  carries the invariants that hold across any sequence of requests.

Coordinates and distances are `real`. The query's longitude range [-180, 180] is
wider than the range a stored record can have. The model keeps both bounds as
written, and `Service.LongitudeRangesDisagree` exhibits the mismatch.

## Model

| member | source | states |
|---|---|---|
| Addresses.Validate | API.py:37-47 | A body is accepted, unchanged, exactly when the name has 1..255 characters and latitude and longitude both lie in [-90, 90]. Otherwise the error list names exactly the fields that fail, each once, in declaration order. |
| Addresses.ValidatorBoundaries | API.py:38-47 | Names of length 0 and 256 are rejected and lengths 1 and 255 accepted. Coordinates -90 and 90 are accepted and -91 and 91 rejected, and longitude uses the same bound as latitude. |
| AddressStore.Insert | API.py:53-56 | On success the new id is held by no existing record and is above every id ever assigned. The record is stored under it and every other record is unchanged. The insert fails with TableFull exactly when id 2^63-1 has already been assigned. |
| AddressStore.Update | API.py:67-69 | The row with the id gets all four new fields and keeps its id; the id set and every other row are unchanged. An absent id leaves the table identical and is still success. An id outside the 64-bit range is an error. |
| AddressStore.Delete | API.py:81 | Removes exactly the given id and leaves every other row unchanged. An absent id leaves the table identical and is still success. An id outside the 64-bit range is an error. |
| AddressStore.Scan | API.py:96-97 | A full scan returns every stored row exactly once, with its stored fields, in ascending id order. |
| Nearby.CheckQuery | API.py:91-93 | A query parameter is reported exactly when it is out of range: latitude outside [-90, 90], longitude outside [-180, 180], or distance <= 0. |
| Nearby.Within | API.py:101-110 | The filter keeps exactly the rows whose distance from the centre is <= the radius, boundary included, and is never longer than its input. For id-ordered input (every scan) the result is id-ordered too. |
| Nearby.CollectNearby | API.py:98-110 | The handler's loop, one pass appending each row within the radius, computes the filter `Within`. |
| Nearby.Query | API.py:90-113 | A query is rejected before the scan exactly when a parameter is out of range. Otherwise it answers with exactly the stored rows within the radius, each with its stored id and fields, in ascending id order. |
| Nearby.DeterminedByMembers | API.py:96-113 | Two row lists with strictly increasing ids and the same members are equal. So the contract of `Query` fixes its answer, order included. |
| Service.CreateAddressEndpoint | API.py:50-61 | An invalid body is answered with its field errors and writes nothing. A valid body is added under the next id, and every other row stays as it was. Once the id space is used up, the answer is a server error and the table is unchanged. |
| Service.UpdateAddressEndpoint | API.py:64-75 | An invalid body is answered with its field errors. A valid body replaces the four fields of the row with that id, and that row only. An absent id leaves the table unchanged and is still confirmed. An out-of-range id is a server error. The id counter never moves. |
| Service.DeleteAddressEndpoint | API.py:78-87 | Removes exactly that id and keeps the other rows and the id counter. An absent id is still confirmed. An out-of-range id is a server error. The id is absent afterwards in every case. |
| Service.NearbyEndpoint | API.py:90-116 | Never writes. It answers with the listing `Query` gives exactly when all three parameters are in range, and otherwise with `CheckQuery`'s errors. |
| Service.Handle | API.py:50-116 | Every request keeps the table well formed and keeps stored records valid. The id counter never decreases, and no id at or below it is filled anew. Only a confirmed create, update or delete changes the table. |
| Service.RunKeepsStoredValid | API.py:37-72 | After any sequence of requests, every stored record still satisfies the validator. |
| Service.RunNeverReusesIds | API.py:29-30 | After any sequence of requests, an id at or below the starting high-water mark is stored only if it was stored at the start. |
| Service.DeletedStaysDeleted | API.py:81-84 | Once a stored id is deleted, it is absent after any later sequence of requests. |
| Service.LongitudeRangesDisagree | API.py:91-92 | Take a body that is valid except for a longitude in (90, 180]. It is rejected with the longitude error alone, yet a query centred on the same point is accepted. |
| Service.TwoCreatesFromEmpty | API.py:53-56 | Two creates on an empty table store the records under ids 1 and 2. |
| Service.QueryAnswers | API.py:96-113 | A query with valid parameters answers with a given id-ordered list if its members are exactly the stored rows within the radius. The converse (every answer is id-ordered and has those members) is part of the contract of `Nearby.Query`. |
| Service.TwoAddressScenario | API.py:96-113 | With one record inside the small radius and one outside it but inside the large radius, the small query returns only the first record and the large query returns both, in creation order. |

## Left out

- The geodesic distance (`geopy.distance.geodesic`) is a function parameter. Its ellipsoid numerics are not modelled, and no symmetry or zero self-distance is assumed.
- Floating point: coordinates and distances are `real`, so NaN, infinities and rounding are not modelled.
- Logging, the SQLite connection lifecycle (`get_db`, commit, close) and the table bootstrap are I/O. Each statement is modelled by its effect on the table. A fresh database is the table `AddressStore.Empty`.
- Failures of the storage medium itself (disk errors, a locked database) are not modelled. The only statement failures modelled are the id-space limit and the out-of-range id. All statement failures are shown as `ServerError` with the table unchanged, which is the effect of a transaction that was never committed.
- The HTTP layer (routing, status codes, response bodies, the exception text in the 500 response) and the asyncio entry point are left out. Responses are abstract values: `Done`, `Listing`, `Unprocessable`, `ServerError`.
- Strings are `string`, sequences of Unicode scalar values, so a character can never be a lone UTF-16 surrogate. A JSON string with an unpaired surrogate escape (`"\ud800"`) counts as one character for the name's length check. It then fails to encode when the INSERT or UPDATE binds it, and the handler answers a server error (API.py:53-61, API.py:67-75). That input is not modelled, so `Service.CreateAddressEndpoint` and `Service.UpdateAddressEndpoint` confirm every valid body that reaches a bindable statement.
- The distance function is taken to be total on stored rows. `geopy` raises `ValueError` for a stored latitude outside [-90, 90], which the nearby handler turns into a server error (API.py:114-116). `Nearby.Query` and `Service.NearbyEndpoint` answer with a listing for every well-formed table. No table reachable through the endpoints holds such a row (`Service.RunKeepsStoredValid`), so this differs from the source only for rows written by other means.
- Input coercion before validation (strings turned into numbers, malformed JSON, a non-integer path id) is left out. Requests arrive already typed.
- `dbcheck.py`, a script that prints every row, is pure I/O and is not part of this model.
- Scan order: `SELECT * FROM addresses` has no ORDER BY, so SQL itself promises no order. The model takes it to be SQLite's table-scan order, ascending rowid, which for an AUTOINCREMENT table is creation order. `AddressStore.Scan`, `Nearby.Query` and the scenario lemmas rely on this.
- Concurrency: the handlers may run concurrently in a thread pool. `Service.Run` answers requests one after another. This is sound because each handler commits a single statement, which SQLite applies atomically, so any concurrent run equals some sequential order.
- AddressStore.Scan: takes the table's well-formedness (positive ids no larger than the high-water mark) as a precondition. SQLite maintains this for an AUTOINCREMENT table, and every operation of the model preserves it.
