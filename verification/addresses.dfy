/**
  The request body of the create and update endpoints (the `Address` model) and
  the field constraints that are checked on it before a handler runs.

  Like the request validation in front of the handlers, a check does not stop at
  the first bad field: every failing field is reported, in declaration order.
 */
module Addresses {

  /** A (latitude, longitude) pair, the shape the distance function is given. */
  datatype Point = Point(lat: real, lon: real)

  /** The four client-supplied fields of an address record; the id is not part of it. */
  datatype Address = Address(name: string, address: string, latitude: real, longitude: real)
  {
    function Location(): Point {
      Point(latitude, longitude)
    }
  }

  /** The request fields a validation error can name: the three checked fields of the
      `Address` body, and `Distance`, the nearby query's radius parameter, which is no
      field of the body but is reported through the same error list. */
  datatype Field = Name | Latitude | Longitude | Distance

  /** Declaration order of the fields, which is the order errors are reported in. */
  function Rank(f: Field): nat {
    match f
    case Name => 0
    case Latitude => 1
    case Longitude => 2
    case Distance => 3
  }

  /** A list of fields with no repetition, in declaration order. */
  predicate InFieldOrder(fs: seq<Field>) {
    forall i, j :: 0 <= i < j < |fs| ==> Rank(fs[i]) < Rank(fs[j])
  }

  /** The errors one field contributes: itself when its check fails, nothing otherwise. */
  function Report(f: Field, ok: bool): (r: seq<Field>)
    ensures f in r <==> !ok
    ensures forall g :: g in r ==> g == f
    ensures |r| <= 1
  {
    if ok then [] else [f]
  }

  const MaxNameLength: nat := 255

  /** `name` carries min_length=1 and max_length=255. */
  predicate ValidName(name: string) {
    1 <= |name| <= MaxNameLength
  }

  /** The single bound the coordinate validator applies, to latitude and longitude alike. */
  predicate ValidCoordinate(v: real) {
    -90.0 <= v <= 90.0
  }

  /** An address the model accepts; `address` itself is unconstrained. */
  predicate Valid(a: Address) {
    ValidName(a.name) && ValidCoordinate(a.latitude) && ValidCoordinate(a.longitude)
  }

  datatype Checked = Accepted(value: Address) | Rejected(errors: seq<Field>)

  /** Validates a request body: the value itself when every constraint holds, otherwise
      the list of every field that broke its constraint. */
  function Validate(a: Address): (r: Checked)
    ensures r.Accepted? <==> Valid(a)
    ensures r.Accepted? ==> r.value == a
    ensures r.Rejected? ==> |r.errors| > 0 && InFieldOrder(r.errors)
    ensures r.Rejected? ==>
      && (Name in r.errors <==> !ValidName(a.name))
      && (Latitude in r.errors <==> !ValidCoordinate(a.latitude))
      && (Longitude in r.errors <==> !ValidCoordinate(a.longitude))
      && Distance !in r.errors
  {
    var errors := Report(Name, ValidName(a.name))
                  + Report(Latitude, ValidCoordinate(a.latitude))
                  + Report(Longitude, ValidCoordinate(a.longitude));
    if errors == [] then
      Accepted(a)
    else
      assert errors[0] in errors;
      Rejected(errors)
  }

  /** The boundaries of the constraints: both ends are inclusive, and longitude has the
      same [-90, 90] range as latitude. */
  lemma ValidatorBoundaries(a: Address)
    ensures |a.name| == 0 || |a.name| == 256 ==> Validate(a).Rejected? && Name in Validate(a).errors
    ensures (|a.name| == 1 || |a.name| == 255) && a.latitude in {-90.0, 90.0} && a.longitude in {-90.0, 90.0}
      ==> Validate(a) == Accepted(a)
    ensures a.latitude in {-91.0, 91.0} ==> Validate(a).Rejected? && Latitude in Validate(a).errors
    ensures a.longitude in {-91.0, 91.0} ==> Validate(a).Rejected? && Longitude in Validate(a).errors
  {
  }
}
