/** The astronomy library as the service sees it. Its numerics (ephemeris
    interpolation, light time, aberration, the transform to the equator and
    equinox of date, the planetary brightness models) are not modelled: they
    are values of function type that the routes receive, and the only fact
    the service relies on is how the batch observation lines its outputs up
    with its input. */
module Sky {
  import opened Outcomes
  import opened Catalog

  /** An instant on the library's time scale, built from the request's Unix
      time (the conversion is not part of this model). */
  datatype Instant = Instant(terrestrialDays: real)

  /** An apparent geocentric place of date: right ascension in hours,
      declination in degrees, distance in metres. */
  datatype Place = Place(raHours: real, decDegrees: real, distMeters: real)

  /** The loaded ephemeris and the library's observation routines.
      - `observeStar`: `earth.at(t).observe(star).radec(epoch='date')` for a
        star built from a row's positional columns;
      - `segments`: the names `ephem[name]` accepts;
      - `observeBody`: the same observation for a named ephemeris body;
      - `planetaryMagnitude`: `planetary_magnitude` of that observation,
        `None` where the library raises. */
  datatype Oracle = Oracle(
    observeStar: (Instant, Astrometry) -> Place,
    segments: set<string>,
    observeBody: (Instant, string) -> Place,
    planetaryMagnitude: (Instant, string) -> Option<real>)

  /** The three arrays a batch observation returns. */
  datatype Batch = Batch(ra: seq<real>, dec: seq<real>, dist: seq<real>)

  /** Observing a batch of stars at once (main.py:110-113): three arrays as
      long as the batch, and entry `i` of each is the place of star `i`
      observed on its own. */
  function ObserveBatch(o: Oracle, t: Instant, stars: seq<Astrometry>): (b: Batch)
    ensures |b.ra| == |stars| && |b.dec| == |stars| && |b.dist| == |stars|
    ensures forall i :: 0 <= i < |stars| ==>
      Place(b.ra[i], b.dec[i], b.dist[i]) == o.observeStar(t, stars[i])
  {
    var places := seq(|stars|, i requires 0 <= i < |stars| => o.observeStar(t, stars[i]));
    Batch(seq(|stars|, i requires 0 <= i < |stars| => places[i].raHours),
          seq(|stars|, i requires 0 <= i < |stars| => places[i].decDegrees),
          seq(|stars|, i requires 0 <= i < |stars| => places[i].distMeters))
  }
}
