/** The per-field mappers and the index-wise record assembly of
    `WindFinder::obtain_data`: decoded forecast elements, the two scraped cell
    series and the spot name become one `Data` record per element. */
module Normalizer {
  import opened Wrappers
  import Compass

  /** An absolute instant in whole seconds. `DateTime` values with different
      UTC offsets compare by the instant they denote, so the offset is dropped. */
  type Instant = int

  /** One decoded element of the embedded forecast array. `dtl` is its local
      timestamp after RFC 3339 parsing (`None` when the field is missing, not a
      string or not a valid timestamp); `wd`, `wad`, `ws` and `wh` are what
      `as_f64()` gives for wind bearing, wave bearing, wind speed and wave
      height (`None` when missing or not a number). */
  datatype Entry = Entry(dtl: Option<Instant>, wd: Option<real>, wad: Option<real>,
                         ws: Option<real>, wh: Option<real>)

  /** The `Data` record served for one forecast slot. */
  datatype Data = Data(
    datetime: Instant,
    windDirection: string,
    windStatus: string,
    windSpeed: real,
    waveDirection: Option<string>,
    wavePeriod: Option<int>,
    waveHeight: Option<real>,
    airTemperature: int,
    spotName: string)

  /** Every element carries a timestamp that parses: `as_str().unwrap()` and
      `parse_from_rfc3339(..).expect(..)` do not panic. */
  predicate AllTimestamped(list: seq<Entry>) {
    forall i :: 0 <= i < |list| ==> list[i].dtl.Some?
  }

  /** The `datetimes` vector. */
  function Datetimes(list: seq<Entry>): (r: seq<Instant>)
    requires AllTimestamped(list)
    ensures |r| == |list|
    ensures forall i :: 0 <= i < |list| ==> Some(r[i]) == list[i].dtl
  {
    seq(|list|, i requires 0 <= i < |list| && AllTimestamped(list) => list[i].dtl.value)
  }

  /** `parse_wave_directions`: the label of each element's `wad`, a missing
      bearing counting as 0 degrees, hence "N". */
  function WaveDirections(list: seq<Entry>): (r: seq<string>)
    ensures |r| == |list|
    ensures forall i :: 0 <= i < |list| ==> r[i] in Compass.Directions
    ensures forall i :: 0 <= i < |list| && list[i].wad.None? ==> r[i] == "N"
  {
    Compass.NonPositiveIsNorth(0.0);
    seq(|list|, i requires 0 <= i < |list| => Compass.AngleToDirection(list[i].wad.GetOr(0.0)))
  }

  /** `parse_wind_directions`: the same over `wd`. */
  function WindDirections(list: seq<Entry>): (r: seq<string>)
    ensures |r| == |list|
    ensures forall i :: 0 <= i < |list| ==> r[i] in Compass.Directions
    ensures forall i :: 0 <= i < |list| && list[i].wd.None? ==> r[i] == "N"
  {
    Compass.NonPositiveIsNorth(0.0);
    seq(|list|, i requires 0 <= i < |list| => Compass.AngleToDirection(list[i].wd.GetOr(0.0)))
  }

  /** `parse_wind_speeds`: `ws`, 0 when missing. */
  function WindSpeeds(list: seq<Entry>): (r: seq<real>)
    ensures |r| == |list|
    ensures forall i :: 0 <= i < |list| ==> r[i] == list[i].ws.GetOr(0.0)
  {
    seq(|list|, i requires 0 <= i < |list| => list[i].ws.GetOr(0.0))
  }

  /** `parse_wave_heights`: `wh`, 0 when missing. */
  function WaveHeights(list: seq<Entry>): (r: seq<real>)
    ensures |r| == |list|
    ensures forall i :: 0 <= i < |list| ==> r[i] == list[i].wh.GetOr(0.0)
  {
    seq(|list|, i requires 0 <= i < |list| => list[i].wh.GetOr(0.0))
  }

  /** `get_wind_status`: a placeholder that ignores both directions. */
  function WindStatus(windDirection: string, waveDirection: string): string {
    "status"
  }

  /** `parse_wind_status`: the two direction series zipped, as long as the
      shorter one, each pair classified by `WindStatus`. */
  function WindStatuses(waveDirections: seq<string>, windDirections: seq<string>): (r: seq<string>)
    ensures |r| == if |waveDirections| <= |windDirections| then |waveDirections| else |windDirections|
    ensures forall i :: 0 <= i < |r| ==> r[i] == "status"
  {
    var n := if |waveDirections| <= |windDirections| then |waveDirections| else |windDirections|;
    seq(n, i requires 0 <= i < n && n <= |waveDirections| && n <= |windDirections|
              => WindStatus(waveDirections[i], windDirections[i]))
  }

  /** `Vec::get`: the element at `i` when it is in range. */
  function Get<T>(v: seq<T>, i: nat): (r: Option<T>)
    ensures r.Some? <==> i < |v|
    ensures r.Some? ==> r.value == v[i]
  {
    if i < |v| then Some(v[i]) else None
  }

  /** The `(0..total_records).map(..)` assembly. Timestamps, wind fields,
      statuses and air temperatures are indexed directly (the source panics
      when they are short); wave fields go through `Get`. */
  function Assemble(list: seq<Entry>, wavePeriods: seq<int>, airTemperatures: seq<int>,
                    spotName: string): (data: seq<Data>)
    requires AllTimestamped(list)
    requires |airTemperatures| >= |list|
    ensures |data| == |list|
    ensures forall i :: 0 <= i < |data| ==>
      && Some(data[i].datetime) == list[i].dtl
      && data[i].windDirection == Compass.AngleToDirection(list[i].wd.GetOr(0.0))
      && data[i].windSpeed == list[i].ws.GetOr(0.0)
      && data[i].windStatus == "status"
      && data[i].waveDirection == Some(Compass.AngleToDirection(list[i].wad.GetOr(0.0)))
      && data[i].waveHeight == Some(list[i].wh.GetOr(0.0))
      && data[i].wavePeriod == (if i < |wavePeriods| then Some(wavePeriods[i]) else None)
      && data[i].airTemperature == airTemperatures[i]
      && data[i].spotName == spotName
  {
    var datetimes := Datetimes(list);
    var waveHeights := WaveHeights(list);
    var waveDirections := WaveDirections(list);
    var windDirections := WindDirections(list);
    var windSpeeds := WindSpeeds(list);
    var windStatuses := WindStatuses(waveDirections, windDirections);
    var total := |datetimes|;
    seq(total, i requires 0 <= i < total && total == |list| && |airTemperatures| >= total
                 && total == |windStatuses| && total == |waveDirections|
                 && total == |windDirections| && total == |windSpeeds| =>
      Data(
        datetimes[i],
        windDirections[i],
        windStatuses[i],
        windSpeeds[i],
        Get(waveDirections, i),
        Get(wavePeriods, i),
        Get(waveHeights, i),
        airTemperatures[i],
        spotName))
  }

  /** Records are assembled position by position: dropping trailing elements
      (with their cells) drops the same trailing records. */
  lemma AssemblePrefix(list: seq<Entry>, wavePeriods: seq<int>, airTemperatures: seq<int>,
                       spotName: string, n: nat)
    requires AllTimestamped(list)
    requires |airTemperatures| >= |list|
    requires n <= |list|
    ensures AllTimestamped(list[..n]) && |airTemperatures[..n]| >= n
    ensures Assemble(list[..n], wavePeriods, airTemperatures[..n], spotName)
         == Assemble(list, wavePeriods, airTemperatures, spotName)[..n]
  {
    var short := Assemble(list[..n], wavePeriods, airTemperatures[..n], spotName);
    var long := Assemble(list, wavePeriods, airTemperatures, spotName);
    forall i | 0 <= i < n ensures short[i] == long[i] {
      assert list[..n][i] == list[i];
    }
  }
}
