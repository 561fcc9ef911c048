/** `WindData` and its point-in-time query `WindData::for_date`. */
module Forecast {
  import opened Wrappers
  import opened Normalizer

  /** `Duration::hours(2)`, in seconds. */
  const TwoHours: int := 2 * 60 * 60

  /** The slot a record covers for a query at `dt`: strictly after `dt`, at
      most two hours after it. */
  predicate InWindow(d: Data, dt: Instant) {
    dt < d.datetime <= dt + TwoHours
  }

  /** The position of the first record at or after `from` that lies in the
      window of `dt` (`Iterator::find`). */
  function FindInWindow(data: seq<Data>, dt: Instant, from: nat): (r: Option<nat>)
    requires from <= |data|
    ensures r.Some? ==> from <= r.value < |data| && InWindow(data[r.value], dt)
    ensures forall j :: from <= j < |data| && (r.None? || j < r.value) ==> !InWindow(data[j], dt)
    decreases |data| - from
  {
    if from == |data| then None
    else if InWindow(data[from], dt) then Some(from)
    else FindInWindow(data, dt, from + 1)
  }

  /** The scraped forecast: records in the order of the page. */
  datatype WindData = WindData(data: seq<Data>) {

    /** `for_date`: the first record in the two-hour window after `dt`, or
        else the first record; nothing only when there are no records. */
    function ForDate(dt: Instant): (r: Option<Data>)
      ensures r.None? <==> |data| == 0
      ensures r.Some? ==> r.value in data
      ensures forall i :: (0 <= i < |data| && InWindow(data[i], dt)
                           && (forall j :: 0 <= j < i ==> !InWindow(data[j], dt)))
                          ==> r == Some(data[i])
      ensures (|data| > 0 && forall i :: 0 <= i < |data| ==> !InWindow(data[i], dt))
              ==> r == Some(data[0])
    {
      match FindInWindow(data, dt, 0)
      case Some(i) => Some(data[i])
      case None => if |data| == 0 then None else Some(data[0])
    }
  }

  /** A record `t` seconds after instant 0, the rest of its fields fixed. */
  function At(t: Instant): Data {
    Data(t, "N", "status", 0.0, None, None, None, 0, "spot")
  }

  /** Slots at T, T+1h and T+3h. At T+0.5h the T+1h slot answers; at
      T+2.5h the T+3h slot is inside (T+2.5h, T+4.5h] and answers; at T+4h
      no slot is in the window and the first slot (T) answers. */
  lemma WindowExamples(t: Instant)
    ensures WindData([At(t), At(t + 3600), At(t + 10800)]).ForDate(t + 1800) == Some(At(t + 3600))
    ensures WindData([At(t), At(t + 3600), At(t + 10800)]).ForDate(t + 9000) == Some(At(t + 10800))
    ensures WindData([At(t), At(t + 3600), At(t + 10800)]).ForDate(t + 14400) == Some(At(t))
    ensures WindData([]).ForDate(t) == None
  {
    var w := WindData([At(t), At(t + 3600), At(t + 10800)]);
    assert !InWindow(w.data[0], t + 1800) && InWindow(w.data[1], t + 1800);
    assert !InWindow(w.data[0], t + 9000) && !InWindow(w.data[1], t + 9000);
    assert InWindow(w.data[2], t + 9000);
    assert forall i :: 0 <= i < 3 ==> !InWindow(w.data[i], t + 14400);
  }
}
