/** The schedule codec of the relational backend: `_serialize_schedule`
    turns a schedule object into a JSON-storable value and
    `_deserialize_schedule` turns a stored value back into a schedule. */
module Codec {
  import opened Values

  /** The keys written for a crontab. */
  const CrontabKeys: set<string> := {"minute", "hour", "day_of_week", "day_of_month", "month_of_year"}

  /** The keys written for a solar schedule; `longtitude` is spelled this
      way by both directions of the codec. */
  const SolarKeys: set<string> := {"event", "latitude", "longtitude"}

  /** The wildcard that stands in for a crontab field the stored map lacks. */
  const Wildcard: Value := Str("*")

  /** A `celery.schedules.schedule` is serialized through its `run_every`. */
  function Unwrap(v: Value): Value {
    if v.Every? then v.runEvery else v
  }

  /** The schedule kinds the codec supports (after unwrapping). */
  predicate IsSchedule(v: Value) {
    IsNumber(v) || v.Crontab? || v.Solar?
  }

  function Serialize(v: Value): (r: Result<Value>)
    ensures r.Ok? <==> IsSchedule(Unwrap(v))
    ensures r.Err? ==> r.error == TypeError
    ensures r.Ok? ==> r.value != Null
    ensures IsNumber(Unwrap(v)) ==> r == Ok(Unwrap(v))
    ensures Unwrap(v).Crontab? ==> r.Ok? && r.value.Dict? && r.value.fields.Keys == CrontabKeys
    ensures Unwrap(v).Solar? ==> r.Ok? && r.value.Dict? && r.value.fields.Keys == SolarKeys
  {
    var s := Unwrap(v);
    if IsNumber(s) then
      Ok(s)
    else if s.Crontab? then
      Ok(Dict(map[
        "minute" := s.minute,
        "hour" := s.hour,
        "day_of_week" := s.dayOfWeek,
        "day_of_month" := s.dayOfMonth,
        "month_of_year" := s.monthOfYear]))
    else if s.Solar? then
      Ok(Dict(map["event" := s.event, "latitude" := s.lat, "longtitude" := s.lon]))
    else
      Err(TypeError)
  }

  function Deserialize(p: Value): (r: Result<Value>)
    ensures r.Ok? <==> IsNumber(p) || p.Dict?
    ensures r.Err? ==> r.error == TypeError
    ensures r.Ok? ==> IsSchedule(r.value)
    ensures IsNumber(p) ==> r == Ok(p)
    ensures p.Dict? ==> r.Ok? && (r.value.Solar? <==> "event" in p.fields)
    ensures p.Dict? && "event" in p.fields ==> r.value.event == p.fields["event"]
  {
    if IsNumber(p) then
      Ok(p)
    else if p.Dict? then
      var f := p.fields;
      if "event" in f then
        Ok(Solar(GetOr(f, "event", Null), GetOr(f, "latitude", Null), GetOr(f, "longtitude", Null)))
      else
        Ok(Crontab(
          GetOr(f, "minute", Wildcard),
          GetOr(f, "hour", Wildcard),
          GetOr(f, "day_of_week", Wildcard),
          GetOr(f, "day_of_month", Wildcard),
          GetOr(f, "month_of_year", Wildcard)))
    else
      Err(TypeError)
  }

  /** Round trip: every supported schedule comes back unchanged; a
      `schedule` wrapper comes back as its `run_every`. */
  lemma RoundTrip(v: Value)
    requires IsSchedule(Unwrap(v))
    ensures Serialize(v).Ok? && Deserialize(Serialize(v).value) == Ok(Unwrap(v))
  {
  }

  /** A stored map without `event` is a crontab, and each of the five
      fields that the map lacks is the wildcard. */
  lemma CrontabDefaults(f: map<string, Value>)
    requires "event" !in f
    ensures Deserialize(Dict(f)).Ok?
    ensures var c := Deserialize(Dict(f)).value;
      && c.Crontab?
      && c.minute == GetOr(f, "minute", Wildcard)
      && c.hour == GetOr(f, "hour", Wildcard)
      && c.dayOfWeek == GetOr(f, "day_of_week", Wildcard)
      && c.dayOfMonth == GetOr(f, "day_of_month", Wildcard)
      && c.monthOfYear == GetOr(f, "month_of_year", Wildcard)
  {
  }

  /** A stored map with `event` is a solar schedule read from the keys
      that `Serialize` writes, the misspelled `longtitude` included. */
  lemma SolarReadsWrittenKeys(event: Value, lat: Value, lon: Value)
    ensures Serialize(Solar(event, lat, lon)) == Ok(Dict(map["event" := event, "latitude" := lat, "longtitude" := lon]))
    ensures Deserialize(Serialize(Solar(event, lat, lon)).value) == Ok(Solar(event, lat, lon))
  {
  }

  /** The stored form that `Serialize` writes back for a stored value:
      numbers stay, a map is cut down to the keys of the kind it
      deserializes to, with absent keys filled in. */
  function Canonical(p: Value): (c: Value)
    requires IsNumber(p) || p.Dict?
    ensures IsNumber(p) ==> c == p
    ensures p.Dict? ==> c.Dict? && c.fields.Keys == (if "event" in p.fields then SolarKeys else CrontabKeys)
    ensures p.Dict? ==> forall k :: k in c.fields && k in p.fields ==> c.fields[k] == p.fields[k]
  {
    if IsNumber(p) then p
    else
      var f := p.fields;
      if "event" in f then
        Dict(map["event" := GetOr(f, "event", Null), "latitude" := GetOr(f, "latitude", Null),
                 "longtitude" := GetOr(f, "longtitude", Null)])
      else
        Dict(map[
          "minute" := GetOr(f, "minute", Wildcard),
          "hour" := GetOr(f, "hour", Wildcard),
          "day_of_week" := GetOr(f, "day_of_week", Wildcard),
          "day_of_month" := GetOr(f, "day_of_month", Wildcard),
          "month_of_year" := GetOr(f, "month_of_year", Wildcard)])
  }

  /** The other direction of the round trip: re-serializing what was
      read gives the stored value in canonical form, and a value that
      `Serialize` wrote is already canonical. */
  lemma ReserializeIsCanonical(p: Value)
    requires IsNumber(p) || p.Dict?
    ensures Deserialize(p).Ok? && Serialize(Deserialize(p).value) == Ok(Canonical(p))
  {
  }

  lemma SerializedIsCanonical(v: Value)
    requires IsSchedule(Unwrap(v))
    ensures Canonical(Serialize(v).value) == Serialize(v).value
  {
  }
}
