/** Station rules (Services/ChargingStationService.cs): the AC/DC type check,
    the location check and default slots on create, the type lock on update,
    the nearby-search radius guard, and adding and removing time slots in a
    station's slot list. */
module StationRules {
  import opened Common
  import opened Clock
  import opened Decimal
  import opened Collections
  import opened Keyed
  import opened Models
  import opened StationStore

  const StationTypeMessage := "Station type must be 'AC' or 'DC'"
  const LocationRequired := "Location information is required"
  const StationNotFound := "Charging station not found"
  const TypeLocked := "Cannot change station type when station is in use"
  const RadiusMessage := "Radius must be between 1 and 100 km"
  const SlotIdExists := "Slot ID already exists"
  const SlotNotFound := "Time slot not found"

  /** Slots made for a station created without any, starting at 08:00 UTC. */
  const DefaultSlotCount: nat := 10
  const DefaultFirstHour: nat := 8

  predicate IsValidStationType(stationType: string) {
    stationType == "AC" || stationType == "DC"
  }

  /** `GetStationsByTypeAsync` of the service: the type is checked before the query. */
  function GetStationsByTypeChecked(stations: seq<ChargingStation>, stationType: string)
    : (r: Result<seq<ChargingStation>>)
    ensures r.Err? <==> !IsValidStationType(stationType)
    ensures r.Err? ==> r.error == ArgumentException(StationTypeMessage)
    ensures r.Ok? ==> forall s :: s in r.value <==>
      s in stations && s.StationType == stationType && s.IsActive
  {
    if !IsValidStationType(stationType) then Err(ArgumentException(StationTypeMessage))
    else Ok(GetStationsByType(stations, stationType))
  }

  /** The radius check of `GetNearbyStationsAsync`: a radius in (0, 100] km
      passes (the message's "between 1 and 100" is not what is checked). */
  function CheckNearbyRadius(radiusKm: real): (r: Option<Error>)
    ensures r.None? <==> 0.0 < radiusKm <= 100.0
    ensures r.Some? ==> r.value == ArgumentException(RadiusMessage)
  {
    if radiusKm <= 0.0 || radiusKm > 100.0 then Some(ArgumentException(RadiusMessage)) else None
  }

  // ---- time slots of a station ----

  function SlotKey(t: TimeSlot): string {
    t.SlotId
  }

  /** The `i`-th default slot (0-based) for a station created at `now`. */
  function DefaultSlot(now: Instant, i: nat): TimeSlot {
    var startTime := Date(now) + DefaultFirstHour * MsPerHour;
    TimeSlot("SLOT_" + NatToString(i + 1), startTime + i * MsPerHour, startTime + (i + 1) * MsPerHour, true)
  }

  /** The default slots are ten available hour-long slots back to back from
      08:00 to 18:00 of the creation day, with distinct ids `SLOT_1`..`SLOT_10`. */
  lemma {:induction false} DefaultSlotsShape(now: Instant)
    ensures forall i :: 0 <= i < DefaultSlotCount ==>
      var t := DefaultSlot(now, i);
      t.IsAvailable && t.EndTime == t.StartTime + MsPerHour &&
      Date(now) + 8 * MsPerHour <= t.StartTime && t.EndTime <= Date(now) + 18 * MsPerHour &&
      Date(t.StartTime) == Date(now)
    ensures forall i :: 0 <= i < DefaultSlotCount - 1 ==> DefaultSlot(now, i).EndTime == DefaultSlot(now, i + 1).StartTime
    ensures forall i, j :: 0 <= i < j < DefaultSlotCount ==> DefaultSlot(now, i).SlotId != DefaultSlot(now, j).SlotId
  {
    forall i | 0 <= i < DefaultSlotCount
      ensures var t := DefaultSlot(now, i);
        t.IsAvailable && t.EndTime == t.StartTime + MsPerHour &&
        Date(now) + 8 * MsPerHour <= t.StartTime && t.EndTime <= Date(now) + 18 * MsPerHour &&
        Date(t.StartTime) == Date(now)
    {
      DefaultSlotFits(now, i);
    }
    forall i | 0 <= i < DefaultSlotCount - 1
      ensures DefaultSlot(now, i).EndTime == DefaultSlot(now, i + 1).StartTime
    {
      DefaultSlotFits(now, i);
      DefaultSlotFits(now, i + 1);
    }
    forall i, j | 0 <= i < j < DefaultSlotCount
      ensures DefaultSlot(now, i).SlotId != DefaultSlot(now, j).SlotId
    {
      SlotNamesDiffer(i + 1, j + 1);
    }
  }

  /** The `i`-th default slot runs from `8 + i` to `9 + i` o'clock of the creation day. */
  lemma DefaultSlotFits(now: Instant, i: nat)
    requires i < DefaultSlotCount
    ensures DefaultSlot(now, i).StartTime == Date(now) + 8 * MsPerHour + i * MsPerHour
    ensures DefaultSlot(now, i).EndTime == DefaultSlot(now, i).StartTime + MsPerHour
    ensures DefaultSlot(now, i).EndTime <= Date(now) + 18 * MsPerHour
    ensures Date(DefaultSlot(now, i).StartTime) == Date(now)
  {
    var d := Date(now);
    var h := i * MsPerHour;
    assert (i + 1) * MsPerHour == h + MsPerHour;
    assert h <= 9 * MsPerHour;
    var t := d + 8 * MsPerHour + h;
    assert d <= t < d + MsPerDay;
    SameDate(t, now);
    assert d / MsPerDay == now / MsPerDay;
    assert t / MsPerDay == now / MsPerDay by {
      assert d % MsPerDay == 0;
      assert (d + (t - d)) / MsPerDay == d / MsPerDay + (t - d) / MsPerDay;
    }
  }

  /** `SLOT_m` and `SLOT_n` differ for different numbers. */
  lemma SlotNamesDiffer(m: nat, n: nat)
    requires m != n
    ensures "SLOT_" + NatToString(m) != "SLOT_" + NatToString(n)
  {
    var a := "SLOT_" + NatToString(m);
    var b := "SLOT_" + NatToString(n);
    assert a[5..] == NatToString(m);
    assert b[5..] == NatToString(n);
    NatToStringInjective(m, n);
  }

  /** `GenerateDefaultTimeSlots`. */
  method GenerateDefaultTimeSlots(now: Instant) returns (slots: seq<TimeSlot>)
    ensures |slots| == DefaultSlotCount
    ensures forall i :: 0 <= i < DefaultSlotCount ==> slots[i] == DefaultSlot(now, i)
  {
    var startTime := Date(now) + DefaultFirstHour * MsPerHour;
    slots := [];
    var i := 0;
    while i < DefaultSlotCount
      invariant 0 <= i <= DefaultSlotCount
      invariant |slots| == i
      invariant forall k :: 0 <= k < i ==> slots[k] == DefaultSlot(now, k)
    {
      slots := slots + [TimeSlot("SLOT_" + NatToString(i + 1), startTime + i * MsPerHour,
                                 startTime + (i + 1) * MsPerHour, true)];
      i := i + 1;
    }
  }

  /** The slot id `AddTimeSlotAsync` stores: the given one, or `SLOT_` and the
      current instant to the millisecond when none is given. */
  function SlotIdFor(t: TimeSlot, now: Instant): (id: string)
    requires now <= MaxInstant
    ensures id != ""
    ensures t.SlotId != "" ==> id == t.SlotId
    ensures t.SlotId == "" ==> |id| == 22 && id[..5] == "SLOT_" && id[5..] == StampWithMillis(now)
  {
    if t.SlotId == "" then "SLOT_" + StampWithMillis(now) else t.SlotId
  }

  /** Adding a slot with a fresh id and then removing that id restores the list. */
  lemma {:induction false} RemoveUndoesAdd(slots: seq<TimeSlot>, t: TimeSlot)
    requires Lookup(slots, SlotKey, t.SlotId).None?
    ensures RemoveFirst(slots + [t], KeyIs(SlotKey, t.SlotId)) == slots
  {
    var s := slots + [t];
    var p := KeyIs(SlotKey, t.SlotId);
    assert forall j :: 0 <= j < |slots| ==> !p(s[j]);
    assert s[|slots|] == t && SlotKey(t) == t.SlotId;
    assert p(s[|slots|]);
    var k := FirstIndex(s, p);
    assert k == Some(|slots|);
    assert s[..|slots|] == slots;
  }

  /** Adding a slot with a fresh id keeps slot ids unique; removing one does too. */
  lemma SlotIdsStayUnique(slots: seq<TimeSlot>, t: TimeSlot, slotId: string)
    requires UniqueKeys(slots, SlotKey)
    ensures Lookup(slots, SlotKey, t.SlotId).None? ==> UniqueKeys(slots + [t], SlotKey)
    ensures UniqueKeys(RemoveFirst(slots, KeyIs(SlotKey, slotId)), SlotKey)
  {
    if Lookup(slots, SlotKey, t.SlotId).None? {
      AppendEffect(slots, SlotKey, t);
    }
    RemoveEffect(slots, SlotKey, slotId);
  }

  class ChargingStationService {
    const stationRepository: ChargingStationRepository

    constructor (stationRepository: ChargingStationRepository)
      ensures this.stationRepository == stationRepository
    {
      this.stationRepository := stationRepository;
    }

    /** `CreateStationAsync`: type, then location; an empty slot list gets the
        default slots; then the insert. */
    method CreateStation(station: ChargingStation, now: Instant, generatedId: string)
      returns (r: Result<ChargingStation>)
      requires stationRepository.Valid()
      requires generatedId != "" && FindStation(stationRepository.stations, generatedId).None?
      modifies stationRepository
      ensures stationRepository.Valid()
      ensures !IsValidStationType(station.StationType) ==> r == Err(ArgumentException(StationTypeMessage))
      ensures IsValidStationType(station.StationType) && station.Location.None? ==>
        r == Err(ArgumentException(LocationRequired))
      ensures r.Err? ==> stationRepository.stations == old(stationRepository.stations)
      ensures r.Ok? ==>
        IsValidStationType(station.StationType) && station.Location.Some? &&
        r.value.Id != "" && (station.Id != "" ==> r.value.Id == station.Id) &&
        r.value == station.(Id := r.value.Id, AvailableSlots := r.value.AvailableSlots) &&
        (|station.AvailableSlots| > 0 ==> r.value.AvailableSlots == station.AvailableSlots) &&
        (|station.AvailableSlots| == 0 ==>
          |r.value.AvailableSlots| == DefaultSlotCount &&
          forall i :: 0 <= i < DefaultSlotCount ==> r.value.AvailableSlots[i] == DefaultSlot(now, i)) &&
        stationRepository.stations == old(stationRepository.stations) + [r.value]
      ensures IsValidStationType(station.StationType) && station.Location.Some? ==>
        var id := if station.Id == "" then generatedId else station.Id;
        if FindStation(old(stationRepository.stations), id).Some? then
          r == Err(Database(DuplicateKey))
        else
          r.Ok? && r.value.Id == id
    {
      if !IsValidStationType(station.StationType) {
        return Err(ArgumentException(StationTypeMessage));
      }
      if station.Location.None? {
        return Err(ArgumentException(LocationRequired));
      }
      var toStore := station;
      if |station.AvailableSlots| == 0 {
        var slots := GenerateDefaultTimeSlots(now);
        toStore := toStore.(AvailableSlots := slots);
      }
      r := stationRepository.Create(toStore, generatedId);
    }

    /** `UpdateStationAsync`: the station must exist and keep its type; the
        new record then replaces it. */
    method UpdateStation(id: string, station: ChargingStation) returns (r: Result<ChargingStation>)
      requires stationRepository.Valid() && station.Id == id
      modifies stationRepository
      ensures stationRepository.Valid()
      ensures FindStation(old(stationRepository.stations), id).None? ==>
        r == Err(ArgumentException(StationNotFound))
      ensures FindStation(old(stationRepository.stations), id).Some? ==>
        if FindStation(old(stationRepository.stations), id).value.StationType != station.StationType then
          r == Err(InvalidOperationException(TypeLocked))
        else
          r == Ok(station)
      ensures r.Err? ==> stationRepository.stations == old(stationRepository.stations)
      ensures r.Ok? ==>
        FindStation(stationRepository.stations, id) == Some(station) &&
        forall other :: other != id ==>
          FindStation(stationRepository.stations, other) == FindStation(old(stationRepository.stations), other)
    {
      var existing := FindStation(stationRepository.stations, id);
      if existing.None? {
        return Err(ArgumentException(StationNotFound));
      }
      if existing.value.StationType != station.StationType {
        return Err(InvalidOperationException(TypeLocked));
      }
      stationRepository.Update(id, station);
      r := Ok(station);
    }

    /** `AddTimeSlotAsync`: the slot, under its id or a generated one, is
        appended to the station's list unless that id is already there. */
    method AddTimeSlot(stationId: string, timeSlot: TimeSlot, now: Instant) returns (r: Result<bool>)
      requires stationRepository.Valid() && now <= MaxInstant
      modifies stationRepository
      ensures stationRepository.Valid()
      ensures FindStation(old(stationRepository.stations), stationId).None? ==>
        r == Err(ArgumentException(StationNotFound))
      ensures r.Err? ==> stationRepository.stations == old(stationRepository.stations)
      ensures FindStation(old(stationRepository.stations), stationId).Some? ==>
        var station := FindStation(old(stationRepository.stations), stationId).value;
        var slot := timeSlot.(SlotId := SlotIdFor(timeSlot, now));
        if Lookup(station.AvailableSlots, SlotKey, slot.SlotId).Some? then
          r == Err(InvalidOperationException(SlotIdExists))
        else
          r == Ok(true) &&
          FindStation(stationRepository.stations, stationId) ==
            Some(station.(AvailableSlots := station.AvailableSlots + [slot])) &&
          forall other :: other != stationId ==>
            FindStation(stationRepository.stations, other) == FindStation(old(stationRepository.stations), other)
    {
      var station := FindStation(stationRepository.stations, stationId);
      if station.None? {
        return Err(ArgumentException(StationNotFound));
      }
      var slot := timeSlot.(SlotId := SlotIdFor(timeSlot, now));
      if Lookup(station.value.AvailableSlots, SlotKey, slot.SlotId).Some? {
        return Err(InvalidOperationException(SlotIdExists));
      }
      stationRepository.Update(stationId, station.value.(AvailableSlots := station.value.AvailableSlots + [slot]));
      r := Ok(true);
    }

    /** `RemoveTimeSlotAsync`: the first slot with that id is removed, the
        others keep their order. */
    method RemoveTimeSlot(stationId: string, slotId: string) returns (r: Result<bool>)
      requires stationRepository.Valid()
      modifies stationRepository
      ensures stationRepository.Valid()
      ensures FindStation(old(stationRepository.stations), stationId).None? ==>
        r == Err(ArgumentException(StationNotFound))
      ensures r.Err? ==> stationRepository.stations == old(stationRepository.stations)
      ensures FindStation(old(stationRepository.stations), stationId).Some? ==>
        var station := FindStation(old(stationRepository.stations), stationId).value;
        if Lookup(station.AvailableSlots, SlotKey, slotId).None? then
          r == Err(ArgumentException(SlotNotFound))
        else
          r == Ok(true) &&
          |RemoveFirst(station.AvailableSlots, KeyIs(SlotKey, slotId))| == |station.AvailableSlots| - 1 &&
          FindStation(stationRepository.stations, stationId) ==
            Some(station.(AvailableSlots := RemoveFirst(station.AvailableSlots, KeyIs(SlotKey, slotId)))) &&
          forall other :: other != stationId ==>
            FindStation(stationRepository.stations, other) == FindStation(old(stationRepository.stations), other)
    {
      var station := FindStation(stationRepository.stations, stationId);
      if station.None? {
        return Err(ArgumentException(StationNotFound));
      }
      if Lookup(station.value.AvailableSlots, SlotKey, slotId).None? {
        return Err(ArgumentException(SlotNotFound));
      }
      var remaining := RemoveFirst(station.value.AvailableSlots, KeyIs(SlotKey, slotId));
      stationRepository.Update(stationId, station.value.(AvailableSlots := remaining));
      r := Ok(true);
    }
  }
}
