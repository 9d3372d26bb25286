/** The charging stations collection (Repositories/ChargingStationRepository.cs):
    the active-station filters, and deactivate and delete, which read the
    bookings collection of the same database first. */
module StationStore {
  import opened Common
  import opened Collections
  import opened Keyed
  import opened Models
  import opened BookingStore

  function StationId(s: ChargingStation): string {
    s.Id
  }

  function StationHasId(id: string): ChargingStation -> bool {
    KeyIs(StationId, id)
  }

  ghost predicate UniqueStationIds(stations: seq<ChargingStation>) {
    UniqueKeys(stations, StationId)
  }

  /** `GetByIdAsync`. */
  function FindStation(stations: seq<ChargingStation>, id: string): (r: Option<ChargingStation>)
    ensures r.None? <==> forall j :: 0 <= j < |stations| ==> stations[j].Id != id
    ensures r.Some? ==> r.value in stations && r.value.Id == id
  {
    Lookup(stations, StationId, id)
  }

  /** `GetStationsByTypeAsync`: the active stations of that type, in store order. */
  function GetStationsByType(stations: seq<ChargingStation>, stationType: string): (r: seq<ChargingStation>)
    ensures forall s :: s in r <==> s in stations && s.StationType == stationType && s.IsActive
    ensures multiset(r) <= multiset(stations)
  {
    Filter(stations, (s: ChargingStation) => s.StationType == stationType && s.IsActive)
  }

  /** `GetByOperatorIdAsync`: the active stations assigned to that operator. */
  function GetByOperatorId(stations: seq<ChargingStation>, operatorId: string): (r: seq<ChargingStation>)
    ensures forall s :: s in r <==> s in stations && s.AssignedOperatorId == Some(operatorId) && s.IsActive
    ensures multiset(r) <= multiset(stations)
  {
    Filter(stations, (s: ChargingStation) => s.AssignedOperatorId == Some(operatorId) && s.IsActive)
  }

  /** The delete guard: some booking, of any status, is at the station. */
  function HasBookingsForStation(bookings: seq<Booking>, stationId: string): (r: bool)
    ensures r <==> exists b :: b in bookings && b.ChargingStationId == stationId
  {
    Exists(bookings, (b: Booking) => b.ChargingStationId == stationId)
  }

  class ChargingStationRepository {
    var stations: seq<ChargingStation>
    /** The bookings collection of the same database. */
    const bookingRepository: BookingRepository

    ghost predicate Valid()
      reads this
    {
      UniqueStationIds(stations)
    }

    constructor (initial: seq<ChargingStation>, bookingRepository: BookingRepository)
      requires UniqueStationIds(initial)
      ensures Valid() && stations == initial && this.bookingRepository == bookingRepository
    {
      stations := initial;
      this.bookingRepository := bookingRepository;
    }

    /** `CreateAsync`: inserts the station; an empty id is replaced by the
        store's generated id and an id already in use is refused. */
    method Create(station: ChargingStation, generatedId: string) returns (r: Result<ChargingStation>)
      requires Valid()
      requires generatedId != "" && FindStation(stations, generatedId).None?
      modifies this
      ensures Valid()
      ensures
        var stored := if station.Id == "" then station.(Id := generatedId) else station;
        if FindStation(old(stations), stored.Id).Some? then
          r == Err(Database(DuplicateKey)) && stations == old(stations)
        else
          r == Ok(stored) && stations == old(stations) + [stored] &&
          FindStation(stations, stored.Id) == Some(stored) &&
          forall other :: other != stored.Id ==> FindStation(stations, other) == FindStation(old(stations), other)
    {
      var stored := if station.Id == "" then station.(Id := generatedId) else station;
      if FindStation(stations, stored.Id).Some? {
        r := Err(Database(DuplicateKey));
      } else {
        AppendEffect(stations, StationId, stored);
        stations := stations + [stored];
        r := Ok(stored);
      }
    }

    /** `UpdateAsync`: replaces the station with that id. */
    method Update(id: string, station: ChargingStation)
      requires Valid() && station.Id == id
      modifies this
      ensures Valid()
      ensures stations == ReplaceFirst(old(stations), StationHasId(id), station)
      ensures FindStation(stations, id) == if FindStation(old(stations), id).Some? then Some(station) else None
      ensures forall other :: other != id ==> FindStation(stations, other) == FindStation(old(stations), other)
    {
      ReplaceEffect(stations, StationId, id, station);
      stations := ReplaceFirst(stations, StationHasId(id), station);
    }

    /** `DeactivateAsync`: refused while the station has a Pending or Approved
        booking; otherwise the stored station is marked inactive, nothing else
        about it changes. */
    method Deactivate(id: string) returns (r: bool)
      requires Valid()
      modifies this
      ensures Valid()
      ensures !r ==> stations == old(stations)
      ensures r <==>
        !HasActiveBookingsForStation(bookingRepository.bookings, id) && FindStation(old(stations), id).Some?
      ensures r ==>
        FindStation(stations, id) == Some(FindStation(old(stations), id).value.(IsActive := false)) &&
        forall other :: other != id ==> FindStation(stations, other) == FindStation(old(stations), other)
    {
      if HasActiveBookingsForStation(bookingRepository.bookings, id) {
        return false;
      }
      var station := FindStation(stations, id);
      if station.None? {
        return false;
      }
      Update(id, station.value.(IsActive := false));
      r := true;
    }

    /** `DeleteAsync`: refused while the station has any booking; otherwise
        removes the station and reports whether one was removed. */
    method Delete(id: string) returns (r: bool)
      requires Valid()
      modifies this
      ensures Valid()
      ensures HasBookingsForStation(bookingRepository.bookings, id) ==> !r && stations == old(stations)
      ensures !HasBookingsForStation(bookingRepository.bookings, id) ==>
        stations == RemoveFirst(old(stations), StationHasId(id)) &&
        (r <==> FindStation(old(stations), id).Some?) &&
        FindStation(stations, id).None? &&
        forall other :: other != id ==> FindStation(stations, other) == FindStation(old(stations), other)
      ensures r <==> !HasBookingsForStation(bookingRepository.bookings, id) && |stations| == |old(stations)| - 1
    {
      if HasBookingsForStation(bookingRepository.bookings, id) {
        return false;
      }
      RemoveEffect(stations, StationId, id);
      r := FindStation(stations, id).Some?;
      stations := RemoveFirst(stations, StationHasId(id));
    }
  }
}
