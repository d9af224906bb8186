/** The vehicle lifecycle: the periodic sweep that returns overdue vehicles
    to Ready (with its cascade to users and queue entries), the Reset and
    return-time edit of the vehicle details panel, and the pure helpers of
    the vehicle editor (inventory list, fuel clamp, fuel bar colour). */
module VehicleContext {
  import opened Records
  import opened JsText
  import opened JsDate
  import Utils

  /** The Ready-state invariant of the lifecycle: a ready vehicle is not
      booked and carries no purpose, return time or reset time. */
  predicate ReadyConsistent(v: Vehicle)
  {
    v.isReady ==> !v.isBooked && v.purpose == "" && v.returnDateTime == "" && v.resetTime.None?
  }

  // ======================================================================
  // The auto-reset sweep
  // ======================================================================

  /** Where the reset of one vehicle breaks off: its vehicle update is
      rejected, or the users query fails after the vehicle was written, or
      the queue query fails after the users were released. */
  datatype Fault = NoFault | VehicleUpdateFails | UserQueryFails | QueueQueryFails

  /** The steps of one vehicle's reset, in order. */
  datatype Step = VehicleWritten | UsersReleased | QueueCleaned

  function FaultOf(faults: map<string, Fault>, id: string): Fault
  {
    if id in faults then faults[id] else NoFault
  }

  /** Whether a reset with fault `f` completes `step`. */
  predicate Reaches(f: Fault, step: Step)
  {
    match step
    case VehicleWritten => f != VehicleUpdateFails
    case UsersReleased => f == NoFault || f == QueueQueryFails
    case QueueCleaned => f == NoFault
  }

  /** A vehicle is due when it has a reset time at or before `now`. */
  predicate IsDue(v: Vehicle, now: int)
  {
    v.resetTime.Some? && v.resetTime.value <= now
  }

  /** `vehiclesToReset`: the due vehicles of the snapshot, in snapshot order. */
  function DueVehicles(snapshot: seq<Vehicle>, now: int): (due: seq<Vehicle>)
    ensures forall v :: v in due <==> v in snapshot && IsDue(v, now)
    ensures |due| <= |snapshot|
  {
    if snapshot == [] then []
    else (if IsDue(snapshot[0], now) then [snapshot[0]] else []) + DueVehicles(snapshot[1..], now)
  }

  /** The fields the sweep writes on a due vehicle. */
  function SweptClear(v: Vehicle): Vehicle
  {
    v.(isReady := true, isBooked := false, status := "", purpose := "",
       returnDateTime := "", resetTime := None, timeStamp := "")
  }

  /** Every user holding one of `ids` gets `vehicleId = ""`. */
  function ReleaseHolders(users: map<string, User>, ids: set<string>): map<string, User>
  {
    map k | k in users :: if users[k].vehicleId in ids then users[k].(vehicleId := "") else users[k]
  }

  /** Every queue entry for one of `ids` is deleted. */
  function DropRequests(queue: map<string, QueueEntry>, ids: set<string>): map<string, QueueEntry>
  {
    map k | k in queue && queue[k].vehicleId !in ids :: queue[k]
  }

  /** Every vehicle in `ids` gets the sweep's cleared fields. */
  function ClearVehicles(vehicles: map<string, Vehicle>, ids: set<string>): map<string, Vehicle>
  {
    map k | k in vehicles :: if k in ids then SweptClear(vehicles[k]) else vehicles[k]
  }

  /** One iteration of the sweep's loop, for the vehicle with id `id`: the
      vehicle update, then the users pointing at it, then its queue entries;
      a fault ends the iteration (the `catch`) with the earlier writes kept. */
  function ResetOne(db: Db, id: string, f: Fault): (r: Db)
    ensures r.vehicles.Keys == db.vehicles.Keys && r.users.Keys == db.users.Keys
    ensures r.queue.Keys <= db.queue.Keys
    ensures r.history == db.history && r.adminPassword == db.adminPassword
  {
    if !Addressable(id, db.vehicles) || !Reaches(f, VehicleWritten) then db
    else
      var db1 := db.(vehicles := db.vehicles[id := SweptClear(db.vehicles[id])]);
      if !Reaches(f, UsersReleased) then db1
      else
        var db2 := db1.(users := ReleaseHolders(db1.users, {id}));
        if !Reaches(f, QueueCleaned) then db2
        else db2.(queue := DropRequests(db2.queue, {id}))
  }

  /** The sweep over the selected vehicles, one iteration after another. */
  function Sweep(db: Db, due: seq<Vehicle>, faults: map<string, Fault>): (r: Db)
    ensures r.vehicles.Keys == db.vehicles.Keys && r.users.Keys == db.users.Keys
    ensures r.queue.Keys <= db.queue.Keys
    ensures r.history == db.history && r.adminPassword == db.adminPassword
    decreases |due|
  {
    if due == [] then db
    else Sweep(ResetOne(db, due[0].id, FaultOf(faults, due[0].id)), due[1..], faults)
  }

  /** The ids among `due` whose reset completes `step`. */
  function Reached(keys: set<string>, due: seq<Vehicle>, faults: map<string, Fault>, step: Step): set<string>
    decreases |due|
  {
    if due == [] then {}
    else
      (if due[0].id != "" && due[0].id in keys && Reaches(FaultOf(faults, due[0].id), step)
       then {due[0].id} else {})
      + Reached(keys, due[1..], faults, step)
  }

  /** The state a sweep leaves, in closed form. */
  function SweepOutcome(db: Db, due: seq<Vehicle>, faults: map<string, Fault>): Db
  {
    var keys := db.vehicles.Keys;
    db.(vehicles := ClearVehicles(db.vehicles, Reached(keys, due, faults, VehicleWritten)),
        users := ReleaseHolders(db.users, Reached(keys, due, faults, UsersReleased)),
        queue := DropRequests(db.queue, Reached(keys, due, faults, QueueCleaned)))
  }

  lemma ReachedMembers(keys: set<string>, due: seq<Vehicle>, faults: map<string, Fault>, step: Step, id: string)
    ensures id in Reached(keys, due, faults, step) <==>
      id != "" && id in keys && Reaches(FaultOf(faults, id), step) && exists v :: v in due && v.id == id
    decreases |due|
  {
    if due != [] {
      ReachedMembers(keys, due[1..], faults, step, id);
      if exists v :: v in due && v.id == id {
        var v :| v in due && v.id == id;
        if v != due[0] {
          assert v in due[1..];
        }
      }
    }
  }

  /** One iteration, field by field: each step happens exactly when the
      vehicle is addressable and the fault lets the reset get that far. */
  lemma ResetOneParts(db: Db, id: string, f: Fault)
    ensures var r := ResetOne(db, id, f);
      var go := Addressable(id, db.vehicles);
      r.vehicles == (if go && Reaches(f, VehicleWritten) then db.vehicles[id := SweptClear(db.vehicles[id])] else db.vehicles)
      && r.users == (if go && Reaches(f, UsersReleased) then ReleaseHolders(db.users, {id}) else db.users)
      && r.queue == (if go && Reaches(f, QueueCleaned) then DropRequests(db.queue, {id}) else db.queue)
      && r.history == db.history && r.adminPassword == db.adminPassword
  {
  }

  lemma ReleaseTwice(users: map<string, User>, a: set<string>, b: set<string>)
    ensures ReleaseHolders(ReleaseHolders(users, a), b) == ReleaseHolders(users, a + b)
  {
    var l := ReleaseHolders(ReleaseHolders(users, a), b);
    var r := ReleaseHolders(users, a + b);
    assert l.Keys == r.Keys;
    forall k | k in l
      ensures l[k] == r[k]
    {
    }
  }

  lemma DropTwice(queue: map<string, QueueEntry>, a: set<string>, b: set<string>)
    ensures DropRequests(DropRequests(queue, a), b) == DropRequests(queue, a + b)
  {
    var l := DropRequests(DropRequests(queue, a), b);
    var r := DropRequests(queue, a + b);
    assert l.Keys == r.Keys;
  }

  lemma ClearAfterOne(vehicles: map<string, Vehicle>, id: string, ids: set<string>)
    requires id in vehicles
    ensures ClearVehicles(vehicles[id := SweptClear(vehicles[id])], ids) == ClearVehicles(vehicles, {id} + ids)
  {
    var l := ClearVehicles(vehicles[id := SweptClear(vehicles[id])], ids);
    var r := ClearVehicles(vehicles, {id} + ids);
    assert l.Keys == r.Keys;
    forall k | k in l
      ensures l[k] == r[k]
    {
    }
  }

  lemma NothingReached(db: Db)
    ensures db.(vehicles := ClearVehicles(db.vehicles, {}), users := ReleaseHolders(db.users, {}),
                queue := DropRequests(db.queue, {})) == db
  {
    assert ClearVehicles(db.vehicles, {}) == db.vehicles;
    assert ReleaseHolders(db.users, {}) == db.users;
    assert DropRequests(db.queue, {}) == db.queue;
  }

  /** The first iteration's vehicle write folds into the closed form of the rest. */
  lemma VehiclesStep(db: Db, due: seq<Vehicle>, faults: map<string, Fault>)
    requires due != []
    ensures var keys := db.vehicles.Keys;
      ClearVehicles(ResetOne(db, due[0].id, FaultOf(faults, due[0].id)).vehicles,
                    Reached(keys, due[1..], faults, VehicleWritten))
      == ClearVehicles(db.vehicles, Reached(keys, due, faults, VehicleWritten))
  {
    var id := due[0].id;
    ResetOneParts(db, id, FaultOf(faults, id));
    if Addressable(id, db.vehicles) && Reaches(FaultOf(faults, id), VehicleWritten) {
      ClearAfterOne(db.vehicles, id, Reached(db.vehicles.Keys, due[1..], faults, VehicleWritten));
    }
  }

  /** The first iteration's user updates fold into the closed form of the rest. */
  lemma UsersStep(db: Db, due: seq<Vehicle>, faults: map<string, Fault>)
    requires due != []
    ensures var keys := db.vehicles.Keys;
      ReleaseHolders(ResetOne(db, due[0].id, FaultOf(faults, due[0].id)).users,
                     Reached(keys, due[1..], faults, UsersReleased))
      == ReleaseHolders(db.users, Reached(keys, due, faults, UsersReleased))
  {
    var id := due[0].id;
    ResetOneParts(db, id, FaultOf(faults, id));
    if Addressable(id, db.vehicles) && Reaches(FaultOf(faults, id), UsersReleased) {
      ReleaseTwice(db.users, {id}, Reached(db.vehicles.Keys, due[1..], faults, UsersReleased));
    }
  }

  /** The first iteration's queue deletions fold into the closed form of the rest. */
  lemma QueueStep(db: Db, due: seq<Vehicle>, faults: map<string, Fault>)
    requires due != []
    ensures var keys := db.vehicles.Keys;
      DropRequests(ResetOne(db, due[0].id, FaultOf(faults, due[0].id)).queue,
                   Reached(keys, due[1..], faults, QueueCleaned))
      == DropRequests(db.queue, Reached(keys, due, faults, QueueCleaned))
  {
    var id := due[0].id;
    ResetOneParts(db, id, FaultOf(faults, id));
    if Addressable(id, db.vehicles) && Reaches(FaultOf(faults, id), QueueCleaned) {
      DropTwice(db.queue, {id}, Reached(db.vehicles.Keys, due[1..], faults, QueueCleaned));
    }
  }

  /** The sweep, run iteration by iteration, ends in its closed form: each
      selected vehicle is processed independently, and how far its own reset
      got decides what it contributes. */
  lemma {:induction false} SweepClosedForm(db: Db, due: seq<Vehicle>, faults: map<string, Fault>)
    ensures Sweep(db, due, faults) == SweepOutcome(db, due, faults)
    decreases |due|
  {
    if due == [] {
      NothingReached(db);
    } else {
      var id := due[0].id;
      var db1 := ResetOne(db, id, FaultOf(faults, id));
      ResetOneParts(db, id, FaultOf(faults, id));
      assert db1.vehicles.Keys == db.vehicles.Keys;
      SweepClosedForm(db1, due[1..], faults);
      VehiclesStep(db, due, faults);
      UsersStep(db, due, faults);
      QueueStep(db, due, faults);
    }
  }

  /** `checkVehicles`' per-vehicle body: the three steps in order, each
      skipped once an earlier one failed. */
  method ResetVehicle(db: Store, id: string, f: Fault)
    modifies db`vehicles, db`users, db`queue
    ensures db.Contents() == ResetOne(old(db.Contents()), id, f)
  {
    if !Addressable(id, db.vehicles) || !Reaches(f, VehicleWritten) {
      return;
    }
    db.vehicles := db.vehicles[id := SweptClear(db.vehicles[id])];
    if !Reaches(f, UsersReleased) {
      return;
    }
    ReleaseUsers(db, id);
    if !Reaches(f, QueueCleaned) {
      return;
    }
    DeleteRequests(db, id);
  }

  /** The users query and its per-document updates, one user at a time. */
  method ReleaseUsers(db: Store, id: string)
    modifies db`users
    ensures db.users == ReleaseHolders(old(db.users), {id})
  {
    var pending := set k | k in db.users && db.users[k].vehicleId == id;
    ghost var holders := pending;
    ghost var users0 := db.users;
    while pending != {}
      invariant pending <= holders
      invariant db.users.Keys == users0.Keys
      invariant forall k :: k in users0 ==>
        db.users[k] == if k in holders - pending then users0[k].(vehicleId := "") else users0[k]
      decreases pending
    {
      var k :| k in pending;
      db.users := db.users[k := db.users[k].(vehicleId := "")];
      pending := pending - {k};
    }
    assert db.users == ReleaseHolders(users0, {id});
  }

  /** The queue query and its per-document deletions, one entry at a time. */
  method DeleteRequests(db: Store, id: string)
    modifies db`queue
    ensures db.queue == DropRequests(old(db.queue), {id})
  {
    var pending := set k | k in db.queue && db.queue[k].vehicleId == id;
    ghost var requests := pending;
    ghost var queue0 := db.queue;
    while pending != {}
      invariant pending <= requests
      invariant db.queue.Keys == queue0.Keys - (requests - pending)
      invariant forall k :: k in db.queue ==> db.queue[k] == queue0[k]
      decreases pending
    {
      var k :| k in pending;
      db.queue := db.queue - {k};
      pending := pending - {k};
    }
    assert db.queue == DropRequests(queue0, {id});
  }

  /** `checkVehicles`: select the due vehicles of the snapshot, then reset
      them one after another, each inside its own try/catch. */
  method CheckVehicles(db: Store, snapshot: seq<Vehicle>, now: int, faults: map<string, Fault>)
    modifies db`vehicles, db`users, db`queue
    ensures db.Contents() == Sweep(old(db.Contents()), DueVehicles(snapshot, now), faults)
  {
    var vehiclesToReset := DueVehicles(snapshot, now);
    for i := 0 to |vehiclesToReset|
      invariant Sweep(db.Contents(), vehiclesToReset[i..], faults)
                == Sweep(old(db.Contents()), vehiclesToReset, faults)
    {
      var vehicle := vehiclesToReset[i];
      assert vehiclesToReset[i..][1..] == vehiclesToReset[i + 1..];
      ResetVehicle(db, vehicle.id, FaultOf(faults, vehicle.id));
    }
  }

  /** The snapshot the sweep reads shows store documents as they are. */
  predicate Mirrors(snapshot: seq<Vehicle>, db: Db)
  {
    forall v :: v in snapshot ==> v.id in db.vehicles && db.vehicles[v.id] == v
  }

  /** The sweep at `now` selects the vehicle with this id: the snapshot
      shows it with a reset time at or before `now`. */
  predicate Selected(snapshot: seq<Vehicle>, now: int, id: string)
  {
    id != "" && exists v :: v in snapshot && v.id == id && IsDue(v, now)
  }

  lemma ReachedDue(db: Db, snapshot: seq<Vehicle>, now: int, faults: map<string, Fault>, step: Step, id: string)
    requires Mirrors(snapshot, db)
    ensures id in Reached(db.vehicles.Keys, DueVehicles(snapshot, now), faults, step) <==>
      Selected(snapshot, now, id) && Reaches(FaultOf(faults, id), step)
  {
    ReachedMembers(db.vehicles.Keys, DueVehicles(snapshot, now), faults, step, id);
  }

  /** What one sweep does to the vehicles: no vehicle is added or removed;
      a selected vehicle whose update goes through gets the cleared fields,
      and every other vehicle (no reset time, a future one, not in the
      snapshot, or a failed update) keeps its document. */
  lemma SweepVehicles(db: Db, snapshot: seq<Vehicle>, now: int, faults: map<string, Fault>)
    requires Mirrors(snapshot, db)
    ensures var r := Sweep(db, DueVehicles(snapshot, now), faults);
      r.vehicles.Keys == db.vehicles.Keys
      && (forall id :: id in db.vehicles ==>
            r.vehicles[id] == if Selected(snapshot, now, id) && Reaches(FaultOf(faults, id), VehicleWritten)
                              then SweptClear(db.vehicles[id]) else db.vehicles[id])
  {
    var due := DueVehicles(snapshot, now);
    var r := Sweep(db, due, faults);
    SweepClosedForm(db, due, faults);
    var w := Reached(db.vehicles.Keys, due, faults, VehicleWritten);
    assert r.vehicles == ClearVehicles(db.vehicles, w);
    forall id | id in db.vehicles
      ensures r.vehicles[id] == if Selected(snapshot, now, id) && Reaches(FaultOf(faults, id), VehicleWritten)
                                then SweptClear(db.vehicles[id]) else db.vehicles[id]
    {
      ReachedDue(db, snapshot, now, faults, VehicleWritten, id);
    }
  }

  /** What one sweep does to the users: a user holding a selected vehicle
      whose reset got past the users query is released; every other user
      is unchanged, and none is added or removed. */
  lemma SweepUsers(db: Db, snapshot: seq<Vehicle>, now: int, faults: map<string, Fault>)
    requires Mirrors(snapshot, db)
    ensures var r := Sweep(db, DueVehicles(snapshot, now), faults);
      r.users.Keys == db.users.Keys
      && (forall k :: k in db.users ==>
            r.users[k] == if Selected(snapshot, now, db.users[k].vehicleId)
                             && Reaches(FaultOf(faults, db.users[k].vehicleId), UsersReleased)
                          then db.users[k].(vehicleId := "") else db.users[k])
  {
    var due := DueVehicles(snapshot, now);
    var r := Sweep(db, due, faults);
    SweepClosedForm(db, due, faults);
    var u := Reached(db.vehicles.Keys, due, faults, UsersReleased);
    assert r.users == ReleaseHolders(db.users, u);
    forall k | k in db.users
      ensures r.users[k] == if Selected(snapshot, now, db.users[k].vehicleId)
                               && Reaches(FaultOf(faults, db.users[k].vehicleId), UsersReleased)
                            then db.users[k].(vehicleId := "") else db.users[k]
    {
      ReachedDue(db, snapshot, now, faults, UsersReleased, db.users[k].vehicleId);
    }
  }

  /** What one sweep does to the queue: an entry for a selected vehicle
      whose reset got past the queue query is deleted; every other entry
      stays as it was, none is added, and history and the admin password
      are not touched. */
  lemma SweepQueue(db: Db, snapshot: seq<Vehicle>, now: int, faults: map<string, Fault>)
    requires Mirrors(snapshot, db)
    ensures var r := Sweep(db, DueVehicles(snapshot, now), faults);
      r.queue.Keys <= db.queue.Keys
      && (forall k :: k in db.queue ==>
            (k !in r.queue <==> Selected(snapshot, now, db.queue[k].vehicleId)
                                && Reaches(FaultOf(faults, db.queue[k].vehicleId), QueueCleaned)))
      && (forall k :: k in r.queue ==> r.queue[k] == db.queue[k])
      && r.history == db.history && r.adminPassword == db.adminPassword
  {
    var due := DueVehicles(snapshot, now);
    var r := Sweep(db, due, faults);
    SweepClosedForm(db, due, faults);
    var q := Reached(db.vehicles.Keys, due, faults, QueueCleaned);
    assert r.queue == DropRequests(db.queue, q);
    forall k | k in db.queue
      ensures k !in r.queue <==> Selected(snapshot, now, db.queue[k].vehicleId)
                                 && Reaches(FaultOf(faults, db.queue[k].vehicleId), QueueCleaned)
    {
      ReachedDue(db, snapshot, now, faults, QueueCleaned, db.queue[k].vehicleId);
    }
  }

  /** A failure on one vehicle does not keep another from being reset: of
      two due vehicles, the one whose update is rejected keeps its document
      while the other is cleared and its holder released. */
  lemma SweepIsolatesFailure(db: Db, snapshot: seq<Vehicle>, now: int, faults: map<string, Fault>,
                             bad: string, good: string, holder: string)
    requires Mirrors(snapshot, db)
    requires bad in db.vehicles && FaultOf(faults, bad) == VehicleUpdateFails
    requires Selected(snapshot, now, good) && FaultOf(faults, good) == NoFault
    requires holder in db.users && db.users[holder].vehicleId == good
    ensures var r := Sweep(db, DueVehicles(snapshot, now), faults);
      bad in r.vehicles && r.vehicles[bad] == db.vehicles[bad]
      && good in r.vehicles && r.vehicles[good] == SweptClear(db.vehicles[good])
      && holder in r.users && r.users[holder].vehicleId == ""
  {
    SweepVehicles(db, snapshot, now, faults);
    SweepUsers(db, snapshot, now, faults);
  }

  /** A sweep over a snapshot with no due vehicle selects nothing and
      leaves the store as it was, whatever would have failed. */
  lemma {:induction false} NoneDue(db: Db, snapshot: seq<Vehicle>, now: int, faults: map<string, Fault>)
    requires forall v :: v in snapshot ==> !IsDue(v, now)
    ensures DueVehicles(snapshot, now) == []
    ensures Sweep(db, DueVehicles(snapshot, now), faults) == db
    decreases |snapshot|
  {
    if snapshot != [] {
      assert !IsDue(snapshot[0], now);
      NoneDue(db, snapshot[1..], now, faults);
    }
  }

  /** The sweep is idempotent: when the snapshot listed every stored
      vehicle under its own id and no reset failed, a second run at the
      same instant, over any snapshot of the resulting store, selects
      nothing and changes nothing. */
  lemma SecondSweepIsNoOp(db: Db, snapshot: seq<Vehicle>, now: int, snapshot2: seq<Vehicle>,
                          faults2: map<string, Fault>)
    requires Mirrors(snapshot, db)
    requires forall id :: id in db.vehicles ==> id != "" && db.vehicles[id].id == id && db.vehicles[id] in snapshot
    ensures var r := Sweep(db, DueVehicles(snapshot, now), map[]);
      Mirrors(snapshot2, r) ==>
        DueVehicles(snapshot2, now) == [] && Sweep(r, DueVehicles(snapshot2, now), faults2) == r
  {
    var r := Sweep(db, DueVehicles(snapshot, now), map[]);
    SweepVehicles(db, snapshot, now, map[]);
    if Mirrors(snapshot2, r) {
      forall v | v in snapshot2
        ensures !IsDue(v, now)
      {
        var id := v.id;
        assert v == r.vehicles[id];
        var w := db.vehicles[id];
        assert w in snapshot && w.id == id;
        if !Selected(snapshot, now, id) {
          assert !IsDue(w, now);
        }
      }
      NoneDue(r, snapshot2, now, faults2);
    }
  }

  /** The sweep keeps the Ready-state invariant of every vehicle. */
  lemma SweepKeepsReadyInvariant(db: Db, snapshot: seq<Vehicle>, now: int, faults: map<string, Fault>)
    requires Mirrors(snapshot, db)
    requires forall id :: id in db.vehicles ==> ReadyConsistent(db.vehicles[id])
    ensures var r := Sweep(db, DueVehicles(snapshot, now), faults);
      forall id :: id in r.vehicles ==> ReadyConsistent(r.vehicles[id])
  {
    SweepVehicles(db, snapshot, now, faults);
  }

  /** The sweep, read at one vehicle and at one user. */
  lemma SweptAt(db: Db, snapshot: seq<Vehicle>, now: int, faults: map<string, Fault>, k: string)
    requires Mirrors(snapshot, db)
    ensures var r := Sweep(db, DueVehicles(snapshot, now), faults);
      r.vehicles.Keys == db.vehicles.Keys && r.users.Keys == db.users.Keys
      && (k in db.vehicles ==>
            r.vehicles[k] == if Selected(snapshot, now, k) && Reaches(FaultOf(faults, k), VehicleWritten)
                             then SweptClear(db.vehicles[k]) else db.vehicles[k])
      && (k in db.users ==>
            r.users[k] == if Selected(snapshot, now, db.users[k].vehicleId)
                             && Reaches(FaultOf(faults, db.users[k].vehicleId), UsersReleased)
                          then db.users[k].(vehicleId := "") else db.users[k])
  {
    SweepVehicles(db, snapshot, now, faults);
    SweepUsers(db, snapshot, now, faults);
  }

  /** The sweep keeps every holder on a stored, not-ready vehicle, unless
      some reset breaks off at the users query: a vehicle whose update is
      rejected keeps its document, and one whose update lands has its
      holders released in the same reset. */
  lemma SweepKeepsHolderInvariant(db: Db, snapshot: seq<Vehicle>, now: int, faults: map<string, Fault>)
    requires Mirrors(snapshot, db)
    requires HoldersValid(db) && HeldNotReady(db)
    requires forall id :: id in faults ==> faults[id] != UserQueryFails
    ensures var r := Sweep(db, DueVehicles(snapshot, now), faults);
      HoldersValid(r) && HeldNotReady(r)
  {
    var r := Sweep(db, DueVehicles(snapshot, now), faults);
    SweptAt(db, snapshot, now, faults, "");
    forall k | k in r.users
      ensures r.users[k].vehicleId == "" || r.users[k].vehicleId in r.vehicles
      ensures r.users[k].vehicleId != "" && r.users[k].vehicleId in r.vehicles ==>
        !r.vehicles[r.users[k].vehicleId].isReady
    {
      SweptAt(db, snapshot, now, faults, k);
      var id := db.users[k].vehicleId;
      if r.users[k].vehicleId != "" {
        assert r.users[k] == db.users[k];
        SweptAt(db, snapshot, now, faults, id);
      }
    }
  }

  /** The exception: when the users query fails after a due vehicle was
      written Ready, its holder keeps pointing at it, so a held vehicle is
      Ready and the Delete guard of the admin page no longer protects it. */
  lemma UserQueryFailureStrandsHolder(db: Db, snapshot: seq<Vehicle>, now: int, faults: map<string, Fault>,
                                      id: string, holder: string)
    requires Mirrors(snapshot, db)
    requires Selected(snapshot, now, id) && FaultOf(faults, id) == UserQueryFails
    requires holder in db.users && db.users[holder].vehicleId == id
    ensures var r := Sweep(db, DueVehicles(snapshot, now), faults);
      id in r.vehicles && r.vehicles[id].isReady
      && holder in r.users && r.users[holder].vehicleId == id
      && !HeldNotReady(r)
  {
    var v :| v in snapshot && v.id == id && IsDue(v, now);
    assert id in db.vehicles;
    SweptAt(db, snapshot, now, faults, id);
    SweptAt(db, snapshot, now, faults, holder);
  }

  // ======================================================================
  // The details panel: Reset, and the return-time edit
  // ======================================================================

  /** The fields the details panel's Reset button writes; unlike the sweep
      it leaves `isBooked` as it was. */
  function DetailsCleared(v: Vehicle): Vehicle
  {
    v.(isReady := true, status := "", purpose := "", resetTime := None,
       timeStamp := "", returnDateTime := "")
  }

  /** The Reset button writes what the sweep writes exactly when the
      vehicle is not booked, and the result is then Ready-consistent. */
  lemma DetailsResetMatchesSweep(v: Vehicle)
    ensures DetailsCleared(v) == SweptClear(v) <==> !v.isBooked
    ensures !v.isBooked ==> ReadyConsistent(DetailsCleared(v))
    ensures ReadyConsistent(SweptClear(v))
  {
  }

  /** `handleResetBt`: the vehicle update, then the user update, inside one
      try/catch (both document references are built first). Queue entries
      are not touched. `rejection` says which of the two updates the store
      rejects, if any; a missing document rejects its update as well. */
  method ResetFromDetails(db: Store, userId: string, vehicleId: string, rejection: Rejection)
    modifies db`vehicles, db`users
    ensures var cleared := userId != "" && Addressable(vehicleId, old(db.vehicles)) && Lands(rejection, 1);
      (cleared ==> db.vehicles == old(db.vehicles)[vehicleId := DetailsCleared(old(db.vehicles)[vehicleId])])
      && (!cleared ==> db.vehicles == old(db.vehicles))
    ensures var released := Addressable(vehicleId, old(db.vehicles)) && Addressable(userId, old(db.users))
                            && Lands(rejection, 2);
      (released ==> db.users == old(db.users)[userId := old(db.users)[userId].(vehicleId := "")])
      && (!released ==> db.users == old(db.users))
  {
    if userId == "" || !Addressable(vehicleId, db.vehicles) || !Lands(rejection, 1) {
      return;
    }
    db.vehicles := db.vehicles[vehicleId := DetailsCleared(db.vehicles[vehicleId])];
    if !Addressable(userId, db.users) || !Lands(rejection, 2) {
      return;
    }
    db.users := db.users[userId := db.users[userId].(vehicleId := "")];
  }

  /** The return-time editor's state: the edit toggle and the two values
      the date-time input sets. */
  datatype ReturnEditor = ReturnEditor(editing: bool, returnDateTime: string, resetTime: Option<Instant>)

  /** `handleReturnTimeInputChange`'s reading of a `datetime-local` value
      `YYYY-MM-DDTHH:MM`: None when the value has no 'T' (the handler then
      throws before changing anything); otherwise the local instant, invalid
      when a component is missing or not a number. */
  function ParseDateTimeLocal(value: string, tzOffset: int): (r: Option<Instant>)
    ensures r.None? <==> 'T' !in value
    ensures r.Some? && r.value.At? ==> -MaxTime <= r.value.ms <= MaxTime
  {
    var parts := Split(value, 'T');
    SplitCount(value, 'T');
    if |parts| < 2 then None
    else
      var date := Split(parts[0], '-');
      var time := Split(parts[1], ':');
      Some(LocalDate(NumberAt(date, 0), Minus1(NumberAt(date, 1)), NumberAt(date, 2),
                     NumberAt(time, 0), NumberAt(time, 1), tzOffset))
  }

  /** The pieces of a well-formed value. */
  lemma ParsePieces(y: string, mo: string, d: string, h: string, mi: string)
    requires AllDigits(y) && AllDigits(mo) && AllDigits(d) && AllDigits(h) && AllDigits(mi)
    ensures Split(y + "-" + mo + "-" + d + "T" + h + ":" + mi, 'T') == [y + "-" + mo + "-" + d, h + ":" + mi]
    ensures Split(y + "-" + mo + "-" + d, '-') == [y, mo, d]
    ensures Split(h + ":" + mi, ':') == [h, mi]
  {
    DigitsExclude(y, 'T');
    DigitsExclude(mo, 'T');
    DigitsExclude(d, 'T');
    DigitsExclude(h, 'T');
    DigitsExclude(mi, 'T');
    DigitsExclude(y, '-');
    DigitsExclude(mo, '-');
    DigitsExclude(d, '-');
    DigitsExclude(h, ':');
    DigitsExclude(mi, ':');
    var date := y + ['-'] + mo + ['-'] + d;
    var time := h + [':'] + mi;
    SplitTwo(date, time, 'T');
    SplitThree(y, mo, d, '-');
    SplitTwo(h, mi, ':');
    assert y + "-" + mo + "-" + d + "T" + h + ":" + mi == date + ['T'] + time;
  }

  /** A well-formed value reads as its components, each through `Number`
      (a decimal value here), the month made zero-based. */
  lemma ParseWellFormed(y: string, mo: string, d: string, h: string, mi: string, tzOffset: int)
    requires AllDigits(y) && AllDigits(mo) && AllDigits(d) && AllDigits(h) && AllDigits(mi)
    ensures ParseDateTimeLocal(y + "-" + mo + "-" + d + "T" + h + ":" + mi, tzOffset)
      == Some(LocalDate(ToNumber(y), Minus1(ToNumber(mo)), ToNumber(d), ToNumber(h), ToNumber(mi), tzOffset))
    ensures ToNumber(mo) == Finite(DigitsValue(mo)) && Minus1(ToNumber(mo)) == Finite(DigitsValue(mo) - 1)
  {
    ParsePieces(y, mo, d, h, mi);
    ToNumberDigits(mo);
  }

  /** The value "2024-07-25T15:00" is 25 July 2024, 15:00 local time. */
  lemma ParseExample(value: string, tzOffset: int)
    requires value == "2024-07-25T15:00"
    ensures ParseDateTimeLocal(value, tzOffset)
      == Some(LocalDate(Finite(2024), Finite(6), Finite(25), Finite(15), Finite(0), tzOffset))
  {
    assert value == "2024" + "-" + "07" + "-" + "25" + "T" + "15" + ":" + "00" by {
      assert "2024" + "-" + "07" + "-" + "25" + "T" + "15" + ":" + "00" == "2024-07-25T15:00";
    }
    ExampleNumbers();
    ParseWellFormed("2024", "07", "25", "15", "00", tzOffset);
  }

  lemma ExampleNumbers()
    ensures ToNumber("2024") == Finite(2024) && ToNumber("07") == Finite(7) && ToNumber("25") == Finite(25)
    ensures ToNumber("15") == Finite(15) && ToNumber("00") == Finite(0)
  {
    assert "2024"[..3] == "202" && "202"[..2] == "20" && "20"[..1] == "2" && "2"[..0] == "";
    assert "07"[..1] == "0" && "0"[..0] == "";
    assert "25"[..1] == "2";
    assert "15"[..1] == "1" && "1"[..0] == "";
    assert "00"[..1] == "0";
  }

  /** `handleReturnTimeInputChange`: a parsed value sets both fields. */
  function OnReturnTimeInput(ed: ReturnEditor, value: string, tzOffset: int): (r: ReturnEditor)
    ensures r.editing == ed.editing
    ensures ParseDateTimeLocal(value, tzOffset).None? ==> r == ed
    ensures ParseDateTimeLocal(value, tzOffset).Some? ==>
      r.returnDateTime == value && r.resetTime == ParseDateTimeLocal(value, tzOffset)
  {
    match ParseDateTimeLocal(value, tzOffset)
    case None => ed
    case Some(t) => ed.(returnDateTime := value, resetTime := Some(t))
  }

  /** The check `handleSaveEditBt` makes before writing: the editor was
      open, a reset time was chosen, and it is not before `now` (an invalid
      date compares false). */
  predicate AcceptsEdit(ed: ReturnEditor, now: int)
  {
    ed.editing && ed.resetTime.Some? && ed.resetTime.value.At? && now <= ed.resetTime.value.ms
  }

  /** The vehicle with the edited return time and reset time written. */
  function EditedVehicle(v: Vehicle, ed: ReturnEditor): (w: Vehicle)
    requires ed.resetTime.Some? && ed.resetTime.value.At?
    ensures forall t :: IsDue(w, t) <==> ed.resetTime.value.ms <= t
  {
    v.(returnDateTime := ed.returnDateTime, resetTime := Some(ed.resetTime.value.ms))
  }

  /** What the panel reports: nothing, `onChangeSuccess` or `onChangeFailed`. */
  datatype Notice = Quiet | ChangeSuccess | ChangeFailed

  /** `handleSaveEditBt`: toggle the editor; when it was open with a reset
      time chosen, write the new return time to the vehicle and its history
      record if the time is not in the past, and report failure otherwise.
      `historyText` is what `formatDateTime` makes of the return time. The
      handler has no try/catch: an update the store rejects (`rejection`,
      or a missing document) ends it where it stands, before the editor's
      values are cleared. */
  method SaveReturnEdit(db: Store, ed: ReturnEditor, vehicleId: string, borrowId: string,
                        now: int, historyText: string, rejection: Rejection)
    returns (ed': ReturnEditor, notice: Notice)
    modifies db`vehicles, db`history
    ensures var saved := AcceptsEdit(ed, now) && Addressable(vehicleId, old(db.vehicles)) && Lands(rejection, 1);
      (saved ==> db.vehicles == old(db.vehicles)[vehicleId := EditedVehicle(old(db.vehicles)[vehicleId], ed)])
      && (!saved ==> db.vehicles == old(db.vehicles))
    ensures var logged := AcceptsEdit(ed, now) && Addressable(vehicleId, old(db.vehicles))
                          && Addressable(borrowId, old(db.history)) && Lands(rejection, 2);
      (logged ==> db.history == old(db.history)[borrowId := old(db.history)[borrowId].(returnDateTime := historyText)])
      && (!logged ==> db.history == old(db.history))
    ensures ed'.editing == !ed.editing
    ensures notice == ChangeFailed <==> ed.editing && ed.resetTime.Some? && !AcceptsEdit(ed, now)
    ensures notice == ChangeSuccess <==>
      AcceptsEdit(ed, now) && Addressable(vehicleId, old(db.vehicles)) && Lands(rejection, 1)
    ensures !(ed.editing && ed.resetTime.Some?) ==> ed' == ed.(editing := !ed.editing)
    ensures ed.editing && ed.resetTime.Some? && !AcceptsEdit(ed, now) ==>
      ed' == ReturnEditor(false, "", None)
    ensures var finished := AcceptsEdit(ed, now) && Addressable(vehicleId, old(db.vehicles))
                            && Addressable(borrowId, old(db.history)) && Lands(rejection, 2);
      AcceptsEdit(ed, now) ==> ed' == if finished then ReturnEditor(false, "", None) else ed.(editing := false)
  {
    ed' := ed.(editing := !ed.editing);
    notice := Quiet;
    if ed.editing && ed.resetTime.Some? {
      var valid := match ed.resetTime.value
        case At(t) => now <= t
        case InvalidDate => false;
      if valid {
        if !Addressable(vehicleId, db.vehicles) || !Lands(rejection, 1) {
          return;
        }
        db.vehicles := db.vehicles[vehicleId := EditedVehicle(db.vehicles[vehicleId], ed)];
        notice := ChangeSuccess;
        if !Addressable(borrowId, db.history) || !Lands(rejection, 2) {
          return;
        }
        db.history := db.history[borrowId := db.history[borrowId].(returnDateTime := historyText)];
      } else {
        notice := ChangeFailed;
      }
      ed' := ed'.(resetTime := None, returnDateTime := "");
    }
  }

  /** What an accepted edit means for the next sweeps: over a snapshot of
      the store the edit left, a sweep at any instant before the new reset
      time leaves the vehicle and its holders alone, while one at or after
      it (with the vehicle listed and its update going through) clears it. */
  lemma EditDecidesNextSweep(before: Db, after: Db, ed: ReturnEditor, now: int, vehicleId: string,
                             snapshot: seq<Vehicle>, later: int, faults: map<string, Fault>)
    requires AcceptsEdit(ed, now) && Addressable(vehicleId, before.vehicles)
    requires after.vehicles == before.vehicles[vehicleId := EditedVehicle(before.vehicles[vehicleId], ed)]
    requires Mirrors(snapshot, after)
    ensures var r := Sweep(after, DueVehicles(snapshot, later), faults);
      vehicleId in r.vehicles
      && (later < ed.resetTime.value.ms ==>
            r.vehicles[vehicleId] == after.vehicles[vehicleId]
            && forall k :: k in after.users && after.users[k].vehicleId == vehicleId ==>
                 k in r.users && r.users[k] == after.users[k])
      && ((exists v :: v in snapshot && v.id == vehicleId) && FaultOf(faults, vehicleId) != VehicleUpdateFails ==>
            (r.vehicles[vehicleId] == SweptClear(after.vehicles[vehicleId]) <==> ed.resetTime.value.ms <= later))
  {
    var w := after.vehicles[vehicleId];
    SweepVehicles(after, snapshot, later, faults);
    SweepUsers(after, snapshot, later, faults);
    if exists v :: v in snapshot && v.id == vehicleId {
      var v :| v in snapshot && v.id == vehicleId;
      assert v == w;
      assert SweptClear(w).resetTime != w.resetTime;
    }
  }

  // ======================================================================
  // The vehicle editor: inventory list, fuel level, fuel bar colour
  // ======================================================================

  /** The inventory part of the editor: the list and the text box. */
  datatype InventoryEditor = InventoryEditor(items: seq<string>, newInventory: string)

  /** Some item equals `entry` after lower-casing both. */
  predicate ContainsCaseless(items: seq<string>, entry: string)
  {
    exists i :: 0 <= i < |items| && ToLower(items[i]) == ToLower(entry)
  }

  /** No two items of the list differ only in letter case. */
  predicate CaselessDistinct(items: seq<string>)
  {
    forall i, j :: 0 <= i < j < |items| ==> ToLower(items[i]) != ToLower(items[j])
  }

  /** `handleNewInventoryAddBt` (and the Enter key): a non-empty entry that
      no item matches case-insensitively is appended as typed and the text
      box is cleared; otherwise nothing changes. */
  function OnInventoryAdd(ed: InventoryEditor): (r: InventoryEditor)
    ensures |ed.items| <= |r.items| <= |ed.items| + 1 && r.items[..|ed.items|] == ed.items
    ensures |r.items| == |ed.items| + 1 <==> |ed.newInventory| > 0 && !ContainsCaseless(ed.items, ed.newInventory)
    ensures |r.items| == |ed.items| + 1 ==> r.items[|ed.items|] == ed.newInventory && r.newInventory == ""
    ensures |r.items| == |ed.items| ==> r == ed
  {
    if |ed.newInventory| > 0 && !ContainsCaseless(ed.items, ed.newInventory)
    then InventoryEditor(ed.items + [ed.newInventory], "")
    else ed
  }

  /** Adding keeps the list free of case-insensitive duplicates, and the
      entry is in the list afterwards (as typed, or as an earlier spelling)
      unless it was empty. */
  lemma {:induction false} InventoryAddKeepsDistinct(ed: InventoryEditor)
    requires CaselessDistinct(ed.items)
    ensures CaselessDistinct(OnInventoryAdd(ed).items)
    ensures |ed.newInventory| > 0 ==> ContainsCaseless(OnInventoryAdd(ed).items, ed.newInventory)
    ensures |OnInventoryAdd(ed).items| <= |ed.items| + 1
  {
    var r := OnInventoryAdd(ed);
    if |ed.newInventory| > 0 && !ContainsCaseless(ed.items, ed.newInventory) {
      var n := |ed.items|;
      forall i, j | 0 <= i < j < |r.items|
        ensures ToLower(r.items[i]) != ToLower(r.items[j])
      {
        if j == n {
          assert r.items[i] == ed.items[i];
        }
      }
      assert ToLower(r.items[n]) == ToLower(ed.newInventory);
    }
  }

  /** "Ban" is refused while "ban" is listed; "Dongkrak" is appended. */
  lemma InventoryAddExamples()
    ensures OnInventoryAdd(InventoryEditor(["ban"], "Ban")) == InventoryEditor(["ban"], "Ban")
    ensures OnInventoryAdd(InventoryEditor(["ban"], "Dongkrak")) == InventoryEditor(["ban", "Dongkrak"], "")
    ensures OnInventoryAdd(InventoryEditor(["ban"], "")) == InventoryEditor(["ban"], "")
  {
    var items: seq<string> := ["ban"];
    assert ToLower("Ban") == "ban" && ToLower("ban") == "ban";
    assert ToLower(items[0]) == ToLower("Ban");
    assert ToLower("ban")[0] != ToLower("Dongkrak")[0];
    assert !ContainsCaseless(items, "Dongkrak");
  }

  /** `items.filter((_, index) => index !== idx)`, walking the list with the
      index of its first element at `offset`. */
  function FilterOutIndex(items: seq<string>, idx: int, offset: int): seq<string>
    decreases |items|
  {
    if items == [] then []
    else (if offset == idx then [] else [items[0]]) + FilterOutIndex(items[1..], idx, offset + 1)
  }

  /** `handleInventoryDeleteBt`. */
  function OnInventoryDelete(items: seq<string>, idx: int): (r: seq<string>)
    ensures |r| == if 0 <= idx < |items| then |items| - 1 else |items|
    ensures forall i :: 0 <= i < |r| ==> r[i] in items
  {
    FilterOutIndexSpec(items, idx, 0);
    FilterOutIndex(items, idx, 0)
  }

  lemma {:induction false} FilterOutIndexSpec(items: seq<string>, idx: int, offset: int)
    ensures FilterOutIndex(items, idx, offset) ==
      if offset <= idx < offset + |items| then items[..idx - offset] + items[idx - offset + 1..] else items
    decreases |items|
  {
    if items != [] {
      FilterOutIndexSpec(items[1..], idx, offset + 1);
      if offset == idx {
        assert items[1..] == items[idx - offset + 1..];
      } else if offset < idx < offset + |items| {
        assert items[..idx - offset] == [items[0]] + items[1..][..idx - offset - 1];
        assert items[idx - offset + 1..] == items[1..][idx - offset..];
      } else {
        assert [items[0]] + items[1..] == items;
      }
    }
  }

  /** Deleting removes exactly the element at `idx` and keeps the rest in
      order; an index outside the list changes nothing. */
  lemma InventoryDeleteSpec(items: seq<string>, idx: int)
    ensures 0 <= idx < |items| ==> OnInventoryDelete(items, idx) == items[..idx] + items[idx + 1..]
    ensures !(0 <= idx < |items|) ==> OnInventoryDelete(items, idx) == items
    ensures CaselessDistinct(items) ==> CaselessDistinct(OnInventoryDelete(items, idx))
  {
    FilterOutIndexSpec(items, idx, 0);
    if 0 <= idx < |items| && CaselessDistinct(items) {
      var r := OnInventoryDelete(items, idx);
      forall i, j | 0 <= i < j < |r|
        ensures ToLower(r[i]) != ToLower(r[j])
      {
        var i' := if i < idx then i else i + 1;
        var j' := if j < idx then j else j + 1;
        assert r[i] == items[i'] && r[j] == items[j'];
      }
    }
  }

  /** `Math.max(0, Math.min(100, n))`. */
  function ClampFuel(n: int): (r: int)
    ensures 0 <= r <= 100
    ensures 0 <= n <= 100 ==> r == n
    ensures n > 100 ==> r == 100
    ensures n < 0 ==> r == 0
  {
    if n < 0 then 0 else if n > 100 then 100 else n
  }

  /** `handleBBMPercentageInputChange`: the input's text through `Number`,
      then clamped; NaN passes through `Math.min`/`Math.max` unchanged. */
  function FuelInput(text: string): (n: Num)
    ensures n.NaN? <==> ToNumber(text).NaN?
    ensures n.Finite? ==> 0 <= n.value <= 100
    ensures n.Finite? && 0 <= ToNumber(text).value <= 100 ==> n == ToNumber(text)
  {
    match ToNumber(text)
    case NaN => NaN
    case Finite(n) => Finite(ClampFuel(n))
  }

  lemma FuelInputExamples()
    ensures FuelInput("150") == Finite(100)
    ensures FuelInput("-5") == Finite(0)
    ensures FuelInput("42") == Finite(42)
    ensures FuelInput("") == Finite(0)
  {
    assert DigitsValue("150") == 150 by {
      assert "150"[..2] == "15" && "15"[..1] == "1" && "1"[..0] == "";
    }
    assert DigitsValue("5") == 5 by {
      assert "5"[..0] == "";
    }
    assert "-5"[1..] == "5";
    assert !AllDigits("-5") by {
      assert !IsDigit("-5"[0]);
    }
    assert DigitsValue("42") == 42 by {
      assert "42"[..1] == "4" && "4"[..0] == "";
    }
  }

  /** The details panel's own colour of the fuel bar: a falsy level (0) is
      red before any threshold is tried. */
  function BarColor(bbm: int): (color: string)
    ensures color in {"#28a745", "#ffc107", "#fd7e14", "#dc3545"}
    ensures color == "#dc3545" <==> bbm < 25
    ensures color == "#28a745" <==> bbm >= 75
  {
    if bbm != 0 then
      if bbm >= 75 then "#28a745"
      else if bbm >= 50 then "#ffc107"
      else if bbm >= 25 then "#fd7e14"
      else "#dc3545"
    else "#dc3545"
  }

  /** The panel's colour agrees with the shared `getPercentageColor` on
      every level. */
  lemma BarColorAgrees(bbm: int)
    ensures BarColor(bbm) == Utils.PercentageColor(bbm)
  {
  }
}
