/** The admin page: adding users and vehicles with their validation and
    duplicate checks, the Reset button of a user's loan, the two delete
    buttons and their guards, and the password login that opens a
    device-bound session. */
module Admin {
  import opened Records
  import opened JsText
  import opened Utils
  import VehicleContext
  import Form

  // ======================================================================
  // Users
  // ======================================================================

  /** The record a new user starts as: holding nothing, under its document id. */
  function NewUser(id: string, name: string): (u: User)
    ensures u.id == id && u.name == name && u.vehicleId == "" && !Form.OptionDisabled(u)
  {
    User(id, name, "", "")
  }

  /** The duplicate query: some user has exactly this name. */
  predicate NameTaken(users: map<string, User>, name: string)
  {
    exists k :: k in users && users[k].name == name
  }

  /** No two user documents carry the same name. */
  predicate UniqueNames(users: map<string, User>)
  {
    forall k1, k2 :: k1 in users && k2 in users && k1 != k2 ==> users[k1].name != users[k2].name
  }

  /** `handleUserAddBt`: a name that is blank after trimming is ignored; a
      name some user already has exactly is refused; otherwise the user is
      inserted under the id the store generates (`newId`) and the input is
      cleared. `addFails` says the insert is rejected. */
  method AddUser(db: Store, userName: string, newId: string, addFails: bool, alert: Alert)
    returns (alert': Alert, userName': string)
    requires newId != "" && newId !in db.users
    modifies db`users
    ensures Trim(userName) == "" ==> db.users == old(db.users) && alert' == alert && userName' == userName
    ensures Trim(userName) != "" && NameTaken(old(db.users), userName) ==>
      db.users == old(db.users) && alert' == Alert(true, "Pengguna sudah ada", "danger") && userName' == userName
    ensures Trim(userName) != "" && !NameTaken(old(db.users), userName) && addFails ==>
      db.users == old(db.users) && userName' == userName
      && alert' == Alert(true, "Terjadi kesalahan saat menambahkan pengguna", "warning")
    ensures Trim(userName) != "" && !NameTaken(old(db.users), userName) && !addFails ==>
      db.users == old(db.users)[newId := NewUser(newId, userName)] && userName' == ""
      && alert' == Alert(true, "Pengguna berhasil ditambahkan", "success")
  {
    alert', userName' := alert, userName;
    var isDuplicate := NameTaken(db.users, userName);
    if Trim(userName) != "" {
      if isDuplicate {
        alert' := Alert(true, "Pengguna sudah ada", "danger");
      } else if addFails {
        alert' := Alert(true, "Terjadi kesalahan saat menambahkan pengguna", "warning");
      } else {
        db.users := db.users[newId := NewUser(newId, userName)];
        alert' := Alert(true, "Pengguna berhasil ditambahkan", "success");
        userName' := "";
      }
    }
  }

  /** The duplicate check keeps user names unique: an insert that passes
      it leaves no two users with one name, and the new name is taken. */
  lemma AddUserKeepsNamesUnique(users: map<string, User>, name: string, newId: string)
    requires UniqueNames(users) && !NameTaken(users, name) && newId !in users
    ensures UniqueNames(users[newId := NewUser(newId, name)])
    ensures NameTaken(users[newId := NewUser(newId, name)], name)
  {
    var after := users[newId := NewUser(newId, name)];
    assert after[newId].name == name;
  }

  /** `handleUserResetBt`: both document references are built first (an
      empty id ends the handler), then the vehicle update, then the user
      update, inside one try/catch. `rejection` says which update the store
      rejects, if any; a missing document rejects its update as well. */
  method ResetUser(db: Store, userId: string, vehicleId: string, rejection: Rejection)
    modifies db`vehicles, db`users
    ensures var cleared := userId != "" && Addressable(vehicleId, old(db.vehicles)) && Lands(rejection, 1);
      (cleared ==> db.vehicles == old(db.vehicles)[vehicleId := AdminCleared(old(db.vehicles)[vehicleId])])
      && (!cleared ==> db.vehicles == old(db.vehicles))
    ensures var released := Addressable(vehicleId, old(db.vehicles)) && Addressable(userId, old(db.users))
                            && Lands(rejection, 2);
      (released ==> db.users == old(db.users)[userId := old(db.users)[userId].(vehicleId := "")])
      && (!released ==> db.users == old(db.users))
  {
    if userId == "" || !Addressable(vehicleId, db.vehicles) || !Lands(rejection, 1) {
      return;
    }
    db.vehicles := db.vehicles[vehicleId := AdminCleared(db.vehicles[vehicleId])];
    if userId !in db.users || !Lands(rejection, 2) {
      return;
    }
    db.users := db.users[userId := db.users[userId].(vehicleId := "")];
  }

  /** The fields the user Reset button writes on the vehicle. */
  function AdminCleared(v: Vehicle): (r: Vehicle)
    ensures r.isReady
  {
    v.(isReady := true, status := "", purpose := "", returnTime := "", timeStamp := "")
  }

  /** The user Reset button clears less than the sweep: it leaves `isBooked`,
      `returnDateTime` and `resetTime`, so the vehicle is Ready-consistent
      afterwards exactly when those were already clear, a due vehicle stays
      due, and a later sweep still lands on the sweep's own result with
      `returnTime` cleared. */
  lemma AdminResetVersusSweep(v: Vehicle, now: int)
    ensures VehicleContext.ReadyConsistent(AdminCleared(v))
      <==> !v.isBooked && v.returnDateTime == "" && v.resetTime.None?
    ensures VehicleContext.IsDue(AdminCleared(v), now) == VehicleContext.IsDue(v, now)
    ensures VehicleContext.SweptClear(AdminCleared(v)) == VehicleContext.SweptClear(v).(returnTime := "")
  {
  }

  /** A completed reset (the admin's user Reset, or the details panel's
      Reset, which writes `DetailsCleared`) makes the vehicle Ready and
      releases the user; every holder stays on a stored vehicle, and held
      vehicles stay not ready exactly when no other user held this one. */
  lemma ResetKeepsHolderInvariant(before: Db, after: Db, userId: string, vehicleId: string)
    requires HoldersValid(before) && HeldNotReady(before)
    requires Addressable(vehicleId, before.vehicles) && Addressable(userId, before.users)
    requires after.vehicles == before.vehicles[vehicleId := AdminCleared(before.vehicles[vehicleId])]
             || after.vehicles == before.vehicles[vehicleId := VehicleContext.DetailsCleared(before.vehicles[vehicleId])]
    requires after.users == before.users[userId := before.users[userId].(vehicleId := "")]
    ensures HoldersValid(after)
    ensures HeldNotReady(after) <==>
      forall k :: k in before.users && k != userId ==> before.users[k].vehicleId != vehicleId
  {
    assert after.vehicles[vehicleId].isReady;
    if forall k :: k in before.users && k != userId ==> before.users[k].vehicleId != vehicleId {
      forall k | k in after.users && after.users[k].vehicleId != "" && after.users[k].vehicleId in after.vehicles
        ensures !after.vehicles[after.users[k].vehicleId].isReady
      {
        assert k != userId && after.users[k] == before.users[k];
      }
    } else {
      var k :| k in before.users && k != userId && before.users[k].vehicleId == vehicleId;
      assert after.users[k].vehicleId == vehicleId;
    }
  }

  /** The user Delete button: a user holding a vehicle is refused with an
      alert; otherwise the user document is removed (an empty id makes the
      reference throw, and a deletion the store rejects throws, both caught
      by the handler). */
  method DeleteUserClick(db: Store, user: User, alert: Alert, rejection: Rejection) returns (alert': Alert)
    modifies db`users
    ensures user.vehicleId != "" ==>
      db.users == old(db.users) && alert' == Alert(true, "Tidak dapat dihapus, pengguna sedang meminjam", "danger")
    ensures user.vehicleId == "" ==>
      db.users == (if user.id != "" && Lands(rejection, 1) then old(db.users) - {user.id} else old(db.users))
      && alert' == alert
  {
    alert' := alert;
    if user.vehicleId != "" {
      alert' := Alert(true, "Tidak dapat dihapus, pengguna sedang meminjam", "danger");
    } else if user.id != "" && Lands(rejection, 1) {
      db.users := db.users - {user.id};
    }
  }

  /** The users holding a vehicle. */
  function Holders(users: map<string, User>): set<string>
  {
    set k | k in users && users[k].vehicleId != ""
  }

  /** A deletion the guard lets through never removes a holder: the users
      holding vehicles are exactly those before. */
  lemma UserDeleteKeepsHolders(users: map<string, User>, user: User)
    requires user.vehicleId == "" && (user.id in users ==> users[user.id] == user)
    ensures Holders(if user.id != "" then users - {user.id} else users) == Holders(users)
  {
    var after := if user.id != "" then users - {user.id} else users;
    assert forall k :: k in Holders(users) ==> k != user.id || user.id !in users;
    assert Holders(after) == Holders(users);
  }

  // ======================================================================
  // Vehicles
  // ======================================================================

  /** The add-vehicle form: kind, plate number, fuel level, the four
      inventory flags, the uploaded image's URL and whether a file was
      chosen. */
  datatype VehicleForm = VehicleForm(
    kind: string, number: string, bbm: int,
    p3k: bool, umbrella: bool, spareTire: bool, jack: bool,
    imageUrl: string, imageChosen: bool)

  /** The form's initial (and post-success) values. */
  const EmptyVehicleForm := VehicleForm("", "", 100, true, true, true, true, "", false)

  /** The record a new vehicle starts as. */
  function NewVehicle(id: string, f: VehicleForm): Vehicle
  {
    Vehicle(id, f.kind, f.number, true, false, f.bbm, "", "", "", None, "", None, "", f.imageUrl, [],
            f.p3k, f.umbrella, f.spareTire, f.jack)
  }

  /** A new vehicle is Ready with every loan field empty, carries the form's
      values, and no sweep ever selects it. */
  lemma NewVehicleDefaults(id: string, f: VehicleForm, now: int)
    ensures var v := NewVehicle(id, f);
      v.isReady && v.status == "" && v.purpose == "" && v.returnTime == "" && v.timeStamp == ""
      && v.isoReturnTime.None? && v.id == id && v.kind == f.kind && v.number == f.number && v.bbm == f.bbm
      && v.imageUrl == f.imageUrl && v.p3k == f.p3k && v.umbrella == f.umbrella
      && v.spareTire == f.spareTire && v.jack == f.jack
      && VehicleContext.ReadyConsistent(v) && !VehicleContext.IsDue(v, now)
  {
  }

  /** The duplicate query: some vehicle has both this kind and this number. */
  predicate PlateTaken(vehicles: map<string, Vehicle>, kind: string, number: string)
  {
    exists k :: k in vehicles && vehicles[k].kind == kind && vehicles[k].number == number
  }

  /** No two vehicle documents share both kind and number. */
  predicate UniquePlates(vehicles: map<string, Vehicle>)
  {
    forall k1, k2 :: k1 in vehicles && k2 in vehicles && k1 != k2 ==>
      vehicles[k1].kind != vehicles[k2].kind || vehicles[k1].number != vehicles[k2].number
  }

  /** `handleVehicleAddBt`: no chosen image file gives a warning; inside
      the try block the duplicate query runs first (`queryFails` says the
      store rejects it, which the catch reports); a kind or number that is
      blank after trimming is then ignored; a vehicle with the same kind and
      number is refused (the message is set but the banner is not shown);
      otherwise the vehicle is inserted under `newId` and the form is reset.
      `addFails` says the insert is rejected. */
  method AddVehicle(db: Store, f: VehicleForm, newId: string, queryFails: bool, addFails: bool, alert: Alert)
    returns (alert': Alert, f': VehicleForm)
    requires newId != "" && newId !in db.vehicles
    modifies db`vehicles
    ensures !f.imageChosen ==>
      db.vehicles == old(db.vehicles) && f' == f && alert' == Alert(true, "Silahkan pilih gambar kendaraan", "warning")
    ensures f.imageChosen && queryFails ==>
      db.vehicles == old(db.vehicles) && f' == f
      && alert' == Alert(true, "Terjadi kesalahan saat menambahkan kendaraan", "warning")
    ensures f.imageChosen && !queryFails && (Trim(f.kind) == "" || Trim(f.number) == "") ==>
      db.vehicles == old(db.vehicles) && f' == f && alert' == alert
    ensures f.imageChosen && !queryFails && Trim(f.kind) != "" && Trim(f.number) != ""
            && PlateTaken(old(db.vehicles), f.kind, f.number) ==>
      db.vehicles == old(db.vehicles) && f' == f
      && alert' == alert.(message := "Kendaraan dengan jenis atau nomor yang sama sudah ada", kind := "danger")
    ensures f.imageChosen && !queryFails && Trim(f.kind) != "" && Trim(f.number) != ""
            && !PlateTaken(old(db.vehicles), f.kind, f.number) && addFails ==>
      db.vehicles == old(db.vehicles) && f' == f
      && alert' == Alert(true, "Terjadi kesalahan saat menambahkan kendaraan", "warning")
    ensures f.imageChosen && !queryFails && Trim(f.kind) != "" && Trim(f.number) != ""
            && !PlateTaken(old(db.vehicles), f.kind, f.number) && !addFails ==>
      db.vehicles == old(db.vehicles)[newId := NewVehicle(newId, f)] && f' == EmptyVehicleForm
      && alert' == Alert(true, "Kendaraan berhasil ditambahkan", "success")
  {
    alert', f' := alert, f;
    if !f.imageChosen {
      alert' := Alert(true, "Silahkan pilih gambar kendaraan", "warning");
      return;
    }
    if queryFails {
      alert' := Alert(true, "Terjadi kesalahan saat menambahkan kendaraan", "warning");
      return;
    }
    var isDuplicate := PlateTaken(db.vehicles, f.kind, f.number);
    if Trim(f.kind) != "" && Trim(f.number) != "" {
      if isDuplicate {
        alert' := alert'.(message := "Kendaraan dengan jenis atau nomor yang sama sudah ada", kind := "danger");
      } else if addFails {
        alert' := Alert(true, "Terjadi kesalahan saat menambahkan kendaraan", "warning");
      } else {
        db.vehicles := db.vehicles[newId := NewVehicle(newId, f)];
        alert' := Alert(true, "Kendaraan berhasil ditambahkan", "success");
        f' := EmptyVehicleForm;
      }
    }
  }

  /** The duplicate check keeps (kind, number) pairs unique. */
  lemma AddVehicleKeepsPlatesUnique(vehicles: map<string, Vehicle>, f: VehicleForm, newId: string)
    requires UniquePlates(vehicles) && !PlateTaken(vehicles, f.kind, f.number) && newId !in vehicles
    ensures UniquePlates(vehicles[newId := NewVehicle(newId, f)])
    ensures PlateTaken(vehicles[newId := NewVehicle(newId, f)], f.kind, f.number)
  {
    var after := vehicles[newId := NewVehicle(newId, f)];
    assert after[newId].kind == f.kind && after[newId].number == f.number;
  }

  /** The vehicle Delete button: a vehicle the list shows as not ready is
      refused with an alert; otherwise the stored document is read, its
      image deleted from storage when it has one, and the document removed.
      An empty id or a failing image deletion is caught with a failure alert;
      a missing document does nothing. */
  method DeleteVehicleClick(db: Store, vehicle: Vehicle, storageFails: bool, alert: Alert)
    returns (alert': Alert)
    modifies db`vehicles
    ensures !vehicle.isReady ==>
      db.vehicles == old(db.vehicles) && alert' == Alert(true, "Tidak dapat dihapus, kendaraan sedang digunakan", "danger")
    ensures vehicle.isReady && vehicle.id == "" ==>
      db.vehicles == old(db.vehicles) && alert' == Alert(true, "Gagal mengghasil kendaraan", "danger")
    ensures vehicle.isReady && vehicle.id != "" && vehicle.id !in old(db.vehicles) ==>
      db.vehicles == old(db.vehicles) && alert' == alert
    ensures vehicle.isReady && Addressable(vehicle.id, old(db.vehicles))
            && |old(db.vehicles)[vehicle.id].imageUrl| > 0 && storageFails ==>
      db.vehicles == old(db.vehicles) && alert' == Alert(true, "Gagal mengghasil kendaraan", "danger")
    ensures vehicle.isReady && Addressable(vehicle.id, old(db.vehicles))
            && !(|old(db.vehicles)[vehicle.id].imageUrl| > 0 && storageFails) ==>
      db.vehicles == old(db.vehicles) - {vehicle.id} && alert' == Alert(true, "Kendaraan berhasil dihapus", "success")
  {
    alert' := alert;
    if !vehicle.isReady {
      alert' := Alert(true, "Tidak dapat dihapus, kendaraan sedang digunakan", "danger");
      return;
    }
    var id := vehicle.id;
    if id == "" {
      alert' := Alert(true, "Gagal mengghasil kendaraan", "danger");
      return;
    }
    if id in db.vehicles {
      var vehicleData := db.vehicles[id];
      if |vehicleData.imageUrl| > 0 && storageFails {
        alert' := Alert(true, "Gagal mengghasil kendaraan", "danger");
        return;
      }
      db.vehicles := db.vehicles - {id};
      alert' := Alert(true, "Kendaraan berhasil dihapus", "success");
    }
  }

  /** What the vehicle guard protects: while held vehicles are not ready,
      deleting a ready vehicle leaves no user pointing at a missing one. */
  lemma VehicleDeleteKeepsHolders(db: Db, id: string)
    requires HoldersValid(db) && HeldNotReady(db)
    requires id in db.vehicles && db.vehicles[id].isReady
    ensures HoldersValid(db.(vehicles := db.vehicles - {id}))
    ensures HeldNotReady(db.(vehicles := db.vehicles - {id}))
  {
    forall k | k in db.users && db.users[k].vehicleId != ""
      ensures db.users[k].vehicleId != id
    {
    }
  }

  // ======================================================================
  // Password login
  // ======================================================================

  /** How long a login lasts: five minutes, in milliseconds. */
  const LoginExpiration: int := 5 * 60 * 1000

  /** The password is accepted: non-empty and equal to the `password`
      field of the `admin/admin` document. */
  predicate PasswordAccepted(password: string, stored: Option<string>)
  {
    password != "" && stored == Some(password)
  }

  /** `handleConfirmPassword`: an accepted password stores a login record
      for this device expiring `LoginExpiration` ms after `now`, then
      re-checks the login status; anything else changes nothing.
      `freshId`/`freshId2` are what the two possible `generateSimpleId`
      calls would produce. */
  method ConfirmPassword(db: Store, storage: DeviceStorage, password: string, now: int,
                         freshId: string, freshId2: string, loggedIn: bool) returns (loggedIn': bool)
    modifies storage`computerId, storage`adminLoginInfo
    ensures PasswordAccepted(password, db.adminPassword) ==>
      var id := DeviceId(old(storage.computerId), freshId);
      storage.adminLoginInfo == Some(LoginInfo(id, now + LoginExpiration))
      && (id != "" ==> storage.computerId == Some(id) && loggedIn')
    ensures !PasswordAccepted(password, db.adminPassword) ==>
      storage.computerId == old(storage.computerId) && storage.adminLoginInfo == old(storage.adminLoginInfo)
      && loggedIn' == loggedIn
  {
    loggedIn' := loggedIn;
    if password != "" && db.adminPassword.Some? && db.adminPassword.value == password {
      var computerId := storage.GetOrCreateComputerId(freshId);
      storage.adminLoginInfo := Some(LoginInfo(computerId, now + LoginExpiration));
      loggedIn' := storage.CheckAdminLoginStatus(now, freshId2);
    }
  }

  /** A login written at `t0` on device `d` is accepted at `t` exactly on
      that device and while `t < t0 + 300000`. */
  lemma LoginSessionWindow(d: string, other: string, t0: int, t: int)
    ensures SessionValid(Some(LoginInfo(d, t0 + LoginExpiration)), d, t) <==> t < t0 + 300000
    ensures other != d ==> !SessionValid(Some(LoginInfo(d, t0 + LoginExpiration)), other, t)
  {
  }
}
