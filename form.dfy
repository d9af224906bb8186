/** The booking form: the timestamp it stamps on a loan, the gate a vehicle
    card click passes through, the user picker, and the confirm step that
    books the vehicle for the chosen user. */
module Form {
  import opened Records
  import opened JsText
  import opened JsDate
  import VehicleContext

  // ======================================================================
  // getTimestamp
  // ======================================================================

  /** The local calendar reading of the clock: full year, zero-based month,
      day of the month, hours and minutes. */
  datatype ClockParts = ClockParts(year: nat, month0: nat, day: nat, hours: nat, minutes: nat)

  /** A reading the clock can give. */
  predicate ValidParts(p: ClockParts)
  {
    p.year >= 10 && p.month0 < 12 && 1 <= p.day <= 31 && p.hours < 24 && p.minutes < 60
  }

  /** `getTimestamp`: `DD/MM/YY HH.MM`. */
  function Timestamp(p: ClockParts): (s: string)
    ensures ValidParts(p) ==> |s| == 14 && s[2] == '/' && s[5] == '/' && s[8] == ' ' && s[11] == '.'
  {
    var day, month := PadStart2(DecimalString(p.day)), PadStart2(DecimalString(p.month0 + 1));
    var year := SliceLast2(DecimalString(p.year));
    var hours, minutes := PadStart2(DecimalString(p.hours)), PadStart2(DecimalString(p.minutes));
    var stamp := day + "/" + month + "/" + year + " " + hours + "." + minutes;
    if ValidParts(p) then FieldPositions(day, month, year, hours, minutes); stamp else stamp
  }

  /** The two digits of a value below 100. */
  function Two(n: nat): string
    requires n < 100
  {
    [Digit(n / 10), Digit(n % 10)]
  }

  /** The tens and units of the year's last two digits. */
  lemma YearDigits(y: nat)
    ensures (y / 10) % 10 == (y % 100) / 10 && (y % 100) % 10 == y % 10
  {
    var q := y / 100;
    var r := y % 100;
    assert y == 100 * q + r;
    assert r == 10 * (r / 10) + r % 10;
    assert y == 10 * (10 * q + r / 10) + r % 10;
    assert y / 10 == 10 * q + r / 10;
  }

  /** Every field takes exactly two positions: day, month (one-based),
      the last two digits of the year, hours and minutes, each zero-padded,
      with the separators between them. */
  lemma TimestampLayout(p: ClockParts)
    requires ValidParts(p)
    ensures Timestamp(p) == Two(p.day) + "/" + Two(p.month0 + 1) + "/" + Two(p.year % 100)
                            + " " + Two(p.hours) + "." + Two(p.minutes)
    ensures |Timestamp(p)| == 14
  {
    TwoDigits(p.day);
    TwoDigits(p.month0 + 1);
    TwoDigits(p.hours);
    TwoDigits(p.minutes);
    LastTwoDigits(p.year);
    YearDigits(p.year);
    assert SliceLast2(DecimalString(p.year)) == Two(p.year % 100);
  }

  lemma TwoValue(n: nat)
    requires n < 100
    ensures AllDigits(Two(n)) && ToNumber(Two(n)) == Finite(n)
  {
    var a, b := n / 10, n % 10;
    var s := Two(n);
    assert DigitValue(Digit(a)) == a && DigitValue(Digit(b)) == b;
    assert s[..1] == [Digit(a)];
    assert DigitsValue([Digit(a)]) == a by {
      assert [Digit(a)][..0] == [];
    }
    assert DigitsValue(s) == a * 10 + b;
    ToNumberDigits(s);
  }

  /** Where the five fields of a `DD/MM/YY HH.MM` layout sit. */
  lemma FieldPositions(a: string, b: string, c: string, d: string, e: string)
    requires |a| == 2 && |b| == 2 && |c| == 2 && |d| == 2 && |e| == 2
    ensures var s := a + "/" + b + "/" + c + " " + d + "." + e;
      |s| == 14 && s[0..2] == a && s[3..5] == b && s[6..8] == c && s[9..11] == d && s[12..14] == e
      && s[2] == '/' && s[5] == '/' && s[8] == ' ' && s[11] == '.'
  {
    var s := a + "/" + b + "/" + c + " " + d + "." + e;
    assert s[0..2] == a;
    assert s[3..5] == b;
    assert s[6..8] == c;
    assert s[9..11] == d;
    assert s[12..14] == e;
  }

  /** The stamp reads back: each two-character field, through `Number`, is
      the day, the one-based month, the year modulo 100, the hours and the
      minutes. */
  lemma TimestampReadsBack(p: ClockParts)
    requires ValidParts(p)
    ensures var s := Timestamp(p);
      |s| == 14
      && ToNumber(s[0..2]) == Finite(p.day) && ToNumber(s[3..5]) == Finite(p.month0 + 1)
      && ToNumber(s[6..8]) == Finite(p.year % 100) && ToNumber(s[9..11]) == Finite(p.hours)
      && ToNumber(s[12..14]) == Finite(p.minutes)
      && s[2] == '/' && s[5] == '/' && s[8] == ' ' && s[11] == '.'
  {
    TimestampLayout(p);
    FieldPositions(Two(p.day), Two(p.month0 + 1), Two(p.year % 100), Two(p.hours), Two(p.minutes));
    TwoValue(p.day);
    TwoValue(p.month0 + 1);
    TwoValue(p.year % 100);
    TwoValue(p.hours);
    TwoValue(p.minutes);
  }

  // ======================================================================
  // The form's state, the user picker and the card-click gate
  // ======================================================================

  /** The form's state: the chosen user and vehicle (indices into the user
      and vehicle lists, -1 for none), the two inputs, the confirmation
      popup, the alert banner and the three field warnings. */
  datatype FormState = FormState(
    selectedUser: int,
    selectedVehicle: int,
    purpose: string,
    returnTime: string,
    showConfirmPopup: bool,
    alert: Alert,
    showSelectUserWarn: bool,
    showPurposeWarn: bool,
    showReturnTimeWarn: bool)

  /** The form after a successful booking: nothing chosen, inputs empty,
      popup closed, success banner. */
  function Cleared(f: FormState): FormState
  {
    f.(showConfirmPopup := false, selectedVehicle := -1, selectedUser := -1, purpose := "",
       returnTime := "", alert := Alert(true, "Berhasil meminjam", "success"))
  }

  /** A user's option is disabled while the user holds a vehicle. */
  predicate OptionDisabled(u: User)
  {
    |u.vehicleId| != 0
  }

  /** `handleUserChange` for the option at `index`: the select element only
      reports enabled options, so a disabled one leaves the choice as it is. */
  function OnUserChange(f: FormState, users: seq<User>, index: int): (g: FormState)
    ensures g == f.(selectedUser := g.selectedUser)
    ensures g.selectedUser == f.selectedUser || (0 <= g.selectedUser < |users| && !OptionDisabled(users[g.selectedUser]))
  {
    if 0 <= index < |users| && !OptionDisabled(users[index]) then f.(selectedUser := index) else f
  }

  /** The user picker never lands on a user who holds a vehicle, and it
      lands on every user who does not. */
  lemma UserPickerSkipsHolders(f: FormState, users: seq<User>, index: int)
    ensures var g := OnUserChange(f, users, index);
      (g.selectedUser != f.selectedUser ==> users[g.selectedUser].vehicleId == "")
      && (0 <= index < |users| && users[index].vehicleId == "" ==> g.selectedUser == index)
  {
  }

  /** The three inputs the gate demands. */
  predicate Complete(f: FormState)
  {
    f.selectedUser >= 0 && |f.purpose| > 0 && |f.returnTime| > 0
  }

  /** The click handler of vehicle card `index`: set the three warnings;
      with a complete form, select a ready vehicle and open the popup, or
      report a vehicle that is not ready. */
  function CardClick(f: FormState, index: int, v: Vehicle): (g: FormState)
    ensures g.showSelectUserWarn == (f.selectedUser == -1)
    ensures g.showPurposeWarn == (|f.purpose| < 1) && g.showReturnTimeWarn == (|f.returnTime| < 1)
  {
    var w := f.(showSelectUserWarn := f.selectedUser == -1, showPurposeWarn := |f.purpose| < 1,
                showReturnTimeWarn := |f.returnTime| < 1);
    if Complete(f) then
      if v.isReady then w.(selectedVehicle := index, showConfirmPopup := true)
      else w.(alert := Alert(true, "Kendaraan tidak tersedia", "danger"))
    else w
  }

  /** The gate: a card click selects its vehicle and opens the popup exactly
      when the form is complete and the vehicle is ready; a complete form
      with a vehicle that is not ready shows "Kendaraan tidak tersedia" and
      keeps the selection; an incomplete form changes only the warnings. */
  lemma CardClickGate(f: FormState, index: int, v: Vehicle)
    ensures var g := CardClick(f, index, v);
      (Complete(f) && v.isReady ==> g.selectedVehicle == index && g.showConfirmPopup && g.alert == f.alert)
      && (Complete(f) && !v.isReady ==>
            g.selectedVehicle == f.selectedVehicle && g.showConfirmPopup == f.showConfirmPopup
            && g.alert == Alert(true, "Kendaraan tidak tersedia", "danger"))
      && (!Complete(f) ==> g.(showSelectUserWarn := f.showSelectUserWarn, showPurposeWarn := f.showPurposeWarn,
                             showReturnTimeWarn := f.showReturnTimeWarn) == f)
      && (g.selectedVehicle != f.selectedVehicle ==> Complete(f) && v.isReady)
      && g.selectedUser == f.selectedUser && g.purpose == f.purpose && g.returnTime == f.returnTime
  {
  }

  /** `handleCancelBt`. */
  function OnCancel(f: FormState): (g: FormState)
    ensures !g.showConfirmPopup && g.selectedVehicle == -1
    ensures g.selectedUser == f.selectedUser && g.purpose == f.purpose && g.returnTime == f.returnTime
  {
    f.(showConfirmPopup := false, selectedVehicle := -1)
  }

  // ======================================================================
  // handleConfirmBt
  // ======================================================================

  /** The instant the `HH:MM` return time names: today (in local time) at
      that hour and minute, seconds and milliseconds zero. */
  function ReturnInstant(returnTime: string, now: int, tzOffset: int): (t: Instant)
    ensures ':' !in returnTime ==> t == InvalidDate
    ensures t.At? ==> -MaxTime <= t.ms <= MaxTime
  {
    var parts := Split(returnTime, ':');
    SplitCount(returnTime, ':');
    AtClockTime(now, NumberAt(parts, 0), NumberAt(parts, 1), tzOffset)
  }

  /** A `HH:MM` whose two parts read as an hour `h` and a minute `m` names
      a valid instant whose local time is that hour and minute of the day of
      `now`, on a whole minute. */
  lemma ReturnInstantOfClock(hh: string, mm: string, h: int, m: int, now: int, tzOffset: int)
    requires ':' !in hh && ':' !in mm
    requires ToNumber(hh) == Finite(h) && ToNumber(mm) == Finite(m) && 0 <= h < 24 && 0 <= m < 60
    requires -MaxTime + MsPerDay <= now <= MaxTime - MsPerDay
    requires -MsPerDay < tzOffset < MsPerDay
    ensures var t := ReturnInstant(hh + ":" + mm, now, tzOffset);
      t.At?
      && t.ms + tzOffset == LocalMidnight(now, tzOffset) + h * MsPerHour + m * MsPerMinute
      && (t.ms + tzOffset) % MsPerMinute == 0
  {
    SplitTwo(hh, mm, ':');
    assert hh + ":" + mm == hh + [':'] + mm;
    AtClockTimeWholeMinutes(now, h, m, tzOffset);
  }

  /** "15:00" today, in local time. */
  lemma ReturnInstantExample(now: int, tzOffset: int)
    requires -MaxTime + MsPerDay <= now <= MaxTime - MsPerDay
    requires -MsPerDay < tzOffset < MsPerDay
    ensures ReturnInstant("15:00", now, tzOffset) == At(LocalMidnight(now, tzOffset) + 15 * MsPerHour - tzOffset)
  {
    assert ToNumber("15") == Finite(15) by {
      assert "15"[..1] == "1" && "1"[..0] == "";
    }
    assert ToNumber("00") == Finite(0) by {
      assert "00"[..1] == "0";
    }
    ReturnInstantOfClock("15", "00", 15, 0, now, tzOffset);
    assert "15" + ":" + "00" == "15:00";
  }

  /** The fields the confirm step writes on the booked vehicle. */
  function Booked(v: Vehicle, userName: string, purpose: string, returnTime: string,
                  isoReturnTime: int, stamp: string): (b: Vehicle)
    ensures !b.isReady
  {
    v.(isReady := false, status := "Sedang digunakan oleh " + userName, purpose := purpose,
       returnTime := returnTime, isoReturnTime := Some(isoReturnTime), timeStamp := stamp)
  }

  /** Booking changes only the six fields it writes: putting their old
      values back gives the vehicle unchanged; the status names the user. */
  lemma BookedChangesOnlyItsFields(v: Vehicle, userName: string, purpose: string, returnTime: string,
                                   iso: int, stamp: string)
    ensures var b := Booked(v, userName, purpose, returnTime, iso, stamp);
      b.(isReady := v.isReady, status := v.status, purpose := v.purpose, returnTime := v.returnTime,
         isoReturnTime := v.isoReturnTime, timeStamp := v.timeStamp) == v
      && b.status[..22] == "Sedang digunakan oleh " && b.status[22..] == userName
      && b.purpose == purpose && b.returnTime == returnTime && b.isoReturnTime == Some(iso)
  {
  }

  /** The confirm step writes `isoReturnTime`, while the auto-reset sweep
      reads `resetTime`, which it leaves alone: a vehicle booked through the
      form with no reset time is never selected by the sweep. */
  lemma BookingNotSwept(v: Vehicle, userName: string, purpose: string, returnTime: string,
                        iso: int, stamp: string, now: int)
    ensures VehicleContext.IsDue(Booked(v, userName, purpose, returnTime, iso, stamp), now)
            == VehicleContext.IsDue(v, now)
    ensures v.resetTime.None? ==> !VehicleContext.IsDue(Booked(v, userName, purpose, returnTime, iso, stamp), now)
  {
  }

  /** Both list positions exist. */
  predicate Indexed(f: FormState, vehicleCount: int, userCount: int)
  {
    0 <= f.selectedVehicle < vehicleCount && 0 <= f.selectedUser < userCount
  }

  /** `handleConfirmBt`: book the selected vehicle for the selected user.
      `vehicles` is the page's vehicle list, `now`/`tzOffset` the clock and
      `clock` its local calendar reading. A position outside a list ends
      the handler before anything is written; inside the try block an
      empty id, an invalid return instant or a missing document ends it at
      the failing step. `rejection` counts the handler's awaited store
      calls: the vehicle update (1), its read-back (2), the user update (3)
      and its read-back (4). */
  method ConfirmBooking(db: Store, vehicles: array<Vehicle>, users: seq<User>, f: FormState,
                        now: int, tzOffset: int, clock: ClockParts, rejection: Rejection) returns (g: FormState)
    modifies db`vehicles, db`users, vehicles
    ensures !Indexed(f, vehicles.Length, |users|) ==>
      g == f && db.vehicles == old(db.vehicles) && db.users == old(db.users) && vehicles[..] == old(vehicles[..])
    ensures Indexed(f, vehicles.Length, |users|) ==>
      var vid := old(vehicles[f.selectedVehicle]).id;
      var user := users[f.selectedUser];
      var t := ReturnInstant(f.returnTime, now, tzOffset);
      var written := vid != "" && t.At? && vid in old(db.vehicles) && Lands(rejection, 1);
      var linked := written && Addressable(user.id, old(db.users)) && Lands(rejection, 3);
      (written ==>
        db.vehicles == old(db.vehicles)[vid := Booked(old(db.vehicles)[vid], user.name, f.purpose, f.returnTime,
                                                       t.ms, Timestamp(clock))]
        && vehicles[..] == old(vehicles[..])[f.selectedVehicle := old(vehicles[f.selectedVehicle]).(isReady := false)])
      && (!written ==> db.vehicles == old(db.vehicles) && vehicles[..] == old(vehicles[..]))
      && (linked ==> db.users == old(db.users)[user.id := old(db.users)[user.id].(vehicleId := vid)])
      && (!linked ==> db.users == old(db.users))
      && g == if linked && Lands(rejection, 4) then Cleared(f) else f
  {
    g := f;
    if !(0 <= f.selectedVehicle < vehicles.Length && 0 <= f.selectedUser < |users|) {
      return;
    }
    var vehicle := vehicles[f.selectedVehicle];
    var user := users[f.selectedUser];
    var vehicleId := vehicle.id;
    var userId := user.id;
    if vehicleId == "" {
      return;
    }
    var parts := Split(f.returnTime, ':');
    var currentDate := AtClockTime(now, NumberAt(parts, 0), NumberAt(parts, 1), tzOffset);
    if currentDate.InvalidDate? || vehicleId !in db.vehicles || !Lands(rejection, 1) {
      return;
    }
    db.vehicles := db.vehicles[vehicleId := Booked(db.vehicles[vehicleId], user.name, f.purpose, f.returnTime,
                                                   currentDate.ms, Timestamp(clock))];
    vehicles[f.selectedVehicle] := vehicles[f.selectedVehicle].(isReady := false);
    if !Lands(rejection, 2) || !Addressable(userId, db.users) || !Lands(rejection, 3) {
      return;
    }
    db.users := db.users[userId := db.users[userId].(vehicleId := vehicleId)];
    if !Lands(rejection, 4) {
      return;
    }
    g := Cleared(f);
  }

  /** A completed booking links the two records both ways: the user holds
      the vehicle, and the vehicle is no longer ready. */
  lemma BookingLinksUserAndVehicle(before: Db, v: Vehicle, u: User, vid: string, uid: string,
                                   purpose: string, returnTime: string, iso: int, stamp: string)
    requires vid in before.vehicles && uid in before.users
    ensures var after := before.(
        vehicles := before.vehicles[vid := Booked(before.vehicles[vid], u.name, purpose, returnTime, iso, stamp)],
        users := before.users[uid := before.users[uid].(vehicleId := vid)]);
      after.users[uid].vehicleId == vid && !after.vehicles[vid].isReady
      && OptionDisabled(after.users[uid]) == (vid != "")
      && (forall k :: k in before.users && k != uid ==> after.users[k] == before.users[k])
      && (forall k :: k in before.vehicles && k != vid ==> after.vehicles[k] == before.vehicles[k])
  {
  }

  /** Booking keeps every holder on a stored, not-ready vehicle, both when
      the handler completes and when the user update is rejected after the
      vehicle was written: the booked vehicle is never Ready, and only the
      booking user's `vehicleId` changes, to a stored vehicle. */
  lemma BookingKeepsHolderInvariant(before: Db, vid: string, uid: string, b: Vehicle)
    requires HoldersValid(before) && HeldNotReady(before)
    requires vid in before.vehicles && uid in before.users && !b.isReady
    ensures var written := before.(vehicles := before.vehicles[vid := b]);
      HoldersValid(written) && HeldNotReady(written)
    ensures var linked := before.(vehicles := before.vehicles[vid := b],
                                  users := before.users[uid := before.users[uid].(vehicleId := vid)]);
      HoldersValid(linked) && HeldNotReady(linked)
  {
    var linked := before.(vehicles := before.vehicles[vid := b],
                          users := before.users[uid := before.users[uid].(vehicleId := vid)]);
    forall k | k in linked.users && linked.users[k].vehicleId != "" && linked.users[k].vehicleId in linked.vehicles
      ensures !linked.vehicles[linked.users[k].vehicleId].isReady
    {
      if k != uid && linked.users[k].vehicleId != vid {
        assert linked.users[k] == before.users[k];
      }
    }
  }
}
