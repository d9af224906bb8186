# fordami vehicle loans — a Dafny model

fordami is an office vehicle-loan app: staff pick their name, a purpose and a
return time, and book a ready vehicle. An admin page maintains users and
vehicles, and a background sweep returns vehicles whose return time has
passed. All state lives in a Firestore database: the `vehicles`, `users`,
`queue` and `history` collections and the `admin/admin` password document.

This project models the record-level behaviour underneath the UI.

- **The store.** `Records.Store` is a class whose map fields are the
  collections. Every `updateDoc` overwrites only the listed fields, and every
  `deleteDoc` removes a key. An update on an empty id, or on a document that
  does not exist, fails, and the model takes the source's `catch` path. A
  handler's awaited store calls can also be rejected outright: the
  `Records.Rejection` parameter names the first call that is rejected, and
  the handler's contract states what the calls before it left behind.
  A vehicle record holds the union of the two vehicle schemas the app uses
  (`returnTime`/`isoReturnTime`/inventory flags, and
  `returnDateTime`/`resetTime`/`isBooked`/`invItems`). A field the source
  never wrote reads as its empty value.
- **The sweep** (`VehicleContext`). `CheckVehicles` selects the vehicles of
  the snapshot whose `resetTime` is at or before `now`. It then resets them
  one by one, each inside its own failure boundary. A vehicle is cleared back
  to Ready, every user holding it is released, and every queue entry for it
  is deleted. The method is proved equal to a fold (`Sweep`), and the fold to
  a closed form (`SweepOutcome`). Each listed property is then proved about
  that closed form. Failures come in as a per-vehicle `Fault`: the vehicle
  update, the users query or the queue query rejects.
- **The vehicle panel.** It covers the manual reset, the return-time editor
  (the `datetime-local` parse and the not-in-the-past check), inventory add
  and delete, the fuel clamp and the fuel bar colour.
- **Booking** (`Form`). This covers the user picker, the card-click gate, the
  confirm step's two document updates, and the `DD/MM/YY HH.MM` timestamp.
- **Admin** (`Admin`). This covers:
  - adding users and vehicles, with their blank and duplicate checks;
  - the default values of new records;
  - the user Reset button;
  - the two delete buttons and their guards;
  - the password login that stores a five-minute, device-bound session.
- **Device session and colours** (`Utils`). `localStorage` is a
  `DeviceStorage` object with two fields.
- **Queue display** (`QueueContext`). The `returnDateTime` display rewrite.
- **JavaScript built-ins** (`JsText`, `JsDate`). These model the built-ins
  the code relies on: `split`, `Number`, `String`, `padStart`, `slice`,
  `toLowerCase`, `trim`, `replaceAll`, `replace`, `new Date(y, m, d, h, mi)`
  and the `setHours` chain.

## Behaviour worth knowing

Each point below follows the code; where the code and its documentation
disagree, the code is modelled.

- The admin duplicate check for vehicles rejects only a vehicle whose kind
  AND number both match an existing one. The alert text says "kind or
  number".
- On a duplicate vehicle, `handleVehicleAddBt` sets the alert message and
  type but never shows the alert. In `Admin.AddVehicle` the `shown` flag is
  left as it was.
- The return-time edit accepts a time equal to `now` (`now <= resetTime`).
- The admin user Reset writes `isReady`, `status`, `purpose`, `returnTime` and
  `timeStamp`. It leaves `resetTime`, `returnDateTime` and `isBooked`, so a
  later sweep still selects that vehicle (`Admin.AdminResetVersusSweep`).
- The reset in the vehicle details panel leaves `isBooked` as it was.
- A booking made from the form writes `isoReturnTime`, never `resetTime`.
  The sweep only reads `resetTime`, so such a booking is never returned
  automatically (`Form.BookingNotSwept`).
- The admin page's vehicle Delete guard only protects holders while every
  held vehicle is not ready. Booking and a sweep without a failing users
  query keep that true (`Form.BookingKeepsHolderInvariant`,
  `VehicleContext.SweepKeepsHolderInvariant`). A users query that fails
  after the vehicle was written Ready leaves its holder pointing at a Ready
  vehicle (`VehicleContext.UserQueryFailureStrandsHolder`), and so does a
  Reset while a second user holds the same vehicle
  (`Admin.ResetKeepsHolderInvariant`).
- No handler approves or denies queue requests. Queue entries are only
  deleted by the sweep.

## Model

| member | source | states |
|---|---|---|
| VehicleContext.DueVehicles | fordami/src/components/VehicleContext.tsx:735-737 | A vehicle is selected exactly when it is in the snapshot and its `resetTime` is set and at or before `now`. Vehicles with no or a future `resetTime` are not selected, and the selection is never longer than the snapshot. |
| VehicleContext.ResetOne | fordami/src/components/VehicleContext.tsx:741-773 | One iteration of the sweep never adds or removes a vehicle or user, may only remove queue entries, and leaves history and the password alone. |
| VehicleContext.Sweep | fordami/src/components/VehicleContext.tsx:741-773 | The whole sweep keeps the vehicle and user key sets, only removes queue entries, and never touches history or the password. |
| VehicleContext.ReachedDue | fordami/src/components/VehicleContext.tsx:736-737 | Over a snapshot that mirrors the store, a stored vehicle id is touched by a sweep step exactly when it is selected and its fault lets that step run. |
| VehicleContext.ResetOneParts | fordami/src/components/VehicleContext.tsx:743-768 | Resetting one vehicle, field by field: the vehicle is cleared only if its document is addressable and the update succeeds. Its holders are released and its queue entries dropped only if the steps before them succeeded. History and the password are untouched. |
| VehicleContext.ReleaseTwice | fordami/src/components/VehicleContext.tsx:755-761 | Releasing the holders of one set of vehicles, then of another, equals releasing the holders of their union. |
| VehicleContext.DropTwice | fordami/src/components/VehicleContext.tsx:764-768 | Dropping the queue entries of one set of vehicles, then of another, equals dropping those of their union. |
| VehicleContext.ClearAfterOne | fordami/src/components/VehicleContext.tsx:743-752 | Clearing one vehicle and then a set equals clearing the set plus that vehicle. |
| VehicleContext.VehiclesStep | fordami/src/components/VehicleContext.tsx:741-752 | One loop iteration extends the vehicle part of the closed form by the head vehicle. |
| VehicleContext.UsersStep | fordami/src/components/VehicleContext.tsx:741-761 | One loop iteration extends the users part of the closed form by the head vehicle. |
| VehicleContext.QueueStep | fordami/src/components/VehicleContext.tsx:741-768 | One loop iteration extends the queue part of the closed form by the head vehicle. |
| VehicleContext.SweepClosedForm | fordami/src/components/VehicleContext.tsx:741-773 | Processing the selected vehicles one at a time, each in its own try/catch, yields this result. Vehicles whose update ran are cleared, holders of vehicles whose user step ran are released, and queue entries of vehicles whose queue step ran are dropped. |
| VehicleContext.ResetVehicle | fordami/src/components/VehicleContext.tsx:742-772 | One iteration of the loop body on the store: the new contents are the single-vehicle reset of the old contents under the given fault. |
| VehicleContext.ReleaseUsers | fordami/src/components/VehicleContext.tsx:755-761 | Every user whose `vehicleId` is the vehicle's id gets `vehicleId` "". All other users are unchanged. |
| VehicleContext.DeleteRequests | fordami/src/components/VehicleContext.tsx:764-768 | Every queue entry for the vehicle is deleted. All other entries remain unchanged. |
| VehicleContext.CheckVehicles | fordami/src/components/VehicleContext.tsx:734-776 | The sweep leaves the store equal to the fold of the per-vehicle reset over the selected vehicles, in snapshot order. |
| VehicleContext.SweepVehicles | fordami/src/components/VehicleContext.tsx:743-752 | After a sweep, each stored vehicle is cleared if it was selected and its update ran, and unchanged otherwise. Cleared means Ready, not booked, empty `status`/`purpose`/`returnDateTime`/`timeStamp`, and null `resetTime`. No vehicle is added or removed. |
| VehicleContext.SweepUsers | fordami/src/components/VehicleContext.tsx:755-761 | After a sweep, each user has `vehicleId` "" if its vehicle was selected and the user step ran for it. Every other user is unchanged, and no user is added or removed. |
| VehicleContext.SweepQueue | fordami/src/components/VehicleContext.tsx:764-768 | After a sweep, a queue entry is gone exactly when its vehicle was selected and the queue step ran. Remaining entries are unchanged, and history and the password are untouched. |
| VehicleContext.SweepIsolatesFailure | fordami/src/components/VehicleContext.tsx:741-773 | A vehicle whose update fails does not stop the loop: another selected vehicle without a fault is still cleared and its holder released. |
| VehicleContext.NoneDue | fordami/src/components/VehicleContext.tsx:736-738 | When no vehicle of the snapshot is due, nothing is selected and the sweep leaves the store exactly as it was, whatever would have failed. |
| VehicleContext.SecondSweepIsNoOp | fordami/src/components/VehicleContext.tsx:743-752 | After a sweep without failures, no vehicle of the refreshed snapshot is due, so a second sweep changes nothing. |
| VehicleContext.SweepKeepsReadyInvariant | fordami/src/components/VehicleContext.tsx:743-752 | If every vehicle is Ready-consistent before a sweep, every vehicle is Ready-consistent after it. Ready-consistent means a Ready vehicle carries no booking, return time or reset time. |
| VehicleContext.SweptAt | fordami/src/components/VehicleContext.tsx:741-773 | The sweep read at one key: the vehicle is cleared exactly when selected with its update landing, and the user is released exactly when its vehicle was selected and the users step ran. |
| VehicleContext.SweepKeepsHolderInvariant | fordami/src/components/VehicleContext.tsx:741-773 | If every holder points at a stored, not-ready vehicle before a sweep in which no users query fails, the same holds afterwards. |
| VehicleContext.UserQueryFailureStrandsHolder | fordami/src/components/VehicleContext.tsx:753-761 | When the users query fails after a due vehicle was written Ready, its holder still points at it, so a held vehicle is Ready. |
| VehicleContext.DetailsResetMatchesSweep | fordami/src/components/VehicleContext.tsx:556-563 | The details-panel reset equals the sweep's clearing exactly when the vehicle is not booked. Otherwise it leaves `isBooked` set. |
| VehicleContext.ResetFromDetails | fordami/src/components/VehicleContext.tsx:549-572 | An empty user id, a missing vehicle or a rejected vehicle update changes nothing. Otherwise the vehicle is cleared. The user's `vehicleId` then becomes "" if the user document exists and its update is not rejected. |
| VehicleContext.ParseDateTimeLocal | fordami/src/components/VehicleContext.tsx:613-632 | The input is refused (the handler throws) exactly when the value has no 'T'. A valid parsed instant lies within the `Date` range. |
| VehicleContext.ParsePieces | fordami/src/components/VehicleContext.tsx:617-619 | A value `Y-M-DTh:m` with digit fields splits into the date and time parts, and these into their fields. |
| VehicleContext.ParseWellFormed | fordami/src/components/VehicleContext.tsx:613-632 | A value with digit fields parses to the local date of its numbers, with the month made zero-based. |
| VehicleContext.ParseExample | fordami/src/components/VehicleContext.tsx:616-629 | "2024-07-25T15:00" parses to 25 July 2024, 15:00 local time. |
| VehicleContext.OnReturnTimeInput | fordami/src/components/VehicleContext.tsx:613-632 | A parsed input sets both the shown value and the reset time. The editing flag is kept. |
| VehicleContext.SaveReturnEdit | fordami/src/components/VehicleContext.tsx:574-611 | The editor toggles. When it was open with a time chosen, the handler writes only if `now <= resetTime`: vehicle `returnDateTime`/`resetTime` first, then history `returnDateTime`. Otherwise it reports failure and writes nothing. A missing document or a rejected update ends the handler there, with no later write, no success notice if the vehicle was not written, and the editor's values not cleared. |
| VehicleContext.EditDecidesNextSweep | fordami/src/components/VehicleContext.tsx:579-589 | On the store an accepted edit leaves, a sweep at any instant before the new reset time leaves the vehicle and its holders unchanged. One at or after that time clears the vehicle, if the snapshot lists it and its update lands. |
| VehicleContext.OnInventoryAdd | fordami/src/components/VehicleContext.tsx:237-248 | The list is kept as a prefix and grows by at most one. It grows exactly when the entry is non-empty and matches no item ignoring case; then the entry is appended as typed and the text box cleared. Otherwise nothing changes. |
| VehicleContext.InventoryAddKeepsDistinct | fordami/src/components/VehicleContext.tsx:237-248 | Adding keeps the list free of case-insensitive duplicates. After a non-empty add, the entry is present ignoring case, and the list grows by at most one. |
| VehicleContext.InventoryAddExamples | fordami/src/components/VehicleContext.tsx:241-246 | "Ban" is not added when "ban" exists. "Dongkrak" is appended in its own case and the input cleared. An empty input changes nothing. |
| VehicleContext.FilterOutIndexSpec | fordami/src/components/VehicleContext.tsx:227 | The index filter drops exactly the element at the given position. |
| VehicleContext.OnInventoryDelete | fordami/src/components/VehicleContext.tsx:222-228 | Deleting shortens the list by one exactly when the index is in range, and keeps only items of the list. |
| VehicleContext.InventoryDeleteSpec | fordami/src/components/VehicleContext.tsx:222-228 | Deleting removes exactly the element at an in-range index and keeps the rest in order. An out-of-range index changes nothing, and case-insensitive distinctness is kept. |
| VehicleContext.ClampFuel | fordami/src/components/VehicleContext.tsx:141-147 | The fuel value lies in [0, 100]: values in range are kept, larger ones become 100, negative ones 0. |
| VehicleContext.FuelInput | fordami/src/components/VehicleContext.tsx:141-147 | The typed fuel is NaN exactly when `Number` gives NaN. Otherwise it lies in [0, 100], and an in-range number is kept. |
| VehicleContext.FuelInputExamples | fordami/src/pages/Admin.tsx:191-197 | Typed fuel "150" becomes 100, "-5" becomes 0, "42" stays 42, and "" becomes 0. The same handler body appears at VehicleContext.tsx:141-147. |
| VehicleContext.BarColor | fordami/src/components/VehicleContext.tsx:118-125 | The panel's colour is one of the four; it is red exactly below 25 (0 included, through the falsy test) and green exactly from 75. |
| VehicleContext.BarColorAgrees | fordami/src/components/VehicleContext.tsx:118-125 | The panel's own colour chain (with its `bbm` truthiness test) gives the same colour as the shared helper for every fuel value. |
| Utils.DeviceStorage.GetOrCreateComputerId | fordami/src/utils.ts:5-12 | A stored non-empty id is returned and nothing is written. Otherwise the fresh id is stored and returned. |
| Utils.DeviceStorage.CheckAdminLoginStatus | fordami/src/utils.ts:14-25 | The check is true exactly when a login record exists, its device id equals this device's id, and its expiry is strictly after `now`. With no record it is false and nothing is written. |
| Utils.DeviceIdStable | fordami/src/utils.ts:7-11 | Once an id has been created, a second call returns the same id. |
| Utils.PercentageColor | fordami/src/utils.ts:27-32 | The colour is one of the four; it is green exactly from 75 and red exactly below 25. |
| Utils.PercentageColorBuckets | fordami/src/utils.ts:27-32 | The four buckets are ≥75 green, [50,75) yellow, [25,50) orange and <25 red, and the colour never gets worse as the fuel value rises. |
| Form.Timestamp | fordami/src/pages/Form.tsx:11-19 | A valid clock reading gives a 14-character stamp with '/', '/', ' ' and '.' at positions 2, 5, 8 and 11. |
| Form.TimestampLayout | fordami/src/pages/Form.tsx:11-19 | The timestamp is `DD/MM/YY HH.MM`: two-digit day, 1-based month, the year's last two digits, hours and minutes. It is 14 characters long. |
| Form.TwoValue | fordami/src/pages/Form.tsx:13-17 | A two-digit field reads back through `Number` as its value. |
| Form.TimestampReadsBack | fordami/src/pages/Form.tsx:11-19 | Each field of the timestamp reads back as the clock value it came from, and the separators sit at fixed positions. |
| Form.OnUserChange | fordami/src/pages/Form.tsx:56-59 | Choosing a user changes only the selected user, and a changed selection is an existing user whose option is enabled. |
| Form.UserPickerSkipsHolders | fordami/src/pages/Form.tsx:170-178 | A user whose `vehicleId` is non-empty is disabled and cannot be chosen. Choosing an enabled user selects it. |
| Form.CardClick | fordami/src/pages/Form.tsx:239-242 | A card click sets the three warnings from the missing user, purpose and return time. |
| Form.CardClickGate | fordami/src/pages/Form.tsx:244-260 | A vehicle is selected and the confirm popup shown exactly when a user is chosen, purpose and return time are non-empty, and the vehicle is ready. A complete form on a non-ready vehicle shows "Kendaraan tidak tersedia" and keeps the selection. |
| Form.OnCancel | fordami/src/pages/Form.tsx:131-135 | Cancel closes the popup and deselects the vehicle, keeping user, purpose and return time. |
| Form.ReturnInstant | fordami/src/pages/Form.tsx:74-80 | A return time without ':' gives an invalid date (minutes undefined). A valid result lies within the `Date` range. |
| Form.ReturnInstantOfClock | fordami/src/pages/Form.tsx:74-80 | An `HH:MM` return time gives that wall-clock time on today's local date, with seconds and milliseconds zero. |
| Form.ReturnInstantExample | fordami/src/pages/Form.tsx:74-80 | "15:00" gives 15:00 local time today. |
| Form.Booked | fordami/src/pages/Form.tsx:82-89 | A booked vehicle is not ready. |
| Form.BookedChangesOnlyItsFields | fordami/src/pages/Form.tsx:82-89 | Confirm sets `isReady` false, `status` "Sedang digunakan oleh " + name, and `purpose`, `returnTime`, `isoReturnTime` and `timeStamp`. Every other field is unchanged. |
| Form.BookingNotSwept | fordami/src/pages/Form.tsx:82-89 | Booking does not change whether the sweep selects the vehicle. A vehicle without `resetTime` is never selected. |
| Form.ConfirmBooking | fordami/src/pages/Form.tsx:61-129 | The vehicle document is updated first, then the in-memory flag, then the user's `vehicleId`, then the form reset and success alert. A missing or empty document, or a rejected update or read-back, ends the handler where the source's throw would, keeping the writes before it. |
| Form.BookingLinksUserAndVehicle | fordami/src/pages/Form.tsx:100-103 | After a full confirm the user points at the booked vehicle, which is not ready. |
| Form.BookingKeepsHolderInvariant | fordami/src/pages/Form.tsx:82-103 | A booking, whether complete or stopped after the vehicle update, keeps every holder on a stored, not-ready vehicle. |
| Admin.NewUser | fordami/src/pages/Admin.tsx:58-62 | A new user holds nothing, has the generated id, and is selectable in the form. |
| Admin.AddUser | fordami/src/pages/Admin.tsx:55-88 | A blank name (after trim) does nothing. An exactly equal existing name gives the "Pengguna sudah ada" alert and no write. A failed insert gives the warning alert. Otherwise the user is inserted and the input cleared. |
| Admin.AddUserKeepsNamesUnique | fordami/src/pages/Admin.tsx:64-71 | An insert that passes the duplicate check keeps user names unique. |
| Admin.ResetUser | fordami/src/pages/Admin.tsx:90-114 | With both ids usable, the vehicle present and its update not rejected, the vehicle gets the admin-reset fields. The user's `vehicleId` then becomes "" if the user exists and its update is not rejected. Otherwise nothing is written. |
| Admin.AdminCleared | fordami/src/pages/Admin.tsx:96-102 | The reset vehicle is ready. |
| Admin.AdminResetVersusSweep | fordami/src/pages/Admin.tsx:96-102 | The admin reset is Ready-consistent exactly when the booking, return time and reset time were already clear. It leaves due vehicles due, and the sweep still ends with its own result. |
| Admin.ResetKeepsHolderInvariant | fordami/src/pages/Admin.tsx:96-110 | A completed reset (admin or details panel) keeps every holder on a stored vehicle. Held vehicles stay not ready exactly when no other user held the reset vehicle. |
| Admin.DeleteUserClick | fordami/src/pages/Admin.tsx:501-511 | A user holding a vehicle gets the "Tidak dapat dihapus, pengguna sedang meminjam" alert and is kept. Otherwise the user is removed, unless the id is empty or the deletion is rejected (Admin.tsx:116-128). |
| Admin.UserDeleteKeepsHolders | fordami/src/pages/Admin.tsx:502-509 | A deletion the guard allows never removes a user who holds a vehicle. |
| Admin.NewVehicleDefaults | fordami/src/pages/Admin.tsx:208-224 | A new vehicle is ready with empty `status`/`purpose`/`returnTime`/`timeStamp`/`isoReturnTime` and carries the form's values. It is Ready-consistent and never swept. |
| Admin.AddVehicle | fordami/src/pages/Admin.tsx:199-268 | No image gives a warning. A rejected duplicate query gives the failure warning, whatever the fields hold. A blank kind or number does nothing. An existing vehicle with the same kind and number sets the danger message without showing it. A failed insert gives a warning. Otherwise the vehicle is inserted and the form reset to its defaults. |
| Admin.AddVehicleKeepsPlatesUnique | fordami/src/pages/Admin.tsx:226-240 | An insert that passes the duplicate check keeps (kind, number) pairs unique. |
| Admin.DeleteVehicleClick | fordami/src/pages/Admin.tsx:270-294 | A vehicle not ready is refused with an alert (the button guard at Admin.tsx:718-728). An empty id or a failed image deletion gives the failure alert. A missing document does nothing. Otherwise the vehicle is removed with the success alert. |
| Admin.VehicleDeleteKeepsHolders | fordami/src/pages/Admin.tsx:718-728 | While held vehicles are not ready, deleting a ready vehicle leaves no user pointing at a missing vehicle. |
| Admin.ConfirmPassword | fordami/src/pages/Admin.tsx:314-336 | A correct non-empty password stores `{computerId, now + 5 min}` and logs in. A wrong or empty password, or a missing admin document, changes nothing. |
| Admin.LoginSessionWindow | fordami/src/pages/Admin.tsx:312-322 | A login written at `t0` is valid exactly while `t < t0 + 300000`, and only on the device that wrote it. |
| QueueContext.DisplayReturnTime | fordami/src/components/QueueContext.tsx:109-111 | The display has the input's length. Each '-' becomes '/', the first 'T' becomes a space, and every other character is kept. |
| QueueContext.DisplayRewrites | fordami/src/components/QueueContext.tsx:109-111 | Every '-' is replaced, only the first 'T' is replaced, later 'T's are kept, and other characters are unchanged. |
| QueueContext.DisplayExample | fordami/src/components/QueueContext.tsx:109-111 | "2024-07-25T15:00" is displayed as "2024/07/25 15:00". |
| QueueContext.DisplayRoundTrip | fordami/src/components/QueueContext.tsx:109-111 | On a value with no '/' and no space, the reverse rewrite recovers it, so the display loses nothing. |
| JsText.Split | fordami/src/components/VehicleContext.tsx:617-619 | `split` always yields at least one piece, and no piece contains the separator. |
| JsText.JoinSplit | fordami/src/components/VehicleContext.tsx:617-619 | Joining the pieces of a split gives the string back. |
| JsText.SplitCount | fordami/src/components/VehicleContext.tsx:617-619 | `split` yields more than one piece exactly when the separator occurs. |
| JsText.ToNumber | fordami/src/pages/Form.tsx:74 | A number read from text ends in a digit (or the text is empty), a negative one starts with '-', and text starting with any other non-digit is NaN. |
| JsText.DecimalStringValue | fordami/src/pages/Form.tsx:13-17 | `Number(String(n)) == n` for every non-negative integer. |
| JsText.TwoDigits | fordami/src/pages/Form.tsx:13-17 | A value below 100 pads to exactly its two digits. |
| JsText.LastTwoDigits | fordami/src/pages/Form.tsx:15 | `slice(-2)` of a number of two or more digits is its tens and units digits. |
| JsText.TrimEmptyIffBlank | fordami/src/pages/Admin.tsx:69 | `trim()` is non-empty exactly when the string has a non-space character. |
| JsText.IndexOf | fordami/src/components/QueueContext.tsx:111 | `indexOf` finds the first occurrence, or gives -1 when there is none. |
| JsText.IndexOfReplaceAll | fordami/src/components/QueueContext.tsx:109-111 | Replacing other characters does not move the first 'T'. |
| JsDate.LocalDate | fordami/src/components/VehicleContext.tsx:621-629 | Any NaN component gives an invalid date. A valid date lies within the `Date` range and on a whole local minute (seconds and milliseconds zero). |
| JsDate.MakeDayRollsOver | fordami/src/components/VehicleContext.tsx:621-629 | A day past the end of a month rolls into the next month: 32 July 2024 is 1 August. |
| JsDate.AtClockTimeWholeMinutes | fordami/src/pages/Form.tsx:75-79 | The `setHours` chain gives the local midnight plus hours and minutes, on a whole local minute. |

## Left out

- Firestore subscriptions (`onSnapshot`), `getVehicleById`/`getUserById`,
  and every UI component and style. The store is the `Records.Store` maps,
  and list props are parameters.
- Image upload and the storage API. `Admin.DeleteVehicleClick` receives
  whether deleting the image fails. `ExportToExcel.tsx` and `server.js` are
  not part of this model.
- Timers: the one-minute `setInterval` of the sweep, the three-second alert
  timeouts and the `window.location.reload` after an edit.
- The `forEach(async …)` fan-out over users and queue entries runs as a
  sequential loop in which each single write succeeds. In the sweep only the
  queries and the vehicle update can fail (`VehicleContext.Fault`).
- The duplicate query of `handleUserAddBt` (`getDocs`, Admin.tsx:66), which
  runs before its `try`: a rejection there ends the handler with no alert
  and is not modelled.
- Admin.DeleteVehicleClick: of its store calls only the image deletion may
  fail (`storageFails`). A rejected `getDoc` or `deleteDoc`, and the
  `getDoc` of the password handler, are not modelled.
- `Math.random` ids: the fresh id is a parameter (`freshId`). Firestore's
  generated document id is a parameter assumed non-empty and unused
  (`Admin.AddUser`, `Admin.AddVehicle`). The model stores the final record
  with its id, not the separate unawaited `updateDoc` that writes the id.
- Real clocks and time zones. `now` is an integer in milliseconds. Local
  time is UTC plus a fixed offset with no daylight saving. The form's
  timestamp takes the local clock fields as a parameter (`Form.ClockParts`).
- `toISOString` and `formatDateTime`. The ISO return time is stored as the
  instant itself. The history text is a parameter (`historyText`), since
  `formatDateTime` is not part of this model.
- `handleVehicleSaveBt`, which saves the edited inventory, fuel and image,
  is not part of this model. Only the editor state it reads is modelled.
- JSON parsing of the stored login record: an unparsable record is not
  modelled.
- JsText.ToNumber: `Number` is modelled for the empty string, digit strings
  and a minus sign before digits. A leading '+', surrounding blanks,
  fractions, exponents and hexadecimal all read as NaN.
- VehicleContext.ParseWellFormed: covers values whose five fields are plain
  digit strings. Other values go through the same function but have no
  closed-form lemma.
- VehicleContext.ClampFuel: integer fuel values only; a fractional input is
  not modelled.
- VehicleContext.InventoryAddKeepsDistinct: `toLowerCase` folds only the
  ASCII letters A-Z.
- VehicleContext.DueVehicles: a `resetTime` string that does not parse as a
  date is not modelled. Such a value compares false in the source and so is
  never selected.
- Form.OnUserChange: a user document without a `vehicleId` field, which the
  source disables, is read as `vehicleId` "".
