/** Documents of the `vehicles`, `users`, `queue`, `history` and `admin`
    collections, and the document store that holds them. */
module Records {

  datatype Option<T> = None | Some(value: T)

  /** A JavaScript `Date`: an instant in epoch milliseconds, or the
      "Invalid Date" that any NaN component produces. */
  datatype Instant = At(ms: int) | InvalidDate

  /** One vehicle document. The record holds the union of the two schemas
      the pages write: `returnTime`, `isoReturnTime` and the four boolean
      inventory flags (the admin page and the booking form), and
      `returnDateTime`, `resetTime`, `isBooked` and `invItems` (the vehicle
      details component). A field a document lacks reads as its empty value;
      `resetTime` and `isoReturnTime` are instants, None for null or "". */
  datatype Vehicle = Vehicle(
    id: string,
    kind: string,
    number: string,
    isReady: bool,
    isBooked: bool,
    bbm: int,
    status: string,
    purpose: string,
    returnDateTime: string,
    resetTime: Option<int>,
    returnTime: string,
    isoReturnTime: Option<int>,
    timeStamp: string,
    imageUrl: string,
    invItems: seq<string>,
    p3k: bool,
    umbrella: bool,
    spareTire: bool,
    jack: bool)

  /** One user document: `vehicleId` is "" or the vehicle the user holds. */
  datatype User = User(id: string, name: string, vehicleId: string, borrowId: string)

  /** One queue document: a pending request of a user for a vehicle. */
  datatype QueueEntry = QueueEntry(id: string, userId: string, vehicleId: string)

  /** One history document: a loan record. */
  datatype HistoryRecord = HistoryRecord(
    id: string, name: string, kind: string, number: string,
    purpose: string, returnDateTime: string, timeStamp: string)

  /** The page's alert banner: whether it is shown, its text and its
      Bootstrap kind ("success", "danger", "warning"). */
  datatype Alert = Alert(shown: bool, message: string, kind: string)

  /** The whole store as a value. */
  datatype Db = Db(
    vehicles: map<string, Vehicle>,
    users: map<string, User>,
    queue: map<string, QueueEntry>,
    history: map<string, HistoryRecord>,
    adminPassword: Option<string>)

  /** A document reference can only be built from a non-empty id, and an
      update only succeeds on a document that exists. */
  predicate Addressable<T>(id: string, docs: map<string, T>)
  {
    id != "" && id in docs
  }

  /** Every user's `vehicleId` is empty or names a stored vehicle. */
  predicate HoldersValid(db: Db)
  {
    forall k :: k in db.users ==> db.users[k].vehicleId == "" || db.users[k].vehicleId in db.vehicles
  }

  /** Every vehicle some user holds is not ready. */
  predicate HeldNotReady(db: Db)
  {
    forall k :: k in db.users && db.users[k].vehicleId != "" && db.users[k].vehicleId in db.vehicles ==>
      !db.vehicles[db.users[k].vehicleId].isReady
  }

  /** Whether the store rejects one of a handler's awaited calls (a denied
      rule, a lost connection): `RejectedAt(n)` rejects the n-th, counting
      from 1, which throws at that point; the calls before it have landed. */
  datatype Rejection = NoRejection | RejectedAt(call: nat)

  /** The handler's n-th awaited store call completes. */
  predicate Lands(r: Rejection, n: nat)
  {
    r.NoRejection? || n < r.call
  }

  /** The document store. Every write is a single-document update, insert or
      removal on one of these maps; `adminPassword` is the `password` field
      of the `admin/admin` document (None when that document is missing). */
  class Store {
    var vehicles: map<string, Vehicle>
    var users: map<string, User>
    var queue: map<string, QueueEntry>
    var history: map<string, HistoryRecord>
    var adminPassword: Option<string>

    constructor (initial: Db)
      ensures Contents() == initial
    {
      vehicles := initial.vehicles;
      users := initial.users;
      queue := initial.queue;
      history := initial.history;
      adminPassword := initial.adminPassword;
    }

    function Contents(): Db
      reads this
    {
      Db(vehicles, users, queue, history, adminPassword)
    }
  }
}
