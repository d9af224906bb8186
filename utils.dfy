/** The browser-side helpers: the device id and the admin login record kept
    in local storage, and the fuel-level colour buckets. */
module Utils {
  import opened Records

  /** The `adminLoginInfo` record: the device it was written on and the
      instant (epoch ms) after which it no longer counts. */
  datatype LoginInfo = LoginInfo(computerId: string, expirationTime: int)

  /** The id `getOrCreateComputerId` settles on: the stored one when it is a
      non-empty string, otherwise the freshly generated one. */
  function DeviceId(stored: Option<string>, freshId: string): string
  {
    if stored.Some? && stored.value != "" then stored.value else freshId
  }

  /** The condition `checkAdminLoginStatus` tests: a stored record, written
      on this device, whose expiry is strictly later than `now`. */
  predicate SessionValid(info: Option<LoginInfo>, deviceId: string, now: int)
  {
    info.Some? && info.value.computerId == deviceId && info.value.expirationTime > now
  }

  /** Local storage of one browser: the `computerId` key and the
      `adminLoginInfo` key (None when the key is absent). */
  class DeviceStorage {
    var computerId: Option<string>
    var adminLoginInfo: Option<LoginInfo>

    constructor (computerId: Option<string>, adminLoginInfo: Option<LoginInfo>)
      ensures this.computerId == computerId && this.adminLoginInfo == adminLoginInfo
    {
      this.computerId := computerId;
      this.adminLoginInfo := adminLoginInfo;
    }

    /** `getOrCreateComputerId`: a stored non-empty id is returned and nothing
        is written; otherwise `freshId` (what `generateSimpleId` produced) is
        stored and returned. */
    method GetOrCreateComputerId(freshId: string) returns (id: string)
      modifies this`computerId
      ensures id == DeviceId(old(computerId), freshId)
      ensures computerId == Some(id)
      ensures old(computerId).Some? && old(computerId).value != "" ==> computerId == old(computerId)
    {
      if computerId.Some? && computerId.value != "" {
        id := computerId.value;
      } else {
        id := freshId;
        computerId := Some(freshId);
      }
    }

    /** `checkAdminLoginStatus`: the device id is only looked up (and so
        perhaps created) when a login record is stored. */
    method CheckAdminLoginStatus(now: int, freshId: string) returns (loggedIn: bool)
      modifies this`computerId
      ensures old(adminLoginInfo).None? ==> !loggedIn && computerId == old(computerId)
      ensures old(adminLoginInfo).Some? ==> computerId == Some(DeviceId(old(computerId), freshId))
      ensures loggedIn == SessionValid(adminLoginInfo, DeviceId(old(computerId), freshId), now)
    {
      loggedIn := false;
      if adminLoginInfo.Some? {
        var id := GetOrCreateComputerId(freshId);
        loggedIn := adminLoginInfo.value.computerId == id && adminLoginInfo.value.expirationTime > now;
      }
    }
  }

  /** Once an id is stored, every later lookup returns it, whatever id would
      have been generated. */
  lemma DeviceIdStable(stored: Option<string>, fresh1: string, fresh2: string)
    requires fresh1 != ""
    ensures DeviceId(Some(DeviceId(stored, fresh1)), fresh2) == DeviceId(stored, fresh1)
  {
  }

  /** `getPercentageColor`: the hex colour of a fuel level. */
  function PercentageColor(percentage: int): (color: string)
    ensures color in {"#28a745", "#ffc107", "#fd7e14", "#dc3545"}
    ensures color == "#28a745" <==> percentage >= 75
    ensures color == "#dc3545" <==> percentage < 25
  {
    if percentage >= 75 then "#28a745"
    else if percentage >= 50 then "#ffc107"
    else if percentage >= 25 then "#fd7e14"
    else "#dc3545"
  }

  /** The position of a colour on the scale red, orange, yellow, green. */
  function ColorRank(color: string): nat
  {
    if color == "#28a745" then 3
    else if color == "#ffc107" then 2
    else if color == "#fd7e14" then 1
    else 0
  }

  /** The four buckets, and that more fuel never gives a lower colour. */
  lemma PercentageColorBuckets(p: int, q: int)
    ensures 75 <= p ==> PercentageColor(p) == "#28a745"
    ensures 50 <= p < 75 ==> PercentageColor(p) == "#ffc107"
    ensures 25 <= p < 50 ==> PercentageColor(p) == "#fd7e14"
    ensures p < 25 ==> PercentageColor(p) == "#dc3545"
    ensures p <= q ==> ColorRank(PercentageColor(p)) <= ColorRank(PercentageColor(q))
  {
  }
}
