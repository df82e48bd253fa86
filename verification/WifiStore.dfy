/** The stored WiFi credentials: wificonfcheck and wificonfwrite over the NVS namespace "netconfig". */
module WifiStore {
  import opened Options
  import opened ErrMark

  datatype Credentials = Credentials(ssid: string, passwd: string)

  /** The two NVS entries; either may be missing. */
  datatype Store = Store(ssid: Option<string>, passwd: Option<string>)

  const ABSENT := Store(None, None)
  const EMPTY := Store(Some(""), Some(""))

  const WIFI_CONFIG_MAKE := 0x10
  const WIFI_CONFIG_CHANGE := 0x20

  const ESP_OK: bv16 := 0
  const ESP_ERR_NVS_NOT_FOUND: bv16 := 0x1102
  const ESP_ERR_NVS_INVALID_LENGTH: bv16 := 0x110c

  // ---- what the two operations decide

  /** The sizes nvs_get_str reports include the terminating NUL. */
  predicate Accepts(store: Store) {
    && store.ssid.Some? && store.passwd.Some?
    && 8 <= |store.passwd.value| + 1 <= 64 && 1 <= |store.ssid.value| + 1 <= 32
  }

  function CheckStatus(store: Store, opens: bool): YmErr {
    if !opens then NvsFail else if Accepts(store) then YmOk else NvsNoWifiConfig
  }

  /** The configuration struct after a check: every entry found is copied in. */
  function Loaded(store: Store, opens: bool, config: Credentials): Credentials {
    if opens then Credentials(store.ssid.GetOr(config.ssid), store.passwd.GetOr(config.passwd)) else config
  }

  lemma AcceptedIsLoaded(store: Store, opens: bool, config: Credentials)
    requires CheckStatus(store, opens) == YmOk
    ensures store.ssid.Some? && store.passwd.Some?
    ensures Loaded(store, opens, config) == Credentials(store.ssid.value, store.passwd.value)
  {
  }

  /** Lengths are taken in a uint8_t. */
  predicate Writable(c: Credentials) {
    1 <= |c.ssid| % 256 <= 32 && 1 <= |c.passwd| % 256 <= 64
  }

  function Changed(store: Store, opens: bool, c: Credentials): Store {
    if opens && Writable(c) then Store(Some(c.ssid), Some(c.passwd)) else store
  }

  function Made(store: Store, opens: bool): Store {
    if opens then EMPTY else store
  }

  // ---- the code

  class Nvs {
    var ssid: Option<string>
    var passwd: Option<string>

    function State(): Store
      reads this
    {
      Store(ssid, passwd)
    }

    constructor (store: Store)
      ensures State() == store
    {
      ssid, passwd := store.ssid, store.passwd;
    }
  }

  class WifiConfig {
    var ssid: string
    var passwd: string

    function State(): Credentials
      reads this
    {
      Credentials(ssid, passwd)
    }

    constructor ()
      ensures State() == Credentials("", "")
    {
      ssid, passwd := "", "";
    }
  }

  /** nvs_get_str: without a buffer it reports the size, with one it copies when the size allows. */
  method NvsGetStr(entry: Option<string>, buffer: Option<string>, size: nat)
    returns (err: bv16, out: Option<string>, size': nat)
    ensures entry.None? ==> err == ESP_ERR_NVS_NOT_FOUND && out == buffer && size' == size
    ensures entry.Some? && (buffer.None? || |entry.value| < size) ==> err == ESP_OK && size' == |entry.value| + 1
    ensures entry.Some? && buffer.None? ==> out == None
    ensures entry.Some? && buffer.Some? && |entry.value| < size ==> out == entry
    ensures entry.Some? && buffer.Some? && |entry.value| >= size ==> err == ESP_ERR_NVS_INVALID_LENGTH
  {
    if entry.None? {
      return ESP_ERR_NVS_NOT_FOUND, buffer, size;
    }
    if buffer.None? {
      return ESP_OK, None, |entry.value| + 1;
    }
    if |entry.value| + 1 > size {
      return ESP_ERR_NVS_INVALID_LENGTH, buffer, size;
    }
    return ESP_OK, entry, |entry.value| + 1;
  }

  method WifiConfCheck(nvs: Nvs, config: WifiConfig, opens: bool) returns (r: YmErr)
    modifies config
    ensures r == CheckStatus(nvs.State(), opens)
    ensures config.State() == Loaded(nvs.State(), opens, old(config.State()))
  {
    if !opens {
      return NvsFail;
    }
    var err, err1, sizeSsid, sizePasswd, text;
    err, text, sizeSsid := NvsGetStr(nvs.ssid, None, 32);
    err1, text, sizePasswd := NvsGetStr(nvs.passwd, None, 64);
    err, text, sizeSsid := NvsGetStr(nvs.ssid, Some(config.ssid), sizeSsid);
    config.ssid := text.value;
    err1, text, sizePasswd := NvsGetStr(nvs.passwd, Some(config.passwd), sizePasswd);
    config.passwd := text.value;
    if err | err1 == ESP_ERR_NVS_NOT_FOUND {
      return NvsNoWifiConfig;
    } else if err | err1 != ESP_OK {
      return NvsReadFail;
    }
    if sizePasswd < 8 || sizePasswd > 64 || sizeSsid < 1 || sizeSsid > 32 {
      return NvsNoWifiConfig;
    }
    return YmOk;
  }

  method WifiConfWrite(nvs: Nvs, config: WifiConfig?, operation: int, opens: bool) returns (r: YmErr)
    requires operation == WIFI_CONFIG_CHANGE ==> config != null
    modifies nvs
    ensures operation == WIFI_CONFIG_MAKE ==>
              nvs.State() == Made(old(nvs.State()), opens) && r == if opens then YmOk else NvsFail
    ensures operation == WIFI_CONFIG_CHANGE ==>
              && nvs.State() == Changed(old(nvs.State()), opens, config.State())
              && r == if !opens then NvsFail else if Writable(config.State()) then YmOk else WifiConfigInvalid
    ensures operation != WIFI_CONFIG_MAKE && operation != WIFI_CONFIG_CHANGE ==>
              nvs.State() == old(nvs.State()) && r == if opens then UnknownCommand else NvsFail
  {
    if !opens {
      return NvsFail;
    }
    if operation == WIFI_CONFIG_MAKE {
      nvs.ssid := Some("");
      nvs.passwd := Some("");
      return YmOk;
    }
    if operation == WIFI_CONFIG_CHANGE {
      var ssidLen := |config.ssid| % 256;
      var passwdLen := |config.passwd| % 256;
      if ssidLen == 0 || passwdLen == 0 || ssidLen > 32 || passwdLen > 64 {
        return WifiConfigInvalid;
      }
      nvs.ssid := Some(config.ssid);
      nvs.passwd := Some(config.passwd);
      return YmOk;
    }
    return UnknownCommand;
  }

  // ---- what the two operations are for

  /** Written credentials are accepted after a reboot exactly within these lengths, and then come back as written. */
  lemma PersistenceRoundTrip(store: Store, c: Credentials)
    ensures Writable(c) && CheckStatus(Changed(store, true, c), true) == YmOk
            <==> 1 <= |c.ssid| <= 31 && 7 <= |c.passwd| <= 63
    ensures Writable(c) ==> forall config :: Loaded(Changed(store, true, c), true, config) == c
  {
  }

  /** A write of fields up to 255 characters long is taken exactly for 1 to 32 and 1 to 64 of them. */
  lemma WritesByLength(store: Store, c: Credentials)
    requires |c.ssid| <= 255 && |c.passwd| <= 255
    ensures Changed(store, true, c) ==
            if 1 <= |c.ssid| <= 32 && 1 <= |c.passwd| <= 64 then Store(Some(c.ssid), Some(c.passwd)) else store
    ensures Changed(store, false, c) == store
  {
  }

  /** A rejected write leaves the store alone. */
  lemma InvalidWriteChangesNothing(store: Store, opens: bool, c: Credentials)
    requires c.ssid == "" || c.passwd == ""
    ensures Changed(store, opens, c) == store
  {
  }
}
