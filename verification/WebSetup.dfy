/** Credential capture over HTTP: hello_get_handler, start_web_server and wifi_apNetsetup_start. */
module WebSetup {
  import opened Options
  import opened ErrMark
  import opened WifiStore

  /** A GET of /hello: without a query string, or with one that may carry either parameter. */
  datatype Get = NoQuery | Query(ssid: Option<string>, passwd: Option<string>)

  const SSID_PARAM_SIZE := 32
  const PASSWD_PARAM_SIZE := 64

  /** A parameter is taken over only when it fits its buffer with its terminating NUL. */
  function SsidIn(g: Get): Option<string> {
    if g.Query? && g.ssid.Some? && |g.ssid.value| < SSID_PARAM_SIZE then g.ssid else None
  }

  function PasswdIn(g: Get): Option<string> {
    if g.Query? && g.passwd.Some? && |g.passwd.value| < PASSWD_PARAM_SIZE then g.passwd else None
  }

  predicate AnyQuery(gets: seq<Get>) {
    exists i :: 0 <= i < |gets| && gets[i].Query?
  }

  /** What the requests of one setup page submit: the last value each parameter was given. */
  function Submitted(gets: seq<Get>): Credentials {
    Credentials(LastOf("", gets, SsidIn), LastOf("", gets, PasswdIn))
  }

  lemma OneMoreGet(ssid: string, passwd: string, gets: seq<Get>, i: nat)
    requires i < |gets|
    ensures LastOf(ssid, gets[..i + 1], SsidIn) == SsidIn(gets[i]).GetOr(LastOf(ssid, gets[..i], SsidIn))
    ensures LastOf(passwd, gets[..i + 1], PasswdIn) == PasswdIn(gets[i]).GetOr(LastOf(passwd, gets[..i], PasswdIn))
    ensures AnyQuery(gets[..i + 1]) == (AnyQuery(gets[..i]) || gets[i].Query?)
  {
    var more := gets[..i + 1];
    assert more[..i] == gets[..i] && more[i] == gets[i];
    assert gets[i].Query? ==> AnyQuery(more);
    if AnyQuery(gets[..i]) {
      var k :| 0 <= k < i && gets[..i][k].Query?;
      assert more[k].Query?;
    }
    if AnyQuery(more) && !gets[i].Query? {
      var k :| 0 <= k < i + 1 && more[k].Query?;
      assert gets[..i][k].Query?;
    }
  }

  class WebForm {
    var ssidBuf: string
    var passwdBuf: string
    var input: bool

    constructor ()
      ensures ssidBuf == "" && passwdBuf == "" && !input
    {
      ssidBuf, passwdBuf, input := "", "", false;
    }

    method HelloGet(g: Get)
      modifies this
      ensures ssidBuf == SsidIn(g).GetOr(old(ssidBuf))
      ensures passwdBuf == PasswdIn(g).GetOr(old(passwdBuf))
      ensures input == (old(input) || g.Query?)
    {
      if g.Query? {
        if g.ssid.Some? && |g.ssid.value| < SSID_PARAM_SIZE {
          ssidBuf := g.ssid.value;
        }
        if g.passwd.Some? && |g.passwd.value| < PASSWD_PARAM_SIZE {
          passwdBuf := g.passwd.value;
        }
        input := true;
      }
    }

    /** Serves `gets` and returns once the INPUT bit is seen; None while the wait goes on. */
    method StartWebServer(gets: seq<Get>, config: WifiConfig) returns (r: Option<YmErr>)
      modifies this, config
      ensures r == if AnyQuery(gets) then Some(YmOk) else None
      ensures config.State() ==
              if AnyQuery(gets)
              then Credentials(LastOf(old(ssidBuf), gets, SsidIn), LastOf(old(passwdBuf), gets, PasswdIn))
              else old(config.State())
    {
      ghost var ssid, passwd := ssidBuf, passwdBuf;
      input := false;
      var bits := input;
      var i := 0;
      while !bits
        invariant 0 <= i <= |gets|
        invariant bits == input == AnyQuery(gets[..i])
        invariant ssidBuf == LastOf(ssid, gets[..i], SsidIn) && passwdBuf == LastOf(passwd, gets[..i], PasswdIn)
        invariant config.State() == old(config.State())
        decreases |gets| - i
      {
        if i == |gets| {
          assert gets[..i] == gets;
          return None;
        }
        HelloGet(gets[i]);
        OneMoreGet(ssid, passwd, gets, i);
        i := i + 1;
        bits := input;
      }
      // requests still served before stop_webserver takes effect
      while i < |gets|
        invariant 0 <= i <= |gets|
        invariant AnyQuery(gets[..i])
        invariant ssidBuf == LastOf(ssid, gets[..i], SsidIn) && passwdBuf == LastOf(passwd, gets[..i], PasswdIn)
        invariant config.State() == old(config.State())
      {
        HelloGet(gets[i]);
        OneMoreGet(ssid, passwd, gets, i);
        i := i + 1;
      }
      assert gets[..i] == gets;
      if !bits {
        return Some(DeleteWebWifiConfig);
      }
      config.ssid := ssidBuf;
      config.passwd := passwdBuf;
      return Some(YmOk);
    }

    method ApNetsetupStart(gets: seq<Get>, config: WifiConfig) returns (r: Option<YmErr>)
      requires ssidBuf == passwdBuf == ""
      modifies this, config
      ensures r == if AnyQuery(gets) then Some(YmOk) else None
      ensures config.State() == if AnyQuery(gets) then Submitted(gets) else old(config.State())
    {
      r := StartWebServer(gets, config);
      if r.Some? && r.value != DeleteWebWifiConfig && r.value != YmOk {
        r := Some(Unexpected);
      }
    }
  }
}
