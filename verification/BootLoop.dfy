/** app_main's provisioning loop over one boot, and runs of boots over the persistent store. */
module BootLoop {
  import opened Options
  import opened ErrMark
  import opened WifiStore
  import opened WifiStation
  import opened WebSetup

  /** What the outside does during one boot: whether the n-th nvs_open succeeds, and what reaches the station's
      wait and the setup page's wait. Neither wait is entered twice in a boot (BootBounds). */
  datatype Env = Env(opens: nat -> bool, sta: seq<StaEvent>, gets: seq<Get>)

  /** Waiting: a wait never ended, or the power was cut during it. */
  datatype Ending = Online | Restarted | Waiting

  /** One boot: how it ended, how often the loop body ran, every configuration given to wifi_init_sta,
      and the store as it was whenever the setup page opened. */
  datatype Boot = Boot(ending: Ending, bodies: nat, attempts: seq<Credentials>, setups: seq<Store>, store: Store)

  // ---- a boot without the loop

  /** The setup page, the write and the restart; `write` is whether that nvs_open succeeds. */
  function SetupFrom(store: Store, write: bool, gets: seq<Get>, bodies: nat, attempts: seq<Credentials>): Boot {
    if AnyQuery(gets) then Boot(Restarted, bodies, attempts, [store], Changed(store, write, Submitted(gets)))
    else Boot(Waiting, bodies, attempts, [store], store)
  }

  function BootFrom(store: Store, env: Env): Boot {
    if CheckStatus(store, env.opens(0)) != YmOk then SetupFrom(store, env.opens(1), env.gets, 1, [])
    else
      var attempts := [Credentials(store.ssid.value, store.passwd.value)];
      match Verdict(0, env.sta)
      case None => Boot(Waiting, 1, attempts, [], store)
      case Some(YmOk) => Boot(Online, 1, attempts, [], store)
      case Some(_) => SetupFrom(Made(store, env.opens(2)), env.opens(3), env.gets, 2, attempts)
  }

  lemma BootCases(store: Store, env: Env)
    ensures CheckStatus(store, env.opens(0)) != YmOk ==>
              BootFrom(store, env) == SetupFrom(store, env.opens(1), env.gets, 1, [])
    ensures CheckStatus(store, env.opens(0)) == YmOk ==>
              store.ssid.Some? && store.passwd.Some? &&
              var attempts := [Credentials(store.ssid.value, store.passwd.value)];
              BootFrom(store, env) ==
              match Verdict(0, env.sta)
              case None => Boot(Waiting, 1, attempts, [], store)
              case Some(YmOk) => Boot(Online, 1, attempts, [], store)
              case Some(_) => SetupFrom(Made(store, env.opens(2)), env.opens(3), env.gets, 2, attempts)
  {
  }

  // ---- the loop

  method AppMain(nvs: Nvs, env: Env) returns (boot: Boot)
    modifies nvs
    ensures boot == BootFrom(old(nvs.State()), env)
    ensures nvs.State() == boot.store
  {
    hide AnyQuery, Submitted, Retries, Verdict, Writable, Count, CheckStatus, Loaded, Changed, Made, BootFrom;
    BootCases(nvs.State(), env);
    var config := new WifiConfig();
    var sta := new StaDriver();
    var form := new WebForm();
    var notGood := false;
    var calls: nat := 0;
    var bodies: nat, attempts: seq<Credentials>, setups: seq<Store> := 0, [], [];
    ghost var store := nvs.State();
    while true
      invariant bodies <= 1 && calls == bodies && setups == [] && nvs.State() == store
      invariant form.ssidBuf == form.passwdBuf == "" && fresh(config) && fresh(sta) && fresh(form)
      invariant notGood == (bodies == 1)
      invariant bodies == 0 ==> attempts == [] && sta.retryNum == 0 && config.State() == Credentials("", "")
      invariant bodies == 1 ==>
                  && CheckStatus(store, env.opens(0)) == YmOk && Verdict(0, env.sta).Some? && Verdict(0, env.sta) != Some(YmOk)
                  && store.ssid.Some? && store.passwd.Some?
                  && attempts == [Credentials(store.ssid.value, store.passwd.value)]
      decreases 2 - bodies
    {
      bodies := bodies + 1;
      ghost var was := config.State();
      var err := WifiConfCheck(nvs, config, env.opens(calls));
      if err == YmOk {
        AcceptedIsLoaded(store, env.opens(calls), was);
      }
      calls := calls + 1;
      if notGood {
        var _ := WifiConfWrite(nvs, null, WIFI_CONFIG_MAKE, env.opens(calls));
        calls := calls + 1;
        err := NvsNoWifiConfig;
      }
      if err != YmOk {
        setups := setups + [nvs.State()];
        var setup := form.ApNetsetupStart(env.gets, config);
        if setup.None? {
          return Boot(Waiting, bodies, attempts, setups, nvs.State());
        }
        if setup.value != YmOk {
          // the retry arm: setup only ever returns YmOk
          assert false;
        }
        var _ := WifiConfWrite(nvs, config, WIFI_CONFIG_CHANGE, env.opens(calls));
        return Boot(Restarted, bodies, attempts, setups, nvs.State());
      }
      attempts := attempts + [config.State()];
      var verdict := sta.WifiInitSta(env.sta);
      if verdict.None? {
        return Boot(Waiting, bodies, attempts, setups, nvs.State());
      }
      if verdict.value == YmOk {
        return Boot(Online, bodies, attempts, setups, nvs.State());
      }
      notGood := true;
    }
  }

  // ---- what one boot keeps to

  /** The loop body runs at most twice, the station is tried at most once, and only with stored, accepted credentials. */
  lemma BootBounds(store: Store, env: Env)
    ensures var boot := BootFrom(store, env);
            && 1 <= boot.bodies <= 2 && |boot.attempts| <= 1 && |boot.setups| <= 1
            && (boot.attempts != [] <==> env.opens(0) && Accepts(store))
            && (forall c :: c in boot.attempts ==> store == Store(Some(c.ssid), Some(c.passwd)))
            && (boot.bodies == 2 <==> boot.attempts != [] && boot.setups != [])
            && (boot.ending == Online <==> boot.attempts != [] && GotIp in env.sta)
            && (boot.ending == Restarted <==>
                boot.setups != [] && exists i :: 0 <= i < |env.gets| && env.gets[i].Query?)
  {
  }

  /** The station is tried exactly when the store opens and holds an SSID of at most 31 and a password of 7 to 63
      characters, and then with those. */
  lemma AttemptsByLength(store: Store, env: Env)
    ensures BootFrom(store, env).attempts ==
            match (store.ssid, store.passwd)
            case (Some(ssid), Some(passwd)) =>
              if env.opens(0) && |ssid| <= 31 && 7 <= |passwd| <= 63 then [Credentials(ssid, passwd)] else []
            case _ => []
  {
  }

  /** Setup after a station attempt means its whole retry budget was spent and it never got an address. */
  lemma FailureSpentTheBudget(store: Store, env: Env)
    ensures var boot := BootFrom(store, env);
            boot.attempts != [] ==>
              (boot.setups != [] <==> GotIp !in env.sta && Count(env.sta, Disconnected) >= 6)
  {
  }

  /** A failed attempt leaves both entries empty before the setup page opens, if the store opens for it. */
  lemma FailureEmptiesTheStore(store: Store, env: Env)
    requires BootFrom(store, env).attempts != [] && BootFrom(store, env).setups != []
    ensures BootFrom(store, env).setups == [if env.opens(2) then Store(Some(""), Some("")) else store]
  {
  }

  /** Absent and empty stores lead to the setup page, with no station attempt. */
  lemma NothingStoredMeansSetup(store: Store, env: Env)
    requires store == ABSENT || store == EMPTY
    ensures BootFrom(store, env).setups == [store] && BootFrom(store, env).attempts == []
  {
  }

  /** An invalid submission leaves the store as it was when the setup page opened. */
  lemma InvalidSubmissionChangesNothing(store: Store, env: Env)
    requires Submitted(env.gets).ssid == "" || Submitted(env.gets).passwd == ""
    ensures var boot := BootFrom(store, env);
            boot.store == if boot.setups == [] then store else boot.setups[0]
  {
    hide Changed, Submitted;
    InvalidWriteChangesNothing(store, env.opens(1), Submitted(env.gets));
    InvalidWriteChangesNothing(Made(store, env.opens(2)), env.opens(3), Submitted(env.gets));
  }

  // ---- runs of boots

  predicate AllOpen(env: Env) {
    env.opens(0) && env.opens(1) && env.opens(2) && env.opens(3)
  }

  /** Absent, both empty, or both present within what the form lets through. */
  predicate StoreInvariant(store: Store) {
    || store == ABSENT
    || store == EMPTY
    || (store.ssid.Some? && store.passwd.Some?
        && 1 <= |store.ssid.value| <= 31 && 1 <= |store.passwd.value| <= 63)
  }

  function Boots(store: Store, envs: seq<Env>): Store {
    if envs == [] then store else BootFrom(Boots(store, envs[..|envs| - 1]), envs[|envs| - 1]).store
  }

  lemma {:induction false} SubmittedFits(gets: seq<Get>)
    ensures |Submitted(gets).ssid| < SSID_PARAM_SIZE && |Submitted(gets).passwd| < PASSWD_PARAM_SIZE
  {
    if gets != [] {
      SubmittedFits(gets[..|gets| - 1]);
    }
  }

  /** The store invariant holds after every run of boots, whichever nvs_open calls fail. */
  lemma {:induction false} StoreInvariantHolds(store: Store, envs: seq<Env>)
    requires StoreInvariant(store)
    ensures StoreInvariant(Boots(store, envs))
  {
    if envs != [] {
      StoreInvariantHolds(store, envs[..|envs| - 1]);
      SubmittedFits(envs[|envs| - 1].gets);
    }
  }

  /** What was submitted decides the next boot: exactly a non-empty SSID and a password of seven or more
      characters make the next boot try them, and then it tries just them; otherwise it sets up again. */
  lemma SubmissionReachesStation(store: Store, env: Env, next: Env)
    requires AllOpen(env) && AllOpen(next)
    requires BootFrom(store, env).ending == Restarted
    ensures var c := Submitted(env.gets);
            BootFrom(BootFrom(store, env).store, next).attempts ==
            if |c.ssid| >= 1 && |c.passwd| >= 7 then [c] else []
  {
    var c := Submitted(env.gets);
    SubmittedFits(env.gets);
    hide LastOf, AnyQuery, Verdict;
    PersistenceRoundTrip(BootFrom(store, env).setups[0], c);
  }

  /** A submission that fits the form's buffers is taken, whatever requests came before; requests served after it,
      until the server stops, override only what they carry, so page loads override nothing. */
  lemma SubmissionIsTaken(before: seq<Get>, ssid: string, passwd: string, after: seq<Get>)
    requires |ssid| < SSID_PARAM_SIZE && |passwd| < PASSWD_PARAM_SIZE
    ensures var gets := before + [Query(Some(ssid), Some(passwd))] + after;
            && AnyQuery(gets)
            && Submitted(gets) == Credentials(LastOf(ssid, after, SsidIn), LastOf(passwd, after, PasswdIn))
            && ((forall i :: 0 <= i < |after| ==> SsidIn(after[i]).None? && PasswdIn(after[i]).None?) ==>
                Submitted(gets) == Credentials(ssid, passwd))
  {
    var upTo := before + [Query(Some(ssid), Some(passwd))];
    var gets := upTo + after;
    assert upTo[..|before|] == before;
    assert gets[|before|].Query?;
    assert LastOf("", upTo, SsidIn) == ssid && LastOf("", upTo, PasswdIn) == passwd;
    hide LastOf;
    LastOfSplit("", upTo, after, SsidIn);
    LastOfSplit("", upTo, after, PasswdIn);
    if forall i :: 0 <= i < |after| ==> SsidIn(after[i]).None? && PasswdIn(after[i]).None? {
      LastOfNone(ssid, after, SsidIn);
      LastOfNone(passwd, after, PasswdIn);
    }
  }

  /** A parameter of at most 31 (SSID) or 63 (password) characters is taken; a missing or longer one leaves what was
      there before; requests that carry neither change nothing. */
  lemma {:induction false} SubmissionByLength(before: seq<Get>, ssid: Option<string>, passwd: Option<string>, after: seq<Get>)
    requires forall i :: 0 <= i < |after| ==> after[i] == NoQuery || after[i] == Query(None, None)
    ensures var earlier := Submitted(before);
            Submitted(before + [Query(ssid, passwd)] + after) ==
            Credentials(
              if ssid.Some? && |ssid.value| <= 31 then ssid.value else earlier.ssid,
              if passwd.Some? && |passwd.value| <= 63 then passwd.value else earlier.passwd)
    ensures Submitted([]) == Credentials("", "")
  {
    var upTo := before + [Query(ssid, passwd)];
    var gets := upTo + after;
    if after == [] {
      assert gets == upTo && upTo[..|before|] == before;
    } else {
      var front := after[..|after| - 1];
      assert gets[..|gets| - 1] == upTo + front && gets[|gets| - 1] == after[|after| - 1];
      SubmissionByLength(before, ssid, passwd, front);
    }
  }

  /** A restart leaves what was submitted in the store, if both fields are there and the store opens for it. */
  lemma SubmissionReachesStore(store: Store, env: Env)
    requires BootFrom(store, env).ending == Restarted
    ensures var boot := BootFrom(store, env);
            var c, opens := Submitted(env.gets), env.opens(if boot.attempts == [] then 1 else 3);
            boot.setups != [] &&
            boot.store ==
            if opens && |c.ssid| >= 1 && |c.passwd| >= 1 then Store(Some(c.ssid), Some(c.passwd)) else boot.setups[0]
  {
    SubmittedFits(env.gets);
    hide Submitted, AnyQuery, Verdict;
  }

  /** A setup page that is given an SSID of 1 to 31 and a password of 7 to 63 characters, and then only loaded, makes
      the next boot try just these. */
  lemma SubmittedIsTried(
      store: Store, env: Env, next: Env, before: seq<Get>, ssid: string, passwd: string, after: seq<Get>)
    requires 1 <= |ssid| <= 31 && 7 <= |passwd| <= 63
    requires forall i :: 0 <= i < |after| ==> after[i] == NoQuery || after[i] == Query(None, None)
    requires env.gets == before + [Query(Some(ssid), Some(passwd))] + after
    requires AllOpen(env) && next.opens(0) && BootFrom(store, env).setups != []
    ensures BootFrom(store, env).ending == Restarted
    ensures BootFrom(BootFrom(store, env).store, next).attempts == [Credentials(ssid, passwd)]
  {
    SubmissionByLength(before, Some(ssid), Some(passwd), after);
    assert env.gets[|before|].Query?;
    BootBounds(store, env);
    hide BootFrom, Submitted;
    SubmissionReachesStore(store, env);
    AttemptsByLength(BootFrom(store, env).store, next);
  }

  /** Its store opens, and it gets an address or at least does not spend the retry budget. */
  predicate Uneventful(env: Env) {
    env.opens(0) && (GotIp in env.sta || Count(env.sta, Disconnected) < 6)
  }

  lemma {:induction false} StoreSurvives(store: Store, envs: seq<Env>)
    requires Accepts(store) && forall i :: 0 <= i < |envs| ==> Uneventful(envs[i])
    ensures Boots(store, envs) == store
  {
    if envs != [] {
      StoreSurvives(store, envs[..|envs| - 1]);
    }
  }

  /** A working configuration survives every run of uneventful boots: each tries it, none opens the setup page,
      and each goes online exactly when it gets an address. */
  lemma CredentialsSurvive(store: Store, envs: seq<Env>, i: nat)
    requires Accepts(store) && forall k :: 0 <= k < |envs| ==> Uneventful(envs[k])
    requires i < |envs|
    ensures var boot := BootFrom(Boots(store, envs[..i]), envs[i]);
            && boot.store == store && boot.setups == []
            && boot.attempts == [Credentials(store.ssid.value, store.passwd.value)]
            && (boot.ending == Online <==> GotIp in envs[i].sta)
  {
    StoreSurvives(store, envs[..i]);
    assert Uneventful(envs[i]);
  }

  lemma {:induction false} AcceptedStoreWasSubmitted(envs: seq<Env>) returns (j: nat)
    requires Accepts(Boots(ABSENT, envs))
    ensures j < |envs| && BootFrom(Boots(ABSENT, envs[..j]), envs[j]).ending == Restarted
    ensures var c := Submitted(envs[j].gets); Boots(ABSENT, envs) == Store(Some(c.ssid), Some(c.passwd))
    ensures forall i :: j < i <= |envs| ==> Boots(ABSENT, envs[..i]) == Boots(ABSENT, envs)
  {
    hide Submitted, AnyQuery, Writable, Verdict;
    var last := |envs| - 1;
    var front := envs[..last];
    assert envs[..|envs|] == envs;
    if Boots(ABSENT, envs) == Boots(ABSENT, front) {
      j := AcceptedStoreWasSubmitted(front);
      assert front[..j] == envs[..j];
      forall i | j < i <= |envs| ensures Boots(ABSENT, envs[..i]) == Boots(ABSENT, envs) {
        if i <= last {
          assert envs[..i] == front[..i];
        }
      }
    } else {
      j := last;
    }
  }

  /** Whatever the station is tried with was submitted in an earlier boot of the run, and stored ever since. */
  lemma {:induction false} TriedCredentialsWereSubmitted(envs: seq<Env>, next: Env) returns (j: nat)
    requires BootFrom(Boots(ABSENT, envs), next).attempts != []
    ensures j < |envs| && BootFrom(Boots(ABSENT, envs[..j]), envs[j]).ending == Restarted
    ensures BootFrom(Boots(ABSENT, envs), next).attempts == [Submitted(envs[j].gets)]
    ensures forall i :: j < i <= |envs| ==> Boots(ABSENT, envs[..i]) == Boots(ABSENT, envs)
  {
    j := AcceptedStoreWasSubmitted(envs);
  }
}
