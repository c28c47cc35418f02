/** Config: the in-memory credential record {ssid, psk, security} and its
    persistence in the NVS namespace "config". The constructor of the source class
    is `Reload`; the getters are the record's fields. */
module Config {
  import opened Common
  import opened NvStorage

  const NAMESPACE: string := "config"
  const SSID_KEY: string := "ssid"
  const PSK_KEY: string := "psk"
  const SECURITY_KEY: string := "security"

  /** The wifi_auth_mode_t is kept as the byte it is persisted as. */
  datatype Record = Record(ssid: string, psk: string, security: uint8)

  /** Config::uninitialized: false only when both strings are populated. */
  function Uninitialized(c: Record): (r: bool)
    ensures r <==> !(|c.ssid| > 0 && |c.psk| > 0)
  {
    c.ssid == "" || c.psk == ""
  }

  /** Config::reload: open the namespace and read the three keys, each falling
      back to its default when it cannot be read. */
  function Reload(flash: Flash, env: OpenEnv): (r: Run<Record>)
    ensures r.Normal? <==> Open(flash, NAMESPACE, env).Normal?
    ensures r.flash == Open(flash, NAMESPACE, env).flash
    ensures r.Normal? ==>
      var h := Handle(NAMESPACE);
      r.value == Record(GetStr(r.flash, h, SSID_KEY), GetStr(r.flash, h, PSK_KEY), GetU8(r.flash, h, SECURITY_KEY))
  {
    match Open(flash, NAMESPACE, env)
    case Terminated(f) => Terminated(f)
    case Normal(f, h) => Normal(f, Record(GetStr(f, h, SSID_KEY), GetStr(f, h, PSK_KEY), GetU8(f, h, SECURITY_KEY)))
  }

  /** Result codes for one commit: the open and the three writes. */
  datatype CommitEnv = CommitEnv(open: OpenEnv, ssid: WriteEnv, psk: WriteEnv, security: WriteEnv)

  /** Config::commit: ssid, psk and security written in that order through
      `c_str()`; the result of each write is discarded and the commit reports
      success once the namespace is open. */
  function Commit(c: Record, flash: Flash, env: CommitEnv): (r: Run<bool>)
    ensures r.Normal? <==> Open(flash, NAMESPACE, env.open).Normal?
    ensures r.Normal? ==> r.value
    ensures r.Normal? ==>
      var f0 := Open(flash, NAMESPACE, env.open).flash;
      var h := Handle(NAMESPACE);
      && (env.ssid.setCode == EspOk ==> GetStr(r.flash, h, SSID_KEY) == CStr(c.ssid))
      && (env.ssid.setCode != EspOk ==> GetStr(r.flash, h, SSID_KEY) == GetStr(f0, h, SSID_KEY))
      && (env.psk.setCode == EspOk ==> GetStr(r.flash, h, PSK_KEY) == CStr(c.psk))
      && (env.psk.setCode != EspOk ==> GetStr(r.flash, h, PSK_KEY) == GetStr(f0, h, PSK_KEY))
      && (env.security.setCode == EspOk ==> GetU8(r.flash, h, SECURITY_KEY) == c.security)
      && (env.security.setCode != EspOk ==> GetU8(r.flash, h, SECURITY_KEY) == GetU8(f0, h, SECURITY_KEY))
      && (forall ns :: ns != NAMESPACE ==> Entries(r.flash, ns) == Entries(f0, ns))
    ensures r.Terminated? ==> r.flash == Open(flash, NAMESPACE, env.open).flash
  {
    match Open(flash, NAMESPACE, env.open)
    case Terminated(f) => Terminated(f)
    case Normal(f0, h) =>
      var (f1, _) := SetStr(f0, h, SSID_KEY, CStr(c.ssid), env.ssid);
      var (f2, _) := SetStr(f1, h, PSK_KEY, CStr(c.psk), env.psk);
      var (f3, _) := SetU8(f2, h, SECURITY_KEY, c.security, env.security);
      Normal(f3, true)
  }

  /** The record held in memory after a call, with the outcome of persisting it. */
  datatype Updated = Updated(record: Record, outcome: Run<bool>)

  /** Config::set_network: the in-memory record takes the new values before the
      commit, whatever the commit does. */
  function SetNetwork(c: Record, ssid: string, psk: string, security: uint8, flash: Flash, env: CommitEnv): (r: Updated)
    ensures r.record.ssid == ssid && r.record.psk == psk && r.record.security == security
    ensures r.outcome == Commit(r.record, flash, env)
    ensures r.outcome.Normal? ==> r.outcome.value
  {
    var next := Record(ssid, psk, security);
    Updated(next, Commit(next, flash, env))
  }

  /* ---------- properties relating several calls ---------- */

  /** A namespace holding no keys reloads as ("", "", 0), which is uninitialized. */
  lemma ReloadEmptyNamespace(flash: Flash, env: OpenEnv)
    requires Open(flash, NAMESPACE, env).Normal?
    requires Entries(Open(flash, NAMESPACE, env).flash, NAMESPACE) == map[]
    ensures Reload(flash, env).Normal?
    ensures Reload(flash, env).value == Record("", "", 0)
    ensures Uninitialized(Reload(flash, env).value)
  {
  }

  /** A first boot on an erased partition: reload sees the empty record. */
  lemma ReloadAfterErase(env: OpenEnv)
    requires env.first == EspOk
    ensures Reload(map[], env) == Normal(map[], Record("", "", 0))
  {
  }

  /** Commit followed by reload gives back the committed record, when the three
      writes succeeded, the strings hold no NUL and the reload opens directly. */
  lemma CommitThenReload(c: Record, flash: Flash, cenv: CommitEnv, lenv: OpenEnv)
    requires Commit(c, flash, cenv).Normal?
    requires cenv.ssid.setCode == EspOk && cenv.psk.setCode == EspOk && cenv.security.setCode == EspOk
    requires NulFree(c.ssid) && NulFree(c.psk)
    requires lenv.first == EspOk
    ensures Reload(Commit(c, flash, cenv).flash, lenv) == Normal(Commit(c, flash, cenv).flash, c)
  {
  }

  /** Persisting a record through set_network and reloading it yields the values
      passed to set_network. */
  lemma SetNetworkThenReload(c: Record, ssid: string, psk: string, security: uint8,
                             flash: Flash, cenv: CommitEnv, lenv: OpenEnv)
    requires SetNetwork(c, ssid, psk, security, flash, cenv).outcome.Normal?
    requires cenv.ssid.setCode == EspOk && cenv.psk.setCode == EspOk && cenv.security.setCode == EspOk
    requires NulFree(ssid) && NulFree(psk)
    requires lenv.first == EspOk
    ensures var f := SetNetwork(c, ssid, psk, security, flash, cenv).outcome.flash;
      Reload(f, lenv).Normal? && Reload(f, lenv).value == Record(ssid, psk, security)
  {
    CommitThenReload(Record(ssid, psk, security), flash, cenv, lenv);
  }
}
