/** Interface: the HTTP handlers of the provisioning server. Each handler is a
    function from the request, the NVS partition and the result codes of the calls
    it makes to the partition afterwards, the JSON-like reply it sends and whether
    it restarts the device (the delay and esp_restart that follow the reply). */
module Interface {
  import opened Common
  import opened NvStorage
  import opened Config
  import opened FormUrlEncoded
  import opened Query
  import Json

  const RESET_DELAY_SECS: int := 5

  /** wifi_auth_mode_t WIFI_AUTH_WPA2_PSK. */
  const WIFI_AUTH_WPA2_PSK: uint8 := 3

  /* ---------- url_decode ---------- */

  /** url_decode over a `const char*`: the text up to its first NUL, decoded. */
  function UrlDecode(src: string): (r: string)
    requires WellFormed(CStr(src))
    ensures |r| <= |CStr(src)|
    ensures NulFree(src) && '%' !in src && '+' !in src ==> r == src
  {
    assert NulFree(src) && '%' !in src && '+' !in src ==> Decode(CStr(src)) == src by {
      if NulFree(src) && '%' !in src && '+' !in src {
        DecodeKeeps(src);
      }
    }
    Decode(CStr(src))
  }

  /** url_decode undoes the form serializer. */
  lemma UrlDecodeEncode(s: string)
    requires IsByteString(s)
    ensures WellFormed(CStr(Encode(s))) && UrlDecode(Encode(s)) == s
  {
    DecodeEncode(s);
  }

  /* ---------- create_result ---------- */

  const RESULT_OPEN: string := "{'success':"
  const RESULT_MESSAGE: string := ",'message':'"
  const RESULT_CLOSE: string := "'}"

  /** Reads a result back: the flag after "{'success':" and the text between
      ",'message':'" and the final "'}". */
  function ParseResult(r: string): Option<(bool, string)> {
    var t := RESULT_OPEN + "true" + RESULT_MESSAGE;
    var f := RESULT_OPEN + "false" + RESULT_MESSAGE;
    if |r| >= |t| + 2 && r[..|t|] == t && r[|r| - 2..] == RESULT_CLOSE then Some((true, r[|t|..|r| - 2]))
    else if |r| >= |f| + 2 && r[..|f|] == f && r[|r| - 2..] == RESULT_CLOSE then Some((false, r[|f|..|r| - 2]))
    else None
  }

  /** create_result: the flag and the message pasted between single quotes, with
      no escaping; the message is read back whole whatever it holds. */
  function CreateResult(success: bool, message: string): (r: string)
    ensures ParseResult(r) == Some((success, message))
  {
    var head := RESULT_OPEN + Json.BoolText(success) + RESULT_MESSAGE;
    var r := head + message + RESULT_CLOSE;
    assert r[..|head|] == head && r[|r| - 2..] == RESULT_CLOSE && r[|head|..|r| - 2] == message;
    assert !success ==> r[..|RESULT_OPEN + "true" + RESULT_MESSAGE|] != RESULT_OPEN + "true" + RESULT_MESSAGE by {
      if !success {
        assert r[|RESULT_OPEN|] == 'f';
      }
    }
    r
  }

  /** A reply sent, and whether the device restarts after it. */
  datatype Reply = Reply(response: string, restart: bool)

  /** The reply reports `ok` as its success flag. */
  predicate Reports(reply: Reply, ok: bool) {
    ParseResult(reply.response).Some? && ParseResult(reply.response).value.0 == ok
  }

  function Respond(flash: Flash, ok: bool, message: string, restart: bool): (r: Run<Reply>)
    ensures r.Normal? && r.flash == flash && Reports(r.value, ok) && r.value.restart == restart
    ensures ParseResult(r.value.response).value.1 == message
  {
    Normal(flash, Reply(CreateResult(ok, message), restart))
  }

  /* ---------- get_key_value ---------- */

  /** httpd_query_key_value, which is not part of this model: the value stored for
      the key, or None for any error it reports. */
  type KeyLookup = (string, string) -> Option<string>

  /** get_key_value: the looked-up value as a C string, or "" on any error. */
  function GetKeyValue(lookup: KeyLookup, query: string, key: string): (r: string)
    ensures NulFree(r)
    ensures lookup(CStr(query), key).None? ==> r == ""
    ensures lookup(CStr(query), key).Some? ==> r <= lookup(CStr(query), key).value
    ensures lookup(CStr(query), key).Some? && NulFree(lookup(CStr(query), key).value) ==>
              r == lookup(CStr(query), key).value
    ensures lookup(CStr(query), key).Some? && !NulFree(lookup(CStr(query), key).value) ==>
              |r| < |lookup(CStr(query), key).value| && lookup(CStr(query), key).value[|r|] == '\0'
  {
    match lookup(CStr(query), key)
    case None => ""
    case Some(v) => CStr(v)
  }

  /* ---------- command_handler ---------- */

  /** The URL query of a request: absent (length 0), present but unreadable, or its text. */
  datatype UrlQuery = NoQuery | Unreadable | QueryText(text: string)

  /** Result codes of the NVS calls a handler may make: the open of `Config config;`,
      the open and writes of its commit, nvs_flash_deinit and nvs_flash_erase. */
  datatype HandlerEnv = HandlerEnv(load: OpenEnv, commit: CommitEnv, deinit: EspErr, erase: EspErr)

  const NO_QUERY: string := "No URL query present!"
  const BAD_QUERY: string := "Error reading URL query!"
  const NO_COMMAND: string := "Could not find command parameter!"
  const USAGE: string := "Missing required parameters. Usage: command=set_network&ssid=ssid&psk=psk"
  const RESET_FAILED: string := "Failed to reset NVS!"

  function SetMessage(ssid: string): string {
    "Set network to '" + ssid + "', going down in " + IntToString(RESET_DELAY_SECS) + " seconds..."
  }

  function RebootMessage(): string {
    "Going down in " + IntToString(RESET_DELAY_SECS) + " seconds..."
  }

  function ResetMessage(): string {
    "Going to try resetting NVS, going down in " + IntToString(RESET_DELAY_SECS) + " seconds..."
  }

  /** get_network: a fresh Config reads the partition and the ssid is the message;
      the psk never appears and an uninitialised config still succeeds. */
  function GetNetworkCommand(flash: Flash, load: OpenEnv): (r: Run<Reply>)
    ensures r.Normal? <==> Reload(flash, load).Normal?
    ensures r.flash == Reload(flash, load).flash
    ensures r.Normal? ==>
      !r.value.restart && ParseResult(r.value.response) == Some((true, GetStr(r.flash, Handle(NAMESPACE), SSID_KEY)))
  {
    match Reload(flash, load)
    case Terminated(f) => Terminated(f)
    case Normal(f, c) => Respond(f, true, c.ssid, false)
  }

  /** set_network: both values must be non-empty; then a fresh Config is loaded,
      given (ssid, psk, WPA2-PSK) and committed, and the device restarts whatever
      the writes returned. */
  function SetNetworkCommand(ssid: string, psk: string, flash: Flash, env: HandlerEnv): (r: Run<Reply>)
    ensures ssid == "" || psk == "" ==> r == Respond(flash, false, USAGE, false)
    ensures ssid != "" && psk != "" ==>
      && (r.Normal? <==> Reload(flash, env.load).Normal? && Open(Reload(flash, env.load).flash, NAMESPACE, env.commit.open).Normal?)
      && (r.Normal? ==> r.value.restart && ParseResult(r.value.response) == Some((true, SetMessage(ssid))))
      && (r.Normal? ==> r.flash == Commit(Record(ssid, psk, WIFI_AUTH_WPA2_PSK), Reload(flash, env.load).flash, env.commit).flash)
  {
    if ssid == "" || psk == "" then Respond(flash, false, USAGE, false)
    else
      match Reload(flash, env.load)
      case Terminated(f) => Terminated(f)
      case Normal(f, c) =>
        match SetNetwork(c, ssid, psk, WIFI_AUTH_WPA2_PSK, f, env.commit).outcome
        case Terminated(f2) => Terminated(f2)
        case Normal(f2, _) => Respond(f2, true, SetMessage(ssid), true)
  }

  /** reset: nvs_flash_erase is tried only when nvs_flash_deinit succeeded, and the
      device restarts only when both did. */
  function ResetCommand(flash: Flash, deinit: EspErr, erase: EspErr): (r: Run<Reply>)
    ensures r.Normal?
    ensures r.value.restart <==> deinit == EspOk && erase == EspOk
    ensures r.value.restart ==> r.flash == map[] && ParseResult(r.value.response) == Some((true, ResetMessage()))
    ensures !r.value.restart ==> r.flash == flash && ParseResult(r.value.response) == Some((false, RESET_FAILED))
  {
    if Deinit(deinit) then
      var (f, erased) := Erase(flash, erase);
      if erased then Respond(f, true, ResetMessage(), true)
      else Respond(f, false, RESET_FAILED, false)
    else Respond(flash, false, RESET_FAILED, false)
  }

  /** The command parameter of a query text. */
  function CommandOf(text: string, lookup: KeyLookup): string {
    GetKeyValue(lookup, CStr(text), "command")
  }

  /** command_handler. Every reply that reports failure leaves the partition as it
      was and does not restart; every restart follows a reply reporting success. */
  function CommandHandler(request: UrlQuery, lookup: KeyLookup, flash: Flash, env: HandlerEnv): (r: Run<Reply>)
    ensures r.Normal? && Reports(r.value, false) ==> r.flash == flash && !r.value.restart
    ensures r.Normal? && r.value.restart ==> Reports(r.value, true)
    ensures request.NoQuery? ==> r == Respond(flash, false, NO_QUERY, false)
    ensures request.Unreadable? ==> r == Respond(flash, false, BAD_QUERY, false)
    ensures request.QueryText? ==>
      var command := CommandOf(request.text, lookup);
      var query := CStr(request.text);
      && (command == "" ==> r == Respond(flash, false, NO_COMMAND, false))
      && (command == "get_network" ==> r == GetNetworkCommand(flash, env.load))
      && (command == "set_network" ==>
            r == SetNetworkCommand(GetKeyValue(lookup, query, "ssid"), GetKeyValue(lookup, query, "psk"), flash, env))
      && (command == "reboot" ==> r == Respond(flash, true, RebootMessage(), true))
      && (command == "reset" ==> r == ResetCommand(flash, env.deinit, env.erase))
      && (command !in {"", "get_network", "set_network", "reboot", "reset"} ==>
            r == Respond(flash, false, "Command not found: " + command, false))
  {
    match request
    case NoQuery => Respond(flash, false, NO_QUERY, false)
    case Unreadable => Respond(flash, false, BAD_QUERY, false)
    case QueryText(text) =>
      var query := CStr(text);
      var command := GetKeyValue(lookup, query, "command");
      if command == "" then Respond(flash, false, NO_COMMAND, false)
      else if command == "get_network" then GetNetworkCommand(flash, env.load)
      else if command == "set_network" then
        SetNetworkCommand(GetKeyValue(lookup, query, "ssid"), GetKeyValue(lookup, query, "psk"), flash, env)
      else if command == "reboot" then Respond(flash, true, RebootMessage(), true)
      else if command == "reset" then ResetCommand(flash, env.deinit, env.erase)
      else Respond(flash, false, "Command not found: " + command, false)
  }

  /* ---------- set_netcfg_handler ---------- */

  const SET_FAILED: string := "Failed to set network."

  function NetcfgMessage(ssid: string): string {
    "Successfully set network to '" + ssid + "'! Going down in " + IntToString(RESET_DELAY_SECS) + " seconds..."
  }

  /** Loads a Config, stores (ssid, psk, WPA2-PSK) through set_network and replies
      by its result: the tail both netcfg handlers share. */
  function StoreNetwork(ssid: string, psk: string, flash: Flash, env: HandlerEnv): (r: Run<Option<Reply>>)
    ensures r.Normal? <==> Reload(flash, env.load).Normal? && Open(Reload(flash, env.load).flash, NAMESPACE, env.commit.open).Normal?
    ensures r.Normal? ==> r.flash == Commit(Record(ssid, psk, WIFI_AUTH_WPA2_PSK), Reload(flash, env.load).flash, env.commit).flash
    ensures r.Normal? ==>
      r.value.Some? && r.value.value.restart && ParseResult(r.value.value.response) == Some((true, NetcfgMessage(ssid)))
  {
    match Reload(flash, env.load)
    case Terminated(f) => Terminated(f)
    case Normal(f, c) =>
      match SetNetwork(c, ssid, psk, WIFI_AUTH_WPA2_PSK, f, env.commit).outcome
      case Terminated(f2) => Terminated(f2)
      case Normal(f2, ok) =>
        if ok then Normal(f2, Some(Reply(CreateResult(true, NetcfgMessage(ssid)), true)))
        else Normal(f2, Some(Reply(CreateResult(false, SET_FAILED), false)))
  }

  /** set_netcfg_handler: the POST body (None when nothing could be received, which
      sends no reply) is decoded as a whole, then ssid and psk are looked up in the
      decoded text. Empty values are stored as they are. */
  function SetNetcfgHandler(body: Option<string>, lookup: KeyLookup, flash: Flash, env: HandlerEnv): (r: Run<Option<Reply>>)
    requires body.Some? ==> WellFormed(CStr(body.value))
    ensures body.None? ==> r == Normal(flash, None)
    ensures body.Some? ==>
      var decoded := UrlDecode(body.value);
      r == StoreNetwork(GetKeyValue(lookup, decoded, "ssid"), GetKeyValue(lookup, decoded, "psk"), flash, env)
  {
    match body
    case None => Normal(flash, None)
    case Some(b) =>
      var decoded := UrlDecode(b);
      StoreNetwork(GetKeyValue(lookup, decoded, "ssid"), GetKeyValue(lookup, decoded, "psk"), flash, env)
  }

  /** The handler as evidently intended: the body is split into pieces first and
      each value is decoded on its own, so an escaped '&' or '=' stays in the value. */
  function SetNetcfgSplitFirst(body: Option<string>, flash: Flash, env: HandlerEnv): (r: Run<Option<Reply>>)
    requires body.Some? ==> WellFormed(CStr(body.value))
    ensures body.None? ==> r == Normal(flash, None)
    ensures body.Some? ==>
      var q := FromCString(body.value);
      r == StoreNetwork(GetField(q, "ssid"), GetField(q, "psk"), flash, env)
  {
    match body
    case None => Normal(flash, None)
    case Some(b) =>
      var q := FromCString(b);
      StoreNetwork(GetField(q, "ssid"), GetField(q, "psk"), flash, env)
  }

  /* ---------- properties relating several calls ---------- */

  /** Every NVS call a handler makes succeeds at the first try. */
  predicate Direct(env: HandlerEnv) {
    && env.load.first == EspOk && env.commit.open.first == EspOk
    && env.commit.ssid.setCode == EspOk && env.commit.psk.setCode == EspOk && env.commit.security.setCode == EspOk
  }

  /** What the netcfg tail stores is what a later Config reads back. */
  lemma StoreNetworkPersists(ssid: string, psk: string, flash: Flash, env: HandlerEnv, later: OpenEnv)
    requires Direct(env) && later.first == EspOk && NulFree(ssid) && NulFree(psk)
    ensures StoreNetwork(ssid, psk, flash, env).Normal?
    ensures var f := StoreNetwork(ssid, psk, flash, env).flash;
      Reload(f, later) == Normal(f, Record(ssid, psk, WIFI_AUTH_WPA2_PSK))
  {
    CommitThenReload(Record(ssid, psk, WIFI_AUTH_WPA2_PSK), flash, env.commit, later);
  }

  /** What set_network stores is what a later Config reads back. */
  lemma SetNetworkPersists(text: string, lookup: KeyLookup, flash: Flash, env: HandlerEnv, later: OpenEnv)
    requires CommandOf(text, lookup) == "set_network"
    requires GetKeyValue(lookup, CStr(text), "ssid") != "" && GetKeyValue(lookup, CStr(text), "psk") != ""
    requires Direct(env) && later.first == EspOk
    ensures var r := CommandHandler(QueryText(text), lookup, flash, env);
      && r.Normal? && r.value.restart
      && Reload(r.flash, later) == Normal(r.flash, Record(GetKeyValue(lookup, CStr(text), "ssid"),
                                                          GetKeyValue(lookup, CStr(text), "psk"),
                                                          WIFI_AUTH_WPA2_PSK))
  {
    var ssid := GetKeyValue(lookup, CStr(text), "ssid");
    var psk := GetKeyValue(lookup, CStr(text), "psk");
    CommitThenReload(Record(ssid, psk, WIFI_AUTH_WPA2_PSK), flash, env.commit, later);
  }

  /** set_network followed by get_network answers with the ssid just stored. */
  lemma SetThenGetNetwork(text: string, lookup: KeyLookup, flash: Flash, env: HandlerEnv,
                          text2: string, lookup2: KeyLookup, env2: HandlerEnv)
    requires CommandOf(text, lookup) == "set_network" && CommandOf(text2, lookup2) == "get_network"
    requires GetKeyValue(lookup, CStr(text), "ssid") != "" && GetKeyValue(lookup, CStr(text), "psk") != ""
    requires Direct(env) && env2.load.first == EspOk
    ensures var r := CommandHandler(QueryText(text), lookup, flash, env);
      && r.Normal? && r.value.restart
      && var r2 := CommandHandler(QueryText(text2), lookup2, r.flash, env2);
      && r2.Normal? && !r2.value.restart
      && ParseResult(r2.value.response) == Some((true, GetKeyValue(lookup, CStr(text), "ssid")))
  {
    SetNetworkPersists(text, lookup, flash, env, env2.load);
  }

  /** A failed nvs_flash_deinit or erase leaves every stored value readable. */
  lemma FailedResetKeepsConfig(request: UrlQuery, lookup: KeyLookup, flash: Flash, env: HandlerEnv)
    requires request.QueryText? && CommandOf(request.text, lookup) == "reset"
    requires env.deinit != EspOk || env.erase != EspOk
    ensures var r := CommandHandler(request, lookup, flash, env);
      r == Normal(flash, Reply(CreateResult(false, RESET_FAILED), false))
  {
  }

  /* ---------- decoding the whole body before splitting it ---------- */

  /** httpd_query_key_value stood in for by the field split of the form parser. */
  const FORM_LOOKUP: KeyLookup := (q: string, k: string) => FieldValue(q, k)

  /** The serializer escapes '&' as "%26". */
  lemma EncodedAmpersand(s: string)
    requires s == "&"
    ensures IsByteString(s) && Encode(s) == "%26" && Decode("%26") == s
  {
    assert Encode(s) == EncodeByte('&') + Encode(s[1..]);
    assert s[1..] == "";
    DecodeEncode(s);
  }

  /** The body a browser posts for a plain ssid and the password a&b, under the
      plain field names n1 and n2. */
  lemma PostedBody(n1: string, n2: string, ssid: string, a: string, b: string, pairs: seq<(string, string)>)
    requires PlainName(n1) && PlainName(n2) && PlainName(ssid) && Verbatim(a) && Verbatim(b)
    requires pairs == [(n1, ssid), (n2, a + "&" + b)]
    ensures Serializable(pairs)
    ensures Serialize(pairs) == n1 + "=" + ssid + "&" + (n2 + "=" + (a + "%26" + b))
  {
    EncodeVerbatim(ssid);
    EncodeVerbatim(a);
    EncodeVerbatim(b);
    EncodedAmpersand("&");
    EncodeConcat(a, "&");
    EncodeConcat(a + "&", b);
    assert Serializable(pairs);
    var tail := pairs[1..];
    assert tail == [(n2, a + "&" + b)];
    assert Serialize(tail) == n2 + "=" + Encode(a + "&" + b);
  }

  /** Decoding a piece name=v of verbatim parts. */
  lemma DecodePiece(name: string, v: string)
    requires Verbatim(name) && WellFormed(v)
    ensures WellFormed(name + "=" + v) && Decode(name + "=" + v) == name + "=" + Decode(v)
  {
    VerbatimDecode(name);
    DecodeKeeps("=");
    DecodeConcat(name, "=");
    DecodeConcat(name + "=", v);
  }

  /** Decoding that body as a whole turns the escaped '&' into a separator. */
  lemma DecodedBody(n1: string, n2: string, ssid: string, a: string, b: string, body: string)
    requires PlainName(n1) && PlainName(n2) && PlainName(ssid) && Verbatim(a) && Verbatim(b) && NulFree(body)
    requires body == n1 + "=" + ssid + "&" + (n2 + "=" + (a + "%26" + b))
    ensures WellFormed(CStr(body))
    ensures UrlDecode(body) == n1 + "=" + ssid + "&" + (n2 + "=" + (a + "&" + b))
  {
    VerbatimDecode(ssid);
    VerbatimDecode(a);
    VerbatimDecode(b);
    EncodedAmpersand("&");
    DecodeConcat(a, "%26");
    DecodeConcat(a + "%26", b);
    DecodePiece(n2, a + "%26" + b);
    DecodePiece(n1, ssid);
    DecodeKeeps("&");
    DecodeConcat(n1 + "=" + ssid, "&");
    DecodeConcat(n1 + "=" + ssid + "&", n2 + "=" + (a + "%26" + b));
  }

  /** The lookup on the decoded body cuts the password at the decoded '&'. */
  lemma DecodedLookup(n1: string, n2: string, ssid: string, a: string, b: string, decoded: string)
    requires PlainName(n1) && PlainName(n2) && n1 != n2 && PlainName(ssid) && Verbatim(a) && Verbatim(b)
    requires decoded == n1 + "=" + ssid + "&" + (n2 + "=" + (a + "&" + b))
    ensures NulFree(ssid) && NulFree(a)
    ensures GetKeyValue(FORM_LOOKUP, decoded, n1) == ssid
    ensures GetKeyValue(FORM_LOOKUP, decoded, n2) == a
  {
    VerbatimDecode(ssid);
    VerbatimDecode(a);
    VerbatimDecode(b);
    VerbatimDecode(n1);
    VerbatimDecode(n2);
    var rest := n2 + "=" + a + "&" + b;
    assert n2 + "=" + (a + "&" + b) == rest;
    assert NulFree(decoded);
    FieldValueCons(n1, ssid, rest, n1);
    FieldValueCons(n1, ssid, rest, n2);
    FieldValueCons(n2, a, b, n2);
  }

  /** set_netcfg_handler stores the password a&b, posted as a%26b, as a. */
  lemma NetcfgCutsPassword(ssid: string, a: string, b: string, flash: Flash, env: HandlerEnv, later: OpenEnv)
    requires PlainName(ssid) && Verbatim(a) && Verbatim(b)
    requires Direct(env) && later.first == EspOk
    ensures Serializable([("ssid", ssid), ("psk", a + "&" + b)])
    ensures var body := Serialize([("ssid", ssid), ("psk", a + "&" + b)]);
      && body == "ssid" + "=" + ssid + "&" + ("psk" + "=" + (a + "%26" + b))
      && WellFormed(CStr(body))
      && var r := SetNetcfgHandler(Some(body), FORM_LOOKUP, flash, env);
      && r.Normal? && Reload(r.flash, later) == Normal(r.flash, Record(ssid, a, WIFI_AUTH_WPA2_PSK))
  {
    assert PlainName("ssid") && PlainName("psk") && "ssid" != "psk";
    var pairs := [("ssid", ssid), ("psk", a + "&" + b)];
    PostedBody("ssid", "psk", ssid, a, b, pairs);
    var body := Serialize(pairs);
    DecodedBody("ssid", "psk", ssid, a, b, body);
    DecodedLookup("ssid", "psk", ssid, a, b, UrlDecode(body));
    StoreNetworkPersists(ssid, a, flash, env, later);
  }

  /** Splitting before decoding stores any ssid and password the form serializer
      can carry, escaped '&', '=' and '%' included. */
  lemma SplitFirstStoresPosted(ssid: string, psk: string, flash: Flash, env: HandlerEnv, later: OpenEnv)
    requires IsByteString(ssid) && IsByteString(psk) && NulFree(ssid) && NulFree(psk)
    requires Direct(env) && later.first == EspOk
    ensures Serializable([("ssid", ssid), ("psk", psk)])
    ensures var body := Serialize([("ssid", ssid), ("psk", psk)]);
      && WellFormed(CStr(body))
      && var r := SetNetcfgSplitFirst(Some(body), flash, env);
      && r.Normal? && Reload(r.flash, later) == Normal(r.flash, Record(ssid, psk, WIFI_AUTH_WPA2_PSK))
  {
    var pairs := [("ssid", ssid), ("psk", psk)];
    assert PlainName("ssid") && PlainName("psk");
    assert Serializable(pairs);
    var body := Serialize(pairs);
    assert FromCString(body) == Query(false, body);
    assert Lookup(pairs, "ssid") == Some(ssid);
    assert pairs[1..] == [("psk", psk)];
    assert Lookup(pairs, "psk") == Some(psk);
    GetFieldSerialize(pairs, "ssid");
    GetFieldSerialize(pairs, "psk");
    StoreNetworkPersists(ssid, psk, flash, env, later);
  }
}
