# senseo-firmware provisioning core, modelled in Dafny

The firmware runs on an ESP32. At boot it initialises non-volatile storage (NVS)
and loads the stored Wi-Fi credentials {ssid, psk, security} from the NVS namespace
"config". If the record is uninitialised, the device publishes an open access point
"ESP32-AP". Otherwise it joins the stored network as a station and waits until the
link is up. In both cases it then starts an HTTP server with three endpoints:

- `/cmd` takes a URL query `command=...` with the commands get_network,
  set_network, reboot and reset.
- `/netcfg` takes a form-encoded POST body with ssid and psk.
- `/` serves the HTML form.

The model has one module per source file:

- `NvStorage` models the NVS wrapper. The partition is a map from namespace to
  entries. The result codes of init, erase, open, the writes and the commits are
  inputs. Reads are decided by the map.
- `Config` models the credential record and its persistence.
- `NetConfig` models the station event state machine, the wait on the two event
  bits, and the access-point configuration.
- `Json` models the JSON builder.
- `Query` models the URL query class of query.cpp. interface.cpp does not use
  it: both handlers read their values through `get_key_value`.
- `Interface` models the HTTP handlers.
- `Boot` models app_main.

Two modules are shared:

- `Common` holds C-string truncation, decimal conversion, and `std::string::find`.
- `FormUrlEncoded` holds the percent/plus decoding that query.cpp and
  interface.cpp both carry. Beside it sits the serializer of
  `application/x-www-form-urlencoded` from section 5.2 of the WHATWG URL Standard.
  The model uses that serializer as the partner of the decoder, and as the way a
  browser builds the body it posts.

The process-ending paths are modelled as `Run.Terminated`. An NVStorage constructor
that fails rethrows with no active exception, which calls std::terminate.

The model follows the code as written, including these behaviours:

- get_network replies with the ssid only. It reports success even when the stored
  record is uninitialised.
- Config::commit discards the result of every write. It reports success whenever
  the namespace opens. So the "Failed to set network." reply of set_netcfg_handler
  can never be sent.
- `/cmd` dispatches get_network, set_network, reboot and reset. The credentials
  are posted to `/netcfg`.
- The served HTML form posts to "/netconfig", but the handler is registered at
  "/netcfg".
- retry_count is not reset when connect_station starts. Only a GotIp event
  resets it.

## Model

| member | source | states |
|---|---|---|
| NvStorage.Erase | main/nvstorage.cpp:32-34 | success iff nvs_flash_erase returns ESP_OK; success wipes the whole partition, failure leaves it as it was |
| NvStorage.Init | main/nvstorage.cpp:11-26 | ESP_OK is success with one init call; a full or newer-version partition is erased and initialised once more, success iff that second init succeeds; a failed erase or any other code fails; the partition changes only through the erase |
| NvStorage.Deinit | main/nvstorage.cpp:28-30 | true iff nvs_flash_deinit returned ESP_OK |
| NvStorage.Open | main/nvstorage.cpp:36-51 | ESP_OK gives a handle on the namespace; NOT_INITIALIZED runs init and retries the open once, ending the process if either fails; every other code ends the process |
| NvStorage.GetStr | main/nvstorage.cpp:62-77 | the stored string when the key holds one, otherwise "" |
| NvStorage.GetU8 | main/nvstorage.cpp:88-96 | the stored byte when the key holds one, otherwise 0 |
| NvStorage.Put | main/nvstorage.cpp:79-105 | a successful set stores the value under the key; every other key and namespace is untouched; a failed set changes nothing; success iff both the set and the commit succeed |
| NvStorage.SetStr | main/nvstorage.cpp:79-86 | after a successful set, get_str of the key reads the value; reads of every other key and every other namespace are unchanged; the result is true iff set and commit both succeed |
| NvStorage.SetU8 | main/nvstorage.cpp:98-105 | after a successful set, get_uint8 of the key reads the value; reads of every other key and every other namespace are unchanged; the result is true iff set and commit both succeed |
| NvStorage.Reset | main/nvstorage.cpp:107-109 | success iff nvs_erase_all succeeds; success empties only the handle's namespace |
| NvStorage.ResetReadsDefaults | main/nvstorage.cpp:107-109 | after a successful reset every read of the namespace yields the default "" or 0 |
| Config.Uninitialized | main/config.cpp:60-63 | true iff the ssid or the psk is empty |
| Config.Reload | main/config.cpp:12-25 | reload succeeds iff the namespace "config" opens; the record is then the get_str of "ssid" and "psk" and the get_uint8 of "security" |
| Config.Commit | main/config.cpp:27-39 | runs iff the namespace opens and then reports true; each key whose write succeeded reads back the C string of its field, each key whose write failed keeps its value; other namespaces are untouched |
| Config.SetNetwork | main/config.cpp:53-58 | the record takes the three new values before the commit, and the result is the commit's result |
| Config.ReloadEmptyNamespace | main/config.cpp:12-25 | an empty namespace reloads as ("", "", 0), which is uninitialised |
| Config.ReloadAfterErase | main/config.cpp:12-25 | an erased partition reloads as ("", "", 0) |
| Config.CommitThenReload | main/config.cpp:12-39 | commit followed by reload gives back the committed record when the writes succeed and the strings hold no NUL |
| Config.SetNetworkThenReload | main/config.cpp:53-58 | the values passed to set_network are what the next reload reads |
| NetConfig.OnEvent | main/netconfig.cpp:36-63 | a start event connects; a disconnect under budget reconnects and counts one retry, and over budget sets the fail bit without connecting; got-IP sets the connected bit and resets the counter; the counter only drops on got-IP |
| NetConfig.RunEvents | main/netconfig.cpp:36-63 | a sequence of events issues at most one connect per event |
| NetConfig.RunEventsAppend | main/netconfig.cpp:36-63 | running two event sequences one after the other equals running their concatenation |
| NetConfig.DisconnectsUnderBudget | main/netconfig.cpp:45-50 | while under budget, k disconnects make k reconnects and add exactly k to the counter, setting no bit |
| NetConfig.RetryBudget | main/netconfig.cpp:45-53 | with a budget N and the counter at 0, N disconnects all reconnect, and the next one sets the fail bit |
| NetConfig.AttemptsBeforeFailure | main/netconfig.cpp:40-53 | from a fresh state, the start event and N+1 losses make exactly N+1 connection attempts and end with the fail bit set |
| NetConfig.UnlimitedNeverFails | main/netconfig.cpp:46 | with a negative budget no event sequence sets the fail bit |
| NetConfig.FirmwareNeverFails | main/netconfig.hpp:9 | under the firmware's own budget of -1 the fail bit is never set |
| NetConfig.RetriesNeverDropWithoutGotIp | main/netconfig.cpp:49-57 | without a got-IP event retry_count never decreases |
| NetConfig.WaitForBits | main/netconfig.cpp:188 | a release returns the bits of a state that holds one; a wait that is not released ends in the state all the events lead to, with no bit set |
| NetConfig.WaitFirstBit | main/netconfig.cpp:188 | the waiter is released in the state after the shortest prefix of the events whose state holds a bit, and stays blocked exactly when no prefix reaches such a state |
| NetConfig.UnlimitedWakesOnlyConnected | main/netconfig.cpp:46-60 | with a negative budget the wait is only ever released by the connected bit |
| NetConfig.Interpret | main/netconfig.cpp:191-197 | connected takes precedence over failed; neither set is the unexpected case |
| NetConfig.ConnectStation | main/netconfig.cpp:127-209 | any failed setup call returns false before waiting; the station record is applied iff every call up to esp_wifi_set_config succeeded, and it is the one built from the given ssid, psk and security; the call blocks exactly when no prefix of the events sets a bit; a return after the wait reports the status of the first state with a bit, with that state's retry count, and is true iff the unregistering succeeds; with a negative budget it never returns a failed connection |
| NetConfig.WaitDisconnects | main/netconfig.cpp:45-49 | disconnects under budget do not release the waiter; each adds one to the counter |
| NetConfig.BudgetExhaustedFails | main/netconfig.cpp:45-53 | with a budget N >= 0 and every setup call succeeding, the start event and N+1 losses make connect_station return the failed outcome with the counter at N |
| NetConfig.GotIpConnects | main/netconfig.cpp:56-61 | when GotIp is the first event that sets a bit, connect_station returns the connected outcome with the counter back at 0 |
| NetConfig.Truncate | main/netconfig.cpp:163-164 | strncpy into an n-byte field keeps exactly the first n characters of a longer text, and the whole of a text that fits |
| NetConfig.StationConfig | main/netconfig.cpp:162-167 | the ssid and password are the C strings cut to exactly their first 32 and 64 characters when longer, and kept whole otherwise; the auth threshold is the stored security; PMF is capable and not required |
| NetConfig.PublishAp | main/netconfig.cpp:65-125 | success iff every call except the handler registration succeeds; once the mode is set and the config is applied, it is SSID "ESP32-AP" of length 8, open, channel 1, visible, 4 clients, beacon 100 |
| Json.New | main/json.cpp:10-14 | a fresh builder is "{", empty and not finalised |
| Json.Replace | main/json.cpp:23-41 | replacing a character that does not occur changes nothing, and a non-empty replacement never shortens the text |
| Json.ReplaceConcat | main/json.cpp:23-41 | replacing each occurrence distributes over concatenation |
| Json.Escape | main/json.cpp:23-33 | escaping never shortens, and leaves a text with no backslash and no quote unchanged |
| Json.UnescapeEscape | main/json.cpp:23-33 | removing the inserted backslashes recovers the original text |
| Json.EscapeIsTwoPasses | main/json.cpp:23-33 | the two passes (backslashes first, then quotes) equal the one-pass escape of each character |
| Json.Indent | main/json.cpp:35-41 | a text with no newline is unchanged, and indenting never shortens |
| Json.DedentIndent | main/json.cpp:35-41 | removing the tab after each newline recovers the original text |
| Json.InsertAtEach | main/json.cpp:23-41 | the find/insert loop that skips two past each insertion inserts exactly once at every occurrence |
| Json.EscapeInPlace | main/json.cpp:23-33 | JSON::escape's two loops compute the escape of the value |
| Json.IndentInPlace | main/json.cpp:35-41 | JSON::indent's loop puts a tab after every newline |
| Json.Add | main/json.cpp:43-55 | a finalised builder is unchanged; otherwise one line with the key, the value (quoted and escaped as asked) and a trailing comma is appended and the builder is non-empty |
| Json.BoolTextPlain | main/json.cpp:63-65 | "true" and "false" pass through escaping unchanged |
| Json.AddBool | main/json.cpp:63-65 | appends the escaped key and the unquoted boolean word |
| Json.IntTextPlain | main/json.cpp:67-69 | the decimal text of an int passes through escaping unchanged |
| Json.AddInt | main/json.cpp:67-69 | appends the escaped key and the unquoted decimal text |
| Json.AddString | main/json.cpp:79-81 | appends the escaped key and the escaped value in quotes |
| Json.Finalize | main/json.cpp:87-97 | finalising twice changes nothing; an empty builder becomes "{\n}"; otherwise the trailing comma is dropped and "\n}" appended |
| Json.AddJson | main/json.cpp:57-61 | appends the key and the finalised inner object indented one level, with neither escaped nor quoted |
| Json.FinalizeIdempotent | main/json.cpp:88-90 | finalize of a finalised builder returns the same text |
| Json.AddAfterFinalize | main/json.cpp:44-46 | adding to a finalised builder is ignored |
| Json.FinalizeNew | main/json.cpp:10-14 | an empty object finalises to "{\n}" |
| Json.FinalizeDropsComma | main/json.cpp:92-95 | the last line loses its comma and the object is closed |
| Json.TwoFieldShape | main/json.cpp:16-21 | a bool field followed by a string field finalises to both lines, the second without comma, then "\n}" |
| Json.SimpleResponse | main/json.cpp:16-21 | the response is the object with "success" set to the flag and "message" set to the escaped, quoted message |
| FormUrlEncoded.Decode | main/query.cpp:37-52 | decoding never lengthens the text |
| FormUrlEncoded.DecodePlainChar | main/interface.cpp:25-29 | '+' decodes to a space and every other character except '%' is copied, in front of any well-formed rest |
| FormUrlEncoded.DecodeEscapeChar | main/interface.cpp:17-24 | '%' and two hex digits decode to the byte they spell, in front of any well-formed rest |
| FormUrlEncoded.DecodeKeeps | main/query.cpp:37-52 | a text with no '%' and no '+' decodes to itself |
| FormUrlEncoded.DecodeConcat | main/query.cpp:37-52 | decoding distributes over the concatenation of well-formed texts |
| FormUrlEncoded.DecodeLoop | main/query.cpp:37-52 | the index loop that skips the two hex digits after each '%' computes the decode |
| FormUrlEncoded.DecodeEncode | main/query.cpp:37-52 | decoding undoes the serializer for every byte string |
| FormUrlEncoded.WellFormedField | main/query.cpp:27-30 | the range between a start and the next '&' of a well-formed text is well formed |
| FormUrlEncoded.FieldValueSerialize | main/query.cpp:23-35 | the piece-wise lookup in a serialized list finds the encoded first value paired with the name, and nothing for an absent name |
| Query.FromCString | main/query.cpp:5-8 | the query is non-empty and holds exactly the characters before the first NUL, or the whole text when it holds none |
| Query.Get | main/query.cpp:23-35 | "" for an empty query or when key= does not occur; otherwise the decode of the text from just past the first key= up to the next '&' or the end |
| Query.UniqueValueRange | main/query.cpp:25-29 | the first occurrence and the next '&' fix a single range |
| Query.GetFromCString | main/query.cpp:5-35 | a query built from a well-formed C string answers "" or the decode of that range |
| Query.GetField | main/query.cpp:23-35 | the corrected get: the decoded value of the piece whose name is the key, or "" |
| Query.GetFieldSerialize | main/query.cpp:23-35 | the corrected get on a serialized query returns the first value paired with the key, or "" |
| Query.SerializedExample | main/query.cpp:23-35 | the pairs xssid=a and ssid=b serialize to "xssid=a&ssid=b" |
| Query.ExampleRange | main/query.cpp:25-29 | in "xssid=a&ssid=b" the range get decodes for ssid is "a", which starts inside the name "xssid" |
| Query.ExampleGet | main/query.cpp:23-35 | get of ssid in "xssid=a&ssid=b" returns "a" |
| Query.GetMatchesInsideName | main/query.cpp:25 | get returns "a" where the piece named ssid holds "b" |
| Interface.UrlDecode | main/interface.cpp:14-32 | decodes the text up to the first NUL; never lengthens it; a text without '%' or '+' is unchanged |
| Interface.UrlDecodeEncode | main/interface.cpp:14-32 | url_decode undoes the form serializer |
| Interface.CreateResult | main/interface.cpp:57-60 | the reply carries the flag and the unescaped message, and both are read back whole |
| Interface.Respond | main/interface.cpp:57-60 | the reply reports the given flag and message, and leaves the partition as it was |
| Interface.GetKeyValue | main/interface.cpp:34-55 | "" on any lookup error; otherwise exactly the looked-up value up to its first NUL |
| Interface.GetNetworkCommand | main/interface.cpp:75-78 | succeeds iff the config loads; reports success with the stored ssid as the message and no restart |
| Interface.SetNetworkCommand | main/interface.cpp:79-97 | an empty ssid or psk gets the usage reply; otherwise the record (ssid, psk, WPA2-PSK) is committed and the device restarts after a success reply |
| Interface.ResetCommand | main/interface.cpp:105-116 | erase is tried only after a successful deinit; restart with an erased partition iff both succeed, otherwise a failure reply and the partition is untouched |
| Interface.CommandHandler | main/interface.cpp:62-132 | the reply for no query, an unreadable query, a missing or unknown command, and each of the four commands; a failure reply leaves the partition and does not restart; every restart follows a success reply |
| Interface.StoreNetwork | main/interface.cpp:157-171 | the netcfg tail: loads a config and commits (ssid, psk, WPA2-PSK); on return it replies success and restarts |
| Interface.SetNetcfgHandler | main/interface.cpp:140-174 | no body gives no reply; otherwise the whole body is decoded first and ssid and psk are then looked up in the decoded text |
| Interface.SetNetcfgSplitFirst | main/interface.cpp:140-174 | corrected handler: ssid and psk are the decoded values of the pieces of the received body |
| Interface.StoreNetworkPersists | main/interface.cpp:159-160 | what the netcfg tail stores is what a later config reads |
| Interface.SetNetworkPersists | main/interface.cpp:79-97 | after set_network the device restarts and the next config load reads the values looked up in the query, with WPA2-PSK |
| Interface.SetThenGetNetwork | main/interface.cpp:75-97 | set_network followed by get_network replies with the ssid just stored |
| Interface.FailedResetKeepsConfig | main/interface.cpp:105-116 | a failed deinit or erase replies "Failed to reset NVS!" and leaves the partition unchanged |
| Interface.EncodedAmpersand | main/interface.cpp:14-32 | the serializer writes '&' as "%26" and url_decode turns it back |
| Interface.PostedBody | main/interface.cpp:140-155 | the body posted for a plain ssid and the password a&b holds a%26b |
| Interface.DecodedBody | main/interface.cpp:151 | decoding that whole body turns the escaped '&' into a separator |
| Interface.DecodedLookup | main/interface.cpp:154-155 | the lookup in the decoded body returns the ssid and only the part a of the password |
| Interface.NetcfgCutsPassword | main/interface.cpp:151-155 | set_netcfg_handler stores the posted password a&b as a |
| Interface.SplitFirstStoresPosted | main/interface.cpp:140-174 | the corrected handler stores every ssid and password the form can carry, escaped '&', '=' and '%' included |
| Boot.Serve | main/boot.cpp:35-40 | the server step comes last; the device idles when httpd_start succeeds and app_main returns otherwise |
| Boot.LoadedFlash | main/boot.cpp:20-22 | NVS init and the config load change the partition only by erasing it |
| Boot.AppMain | main/boot.cpp:17-42 | a failed load ends the process after two steps; an uninitialised config publishes the AP and starts the server; otherwise the device joins the stored network, applying the station record built from the stored ssid, psk and security, and blocks forever or starts the server once connect_station returns; the firmware never returns a failed connection |
| Boot.AppMainOrder | main/boot.cpp:17-42 | NVS init and the config load come first and once; exactly one network mode runs unless loading aborts; the server is the fourth and last step, reached exactly when the network step returns |
| Boot.BlankPartitionPublishesAp | main/boot.cpp:20-27 | a blank partition boots into AP mode and starts the server |
| Boot.StoredNetworkJoined | main/boot.cpp:28-32 | a boot that loads a configured record joins that network with its security, and applies the station record built from it |
| Boot.SetNetworkThenBoot | main/boot.cpp:28-32 | the network stored by set_network is the one the next boot joins, with WPA2-PSK |

## Left out

- Logging (ESP_LOG*), `vTaskDelay` and `esp_restart` are left out. The delay and
  the restart after a reply are the `restart` flag of `Interface.Reply`.
- The HTTP transport is left out: `httpd_req_get_url_query_len`/`_str`,
  `httpd_req_recv`, `httpd_resp_send` and the 408 reply on a receive timeout.
  A request is `Interface.UrlQuery` and a POST body is an `Option<string>`;
  `None` stands for a failed receive, which sends no reply. `Query(httpd_req_t*)`
  (main/query.cpp:10-21) is not modelled separately for the same reason.
- `httpd_query_key_value` is a parameter (`Interface.KeyLookup`), because its code
  is not part of this model. The buffer-doubling retry of `get_key_value` on
  ESP_ERR_HTTPD_RESULT_TRUNC is folded into it: the lookup returns the whole value
  or an error. `Interface.FORM_LOOKUP` is only a stand-in for it: the field split of
  the form parser, used to exhibit the decoding finding. It does not claim to
  match the library. Its names are case-sensitive, it finds '=' only inside a
  piece, and it does no URL decoding.
- root_handler (the HTML page), the URI registration, `start_server` and
  `stop_server` are left out. They only hand code to the HTTP library.
  `start_server`'s result is the `serverStarts` input of `Boot.BootEnv`.
- `JSON::add_float` and `add_double` are left out because they involve floating
  point. `JSON::length` is left out because it is the length of the text and
  states nothing beyond it.
- The `rw` flag of the NVStorage constructor and the `nvs_commit` in its
  destructor are not modelled separately. The result of every commit is folded
  into `NvStorage.WriteEnv`.
- The `catch (int)` branches of Config::reload and Config::commit are unreachable.
  `throw;` with no active exception calls std::terminate and throws nothing, so
  these branches are absent.
- Concurrency is left out. The event handler runs on the event task while
  connect_station waits, and the model serialises the events into a sequence.
- Event payloads (MAC addresses, AIDs, IP addresses) and the AP event handler
  only feed logging, so they are left out.
- NetConfig.RunEvents: retry_count is an unbounded `nat`. The C `int` overflow
  after 2^31 unlimited retries is not modelled.
- FormUrlEncoded.Decode: a '%' that is not followed by two hex digits is excluded
  by the `WellFormed` requires. Given such a text, the source may read past the end
  of the value or use an uninitialised `int`. Otherwise `sscanf("%x")` takes a
  sign, a blank or a single digit as the number.
- Interface.UrlDecode, Query.Get, Interface.SetNetcfgHandler and
  Interface.SetNetcfgSplitFirst carry the same well-formedness requires, for the
  same reason.
- NvStorage.GetStr and NvStorage.GetU8: a read fails only for a missing key or a
  value of another type. The source also returns ""/0 when `nvs_get_*` fails on a
  present key; no such failure is modelled.
- NetConfig.Truncate and NetConfig.StationConfig: a Dafny `char` stands for one
  byte. The 32 and 64 limits count characters where strncpy counts bytes; the two
  agree on byte strings, and a multi-byte UTF-8 text is not modelled.
- Config getters (main/config.cpp:41-51) are the fields of `Config.Record`, so they
  have no member of their own.
- Json.AddInt: `std::to_string` of a 32-bit `int` is modelled over unbounded
  integers. Any value an `int` can hold prints the same way.

## Findings

| source | as written | input that shows it | evidently intended | confidence | as-written member | corrected member |
|---|---|---|---|---|---|---|
| main/interface.cpp:151-155 | set_netcfg_handler url-decodes the whole POST body, then splits it into pieces at '&' | ssid Home with the password a&b, posted by the form as "ssid=Home&psk=a%26b", is stored with the password "a" | split the body into pieces first and decode each value, so that escaped '&', '=' and '%' stay in the value | not executed | Interface.NetcfgCutsPassword | Interface.SplitFirstStoresPosted |
| main/query.cpp:25 | Query::get looks for the first "key=" anywhere in the query, not only at the start of a piece | "xssid=a&ssid=b" looked up with ssid gives "a" | match "key=" only at the start of the query or just after an '&' | not executed | Query.GetMatchesInsideName | Query.GetFieldSerialize |
