/** NVStorage: the firmware's wrapper over the ESP-IDF non-volatile storage
    library. The library itself is a map from namespace to key/value entries; every
    result code the library would return for a write, a commit, an init or an open
    is supplied by the caller as an `EspErr`. Reads are decided by the map. */
module NvStorage {
  import opened Common

  /** The esp_err_t codes the wrapper distinguishes; every other code is `OtherError`. */
  datatype EspErr = EspOk | NoFreePages | NewVersionFound | NotInitialized | OtherError

  datatype Value = StrValue(s: string) | U8Value(b: uint8)

  type Namespace = map<string, Value>

  /** The whole NVS partition: namespace name to its entries. */
  type Flash = map<string, Namespace>

  function Entries(flash: Flash, ns: string): Namespace {
    if ns in flash then flash[ns] else map[]
  }

  /** The outcome of a step that may end the process: the NVStorage constructor
      rethrows with no active exception, which calls std::terminate. */
  datatype Run<+T> = Normal(flash: Flash, value: T) | Terminated(flash: Flash)

  /* ---------- global init / deinit / erase ---------- */

  /** The flash-level calls made, in order. */
  datatype FlashCall = FlashInit | FlashErase

  /** Result codes of nvs_flash_init, nvs_flash_erase and the second nvs_flash_init. */
  datatype InitEnv = InitEnv(first: EspErr, erase: EspErr, second: EspErr)

  datatype InitResult = InitResult(ok: bool, flash: Flash, calls: seq<FlashCall>)

  /** nvs_flash_erase: the whole partition is wiped when the call succeeds. */
  function Erase(flash: Flash, code: EspErr): (r: (Flash, bool))
    ensures r.1 <==> code == EspOk
    ensures r.1 ==> r.0 == map[]
    ensures !r.1 ==> r.0 == flash
  {
    if code == EspOk then (map[], true) else (flash, false)
  }

  /** NVStorage::init: one erase-and-retry when the partition is full or was
      written by a newer NVS version; any other failure is final. */
  function Init(flash: Flash, env: InitEnv): (r: InitResult)
    ensures env.first == EspOk ==> r == InitResult(true, flash, [FlashInit])
    ensures env.first in {NoFreePages, NewVersionFound} && env.erase == EspOk ==>
              r == InitResult(env.second == EspOk, map[], [FlashInit, FlashErase, FlashInit])
    ensures env.first in {NoFreePages, NewVersionFound} && env.erase != EspOk ==>
              r == InitResult(false, flash, [FlashInit, FlashErase])
    ensures env.first !in {EspOk, NoFreePages, NewVersionFound} ==>
              r == InitResult(false, flash, [FlashInit])
    ensures FlashErase !in r.calls ==> r.flash == flash
  {
    if env.first == NoFreePages || env.first == NewVersionFound then
      var (erased, ok) := Erase(flash, env.erase);
      if !ok then InitResult(false, flash, [FlashInit, FlashErase])
      else InitResult(env.second == EspOk, erased, [FlashInit, FlashErase, FlashInit])
    else
      InitResult(env.first == EspOk, flash, [FlashInit])
  }

  /** NVStorage::deinit: true iff nvs_flash_deinit reported success. */
  function Deinit(code: EspErr): (ok: bool)
    ensures ok <==> code == EspOk
  {
    code == EspOk
  }

  /* ---------- handles ---------- */

  datatype Handle = Handle(ns: string)

  /** Result codes of nvs_open, of the init it may trigger, and of the retried open. */
  datatype OpenEnv = OpenEnv(first: EspErr, reinit: InitEnv, retry: EspErr)

  /** The NVStorage constructor: an open that finds NVS uninitialised runs `Init`
      and opens once more; any other failure ends the process. */
  function Open(flash: Flash, ns: string, env: OpenEnv): (r: Run<Handle>)
    ensures env.first == EspOk ==> r == Normal(flash, Handle(ns))
    ensures env.first == NotInitialized ==>
              var i := Init(flash, env.reinit);
              r == (if i.ok && env.retry == EspOk then Normal(i.flash, Handle(ns)) else Terminated(i.flash))
    ensures env.first !in {EspOk, NotInitialized} ==> r == Terminated(flash)
    ensures r.Normal? ==> r.value.ns == ns
  {
    if env.first == NotInitialized then
      var i := Init(flash, env.reinit);
      if !i.ok then Terminated(i.flash)
      else if env.retry != EspOk then Terminated(i.flash)
      else Normal(i.flash, Handle(ns))
    else if env.first != EspOk then Terminated(flash)
    else Normal(flash, Handle(ns))
  }

  /* ---------- reads ---------- */

  /** NVStorage::get_str: the stored string, or "" when the key holds none. */
  function GetStr(flash: Flash, h: Handle, key: string): (r: string)
    ensures key in Entries(flash, h.ns) && Entries(flash, h.ns)[key].StrValue? ==>
              r == Entries(flash, h.ns)[key].s
    ensures !(key in Entries(flash, h.ns) && Entries(flash, h.ns)[key].StrValue?) ==> r == ""
  {
    var entries := Entries(flash, h.ns);
    if key in entries && entries[key].StrValue? then entries[key].s else ""
  }

  /** NVStorage::get_uint8: the stored byte, or 0 when the key holds none. */
  function GetU8(flash: Flash, h: Handle, key: string): (r: uint8)
    ensures key in Entries(flash, h.ns) && Entries(flash, h.ns)[key].U8Value? ==>
              r == Entries(flash, h.ns)[key].b
    ensures !(key in Entries(flash, h.ns) && Entries(flash, h.ns)[key].U8Value?) ==> r == 0
  {
    var entries := Entries(flash, h.ns);
    if key in entries && entries[key].U8Value? then entries[key].b else 0
  }

  /* ---------- writes ---------- */

  /** Result codes of one nvs_set_* call and the nvs_commit that follows it. */
  datatype WriteEnv = WriteEnv(setCode: EspErr, commitCode: EspErr)

  /** One key written in the handle's namespace, when the set call succeeds. */
  function Put(flash: Flash, h: Handle, key: string, v: Value, env: WriteEnv): (r: (Flash, bool))
    ensures r.1 <==> env.setCode == EspOk && env.commitCode == EspOk
    ensures env.setCode == EspOk ==> key in Entries(r.0, h.ns) && Entries(r.0, h.ns)[key] == v
    ensures forall k :: k != key ==> (k in Entries(r.0, h.ns) <==> k in Entries(flash, h.ns))
    ensures forall k :: k != key && k in Entries(flash, h.ns) ==> Entries(r.0, h.ns)[k] == Entries(flash, h.ns)[k]
    ensures forall ns :: ns != h.ns ==> Entries(r.0, ns) == Entries(flash, ns)
    ensures env.setCode != EspOk ==> r.0 == flash
  {
    if env.setCode != EspOk then (flash, false)
    else (flash[h.ns := Entries(flash, h.ns)[key := v]], env.commitCode == EspOk)
  }

  /** NVStorage::set_str. The value arrives as a `const char*`, so it holds no NUL. */
  function SetStr(flash: Flash, h: Handle, key: string, value: string, env: WriteEnv): (r: (Flash, bool))
    requires NulFree(value)
    ensures r.1 <==> env.setCode == EspOk && env.commitCode == EspOk
    ensures env.setCode == EspOk ==> GetStr(r.0, h, key) == value
    ensures forall k :: k != key ==> GetStr(r.0, h, k) == GetStr(flash, h, k) && GetU8(r.0, h, k) == GetU8(flash, h, k)
    ensures forall ns :: ns != h.ns ==> Entries(r.0, ns) == Entries(flash, ns)
    ensures env.setCode != EspOk ==> r.0 == flash
  {
    Put(flash, h, key, StrValue(value), env)
  }

  /** NVStorage::set_uint8. */
  function SetU8(flash: Flash, h: Handle, key: string, value: uint8, env: WriteEnv): (r: (Flash, bool))
    ensures r.1 <==> env.setCode == EspOk && env.commitCode == EspOk
    ensures env.setCode == EspOk ==> GetU8(r.0, h, key) == value
    ensures forall k :: k != key ==> GetStr(r.0, h, k) == GetStr(flash, h, k) && GetU8(r.0, h, k) == GetU8(flash, h, k)
    ensures forall ns :: ns != h.ns ==> Entries(r.0, ns) == Entries(flash, ns)
    ensures env.setCode != EspOk ==> r.0 == flash
  {
    Put(flash, h, key, U8Value(value), env)
  }

  /** NVStorage::reset: nvs_erase_all on the handle's namespace. */
  function Reset(flash: Flash, h: Handle, code: EspErr): (r: (Flash, bool))
    ensures r.1 <==> code == EspOk
    ensures r.1 ==> Entries(r.0, h.ns) == map[]
    ensures forall ns :: ns != h.ns ==> Entries(r.0, ns) == Entries(flash, ns)
    ensures !r.1 ==> r.0 == flash
  {
    if code == EspOk then (flash[h.ns := map[]], true) else (flash, false)
  }

  /* ---------- properties relating several calls ---------- */

  /** After a successful reset every read of the namespace yields its default. */
  lemma ResetReadsDefaults(flash: Flash, h: Handle, key: string)
    ensures var f := Reset(flash, h, EspOk).0;
      GetStr(f, h, key) == "" && GetU8(f, h, key) == 0
  {
  }
}
