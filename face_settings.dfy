/** The settings menu of the API watch face (apps/salaatime/settings.js):
    loading fills in the defaults for keys that are undefined, and each menu
    entry's change handler assigns its own field. */
module FaceSettings {
  import opened JsValues

  /** `Object.keys(DEFAULTS)`, in declaration order. */
  const DEFAULT_KEYS: seq<string> := ["showHijri", "showSeconds"]

  const DEFAULTS: map<string, JsValue> := map["showHijri" := Bool(true), "showSeconds" := Bool(false)]

  /** `settings[key] === undefined` */
  predicate IsUndefined(settings: map<string, JsValue>, key: string) {
    key !in settings || settings[key] == Undefined
  }

  /** One turn of the forEach: a default is assigned only when the key is
      undefined. */
  function Fill(settings: map<string, JsValue>, key: string): map<string, JsValue>
    requires key in DEFAULTS
  {
    if IsUndefined(settings, key) then settings[key := DEFAULTS[key]] else settings
  }

  /** The settings once the first n default keys have been visited. */
  function FillUpTo(stored: map<string, JsValue>, n: nat): map<string, JsValue>
    requires n <= |DEFAULT_KEYS|
  {
    if n == 0 then stored else Fill(FillUpTo(stored, n - 1), DEFAULT_KEYS[n - 1])
  }

  /** The settings loadSettings returns for the stored record. */
  function WithDefaults(stored: map<string, JsValue>): (settings: map<string, JsValue>)
    ensures settings.Keys == stored.Keys + DEFAULTS.Keys
    ensures forall k :: k in DEFAULTS ==> !IsUndefined(settings, k)
    ensures forall k :: k in DEFAULTS && !IsUndefined(stored, k) ==> settings[k] == stored[k]
    ensures forall k :: k in DEFAULTS && IsUndefined(stored, k) ==> settings[k] == DEFAULTS[k]
    ensures forall k :: k in stored && k !in DEFAULTS ==> settings[k] == stored[k]
  {
    assert FillUpTo(stored, 1) == Fill(stored, DEFAULT_KEYS[0]);
    FillUpTo(stored, |DEFAULT_KEYS|)
  }

  /** An explicit `false` is kept, since the test is `=== undefined`. */
  lemma StoredFalseKept(stored: map<string, JsValue>, key: string)
    requires key in DEFAULTS && key in stored && stored[key] == Bool(false)
    ensures WithDefaults(stored)[key] == Bool(false)
  {
  }

  /** With nothing stored, the settings are exactly the defaults. */
  lemma NothingStoredGivesDefaults()
    ensures WithDefaults(map[]) == DEFAULTS
  {
    assert WithDefaults(map[]).Keys == DEFAULTS.Keys;
  }

  /** loadSettings(): `readJSON(...) || {}`, then the forEach over the
      default keys; None is a missing or unreadable file. */
  method LoadSettings(stored: Option<map<string, JsValue>>) returns (settings: map<string, JsValue>)
    ensures settings == WithDefaults(if stored.Some? then stored.value else map[])
  {
    var initial := if stored.Some? then stored.value else map[];
    settings := initial;
    for i := 0 to |DEFAULT_KEYS|
      invariant settings == FillUpTo(initial, i)
    {
      var key := DEFAULT_KEYS[i];
      if key !in settings || settings[key] == Undefined {
        settings := settings[key := DEFAULTS[key]];
      }
    }
  }

  /** The menu's shared settings object. */
  class SettingsMenu {
    var settings: map<string, JsValue>

    /** `let settings = loadSettings();` */
    constructor(stored: Option<map<string, JsValue>>)
      ensures settings == WithDefaults(if stored.Some? then stored.value else map[])
    {
      var loaded := LoadSettings(stored);
      settings := loaded;
    }

    /** The "Show Hijri" entry's onchange: assigns showHijri only. */
    method OnChangeShowHijri(v: bool)
      modifies this
      ensures settings == old(settings)["showHijri" := Bool(v)]
    {
      settings := settings["showHijri" := Bool(v)];
    }

    /** The "Show Seconds" entry's onchange: assigns showSeconds only. */
    method OnChangeShowSeconds(v: bool)
      modifies this
      ensures settings == old(settings)["showSeconds" := Bool(v)]
    {
      settings := settings["showSeconds" := Bool(v)];
    }
  }
}
