/**
 * The request defaults that PhpBrowser::_initialize (PhpBrowser.php lines
 * 71-80) hands to the Guzzle client:
 *
 *   - the config entries whose keys are on the allow-list $guzzleConfigFields
 *     (line 59), values unchanged;
 *   - under 'config' => 'curl', the configured curl array, where each
 *     configured key that names a defined PHP constant writes its value under
 *     the constant's value, the last write winning; configured keys keep
 *     their places and new keys follow (lines 74-78).
 *
 * PHP's constant table is a parameter: `constants` maps the name of every
 * defined constant to the array key that its value becomes.
 */
module GuzzleOptions {
  import opened Wrappers
  import opened PhpArrays

  /** $guzzleConfigFields (line 59), with its repeated "proxy" and its "". */
  const GuzzleConfigFields: seq<string> :=
    ["headers", "auth", "proxy", "verify", "cert", "query", "ssl_key", "proxy",
     "expect", "version", "cookies", "timeout", "connect_timeout", ""]

  /** The module's own $config (line 58) before the suite's settings are merged in. */
  const ModuleDefaults: seq<Entry> :=
    [Entry(StrKey("verify"), Bool(false)), Entry(StrKey("expect"), Bool(false)),
     Entry(StrKey("timeout"), Int(30)), Entry(StrKey("curl"), Arr([]))]

  /** array_intersect_key against array_flip($fields) keeps a key when its
      string form is one of the fields. */
  predicate Allowed(k: Key, fields: seq<string>) {
    KeyString(k) in fields
  }

  /** No integer key is allowed: each field is empty or starts with a letter. */
  lemma IntKeysNotAllowed(k: Key)
    requires k.IntKey?
    ensures !Allowed(k, GuzzleConfigFields)
  {
    var s := KeyString(k);
    assert s[0] == '-' || '0' <= s[0] <= '9';
    forall f | f in GuzzleConfigFields ensures s != f {
      assert f == "" || 'a' <= f[0] <= 'z';
    }
  }

  /** array_intersect_key($a, array_flip($fields)), line 73: the allowed
      entries, in their order. */
  function FilterAllowed(a: seq<Entry>, fields: seq<string>): (r: seq<Entry>)
    ensures forall e :: e in r ==> e in a && Allowed(e.key, fields)
    ensures forall e :: e in a && Allowed(e.key, fields) ==> e in r
  {
    if a == [] then []
    else (if Allowed(a[0].key, fields) then [a[0]] else []) + FilterAllowed(a[1..], fields)
  }

  /** Each top-level option reads as the config entry when its key is allowed,
      and is missing otherwise. */
  lemma {:induction false} FilterAllowedGet(a: seq<Entry>, fields: seq<string>, k: Key)
    ensures Get(FilterAllowed(a, fields), k) == if Allowed(k, fields) then Get(a, k) else None
  {
    if a != [] {
      FilterAllowedGet(a[1..], fields, k);
      var r := FilterAllowed(a, fields);
      if Allowed(a[0].key, fields) {
        assert r == [a[0]] + FilterAllowed(a[1..], fields);
        assert r[0] == a[0] && r[1..] == FilterAllowed(a[1..], fields);
      } else {
        assert r == FilterAllowed(a[1..], fields);
      }
    }
  }

  /** url, curl and config are not on the allow-list. */
  lemma NotAField(name: string)
    requires name == "url" || name == "curl" || name == "config"
    ensures !Allowed(StrKey(name), GuzzleConfigFields)
  {
    forall i | 0 <= i < |GuzzleConfigFields| ensures GuzzleConfigFields[i] != name {
      var f := GuzzleConfigFields[i];
      assert f == "" || f[0] != name[0] || |f| != |name| || f[1] != name[1];
    }
  }

  /** In particular, url and curl never reach the top level. */
  lemma UrlAndCurlFiltered(a: seq<Entry>)
    ensures Get(FilterAllowed(a, GuzzleConfigFields), StrKey("url")) == None
    ensures Get(FilterAllowed(a, GuzzleConfigFields), StrKey("curl")) == None
    ensures Get(FilterAllowed(a, GuzzleConfigFields), StrKey("config")) == None
  {
    NotAField("url");
    NotAField("curl");
    NotAField("config");
    FilterAllowedGet(a, GuzzleConfigFields, StrKey("url"));
    FilterAllowedGet(a, GuzzleConfigFields, StrKey("curl"));
    FilterAllowedGet(a, GuzzleConfigFields, StrKey("config"));
  }

  /* ---------------------------------------------------------------------- */
  /* The curl array                                                          */
  /* ---------------------------------------------------------------------- */

  /** constant($key) when defined($key): the key the constant's value makes. */
  function ConstantKey(k: Key, constants: map<string, Key>): Option<Key> {
    if KeyString(k) in constants then Some(constants[KeyString(k)]) else None
  }

  /** The curl array after the first n turns of the loop of lines 76-78. */
  function Rekeyed(curl: seq<Entry>, constants: map<string, Key>, n: nat): seq<Entry>
    requires n <= |curl|
  {
    if n == 0 then curl
    else
      var r := Rekeyed(curl, constants, n - 1);
      var e := curl[n - 1];
      match ConstantKey(e.key, constants)
      case None => r
      case Some(k) => Put(r, k, e.val)
  }

  /** The value of the last of the entries whose key names a constant with
      value k, if any. */
  function LastWrite(curl: seq<Entry>, constants: map<string, Key>, k: Key): Option<Value> {
    if curl == [] then None
    else if ConstantKey(curl[|curl| - 1].key, constants) == Some(k) then Some(curl[|curl| - 1].val)
    else LastWrite(curl[..|curl| - 1], constants, k)
  }

  /** Every key reads as the last value written under it through a constant,
      or as the configured value when no constant names it. */
  lemma {:induction false} RekeyedGet(curl: seq<Entry>, constants: map<string, Key>, n: nat, k: Key)
    requires n <= |curl|
    ensures Get(Rekeyed(curl, constants, n), k) ==
      match LastWrite(curl[..n], constants, k)
      case Some(v) => Some(v)
      case None => Get(curl, k)
  {
    if n == 0 {
      assert curl[..0] == [];
    } else {
      var e := curl[n - 1];
      assert curl[..n][..n - 1] == curl[..n - 1] && curl[..n][n - 1] == e;
      assert LastWrite(curl[..n], constants, k) ==
        if ConstantKey(e.key, constants) == Some(k) then Some(e.val) else LastWrite(curl[..n - 1], constants, k);
      RekeyedGet(curl, constants, n - 1, k);
      if ConstantKey(e.key, constants).Some? {
        PutGet(Rekeyed(curl, constants, n - 1), ConstantKey(e.key, constants).value, e.val, k);
      }
    }
  }

  /** When no key names a defined constant, the curl array is the configured one. */
  lemma {:induction false} RekeyedNoConstants(curl: seq<Entry>, constants: map<string, Key>, n: nat)
    requires n <= |curl|
    requires forall i :: 0 <= i < |curl| ==> KeyString(curl[i].key) !in constants
    ensures Rekeyed(curl, constants, n) == curl
  {
    if n > 0 {
      RekeyedNoConstants(curl, constants, n - 1);
    }
  }

  /** The curl array keeps unique keys. */
  lemma {:induction false} RekeyedUnique(curl: seq<Entry>, constants: map<string, Key>, n: nat)
    requires n <= |curl| && UniqueKeys(curl)
    ensures UniqueKeys(Rekeyed(curl, constants, n))
  {
    if n > 0 {
      RekeyedUnique(curl, constants, n - 1);
      var e := curl[n - 1];
      if ConstantKey(e.key, constants).Some? {
        PutUnique(Rekeyed(curl, constants, n - 1), ConstantKey(e.key, constants).value, e.val);
      }
    }
  }

  /** The configured keys keep their places; keys written through constants
      that were not there follow them. */
  lemma {:induction false} RekeyedKeys(curl: seq<Entry>, constants: map<string, Key>, n: nat)
    requires n <= |curl|
    ensures |curl| <= |Rekeyed(curl, constants, n)| && Keys(Rekeyed(curl, constants, n))[..|curl|] == Keys(curl)
  {
    if n > 0 {
      RekeyedKeys(curl, constants, n - 1);
      var r := Rekeyed(curl, constants, n - 1);
      var e := curl[n - 1];
      if ConstantKey(e.key, constants).Some? {
        var k := ConstantKey(e.key, constants).value;
        if k !in Keys(r) {
          assert (Keys(r) + [k])[..|curl|] == Keys(r)[..|curl|];
        }
      }
    }
  }

  /** The loop of lines 76-78: the configured curl array with the writes
      that defined names make. */
  method BuildCurlOptions(curl: seq<Entry>, constants: map<string, Key>) returns (opts: seq<Entry>)
    ensures opts == Rekeyed(curl, constants, |curl|)
  {
    opts := curl;
    for i := 0 to |curl|
      invariant opts == Rekeyed(curl, constants, i)
    {
      var key := curl[i].key;
      if KeyString(key) in constants {
        opts := Put(opts, constants[KeyString(key)], curl[i].val);
      }
    }
  }

  /* ---------------------------------------------------------------------- */
  /* The defaults                                                            */
  /* ---------------------------------------------------------------------- */

  /** $this->config['curl'] (null when missing). */
  function CurlSection(config: seq<Entry>): Value {
    match Get(config, StrKey("curl"))
    case Some(v) => v
    case None => Null
  }

  /** $defaults['config']['curl'] after the loop: foreach only visits an
      array; any other value is copied as it is. */
  function CurlOptions(config: seq<Entry>, constants: map<string, Key>): Value {
    match CurlSection(config)
    case Arr(c) => Arr(Rekeyed(c, constants, |c|))
    case v => v
  }

  /** $defaults with 'config' => ['curl' => curl]. */
  function WithCurl(top: seq<Entry>, curl: Value): seq<Entry> {
    Put(top, StrKey("config"), Arr([Entry(StrKey("curl"), curl)]))
  }

  /** The array handed to the Guzzle client as 'defaults' (line 79). */
  function GuzzleDefaults(config: seq<Entry>, constants: map<string, Key>): seq<Entry> {
    WithCurl(FilterAllowed(config, GuzzleConfigFields), CurlOptions(config, constants))
  }

  /** Writing a key twice leaves the second value. */
  lemma {:induction false} PutPut(a: seq<Entry>, k: Key, v: Value, w: Value)
    ensures Put(Put(a, k, v), k, w) == Put(a, k, w)
  {
    if a != [] && a[0].key != k {
      PutPut(a[1..], k, v, w);
      assert Put(a, k, v)[1..] == Put(a[1..], k, v);
    }
  }

  /** Lines 73-78, building $defaults: the filter, the copy of the curl array
      under 'config', then the loop that rewrites $defaults['config']['curl']. */
  method BuildDefaults(config: seq<Entry>, constants: map<string, Key>) returns (defaults: seq<Entry>)
    ensures defaults == GuzzleDefaults(config, constants)
  {
    var top := FilterAllowed(config, GuzzleConfigFields);
    var curl := CurlSection(config);
    defaults := WithCurl(top, curl);
    if curl.Arr? {
      var opts := BuildCurlOptions(curl.entries, constants);
      PutPut(top, StrKey("config"), Arr([Entry(StrKey("curl"), curl)]), Arr([Entry(StrKey("curl"), Arr(opts))]));
      defaults := WithCurl(defaults, Arr(opts));
    }
  }

  /** The top level of the defaults: 'config' holds the curl array; every
      other key reads as the config entry when allowed, and is missing
      otherwise. */
  lemma GuzzleDefaultsGet(config: seq<Entry>, constants: map<string, Key>, k: Key)
    ensures Get(GuzzleDefaults(config, constants), k) ==
      if k == StrKey("config") then Some(Arr([Entry(StrKey("curl"), CurlOptions(config, constants))]))
      else if Allowed(k, GuzzleConfigFields) then Get(config, k)
      else None
  {
    var top := FilterAllowed(config, GuzzleConfigFields);
    PutGet(top, StrKey("config"), Arr([Entry(StrKey("curl"), CurlOptions(config, constants))]), k);
    FilterAllowedGet(config, GuzzleConfigFields, k);
  }

  /** Neither url nor curl is a top-level option. */
  lemma GuzzleDefaultsNoUrlOrCurl(config: seq<Entry>, constants: map<string, Key>)
    ensures Get(GuzzleDefaults(config, constants), StrKey("url")) == None
    ensures Get(GuzzleDefaults(config, constants), StrKey("curl")) == None
  {
    var top := FilterAllowed(config, GuzzleConfigFields);
    var section := Arr([Entry(StrKey("curl"), CurlOptions(config, constants))]);
    UrlAndCurlFiltered(config);
    PutGet(top, StrKey("config"), section, StrKey("url"));
    PutGet(top, StrKey("config"), section, StrKey("curl"));
  }

  /** The allowed keys in their config order, then 'config'. */
  lemma GuzzleDefaultsKeys(config: seq<Entry>, constants: map<string, Key>)
    ensures Keys(GuzzleDefaults(config, constants)) == Keys(FilterAllowed(config, GuzzleConfigFields)) + [StrKey("config")]
  {
    var top := FilterAllowed(config, GuzzleConfigFields);
    UrlAndCurlFiltered(config);
    GetKeys(top, StrKey("config"));
  }

  /** verify, expect and timeout are on the allow-list. */
  lemma DefaultNamesAllowed()
    ensures Allowed(StrKey("verify"), GuzzleConfigFields)
    ensures Allowed(StrKey("expect"), GuzzleConfigFields)
    ensures Allowed(StrKey("timeout"), GuzzleConfigFields)
  {
    assert GuzzleConfigFields[3] == "verify" && GuzzleConfigFields[8] == "expect" && GuzzleConfigFields[11] == "timeout";
  }

  /** The module's own defaults with a url added. */
  lemma ModuleDefaultsWithUrl(config: seq<Entry>, url: string)
    requires config == Put(ModuleDefaults, StrKey("url"), Str(url))
    ensures Get(config, StrKey("verify")) == Some(Bool(false))
    ensures Get(config, StrKey("expect")) == Some(Bool(false))
    ensures Get(config, StrKey("timeout")) == Some(Int(30))
    ensures CurlSection(config) == Arr([])
  {
    PutGet(ModuleDefaults, StrKey("url"), Str(url), StrKey("verify"));
    PutGet(ModuleDefaults, StrKey("url"), Str(url), StrKey("expect"));
    PutGet(ModuleDefaults, StrKey("url"), Str(url), StrKey("timeout"));
    PutGet(ModuleDefaults, StrKey("url"), Str(url), StrKey("curl"));
  }

  /** With the module's own defaults and a url: verify and expect are false,
      the timeout is 30, the url is not passed on, and the curl array is
      empty. */
  lemma ModuleDefaultsReachGuzzle(config: seq<Entry>, url: string, constants: map<string, Key>)
    requires config == Put(ModuleDefaults, StrKey("url"), Str(url))
    ensures Get(GuzzleDefaults(config, constants), StrKey("verify")) == Some(Bool(false))
    ensures Get(GuzzleDefaults(config, constants), StrKey("expect")) == Some(Bool(false))
    ensures Get(GuzzleDefaults(config, constants), StrKey("timeout")) == Some(Int(30))
    ensures Get(GuzzleDefaults(config, constants), StrKey("url")) == None
    ensures Get(GuzzleDefaults(config, constants), StrKey("config")) == Some(Arr([Entry(StrKey("curl"), Arr([]))]))
  {
    DefaultNamesAllowed();
    ModuleDefaultsWithUrl(config, url);
    GuzzleDefaultsGet(config, constants, StrKey("verify"));
    GuzzleDefaultsGet(config, constants, StrKey("expect"));
    GuzzleDefaultsGet(config, constants, StrKey("timeout"));
    GuzzleDefaultsNoUrlOrCurl(config, constants);
    GuzzleDefaultsGet(config, constants, StrKey("config"));
  }
}
