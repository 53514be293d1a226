/**
 * The settings page's configuration record and its edits. Every edit builds a new record
 * by spreading the old one: a top-level control replaces one field, and
 * `handleNetworkChange` replaces one field of one entry of the network table.
 *
 * The network table is a JavaScript object; its entries are kept here as a sequence in
 * the object's property order, the order in which `Object.entries` lists and the page
 * renders them.
 */
module Configuration {
  import opened Wrappers

  /** One network's settings. A field is `None` when the entry has no such property: an
      entry created by `handleNetworkChange` for a name that was not in the table spreads
      `undefined` and so holds only the field just written. */
  datatype NetworkSettings = NetworkSettings(enabled: Option<bool>, priority: Option<int>)

  datatype NetworkEntry = NetworkEntry(name: string, settings: NetworkSettings)

  /** The network table, in property order. */
  type NetworkTable = seq<NetworkEntry>

  datatype ConfigSettings = ConfigSettings(
    fallbackNetwork: string,
    apiKey: string,
    webhookUrl: string,
    enableAi: bool,
    enableAutoRoute: bool,
    maxGasPrice: real,
    notificationEmail: string,
    networks: NetworkTable)

  // ---------------------------------------------------------------------------
  // The network table as a keyed map

  /** The keys of the table, in property order (`Object.keys`). */
  function Names(t: NetworkTable): (r: seq<string>)
    ensures |r| == |t|
    ensures forall i :: 0 <= i < |t| ==> r[i] == t[i].name
  {
    if t == [] then [] else [t[0].name] + Names(t[1..])
  }

  /** An object has each key once. */
  predicate UniqueNames(t: NetworkTable) {
    forall i, j :: 0 <= i < j < |t| ==> t[i].name != t[j].name
  }

  /** `networks[name]`: the settings under `name`, `None` for `undefined`. */
  function Lookup(t: NetworkTable, name: string): (r: Option<NetworkSettings>)
  {
    if t == [] then None
    else if t[0].name == name then Some(t[0].settings)
    else Lookup(t[1..], name)
  }

  /** A key has a value exactly when it is one of the table's keys. */
  lemma {:induction false} LookupDefinedIffKey(t: NetworkTable, name: string)
    ensures Lookup(t, name).Some? <==> name in Names(t)
  {
    if t != [] {
      assert Names(t) == [t[0].name] + Names(t[1..]);
      LookupDefinedIffKey(t[1..], name);
    }
  }

  /** `networks[name]` is the settings of an entry under `name`; in a table with each key
      once, every entry under `name` is the one it finds. */
  lemma {:induction false} LookupFindsEntry(t: NetworkTable, name: string, s: NetworkSettings)
    ensures Lookup(t, name) == Some(s) ==> NetworkEntry(name, s) in t
    ensures UniqueNames(t) && NetworkEntry(name, s) in t ==> Lookup(t, name) == Some(s)
  {
    if t != [] {
      LookupFindsEntry(t[1..], name, s);
      if Lookup(t, name) == Some(s) && t[0].name != name {
        assert NetworkEntry(name, s) in t[1..];
      }
      if UniqueNames(t) && NetworkEntry(name, s) in t {
        var k :| 0 <= k < |t| && t[k] == NetworkEntry(name, s);
        if t[0].name == name {
          assert k == 0;
        } else {
          assert t[1..][k - 1] == t[k];
          assert UniqueNames(t[1..]) by {
            forall i, j | 0 <= i < j < |t| - 1 ensures t[1..][i].name != t[1..][j].name {
              assert t[1..][i] == t[i + 1] && t[1..][j] == t[j + 1];
            }
          }
        }
      }
    }
  }

  /** `{...networks, [name]: settings}`: an existing key keeps its place, a new key is
      added last. */
  function Put(t: NetworkTable, name: string, settings: NetworkSettings): (r: NetworkTable)
    ensures Names(r) == if name in Names(t) then Names(t) else Names(t) + [name]
  {
    if t == [] then [NetworkEntry(name, settings)]
    else if t[0].name == name then
      var r := [NetworkEntry(name, settings)] + t[1..];
      assert r[1..] == t[1..];
      assert Names(r) == Names(t);
      r
    else
      var rest := Put(t[1..], name, settings);
      var r := [t[0]] + rest;
      assert r[0] == t[0] && r[1..] == rest;
      assert Names(r) == [t[0].name] + Names(rest);
      assert Names(t) == [t[0].name] + Names(t[1..]);
      r
  }

  /** ... and the key then holds the new value. */
  lemma {:induction false} PutLookup(t: NetworkTable, name: string, settings: NetworkSettings)
    ensures Lookup(Put(t, name, settings), name) == Some(settings)
  {
    if t != [] && t[0].name != name {
      PutLookup(t[1..], name, settings);
      var r := Put(t, name, settings);
      assert r[0] == t[0] && r[1..] == Put(t[1..], name, settings);
    }
  }

  /** Putting under one key leaves the value under every other key as it was. */
  lemma {:induction false} PutLeavesOthers(t: NetworkTable, name: string, settings: NetworkSettings, n: string)
    requires n != name
    ensures Lookup(Put(t, name, settings), n) == Lookup(t, n)
  {
    if t != [] && t[0].name != name {
      PutLeavesOthers(t[1..], name, settings, n);
      var r := Put(t, name, settings);
      assert r[0] == t[0] && r[1..] == Put(t[1..], name, settings);
    } else if t != [] {
      assert Put(t, name, settings)[1..] == t[1..];
    }
  }

  /** Putting keeps the table's keys unique. */
  lemma PutKeepsNamesUnique(t: NetworkTable, name: string, settings: NetworkSettings)
    requires UniqueNames(t)
    ensures UniqueNames(Put(t, name, settings))
  {
    var r := Put(t, name, settings);
    var names := Names(r);
    forall i, j | 0 <= i < j < |r| ensures r[i].name != r[j].name {
      assert names[i] == r[i].name && names[j] == r[j].name;
      if name in Names(t) {
        assert Names(t)[i] == t[i].name && Names(t)[j] == t[j].name;
      } else if j < |t| {
        assert Names(t)[i] == t[i].name && Names(t)[j] == t[j].name;
      } else {
        assert names[i] == Names(t)[i] && names[j] == name;
      }
    }
  }

  /** Putting what is already there changes nothing. */
  lemma {:induction false} PutPresent(t: NetworkTable, name: string, settings: NetworkSettings)
    requires Lookup(t, name) == Some(settings)
    ensures Put(t, name, settings) == t
  {
    if t != [] && t[0].name != name {
      PutPresent(t[1..], name, settings);
    }
  }

  /** The second put under a key overrides the first. */
  lemma {:induction false} PutPut(t: NetworkTable, name: string, s1: NetworkSettings, s2: NetworkSettings)
    ensures Put(Put(t, name, s1), name, s2) == Put(t, name, s2)
  {
    if t != [] && t[0].name != name {
      PutPut(t[1..], name, s1, s2);
    }
  }

  /** Puts under different keys commute when at most one of the keys is new. */
  lemma {:induction false} PutsCommute(t: NetworkTable, n1: string, s1: NetworkSettings, n2: string, s2: NetworkSettings)
    requires n1 != n2
    requires n1 in Names(t) || n2 in Names(t)
    ensures Put(Put(t, n1, s1), n2, s2) == Put(Put(t, n2, s2), n1, s1)
  {
    if t != [] && t[0].name != n1 && t[0].name != n2 {
      PutsCommute(t[1..], n1, s1, n2, s2);
    }
  }

  // ---------------------------------------------------------------------------
  // handleNetworkChange

  datatype SettingField = Enabled | Priority

  /** The argument pairs the page passes: the switch passes `'enabled'` with the switch's
      state, the select passes `'priority'` with `Number` of the chosen option. */
  datatype NetworkChange = SetEnabled(enabled: bool) | SetPriority(priority: int)

  function ChangedField(change: NetworkChange): SettingField {
    match change
    case SetEnabled(_) => Enabled
    case SetPriority(_) => Priority
  }

  /** `{...networks[name], [field]: value}`; spreading `undefined` contributes nothing. */
  function ChangeSettings(current: Option<NetworkSettings>, change: NetworkChange): (r: NetworkSettings)
    ensures change.SetEnabled? ==> r.enabled == Some(change.enabled)
    ensures change.SetPriority? ==> r.priority == Some(change.priority)
    ensures change.SetEnabled? ==> r.priority == (if current.Some? then current.value.priority else None)
    ensures change.SetPriority? ==> r.enabled == (if current.Some? then current.value.enabled else None)
  {
    var base := current.GetOr(NetworkSettings(None, None));
    match change
    case SetEnabled(b) => base.(enabled := Some(b))
    case SetPriority(p) => base.(priority := Some(p))
  }

  /** `handleNetworkChange(network, field, value)`. */
  function HandleNetworkChange(c: ConfigSettings, network: string, change: NetworkChange): (r: ConfigSettings)
    ensures r.(networks := c.networks) == c
    ensures Lookup(r.networks, network) == Some(ChangeSettings(Lookup(c.networks, network), change))
    ensures forall n :: n != network ==> Lookup(r.networks, n) == Lookup(c.networks, n)
    ensures Names(r.networks) == if network in Names(c.networks) then Names(c.networks)
                                 else Names(c.networks) + [network]
  {
    var settings := ChangeSettings(Lookup(c.networks, network), change);
    PutLookup(c.networks, network, settings);
    forall n | n != network ensures Lookup(Put(c.networks, network, settings), n) == Lookup(c.networks, n) {
      PutLeavesOthers(c.networks, network, settings, n);
    }
    c.(networks := Put(c.networks, network, ChangeSettings(Lookup(c.networks, network), change)))
  }

  // ---------------------------------------------------------------------------
  // Every edit of the settings page

  /** One user edit: a top-level control, or a network switch or priority select. */
  datatype ConfigEdit =
    | SetFallbackNetwork(network: string)
    | SetMaxGasPrice(price: real)
    | SetNotificationEmail(email: string)
    | SetEnableAi(on: bool)
    | SetEnableAutoRoute(on: bool)
    | SetApiKey(key: string)
    | SetWebhookUrl(url: string)
    | NetworkEdit(name: string, change: NetworkChange)

  /** The configuration after one edit: a top-level control sets its own field and
      leaves the network table alone; a network edit changes only the network table. */
  function Apply(c: ConfigSettings, e: ConfigEdit): (r: ConfigSettings)
    ensures !e.NetworkEdit? ==> r.networks == c.networks
    ensures e.NetworkEdit? ==> r == c.(networks := r.networks)
  {
    match e
    case SetFallbackNetwork(n) => c.(fallbackNetwork := n)
    case SetMaxGasPrice(p) => c.(maxGasPrice := p)
    case SetNotificationEmail(m) => c.(notificationEmail := m)
    case SetEnableAi(b) => c.(enableAi := b)
    case SetEnableAutoRoute(b) => c.(enableAutoRoute := b)
    case SetApiKey(k) => c.(apiKey := k)
    case SetWebhookUrl(u) => c.(webhookUrl := u)
    case NetworkEdit(n, ch) => HandleNetworkChange(c, n, ch)
  }

  /** A place in the configuration an edit can write. */
  datatype Target =
    | FallbackNetwork | MaxGasPrice | NotificationEmail | EnableAi | EnableAutoRoute
    | ApiKey | WebhookUrl
    | NetworkSetting(network: string, field: SettingField)

  /** What is stored at a place; `Absent` for a property an entry does not have. */
  datatype Value = Text(text: string) | Flag(flag: bool) | Number(number: real) | Absent

  function Read(c: ConfigSettings, t: Target): Value {
    match t
    case FallbackNetwork => Text(c.fallbackNetwork)
    case MaxGasPrice => Number(c.maxGasPrice)
    case NotificationEmail => Text(c.notificationEmail)
    case EnableAi => Flag(c.enableAi)
    case EnableAutoRoute => Flag(c.enableAutoRoute)
    case ApiKey => Text(c.apiKey)
    case WebhookUrl => Text(c.webhookUrl)
    case NetworkSetting(n, f) =>
      match Lookup(c.networks, n)
      case None => Absent
      case Some(s) =>
        if f == Enabled then (if s.enabled.Some? then Flag(s.enabled.value) else Absent)
        else (if s.priority.Some? then Number(s.priority.value as real) else Absent)
  }

  /** The place an edit writes. */
  function TargetOf(e: ConfigEdit): Target {
    match e
    case SetFallbackNetwork(_) => FallbackNetwork
    case SetMaxGasPrice(_) => MaxGasPrice
    case SetNotificationEmail(_) => NotificationEmail
    case SetEnableAi(_) => EnableAi
    case SetEnableAutoRoute(_) => EnableAutoRoute
    case SetApiKey(_) => ApiKey
    case SetWebhookUrl(_) => WebhookUrl
    case NetworkEdit(n, ch) => NetworkSetting(n, ChangedField(ch))
  }

  /** The value an edit writes. */
  function Written(e: ConfigEdit): Value {
    match e
    case SetFallbackNetwork(n) => Text(n)
    case SetMaxGasPrice(p) => Number(p)
    case SetNotificationEmail(m) => Text(m)
    case SetEnableAi(b) => Flag(b)
    case SetEnableAutoRoute(b) => Flag(b)
    case SetApiKey(k) => Text(k)
    case SetWebhookUrl(u) => Text(u)
    case NetworkEdit(_, ch) =>
      match ch
      case SetEnabled(b) => Flag(b)
      case SetPriority(p) => Number(p as real)
  }

  /** After an edit its place holds the value written ... */
  lemma EditWritesItsTarget(c: ConfigSettings, e: ConfigEdit)
    ensures Read(Apply(c, e), TargetOf(e)) == Written(e)
  {
    if e.NetworkEdit? {
      var r := Apply(c, e);
      assert Lookup(r.networks, e.name) == Some(ChangeSettings(Lookup(c.networks, e.name), e.change));
    }
  }

  /** ... every other place keeps its value, including the other field of an edited
      network entry ... */
  lemma EditLeavesOtherTargets(c: ConfigSettings, e: ConfigEdit, t: Target)
    requires t != TargetOf(e)
    ensures Read(Apply(c, e), t) == Read(c, t)
  {
    if e.NetworkEdit? {
      NetworkEditLeavesOtherTargets(c, e.name, e.change, t);
    } else {
      TopLevelEditLeavesOtherTargets(c, e, t);
    }
  }

  lemma NetworkEditLeavesOtherTargets(c: ConfigSettings, network: string, change: NetworkChange, t: Target)
    requires t != NetworkSetting(network, ChangedField(change))
    ensures Read(HandleNetworkChange(c, network, change), t) == Read(c, t)
  {
    var r := HandleNetworkChange(c, network, change);
    if t.NetworkSetting? {
      if t.network == network {
        assert Lookup(r.networks, network) == Some(ChangeSettings(Lookup(c.networks, network), change));
      } else {
        assert Lookup(r.networks, t.network) == Lookup(c.networks, t.network);
      }
    } else {
      assert r.(networks := c.networks) == c;
    }
  }

  lemma TopLevelEditLeavesOtherTargets(c: ConfigSettings, e: ConfigEdit, t: Target)
    requires !e.NetworkEdit? && t != TargetOf(e)
    ensures Read(Apply(c, e), t) == Read(c, t)
  {
    assert Apply(c, e).networks == c.networks;
  }

  /** ... a top-level control leaves the network table as it is, and a network edit adds
      its network to the keys, keeping the position of a key that was there. */
  lemma EditKeys(c: ConfigSettings, e: ConfigEdit)
    ensures !e.NetworkEdit? ==> Apply(c, e).networks == c.networks
    ensures e.NetworkEdit? ==>
              Names(Apply(c, e).networks) == if e.name in Names(c.networks) then Names(c.networks)
                                             else Names(c.networks) + [e.name]
    ensures forall n :: n in Names(Apply(c, e).networks) <==> n in Names(c.networks) || (e.NetworkEdit? && n == e.name)
  {
  }

  /** Every edit keeps the network table a proper object: each key once. */
  lemma EditKeepsNamesUnique(c: ConfigSettings, e: ConfigEdit)
    requires UniqueNames(c.networks)
    ensures UniqueNames(Apply(c, e).networks)
  {
    if e.NetworkEdit? {
      PutKeepsNamesUnique(c.networks, e.name, ChangeSettings(Lookup(c.networks, e.name), e.change));
    }
  }

  /** Applying an edit twice is applying it once. */
  lemma EditIdempotent(c: ConfigSettings, e: ConfigEdit)
    ensures Apply(Apply(c, e), e) == Apply(c, e)
  {
    if e.NetworkEdit? {
      var c1 := Apply(c, e);
      var s1 := ChangeSettings(Lookup(c.networks, e.name), e.change);
      assert Lookup(c1.networks, e.name) == Some(s1);
      assert ChangeSettings(Some(s1), e.change) == s1;
      PutPresent(c1.networks, e.name, s1);
    }
  }

  /** Of two edits of the same place the later one wins. */
  lemma LaterEditWins(c: ConfigSettings, e1: ConfigEdit, e2: ConfigEdit)
    requires TargetOf(e1) == TargetOf(e2)
    ensures Apply(Apply(c, e1), e2) == Apply(c, e2)
  {
    if e2.NetworkEdit? {
      var n := e2.name;
      var before := Lookup(c.networks, n);
      var s1 := ChangeSettings(before, e1.change);
      assert Lookup(Apply(c, e1).networks, n) == Some(s1);
      assert ChangeSettings(Some(s1), e2.change) == ChangeSettings(before, e2.change);
      PutPut(c.networks, n, s1, ChangeSettings(before, e2.change));
    }
  }

  /** Two edits that add two different networks, both new to the table. */
  predicate AddTwoNewNetworks(c: ConfigSettings, e1: ConfigEdit, e2: ConfigEdit) {
    && e1.NetworkEdit? && e2.NetworkEdit? && e1.name != e2.name
    && e1.name !in Names(c.networks) && e2.name !in Names(c.networks)
  }

  /** Changes of the two fields of one entry commute. */
  lemma FieldChangesCommute(c: ConfigSettings, n: string, ch1: NetworkChange, ch2: NetworkChange)
    requires ChangedField(ch1) != ChangedField(ch2)
    ensures HandleNetworkChange(HandleNetworkChange(c, n, ch1), n, ch2)
         == HandleNetworkChange(HandleNetworkChange(c, n, ch2), n, ch1)
  {
    var before := Lookup(c.networks, n);
    var s1, s2 := ChangeSettings(before, ch1), ChangeSettings(before, ch2);
    var s12 := ChangeSettings(Some(s1), ch2);
    var s21 := ChangeSettings(Some(s2), ch1);
    assert s12 == s21;
    assert Lookup(HandleNetworkChange(c, n, ch1).networks, n) == Some(s1);
    assert Lookup(HandleNetworkChange(c, n, ch2).networks, n) == Some(s2);
    PutPut(c.networks, n, s1, s12);
    PutPut(c.networks, n, s2, s21);
  }

  /** Changes of entries of two different networks commute when at most one of them is new. */
  lemma NetworkChangesCommute(c: ConfigSettings, n1: string, ch1: NetworkChange, n2: string, ch2: NetworkChange)
    requires n1 != n2
    requires n1 in Names(c.networks) || n2 in Names(c.networks)
    ensures HandleNetworkChange(HandleNetworkChange(c, n1, ch1), n2, ch2)
         == HandleNetworkChange(HandleNetworkChange(c, n2, ch2), n1, ch1)
  {
    var s1 := ChangeSettings(Lookup(c.networks, n1), ch1);
    var s2 := ChangeSettings(Lookup(c.networks, n2), ch2);
    assert Lookup(HandleNetworkChange(c, n1, ch1).networks, n2) == Lookup(c.networks, n2);
    assert Lookup(HandleNetworkChange(c, n2, ch2).networks, n1) == Lookup(c.networks, n1);
    PutsCommute(c.networks, n1, s1, n2, s2);
  }

  /** Changes of entries of two different networks leave each network's entry the same
      in either order. */
  lemma NetworkChangesLookupAlike(c: ConfigSettings, n1: string, ch1: NetworkChange,
                                  n2: string, ch2: NetworkChange, n: string)
    requires n1 != n2
    ensures Lookup(HandleNetworkChange(HandleNetworkChange(c, n1, ch1), n2, ch2).networks, n)
         == Lookup(HandleNetworkChange(HandleNetworkChange(c, n2, ch2), n1, ch1).networks, n)
  {
    var c1 := HandleNetworkChange(c, n1, ch1);
    var c2 := HandleNetworkChange(c, n2, ch2);
    assert Lookup(c1.networks, n2) == Lookup(c.networks, n2);
    assert Lookup(c2.networks, n1) == Lookup(c.networks, n1);
  }

  /** Two configurations that differ at most in the network table, and agree on the entry
      a place names, read the same at that place. */
  lemma SameEntryReadsAlike(a: ConfigSettings, b: ConfigSettings, t: Target)
    requires a.(networks := b.networks) == b
    requires t.NetworkSetting? ==> Lookup(a.networks, t.network) == Lookup(b.networks, t.network)
    ensures Read(a, t) == Read(b, t)
  {
  }

  /** Changes of entries of two different networks leave every place reading the same in
      either order. */
  lemma NetworkChangesCommuteByKey(c: ConfigSettings, n1: string, ch1: NetworkChange, n2: string, ch2: NetworkChange)
    requires n1 != n2
    ensures forall t :: Read(HandleNetworkChange(HandleNetworkChange(c, n1, ch1), n2, ch2), t)
                     == Read(HandleNetworkChange(HandleNetworkChange(c, n2, ch2), n1, ch1), t)
  {
    var a := HandleNetworkChange(HandleNetworkChange(c, n1, ch1), n2, ch2);
    var b := HandleNetworkChange(HandleNetworkChange(c, n2, ch2), n1, ch1);
    forall t ensures Read(a, t) == Read(b, t) {
      if t.NetworkSetting? {
        NetworkChangesLookupAlike(c, n1, ch1, n2, ch2, t.network);
      }
      SameEntryReadsAlike(a, b, t);
    }
  }

  /** A top-level control's edit commutes with any edit of another place. */
  lemma TopLevelEditCommutes(c: ConfigSettings, e1: ConfigEdit, e2: ConfigEdit)
    requires !e1.NetworkEdit? && TargetOf(e1) != TargetOf(e2)
    ensures Apply(Apply(c, e1), e2) == Apply(Apply(c, e2), e1)
  {
    if e2.NetworkEdit? {
      assert Apply(c, e1).networks == c.networks;
    }
  }

  /** Changes of two different places of the network table commute: exactly, unless both
      add a new network, and then every place still reads the same. */
  lemma NetworkEditsCommute(c: ConfigSettings, n1: string, ch1: NetworkChange, n2: string, ch2: NetworkChange)
    requires n1 != n2 || ChangedField(ch1) != ChangedField(ch2)
    ensures (n1 == n2 || n1 in Names(c.networks) || n2 in Names(c.networks)) ==>
              HandleNetworkChange(HandleNetworkChange(c, n1, ch1), n2, ch2)
              == HandleNetworkChange(HandleNetworkChange(c, n2, ch2), n1, ch1)
    ensures forall t :: Read(HandleNetworkChange(HandleNetworkChange(c, n1, ch1), n2, ch2), t)
                     == Read(HandleNetworkChange(HandleNetworkChange(c, n2, ch2), n1, ch1), t)
  {
    if n1 == n2 {
      FieldChangesCommute(c, n1, ch1, ch2);
    } else {
      if n1 in Names(c.networks) || n2 in Names(c.networks) {
        NetworkChangesCommute(c, n1, ch1, n2, ch2);
      }
      NetworkChangesCommuteByKey(c, n1, ch1, n2, ch2);
    }
  }

  /** Edits of different places commute: exactly, unless both add a new network, and then
      every place still reads the same (only the order of the two new keys differs). */
  lemma EditsCommute(c: ConfigSettings, e1: ConfigEdit, e2: ConfigEdit)
    requires TargetOf(e1) != TargetOf(e2)
    ensures !AddTwoNewNetworks(c, e1, e2) ==> Apply(Apply(c, e1), e2) == Apply(Apply(c, e2), e1)
    ensures forall t :: Read(Apply(Apply(c, e1), e2), t) == Read(Apply(Apply(c, e2), e1), t)
  {
    if !e1.NetworkEdit? {
      TopLevelEditCommutes(c, e1, e2);
    } else if !e2.NetworkEdit? {
      TopLevelEditCommutes(c, e2, e1);
    } else {
      NetworkEditsCommute(c, e1.name, e1.change, e2.name, e2.change);
    }
  }

  /** Adding two new networks in the two orders lists them in different orders. */
  lemma NewNetworksKeepEditOrder(c: ConfigSettings, e1: ConfigEdit, e2: ConfigEdit)
    requires AddTwoNewNetworks(c, e1, e2)
    ensures Names(Apply(Apply(c, e1), e2).networks) == Names(c.networks) + [e1.name, e2.name]
    ensures Names(Apply(Apply(c, e1), e2).networks) != Names(Apply(Apply(c, e2), e1).networks)
  {
    var k := Names(c.networks);
    assert Names(Apply(c, e1).networks) == k + [e1.name];
    assert e2.name !in k + [e1.name];
    assert (k + [e1.name]) + [e2.name] == k + [e1.name, e2.name];
    assert Names(Apply(c, e2).networks) == k + [e2.name];
    assert e1.name !in k + [e2.name];
    var a := k + [e1.name, e2.name];
    var b := (k + [e2.name]) + [e1.name];
    assert a[|k|] != b[|k|];
  }

  // ---------------------------------------------------------------------------
  // The initial configuration

  const InitialConfig: ConfigSettings := ConfigSettings(
    "ethereum",
    "pk_test_51HZS",
    "https://example.com/webhooks/crypto",
    true,
    true,
    100.0,
    "",
    [ NetworkEntry("ethereum", NetworkSettings(Some(true), Some(1))),
      NetworkEntry("polygon", NetworkSettings(Some(true), Some(2))),
      NetworkEntry("optimism", NetworkSettings(Some(true), Some(3))),
      NetworkEntry("arbitrum", NetworkSettings(Some(true), Some(4))) ])

  /** Every entry has a priority and no two entries share one. */
  predicate PrioritiesDistinct(t: NetworkTable) {
    && (forall i :: 0 <= i < |t| ==> t[i].settings.priority.Some?)
    && forall i, j :: 0 <= i < j < |t| ==> t[i].settings.priority != t[j].settings.priority
  }

  /** The initial table's keys, in order, and the fallback among them. */
  lemma InitialNames()
    ensures UniqueNames(InitialConfig.networks)
    ensures Names(InitialConfig.networks) == ["ethereum", "polygon", "optimism", "arbitrum"]
    ensures InitialConfig.fallbackNetwork in Names(InitialConfig.networks)
  {
    var t := InitialConfig.networks;
    assert Names(t) == [t[0].name, t[1].name, t[2].name, t[3].name];
  }

  /** The initial table's settings: every entry enabled, ranked by its position. */
  lemma InitialSettings()
    ensures forall i :: 0 <= i < |InitialConfig.networks| ==> InitialConfig.networks[i].settings.enabled == Some(true)
    ensures forall i :: 0 <= i < |InitialConfig.networks| ==>
              InitialConfig.networks[i].settings.priority == Some(i + 1)
  {
  }

  /** The page opens with four networks, all enabled, ranked 1 to 4, and a fallback that is
      one of them. */
  lemma InitialConfigShape()
    ensures UniqueNames(InitialConfig.networks)
    ensures Names(InitialConfig.networks) == ["ethereum", "polygon", "optimism", "arbitrum"]
    ensures forall i :: 0 <= i < |InitialConfig.networks| ==> InitialConfig.networks[i].settings.enabled == Some(true)
    ensures PrioritiesDistinct(InitialConfig.networks)
    ensures forall i :: 0 <= i < |InitialConfig.networks| ==>
              InitialConfig.networks[i].settings.priority == Some(i + 1)
    ensures InitialConfig.fallbackNetwork in Names(InitialConfig.networks)
  {
    InitialNames();
    InitialSettings();
  }

  /** Writing the second entry of a table whose first entry has another key. */
  lemma PutSecond(t: NetworkTable, name: string, settings: NetworkSettings)
    requires |t| >= 2 && t[0].name != name && t[1].name == name
    ensures Lookup(t, name) == Some(t[1].settings)
    ensures Put(t, name, settings)[0] == t[0]
    ensures Put(t, name, settings)[1] == NetworkEntry(name, settings)
  {
    assert t[1..][0] == t[1];
  }

  /** Nothing re-checks the ranking: choosing priority 1 for polygon leaves two networks
      ranked first. */
  lemma PriorityEditCanDuplicate()
    ensures !PrioritiesDistinct(Apply(InitialConfig, NetworkEdit("polygon", SetPriority(1))).networks)
  {
    var t0 := InitialConfig.networks;
    assert t0[0].name[0] != "polygon"[0];
    PutSecond(t0, "polygon", NetworkSettings(Some(true), Some(1)));
    var t := Apply(InitialConfig, NetworkEdit("polygon", SetPriority(1))).networks;
    assert t == Put(t0, "polygon", NetworkSettings(Some(true), Some(1)));
    assert t[0].settings.priority == t[1].settings.priority;
  }
}
