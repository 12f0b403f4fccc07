/** The Nebula configuration document: its structural validator, the
    section editors and the default configuration (`core/config_parser.py`). */
module NebulaConfig {
  import opened Wrappers

  /** A parsed YAML value. Mapping keys are taken to be strings. */
  datatype Yaml =
    | YMap(entries: map<string, Yaml>)
    | YList(items: seq<Yaml>)
    | YStr(text: string)
    | YInt(number: int)
    | YBool(flag: bool)
    | YNull

  /** The top-level fields every configuration must have. */
  const RequiredFields: seq<string> := ["pki", "static_host_map", "lighthouse", "listen", "punchy", "tun"]

  /** A section whose keys the validator inspects, with the title its
      error messages use. */
  datatype Section = Section(name: string, title: string, keys: seq<string>)

  const Pki := Section("pki", "PKI", ["ca", "cert", "key"])
  const Lighthouse := Section("lighthouse", "Lighthouse", ["am_lighthouse"])
  const Listen := Section("listen", "Listen", ["host", "port"])

  /** The sections inspected, in the order they are inspected. */
  const Sections: seq<Section> := [Pki, Lighthouse, Listen]

  /** One validation error; `Message` renders it as the validator does. */
  datatype ConfigError =
    | NotADictionary
    | MissingField(field: string)
    | SectionNotDict(section: Section)
    | SectionMissing(section: Section, key: string)

  function Message(e: ConfigError): string {
    match e
    case NotADictionary => "Configuration must be a dictionary"
    case MissingField(f) => "Missing required field: " + f
    case SectionNotDict(s) => s.title + " section must be a dictionary"
    case SectionMissing(s, k) => s.title + " section missing '" + k + "' field"
  }

  predicate Distinct<T(==)>(s: seq<T>) {
    forall i, j :: 0 <= i < j < |s| ==> s[i] != s[j]
  }

  lemma DistinctConcat<T>(a: seq<T>, b: seq<T>)
    requires Distinct(a) && Distinct(b)
    requires forall x :: x in a ==> x !in b
    ensures Distinct(a + b)
  {
    forall i, j | 0 <= i < j < |a + b|
      ensures (a + b)[i] != (a + b)[j]
    {
      if i < |a| && j >= |a| {
        assert (a + b)[i] in a && (a + b)[j] == b[j - |a|];
      }
    }
  }

  // =====================================================================
  // Reference definition

  /** A value is a mapping holding all of the given keys. */
  predicate HasKeys(v: Yaml, keys: seq<string>) {
    v.YMap? && forall k :: k in keys ==> k in v.entries
  }

  /** What a valid configuration is: a mapping with every required field,
      each inspected section that is present being a mapping with its keys. */
  predicate WellFormed(c: Yaml) {
    && c.YMap?
    && (forall f :: f in RequiredFields ==> f in c.entries)
    && (forall s :: s in Sections && s.name in c.entries ==> HasKeys(c.entries[s.name], s.keys))
  }

  // =====================================================================
  // validate

  /** One `MissingField` error per absent field, in field order. */
  function MissingFields(fields: seq<string>, m: map<string, Yaml>): (errors: seq<ConfigError>)
    ensures forall e :: e in errors ==> e.MissingField?
    ensures forall f :: MissingField(f) in errors <==> f in fields && f !in m
    ensures Distinct(fields) ==> Distinct(errors)
    ensures (forall f :: f in fields ==> f in m) ==> errors == []
  {
    if |fields| == 0 then []
    else
      var rest := MissingFields(fields[1..], m);
      assert forall f :: f in fields <==> f == fields[0] || f in fields[1..];
      if fields[0] in m then rest
      else
        assert Distinct(fields) ==> fields[0] !in fields[1..];
        [MissingField(fields[0])] + rest
  }

  /** One `SectionMissing` error per absent key of a section, in key order. */
  function MissingKeys(s: Section, keys: seq<string>, m: map<string, Yaml>): (errors: seq<ConfigError>)
    ensures forall e :: e in errors ==> e.SectionMissing? && e.section == s
    ensures forall k :: SectionMissing(s, k) in errors <==> k in keys && k !in m
    ensures Distinct(keys) ==> Distinct(errors)
    ensures (forall k :: k in keys ==> k in m) ==> errors == []
  {
    if |keys| == 0 then []
    else
      var rest := MissingKeys(s, keys[1..], m);
      assert forall k :: k in keys <==> k == keys[0] || k in keys[1..];
      if keys[0] in m then rest
      else
        assert Distinct(keys) ==> keys[0] !in keys[1..];
        [SectionMissing(s, keys[0])] + rest
  }

  /** The errors about one section: none when it is absent, one when it is
      not a mapping, else one per missing key. */
  function SectionErrors(s: Section, c: map<string, Yaml>): (errors: seq<ConfigError>)
    requires Distinct(s.keys)
    ensures Distinct(errors)
    ensures forall e :: e in errors ==> (e.SectionNotDict? || e.SectionMissing?) && e.section == s
    ensures SectionNotDict(s) in errors <==> s.name in c && !c[s.name].YMap?
    ensures forall k :: SectionMissing(s, k) in errors <==>
              s.name in c && c[s.name].YMap? && k in s.keys && k !in c[s.name].entries
    ensures (s.name in c ==> HasKeys(c[s.name], s.keys)) ==> errors == []
  {
    if s.name !in c then []
    else
      match c[s.name]
      case YMap(m) => MissingKeys(s, s.keys, m)
      case _ => [SectionNotDict(s)]
  }

  /** The errors about a configuration that is a mapping, in the order the
      checks run: missing fields first, then the PKI, lighthouse and listen
      sections. */
  function MappingErrors(m: map<string, Yaml>): seq<ConfigError> {
    MissingFields(RequiredFields, m)
      + SectionErrors(Pki, m) + SectionErrors(Lighthouse, m) + SectionErrors(Listen, m)
  }

  lemma NamesDistinct()
    ensures Distinct(RequiredFields)
    ensures Distinct(Pki.keys) && Distinct(Lighthouse.keys) && Distinct(Listen.keys)
  {
  }

  lemma MappingErrorsDistinct(m: map<string, Yaml>)
    ensures Distinct(MappingErrors(m))
  {
    NamesDistinct();
    var fields := MissingFields(RequiredFields, m);
    var pki := SectionErrors(Pki, m);
    var lighthouse := SectionErrors(Lighthouse, m);
    var listen := SectionErrors(Listen, m);
    DistinctConcat(fields, pki);
    DistinctConcat(fields + pki, lighthouse);
    DistinctConcat(fields + pki + lighthouse, listen);
  }

  lemma MappingErrorsFields(m: map<string, Yaml>)
    ensures NotADictionary !in MappingErrors(m)
    ensures forall f :: MissingField(f) in MappingErrors(m) <==> f in RequiredFields && f !in m
  {
    NamesDistinct();
    var fields := MissingFields(RequiredFields, m);
    var pki := SectionErrors(Pki, m);
    var lighthouse := SectionErrors(Lighthouse, m);
    var listen := SectionErrors(Listen, m);
    forall f
      ensures MissingField(f) in MappingErrors(m) <==> MissingField(f) in fields
    {
      assert MissingField(f) !in pki && MissingField(f) !in lighthouse && MissingField(f) !in listen;
    }
  }

  lemma MappingErrorsSections(m: map<string, Yaml>)
    ensures forall s :: SectionNotDict(s) in MappingErrors(m) <==>
              s in Sections && s.name in m && !m[s.name].YMap?
  {
    NamesDistinct();
  }

  lemma MappingErrorsKeys(m: map<string, Yaml>)
    ensures forall s, k :: SectionMissing(s, k) in MappingErrors(m) <==>
              && s in Sections && s.name in m && m[s.name].YMap?
              && k in s.keys && k !in m[s.name].entries
  {
    NamesDistinct();
  }

  /** `NebulaConfigParser.validate`: the error list, which the call resets
      first; the configuration is valid when it is empty. */
  function Validate(c: Yaml): (errors: seq<ConfigError>)
    ensures !c.YMap? ==> errors == [NotADictionary]
    ensures c.YMap? ==> NotADictionary !in errors
    ensures Distinct(errors)
    ensures forall f :: MissingField(f) in errors <==>
              c.YMap? && f in RequiredFields && f !in c.entries
    ensures forall s :: SectionNotDict(s) in errors <==>
              c.YMap? && s in Sections && s.name in c.entries && !c.entries[s.name].YMap?
    ensures forall s, k :: SectionMissing(s, k) in errors <==>
              && c.YMap? && s in Sections && s.name in c.entries && c.entries[s.name].YMap?
              && k in s.keys && k !in c.entries[s.name].entries
  {
    match c
    case YMap(m) =>
      MappingErrorsDistinct(m);
      MappingErrorsFields(m);
      MappingErrorsSections(m);
      MappingErrorsKeys(m);
      MappingErrors(m)
    case _ => [NotADictionary]
  }

  /** The validator accepts exactly the well-formed configurations. */
  lemma ValidateAcceptsWellFormed(c: Yaml)
    ensures Validate(c) == [] <==> WellFormed(c)
  {
    var errors := Validate(c);
    if errors == [] && c.YMap? {
      forall s | s in Sections && s.name in c.entries
        ensures HasKeys(c.entries[s.name], s.keys)
      {
        assert SectionNotDict(s) !in errors;
        forall k | k in s.keys
          ensures k in c.entries[s.name].entries
        {
          assert SectionMissing(s, k) !in errors;
        }
      }
    }
    if WellFormed(c) {
      assert Pki in Sections && Lighthouse in Sections && Listen in Sections;
    }
  }

  // =====================================================================
  // Editors

  /** Write `updates` into the mapping under `name`, creating it when the
      field is absent. `None` is the `TypeError` Python raises when the
      configuration or the section is not a mapping. */
  function SetKeys(c: Yaml, name: string, updates: map<string, Yaml>): (r: Option<Yaml>)
    ensures r.Some? <==> c.YMap? && (name in c.entries ==> c.entries[name].YMap?)
    ensures r.Some? ==>
              && r.value.YMap?
              && r.value.entries.Keys == c.entries.Keys + {name}
              && (forall f :: f in c.entries && f != name ==> r.value.entries[f] == c.entries[f])
              && r.value.entries[name].YMap?
              && (forall k :: k in updates ==> k in r.value.entries[name].entries
                                               && r.value.entries[name].entries[k] == updates[k])
              && (forall k :: k !in updates && name in c.entries ==>
                                (k in r.value.entries[name].entries <==> k in c.entries[name].entries))
              && (forall k :: k !in updates && name in c.entries && k in c.entries[name].entries ==>
                                r.value.entries[name].entries[k] == c.entries[name].entries[k])
              && (name !in c.entries ==> r.value.entries[name].entries.Keys == updates.Keys)
  {
    match c
    case YMap(m) =>
      var section := if name in m then m[name] else YMap(map[]);
      if section.YMap? then Some(YMap(m[name := YMap(section.entries + updates)])) else None
    case _ => None
  }

  function Strings(xs: seq<string>): (r: Yaml)
    ensures r.YList? && |r.items| == |xs|
    ensures forall i :: 0 <= i < |xs| ==> r.items[i] == YStr(xs[i])
  {
    YList(seq(|xs|, i requires 0 <= i < |xs| => YStr(xs[i])))
  }

  /** `set_pki_paths`. */
  function SetPkiPaths(c: Yaml, ca: string, cert: string, key: string): Option<Yaml> {
    SetKeys(c, "pki", map["ca" := YStr(ca), "cert" := YStr(cert), "key" := YStr(key)])
  }

  const DefaultListenHost := "0.0.0.0"
  const DefaultListenPort := 4242

  /** `set_listen_port`; its defaults are `DefaultListenHost` and
      `DefaultListenPort`. */
  function SetListenPort(c: Yaml, host: string, port: int): Option<Yaml> {
    SetKeys(c, "listen", map["host" := YStr(host), "port" := YInt(port)])
  }

  /** `set_lighthouse`: the host list is written only when one is given. */
  function SetLighthouse(c: Yaml, amLighthouse: bool, hosts: Option<seq<string>>): Option<Yaml> {
    var updates := map["am_lighthouse" := YBool(amLighthouse)];
    SetKeys(c, "lighthouse", if hosts.Some? then updates["hosts" := Strings(hosts.value)] else updates)
  }

  /** `add_static_host`. */
  function AddStaticHost(c: Yaml, nebulaIp: string, publicAddresses: seq<string>): Option<Yaml> {
    SetKeys(c, "static_host_map", map[nebulaIp := Strings(publicAddresses)])
  }

  /** Writing keys into a section of a valid configuration keeps it valid. */
  lemma SetKeysKeepsWellFormed(c: Yaml, name: string, updates: map<string, Yaml>)
    requires WellFormed(c)
    requires name in RequiredFields
    ensures SetKeys(c, name, updates).Some? <==> c.entries[name].YMap?
    ensures SetKeys(c, name, updates).Some? ==> WellFormed(SetKeys(c, name, updates).value)
  {
    var r := SetKeys(c, name, updates);
    if r.Some? {
      var e := r.value.entries;
      forall s | s in Sections && s.name in e
        ensures HasKeys(e[s.name], s.keys)
      {
      }
    }
  }

  /** `set_pki_paths` on a configuration writes exactly the three paths and
      leaves every other field alone; afterwards the section is complete. */
  lemma SetPkiPathsEffect(c: Yaml, ca: string, cert: string, key: string)
    requires c.YMap? && ("pki" in c.entries ==> c.entries["pki"].YMap?)
    ensures var r := SetPkiPaths(c, ca, cert, key);
            && r.Some?
            && (forall f :: f in c.entries && f != "pki" ==> r.value.entries[f] == c.entries[f])
            && var pki := r.value.entries["pki"];
               && HasKeys(pki, Pki.keys)
               && pki.entries["ca"] == YStr(ca)
               && pki.entries["cert"] == YStr(cert)
               && pki.entries["key"] == YStr(key)
               && SectionErrors(Pki, r.value.entries) == []
  {
    var r := SetPkiPaths(c, ca, cert, key);
    var pki := r.value.entries["pki"];
    assert "ca" in pki.entries && "cert" in pki.entries && "key" in pki.entries;
  }

  /** `set_listen_port` writes the host and the port, completing the
      `listen` section, and leaves every other field alone. */
  lemma SetListenPortEffect(c: Yaml, host: string, port: int)
    requires c.YMap? && ("listen" in c.entries ==> c.entries["listen"].YMap?)
    ensures var r := SetListenPort(c, host, port);
            && r.Some?
            && (forall f :: f in c.entries && f != "listen" ==> r.value.entries[f] == c.entries[f])
            && var listen := r.value.entries["listen"];
               && HasKeys(listen, Listen.keys)
               && listen.entries["host"] == YStr(host)
               && listen.entries["port"] == YInt(port)
               && SectionErrors(Listen, r.value.entries) == []
  {
    var r := SetListenPort(c, host, port);
    var listen := r.value.entries["listen"];
    assert "host" in listen.entries && "port" in listen.entries;
  }

  /** With a host list, `set_lighthouse` writes it in order. */
  lemma SetLighthouseWritesHosts(c: Yaml, amLighthouse: bool, hosts: seq<string>)
    requires c.YMap? && ("lighthouse" in c.entries ==> c.entries["lighthouse"].YMap?)
    ensures var r := SetLighthouse(c, amLighthouse, Some(hosts));
            var after := r.value.entries["lighthouse"].entries;
            && r.Some?
            && after["am_lighthouse"] == YBool(amLighthouse)
            && after["hosts"] == Strings(hosts)
            && SectionErrors(Lighthouse, r.value.entries) == []
  {
    var r := SetLighthouse(c, amLighthouse, Some(hosts));
    assert "am_lighthouse" in r.value.entries["lighthouse"].entries;
  }

  /** Without a host list, `set_lighthouse` leaves `lighthouse.hosts` as it
      was. */
  lemma SetLighthouseKeepsHosts(c: Yaml, amLighthouse: bool)
    requires c.YMap? && "lighthouse" in c.entries && c.entries["lighthouse"].YMap?
    ensures var r := SetLighthouse(c, amLighthouse, None);
            var before := c.entries["lighthouse"].entries;
            var after := r.value.entries["lighthouse"].entries;
            && r.Some?
            && after["am_lighthouse"] == YBool(amLighthouse)
            && ("hosts" in after <==> "hosts" in before)
            && ("hosts" in before ==> after["hosts"] == before["hosts"])
  {
  }

  /** `add_static_host` changes only the entry of the given address. */
  lemma AddStaticHostOnlyThatEntry(c: Yaml, nebulaIp: string, publicAddresses: seq<string>)
    requires c.YMap? && "static_host_map" in c.entries && c.entries["static_host_map"].YMap?
    ensures var r := AddStaticHost(c, nebulaIp, publicAddresses);
            var before := c.entries["static_host_map"].entries;
            var after := r.value.entries["static_host_map"].entries;
            && r.Some?
            && after.Keys == before.Keys + {nebulaIp}
            && after[nebulaIp] == Strings(publicAddresses)
            && (forall ip :: ip in before && ip != nebulaIp ==> after[ip] == before[ip])
            && (forall f :: f in c.entries && f != "static_host_map" ==> r.value.entries[f] == c.entries[f])
  {
  }

  // =====================================================================
  // create_default_config

  /** `create_default_config`: the configuration a new installation starts
      from; it passes the validator. */
  function DefaultConfig(): (c: Yaml)
    ensures WellFormed(c)
  {
    var anyRule := YMap(map["port" := YStr("any"), "proto" := YStr("any"), "host" := YStr("any")]);
    YMap(map[
      "pki" := YMap(map[
        "ca" := YStr("/etc/nebula/ca.crt"),
        "cert" := YStr("/etc/nebula/host.crt"),
        "key" := YStr("/etc/nebula/host.key")]),
      "static_host_map" := YMap(map[]),
      "lighthouse" := YMap(map[
        "am_lighthouse" := YBool(false),
        "interval" := YInt(60),
        "hosts" := YList([])]),
      "listen" := YMap(map[
        "host" := YStr(DefaultListenHost),
        "port" := YInt(DefaultListenPort)]),
      "punchy" := YMap(map[
        "punch" := YBool(true),
        "respond" := YBool(true)]),
      "tun" := YMap(map[
        "disabled" := YBool(false),
        "dev" := YStr("nebula1"),
        "drop_local_broadcast" := YBool(false),
        "drop_multicast" := YBool(false),
        "tx_queue" := YInt(500),
        "mtu" := YInt(1300)]),
      "logging" := YMap(map[
        "level" := YStr("info"),
        "format" := YStr("text")]),
      "firewall" := YMap(map[
        "conntrack" := YMap(map[
          "tcp_timeout" := YStr("12m"),
          "udp_timeout" := YStr("3m"),
          "default_timeout" := YStr("10m")]),
        "outbound" := YList([anyRule]),
        "inbound" := YList([anyRule])])])
  }

  /** The default configuration validates with no errors. */
  lemma DefaultConfigValidates()
    ensures Validate(DefaultConfig()) == []
  {
    ValidateAcceptsWellFormed(DefaultConfig());
  }
}
