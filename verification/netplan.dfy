/**
 The records of a netplan configuration document (src/netplan.rs) and the
 rules by which they are written to and read from the key/value tree of a
 YAML document.

 YAML text itself is not modelled: a document is a `Value` tree of nulls,
 booleans, integers, strings and string-keyed mappings. Writing follows the
 derived serialiser: every field is emitted under its own name, except that
 `accessPoints` is emitted under the key "access-points" and is left out
 when it is `None`; the other optional fields are emitted as null when
 `None`. Reading follows the derived deserialiser: keys the record does not
 know are ignored, an optional field that is missing or null reads as
 `None`, and a required field that is missing or of the wrong kind rejects
 the whole document.
 */
module Netplan {
  import opened Common

  /** Rust's `u16`, the type of the `version` field. */
  type u16 = x: int | 0 <= x < 0x1_0000

  /** The credentials of one wireless network. */
  datatype AccessPoint = AccessPoint(password: string)

  /** The settings of one interface, wired or wireless. */
  datatype Ethernet = Ethernet(
    dhcp4: Option<bool>,
    optional: Option<bool>,
    accessPoints: Option<map<string, AccessPoint>>)

  /** The `network` section: wired interfaces are required (possibly none),
      wireless interfaces are optional. */
  datatype Network = Network(
    ethernets: map<string, Ethernet>,
    wifis: Option<map<string, Ethernet>>,
    version: u16)

  datatype NetplanFile = NetplanFile(network: Network)

  /** The key/value tree of a YAML document. */
  datatype Value =
    | Null
    | Bool(b: bool)
    | Int(i: int)
    | Str(s: string)
    | Seq(items: seq<Value>)
    | Mapping(entries: map<string, Value>)

  /** The result of reading a record out of a `Value`. */
  datatype Decoded<+T> = Decoded(value: T) | Rejected

  const PasswordKey := "password"
  const Dhcp4Key := "dhcp4"
  const OptionalKey := "optional"
  /** The external name of `accessPoints`, used in both directions. */
  const AccessPointsKey := "access-points"
  const EthernetsKey := "ethernets"
  const WifisKey := "wifis"
  const VersionKey := "version"
  const NetworkKey := "network"

  // ---------------------------------------------------------------------
  // Writing

  function OptionalBoolValue(o: Option<bool>): (v: Value)
    ensures v.Null? <==> o.None?
    ensures o.Some? ==> v == Bool(o.value)
  {
    match o
    case None => Null
    case Some(b) => Bool(b)
  }

  function AccessPointValue(ap: AccessPoint): (v: Value)
    ensures v.Mapping? && v.entries.Keys == {PasswordKey}
    ensures v.entries[PasswordKey] == Str(ap.password)
  {
    Mapping(map[PasswordKey := Str(ap.password)])
  }

  function AccessPointsValue(aps: map<string, AccessPoint>): (v: Value)
    ensures v.Mapping? && v.entries.Keys == aps.Keys
    ensures forall ssid | ssid in aps :: v.entries[ssid] == AccessPointValue(aps[ssid])
  {
    Mapping(map ssid | ssid in aps :: AccessPointValue(aps[ssid]))
  }

  function EthernetValue(e: Ethernet): (v: Value)
    ensures v.Mapping?
    ensures Dhcp4Key in v.entries && OptionalKey in v.entries
    ensures AccessPointsKey in v.entries <==> e.accessPoints.Some?
    ensures v.entries.Keys <= {Dhcp4Key, OptionalKey, AccessPointsKey}
    ensures v.entries[Dhcp4Key].Null? <==> e.dhcp4.None?
    ensures v.entries[OptionalKey].Null? <==> e.optional.None?
    ensures v.entries[Dhcp4Key] == OptionalBoolValue(e.dhcp4)
    ensures v.entries[OptionalKey] == OptionalBoolValue(e.optional)
    ensures e.accessPoints.Some? ==> v.entries[AccessPointsKey] == AccessPointsValue(e.accessPoints.value)
  {
    var fields := map[Dhcp4Key := OptionalBoolValue(e.dhcp4), OptionalKey := OptionalBoolValue(e.optional)];
    match e.accessPoints
    case None => Mapping(fields)
    case Some(aps) => Mapping(fields[AccessPointsKey := AccessPointsValue(aps)])
  }

  function InterfacesValue(interfaces: map<string, Ethernet>): (v: Value)
    ensures v.Mapping? && v.entries.Keys == interfaces.Keys
    ensures forall name | name in interfaces :: v.entries[name] == EthernetValue(interfaces[name])
  {
    Mapping(map name | name in interfaces :: EthernetValue(interfaces[name]))
  }

  function NetworkValue(n: Network): (v: Value)
    ensures v.Mapping? && v.entries.Keys == {EthernetsKey, WifisKey, VersionKey}
    ensures v.entries[WifisKey].Null? <==> n.wifis.None?
    ensures v.entries[VersionKey] == Int(n.version)
  {
    Mapping(map[
      EthernetsKey := InterfacesValue(n.ethernets),
      WifisKey := (match n.wifis case None => Null case Some(w) => InterfacesValue(w)),
      VersionKey := Int(n.version)])
  }

  function NetplanFileValue(f: NetplanFile): (v: Value)
    ensures v.Mapping? && v.entries.Keys == {NetworkKey}
  {
    Mapping(map[NetworkKey := NetworkValue(f.network)])
  }

  // ---------------------------------------------------------------------
  // Reading

  /** Reads an `Option<bool>` field: missing and null both give `None`. */
  function ParseOptionalBool(fields: map<string, Value>, key: string): (r: Decoded<Option<bool>>)
    ensures r.Decoded? <==> key !in fields || fields[key].Null? || fields[key].Bool?
    ensures r.Decoded? ==> (r.value.None? <==> key !in fields || fields[key].Null?)
    ensures r.Decoded? && r.value.Some? ==> fields[key] == Bool(r.value.value)
  {
    if key !in fields then Decoded(None)
    else match fields[key]
      case Null => Decoded(None)
      case Bool(b) => Decoded(Some(b))
      case _ => Rejected
  }

  function ParseAccessPoint(v: Value): (r: Decoded<AccessPoint>)
    ensures r.Decoded? <==> v.Mapping? && PasswordKey in v.entries && v.entries[PasswordKey].Str?
    ensures r.Decoded? ==> v.entries[PasswordKey] == Str(r.value.password)
  {
    if v.Mapping? && PasswordKey in v.entries && v.entries[PasswordKey].Str?
    then Decoded(AccessPoint(v.entries[PasswordKey].s))
    else Rejected
  }

  function ParseAccessPoints(v: Value): (r: Decoded<map<string, AccessPoint>>)
    ensures r.Decoded? <==> v.Mapping? && forall ssid | ssid in v.entries :: ParseAccessPoint(v.entries[ssid]).Decoded?
    ensures r.Decoded? ==> r.value.Keys == v.entries.Keys
    ensures r.Decoded? ==> forall ssid | ssid in v.entries :: ParseAccessPoint(v.entries[ssid]) == Decoded(r.value[ssid])
  {
    if v.Mapping? && forall ssid | ssid in v.entries :: ParseAccessPoint(v.entries[ssid]).Decoded?
    then Decoded(map ssid | ssid in v.entries :: ParseAccessPoint(v.entries[ssid]).value)
    else Rejected
  }

  function ParseEthernet(v: Value): (r: Decoded<Ethernet>)
    ensures r.Decoded? <==>
      && v.Mapping?
      && ParseOptionalBool(v.entries, Dhcp4Key).Decoded?
      && ParseOptionalBool(v.entries, OptionalKey).Decoded?
      && (AccessPointsKey !in v.entries || v.entries[AccessPointsKey].Null?
          || ParseAccessPoints(v.entries[AccessPointsKey]).Decoded?)
    ensures r.Decoded? ==> (r.value.dhcp4.None? <==> Dhcp4Key !in v.entries || v.entries[Dhcp4Key].Null?)
    ensures r.Decoded? ==> (r.value.optional.None? <==> OptionalKey !in v.entries || v.entries[OptionalKey].Null?)
    ensures r.Decoded? ==>
      (r.value.accessPoints.Some? <==> AccessPointsKey in v.entries && !v.entries[AccessPointsKey].Null?)
    ensures r.Decoded? ==> Decoded(r.value.dhcp4) == ParseOptionalBool(v.entries, Dhcp4Key)
    ensures r.Decoded? ==> Decoded(r.value.optional) == ParseOptionalBool(v.entries, OptionalKey)
    ensures r.Decoded? && r.value.accessPoints.Some? ==>
      ParseAccessPoints(v.entries[AccessPointsKey]) == Decoded(r.value.accessPoints.value)
  {
    match v
    case Mapping(fields) =>
      var dhcp4 := ParseOptionalBool(fields, Dhcp4Key);
      var optional := ParseOptionalBool(fields, OptionalKey);
      var aps: Decoded<Option<map<string, AccessPoint>>> :=
        if AccessPointsKey !in fields || fields[AccessPointsKey].Null? then Decoded(None)
        else match ParseAccessPoints(fields[AccessPointsKey])
          case Decoded(m) => Decoded(Some(m))
          case Rejected => Rejected;
      if dhcp4.Decoded? && optional.Decoded? && aps.Decoded?
      then Decoded(Ethernet(dhcp4.value, optional.value, aps.value))
      else Rejected
    case _ => Rejected
  }

  function ParseInterfaces(v: Value): (r: Decoded<map<string, Ethernet>>)
    ensures r.Decoded? <==> v.Mapping? && forall name | name in v.entries :: ParseEthernet(v.entries[name]).Decoded?
    ensures r.Decoded? ==> r.value.Keys == v.entries.Keys
    ensures r.Decoded? ==> forall name | name in v.entries :: ParseEthernet(v.entries[name]) == Decoded(r.value[name])
  {
    if v.Mapping? && forall name | name in v.entries :: ParseEthernet(v.entries[name]).Decoded?
    then Decoded(map name | name in v.entries :: ParseEthernet(v.entries[name]).value)
    else Rejected
  }

  function ParseNetwork(v: Value): (r: Decoded<Network>)
    ensures r.Decoded? <==>
      && v.Mapping?
      && EthernetsKey in v.entries && ParseInterfaces(v.entries[EthernetsKey]).Decoded?
      && (WifisKey !in v.entries || v.entries[WifisKey].Null? || ParseInterfaces(v.entries[WifisKey]).Decoded?)
      && VersionKey in v.entries && v.entries[VersionKey].Int? && 0 <= v.entries[VersionKey].i < 0x1_0000
    ensures r.Decoded? ==> ParseInterfaces(v.entries[EthernetsKey]) == Decoded(r.value.ethernets)
    ensures r.Decoded? ==> v.entries[VersionKey] == Int(r.value.version)
    ensures r.Decoded? ==> (r.value.wifis.None? <==> WifisKey !in v.entries || v.entries[WifisKey].Null?)
    ensures r.Decoded? && r.value.wifis.Some? ==> ParseInterfaces(v.entries[WifisKey]) == Decoded(r.value.wifis.value)
  {
    match v
    case Mapping(fields) =>
      var ethernets := if EthernetsKey in fields then ParseInterfaces(fields[EthernetsKey]) else Rejected;
      var wifis: Decoded<Option<map<string, Ethernet>>> :=
        if WifisKey !in fields || fields[WifisKey].Null? then Decoded(None)
        else match ParseInterfaces(fields[WifisKey])
          case Decoded(m) => Decoded(Some(m))
          case Rejected => Rejected;
      var version: Decoded<u16> :=
        if VersionKey in fields && fields[VersionKey].Int? && 0 <= fields[VersionKey].i < 0x1_0000
        then Decoded(fields[VersionKey].i)
        else Rejected;
      if ethernets.Decoded? && wifis.Decoded? && version.Decoded?
      then Decoded(Network(ethernets.value, wifis.value, version.value))
      else Rejected
    case _ => Rejected
  }

  function ParseNetplanFile(v: Value): (r: Decoded<NetplanFile>)
    ensures r.Decoded? <==> v.Mapping? && NetworkKey in v.entries && ParseNetwork(v.entries[NetworkKey]).Decoded?
    ensures r.Decoded? ==> ParseNetwork(v.entries[NetworkKey]) == Decoded(r.value.network)
  {
    if v.Mapping? && NetworkKey in v.entries && ParseNetwork(v.entries[NetworkKey]).Decoded?
    then Decoded(NetplanFile(ParseNetwork(v.entries[NetworkKey]).value))
    else Rejected
  }

  // ---------------------------------------------------------------------
  // Properties of the two directions

  lemma AccessPointsRoundTrip(aps: map<string, AccessPoint>)
    ensures ParseAccessPoints(AccessPointsValue(aps)) == Decoded(aps)
  {
    var v := AccessPointsValue(aps);
    forall ssid | ssid in v.entries
      ensures ParseAccessPoint(v.entries[ssid]) == Decoded(aps[ssid])
    {
      assert v.entries[ssid] == AccessPointValue(aps[ssid]);
    }
    assert (map ssid | ssid in v.entries :: ParseAccessPoint(v.entries[ssid]).value) == aps;
  }

  lemma EthernetRoundTrip(e: Ethernet)
    ensures ParseEthernet(EthernetValue(e)) == Decoded(e)
  {
    if e.accessPoints.Some? {
      AccessPointsRoundTrip(e.accessPoints.value);
    }
  }

  lemma InterfacesRoundTrip(interfaces: map<string, Ethernet>)
    ensures ParseInterfaces(InterfacesValue(interfaces)) == Decoded(interfaces)
  {
    var v := InterfacesValue(interfaces);
    forall name | name in v.entries
      ensures ParseEthernet(v.entries[name]) == Decoded(interfaces[name])
    {
      EthernetRoundTrip(interfaces[name]);
    }
    assert (map name | name in v.entries :: ParseEthernet(v.entries[name]).value) == interfaces;
  }

  /** Reading back a written document gives the same document: the names and
      renames agree in both directions. */
  lemma NetplanFileRoundTrip(f: NetplanFile)
    ensures ParseNetplanFile(NetplanFileValue(f)) == Decoded(f)
  {
    InterfacesRoundTrip(f.network.ethernets);
    if f.network.wifis.Some? {
      InterfacesRoundTrip(f.network.wifis.value);
    }
  }

  /** An interface record is read from the three keys it knows and nothing
      else, so entries under any other key (the field's Rust spelling
      "access_points" among them) make no difference. */
  lemma EthernetIgnoresUnknownKeys(a: map<string, Value>, b: map<string, Value>)
    requires forall k | k in {Dhcp4Key, OptionalKey, AccessPointsKey} :: (k in a <==> k in b) && (k in a ==> a[k] == b[k])
    ensures ParseEthernet(Mapping(a)) == ParseEthernet(Mapping(b))
  {
    assert Dhcp4Key in {Dhcp4Key, OptionalKey, AccessPointsKey};
    assert OptionalKey in {Dhcp4Key, OptionalKey, AccessPointsKey};
    assert AccessPointsKey in {Dhcp4Key, OptionalKey, AccessPointsKey};
  }

  /** Writing a document back keeps only the keys its records know: a
      network section has exactly `ethernets`, `wifis` and `version`, and
      every wired or wireless interface at most `dhcp4`, `optional` and
      `access-points`. */
  lemma WrittenKeys(f: NetplanFile)
    ensures NetplanFileValue(f).entries[NetworkKey].entries.Keys == {EthernetsKey, WifisKey, VersionKey}
    ensures forall name | name in f.network.ethernets ::
      NetplanFileValue(f).entries[NetworkKey].entries[EthernetsKey].entries[name].entries.Keys
        <= {Dhcp4Key, OptionalKey, AccessPointsKey}
    ensures f.network.wifis.Some? ==> forall name | name in f.network.wifis.value ::
      NetplanFileValue(f).entries[NetworkKey].entries[WifisKey].entries[name].entries.Keys
        <= {Dhcp4Key, OptionalKey, AccessPointsKey}
  {
    var section := NetworkValue(f.network);
    forall name | name in f.network.ethernets
      ensures section.entries[EthernetsKey].entries[name] == EthernetValue(f.network.ethernets[name])
    {
    }
  }

  /** Writing a document loses every setting the records do not know, such
      as a network section's `renderer` and an interface's `set-name`, even
      where the document was read from a file that had them. */
  lemma RewriteDropsUnknownKeys(f: NetplanFile, name: string)
    ensures "renderer" !in NetplanFileValue(f).entries[NetworkKey].entries
    ensures name in f.network.ethernets ==>
      "set-name" !in NetplanFileValue(f).entries[NetworkKey].entries[EthernetsKey].entries[name].entries
  {
    WrittenKeys(f);
    assert "renderer" !in {EthernetsKey, WifisKey, VersionKey};
    assert "set-name" !in {Dhcp4Key, OptionalKey, AccessPointsKey};
  }

  /** Access points stored under the Rust field name are not seen. */
  lemma InternalFieldNameNotRead(aps: Value)
    ensures ParseEthernet(Mapping(map["access_points" := aps])) == Decoded(Ethernet(None, None, None))
  {
  }

  /** A network section without `ethernets` or without `version` is rejected,
      while one without `wifis` reads with `wifis == None` as long as the
      other two are well formed. */
  lemma RequiredNetworkFields(fields: map<string, Value>)
    ensures EthernetsKey !in fields ==> ParseNetwork(Mapping(fields)).Rejected?
    ensures VersionKey !in fields ==> ParseNetwork(Mapping(fields)).Rejected?
    ensures (WifisKey !in fields && EthernetsKey in fields && ParseInterfaces(fields[EthernetsKey]).Decoded?
             && VersionKey in fields && fields[VersionKey].Int? && 0 <= fields[VersionKey].i < 0x1_0000)
      ==> (ParseNetwork(Mapping(fields))
           == Decoded(Network(ParseInterfaces(fields[EthernetsKey]).value, None, fields[VersionKey].i)))
  {
  }

  /** An interface record with none of its keys reads with all three fields
      unset. */
  lemma AbsentFieldsReadAsNone()
    ensures ParseEthernet(Mapping(map[])) == Decoded(Ethernet(None, None, None))
  {
  }

  /** The usual stored document, with a wired interface and no `wifis`
      section, is readable. */
  lemma WiredOnlyFileReads()
    ensures ParseNetplanFile(Mapping(map[NetworkKey := Mapping(map[
      VersionKey := Int(2),
      EthernetsKey := Mapping(map["eth0" := Mapping(map[Dhcp4Key := Bool(true)])])])]))
      == Decoded(NetplanFile(Network(map["eth0" := Ethernet(Some(true), None, None)], None, 2)))
  {
    var eth0 := Mapping(map[Dhcp4Key := Bool(true)]);
    assert ParseEthernet(eth0) == Decoded(Ethernet(Some(true), None, None));
    var ethernets := Mapping(map["eth0" := eth0]);
    assert (map name | name in ethernets.entries :: ParseEthernet(ethernets.entries[name]).value)
      == map["eth0" := Ethernet(Some(true), None, None)];
  }
}
