/**
 The in-memory update of the netplan document in `set_wifi`
 (src/main.rs:123-139), with the file read, write and apply steps around it
 left to the `Program` module.

 The update makes sure `wifis` exists and then puts a fresh entry for the
 fixed interface "wlan0" into it: DHCP on, not optional, and a single access
 point for the given network. Whatever "wlan0" had before, its settings and
 its other access points included, is replaced.
 */
module WifiUpdate {
  import opened Common
  import opened Netplan

  /** The only wireless interface the program configures. */
  const WirelessInterface := "wlan0"

  /** The names of the wireless interfaces a document configures. */
  function WirelessNames(f: NetplanFile): set<string>
  {
    match f.network.wifis
    case None => {}
    case Some(w) => w.Keys
  }

  /** `after` is `before` with "wlan0" configured for `ssid` alone, and
      nothing else changed. */
  predicate WifiUpdated(before: NetplanFile, after: NetplanFile, ssid: string, password: string)
  {
    && after.network.ethernets == before.network.ethernets
    && after.network.version == before.network.version
    && after.network.wifis.Some?
    && after.network.wifis.value.Keys == WirelessNames(before) + {WirelessInterface}
    && after.network.wifis.value[WirelessInterface]
       == Ethernet(Some(true), Some(false), Some(map[ssid := AccessPoint(password)]))
    && forall name | name in WirelessNames(before) && name != WirelessInterface ::
         after.network.wifis.value[name] == before.network.wifis.value[name]
  }

  method SetWifi(file: NetplanFile, ssid: string, password: string) returns (updated: NetplanFile)
    ensures WifiUpdated(file, updated, ssid, password)
  {
    updated := file;
    if updated.network.wifis.None? {
      updated := updated.(network := updated.network.(wifis := Some(map[])));
    }
    var accessPoints := map[ssid := AccessPoint(password)];
    var wifi := Ethernet(dhcp4 := Some(true), optional := Some(false), accessPoints := Some(accessPoints));
    var wifis := updated.network.wifis.value;
    wifis := wifis[WirelessInterface := wifi];
    updated := updated.(network := updated.network.(wifis := Some(wifis)));
  }

  /** The update is determined by its inputs. */
  lemma WifiUpdateDeterministic(before: NetplanFile, a: NetplanFile, b: NetplanFile, ssid: string, password: string)
    requires WifiUpdated(before, a, ssid, password) && WifiUpdated(before, b, ssid, password)
    ensures a == b
  {
    var wa, wb := a.network.wifis.value, b.network.wifis.value;
    forall name | name in wa
      ensures wa[name] == wb[name]
    {
      if name != WirelessInterface {
        assert name in WirelessNames(before);
      }
    }
    assert wa == wb;
  }

  /** Applying the update to its own result changes nothing. */
  lemma WifiUpdateIdempotent(before: NetplanFile, once: NetplanFile, twice: NetplanFile, ssid: string, password: string)
    requires WifiUpdated(before, once, ssid, password)
    requires WifiUpdated(once, twice, ssid, password)
    ensures twice == once
  {
    assert WifiUpdated(once, once, ssid, password);
    WifiUpdateDeterministic(once, once, twice, ssid, password);
  }

  /** Access points "wlan0" had before, other than `ssid`, are gone. */
  lemma EarlierAccessPointsDropped(before: NetplanFile, after: NetplanFile, ssid: string, password: string, other: string)
    requires WifiUpdated(before, after, ssid, password)
    requires other != ssid
    ensures other !in after.network.wifis.value[WirelessInterface].accessPoints.value
  {
  }

  /** The updated document, written and read back, is the updated document:
      the new access point survives storage under "wlan0". */
  lemma UpdateSurvivesStorage(before: NetplanFile, after: NetplanFile, ssid: string, password: string)
    requires WifiUpdated(before, after, ssid, password)
    ensures ParseNetplanFile(NetplanFileValue(after)) == Decoded(after)
    ensures var stored := NetplanFileValue(after).entries[NetworkKey].entries[WifisKey].entries[WirelessInterface];
      stored.entries[AccessPointsKey].entries[ssid] == Mapping(map[PasswordKey := Str(password)])
  {
    NetplanFileRoundTrip(after);
  }

  /** A document with one wired interface and no `wifis` section gains a
      `wifis` section holding "wlan0" alone; the wired interface is kept. */
  lemma FirstWirelessInterface(after: NetplanFile)
    requires WifiUpdated(NetplanFile(Network(map["eth0" := Ethernet(Some(true), None, None)], None, 2)),
                         after, "Home", "password123")
    ensures after.network.ethernets == map["eth0" := Ethernet(Some(true), None, None)]
    ensures after.network.wifis
      == Some(map[WirelessInterface := Ethernet(Some(true), Some(false), Some(map["Home" := AccessPoint("password123")]))])
  {
    var w := after.network.wifis.value;
    assert w.Keys == {WirelessInterface};
    assert w == map[WirelessInterface := w[WirelessInterface]];
  }
}
