# wifictl in Dafny

A model of `wifictl`, a small command-line tool that sets up the WiFi of a
headless Linux device. It reads its arguments (`-s` to list the networks in
range, `-u <ssid>` and `-p <password>` to configure one). On the configure
path it reads the netplan document, adds the network to interface `wlan0`,
writes the document back and runs `netplan apply`.

The modules:

- `Common` (common.dfy): `Option` and `Result`.
- `Netplan` (netplan.dfy): the records `NetplanFile`, `Network`, `Ethernet` and
  `AccessPoint`. It also holds the rules for writing them to, and reading them
  from, a YAML key/value tree (`Value`). `accessPoints` uses the external key
  `access-points` in both directions and is left out when `None`. Every other
  optional field is written as null when `None`. A missing or null optional
  field reads as `None`. Unknown keys are ignored. A required field that is
  missing or of the wrong kind rejects the document. In the model a string
  field accepts only a string value (see "Left out").
- `Arguments` (arguments.dfy): the argument loop of `main`, as the method
  `ParseArgs`. `ArgsCommand` is its reference definition: the first argument
  that ends the loop decides the result; without one, the last `-u` and the
  last `-p` supply the values. Password length is counted in UTF-8 bytes.
- `ScanOutput` (scan_output.dfy): the parsing of the filtered scanner output,
  as the method `ParseScanLines`. A line is split on `:` and its second
  segment is taken. A segment of exactly `""` is skipped. Quotes are removed,
  and each name is kept once, in order of first appearance. A line without
  `:` is a panic (`None`).
- `WifiUpdate` (wifi_update.dfy): the document update of `set_wifi`, as the
  method `SetWifi`, specified by the predicate `WifiUpdated`.
- `Program` (program.dfy): one run of `main`. The scanner's output and the
  stored document are parameters, and the run returns an `Effect`: printed
  names, an error message, a panic, a read failure, or the document written
  back.

### Behaviour of the code worth knowing

- The `wlan0` entry is replaced whole (src/main.rs:130-137). Its earlier
  access points, `dhcp4` and `optional` are discarded. They are not merged.
  `EarlierAccessPointsDropped` states this.
- The password bound of 8 to 63 applies to the length in bytes
  (src/main.rs:48), not in characters. `MultiByteCharactersCountTwice` gives
  a 32-character password that is refused.
- `wifis`, `dhcp4` and `optional` have no skip attribute
  (src/netplan.rs:16, 22-23). So a `None` there is written as null, not
  omitted. Only `access-points` is omitted when `None`.
- The index step after `-u`/`-p` (src/main.rs:30, 40) changes a copy local to
  the iteration. The loop still visits the consumed value and reads it as a
  flag. A network named `-s` therefore starts a scan (`ConsumedValueIsReread`),
  and `-u -p` fails with "Missing value for '-p'" (`SsidNamedLikeAFlag`).
- Writing the document back keeps only the keys the records know
  (src/main.rs:141, src/netplan.rs:8-34). Every other setting of the stored
  file is lost, wired interfaces included: a section's `renderer`, an
  interface's `match`, `set-name`, `addresses`, `nameservers`, `routes` or
  `gateway4`. `WrittenKeys` and `RewriteDropsUnknownKeys` state this. So
  "`ethernets` unchanged" in `WifiUpdated` is about the records read, not
  about the text of the file.
- The argument vector includes the program name at index 0, as
  `std::env::args` does.

## Model

| member | source | states |
|---|---|---|
| `Netplan.OptionalBoolValue` | src/netplan.rs:22-23 | an unset `dhcp4`/`optional` is written as null, a set one as its boolean |
| `Netplan.AccessPointValue` | src/netplan.rs:31-34 | an access point is written with the single key `password`, holding the password string |
| `Netplan.AccessPointsValue` | src/netplan.rs:28 | the access-point map is written with exactly the same network names as keys, each holding that access point written |
| `Netplan.EthernetValue` | src/netplan.rs:20-29 | `dhcp4` and `optional` are always written, as null when unset and as their boolean when set; a set access-point map is written under `access-points`; `access-points` is written iff the field is `Some`, even for an empty map; no other key appears |
| `Netplan.InterfacesValue` | src/netplan.rs:15-16 | an interface map is written with the same interface names as keys, each holding that interface written |
| `Netplan.NetworkValue` | src/netplan.rs:13-18 | the network section has exactly the keys `ethernets`, `wifis`, `version`; `wifis` is null iff unset; `version` is written as its integer |
| `Netplan.NetplanFileValue` | src/netplan.rs:8-11 | the document has the single key `network` |
| `Netplan.ParseOptionalBool` | src/netplan.rs:22-23 | an optional boolean reads as `None` iff its key is absent or null, as `Some(b)` from a boolean, and any other kind of value is rejected |
| `Netplan.ParseAccessPoint` | src/netplan.rs:31-34 | an access point is accepted iff it is a mapping whose `password` is a string, and the password read is that string |
| `Netplan.ParseAccessPoints` | src/netplan.rs:28 | an access-point map is accepted iff every entry is an access point; the names read are the keys, and each access point read is the one stored under its name |
| `Netplan.ParseEthernet` | src/netplan.rs:20-29 | an interface is accepted iff it is a mapping whose `dhcp4` and `optional` are absent, null or booleans and whose `access-points` is absent, null or a valid access-point map; `dhcp4`/`optional` are `None` iff absent or null, and a set `dhcp4`/`optional` reads as the stored boolean; access points are read only from the key `access-points` and are `Some` iff that key is present and not null |
| `Netplan.ParseInterfaces` | src/netplan.rs:15-16 | an interface map is accepted iff every entry is an interface; the names read are the keys, and each interface read is the one stored under its name |
| `Netplan.ParseNetwork` | src/netplan.rs:13-18 | a network section is accepted iff `ethernets` is a valid interface map, `version` is an integer in 0..65535, and `wifis` is absent, null or a valid interface map; `ethernets` and `version` are what is stored; `wifis` is `None` iff absent or null, and otherwise the interfaces stored |
| `Netplan.ParseNetplanFile` | src/netplan.rs:8-11 | a document is accepted iff it has a `network` key holding an acceptable section, and that section is the network read |
| `Netplan.AccessPointsRoundTrip` | src/netplan.rs:28 | reading back a written access-point map gives the same map |
| `Netplan.EthernetRoundTrip` | src/netplan.rs:20-29 | reading back a written interface gives the same interface, `access-points` rename included |
| `Netplan.InterfacesRoundTrip` | src/netplan.rs:15-16 | reading back a written interface map gives the same map |
| `Netplan.NetplanFileRoundTrip` | src/netplan.rs:8-34 | reading back any written document gives the same document |
| `Netplan.EthernetIgnoresUnknownKeys` | src/netplan.rs:20-29 | two mappings that agree on `dhcp4`, `optional` and `access-points` read as the same interface, whatever other keys they hold |
| `Netplan.WrittenKeys` | src/netplan.rs:8-34 | a written network section has exactly the keys `ethernets`, `wifis` and `version`, and every written interface at most `dhcp4`, `optional` and `access-points` |
| `Netplan.RewriteDropsUnknownKeys` | src/netplan.rs:13-29 | a written document never holds a section's `renderer` or an interface's `set-name`, whatever the file it was read from held |
| `Netplan.InternalFieldNameNotRead` | src/netplan.rs:25-26 | access points stored under the Rust spelling `access_points` are not read: the interface has no access points |
| `Netplan.RequiredNetworkFields` | src/netplan.rs:14-18 | without `ethernets` or without `version` the section is rejected; without `wifis`, and with valid `ethernets` and `version`, it reads with those two and `wifis` unset |
| `Netplan.AbsentFieldsReadAsNone` | src/netplan.rs:20-29 | an interface mapping with none of its keys reads with `dhcp4`, `optional` and access points all `None` |
| `Netplan.WiredOnlyFileReads` | src/netplan.rs:8-29 | the document `{network: {version: 2, ethernets: {eth0: {dhcp4: true}}}}` reads as a network with `eth0` (`dhcp4` true, the rest unset), no `wifis`, version 2 |
| `Arguments.Utf8Width` | src/main.rs:48 | a character takes 1 to 4 bytes, and exactly 1 iff it is ASCII |
| `Arguments.Utf8Length` | src/main.rs:48 | the byte length lies between the character count and four times it |
| `Arguments.Utf8LengthUniformWidth` | src/main.rs:48 | when every character takes `w` bytes, the byte length is `w` times the character count |
| `Arguments.AsciiPasswordBounds` | src/main.rs:48-51 | an ASCII password is accepted iff it has 8 to 63 characters (7 and 64 refused, 8 and 63 accepted) |
| `Arguments.MultiByteCharactersCountTwice` | src/main.rs:48-51 | 32 two-byte characters (64 bytes) are refused |
| `Arguments.StopCommand` | src/main.rs:16-51 | an argument that ends the loop gives a scan iff it is `-s`; a `-u` gives "Missing value for '-u'"; a `-p` gives "Missing value for '-p'" when it is last and "Password invalid…" otherwise |
| `Arguments.FirstStop` | src/main.rs:13-57 | the result is the first index from `from` on that ends the loop, and no earlier index ends it |
| `Arguments.LastFlagIndex` | src/main.rs:29-54 | the result is the last index before `n` that holds the flag and has a value after it |
| `Arguments.ParseArgs` | src/main.rs:10-62 | the loop gives exactly `ArgsCommand(args)`: the first stopping argument decides the result, otherwise the last `-u`/`-p` values or "not specified" |
| `Arguments.FirstStopDecides` | src/main.rs:13-57 | when `k` is the first index that ends the loop, the command is the one that index produces, whatever follows it |
| `Arguments.ConfiguredPasswordIsValid` | src/main.rs:48-53 | a configuration is only produced with a password of 8 to 63 bytes |
| `Arguments.LastSsidWins` | src/main.rs:29-37 | the configured network is the value after the last `-u` that has one |
| `Arguments.LastPasswordWins` | src/main.rs:39-53 | the configured password is the value after the last `-p` that has one |
| `Arguments.UnsetValueIsError` | src/main.rs:59-62 | if the loop did not stop and no `-u` (or no `-p`) had a value, the result is "WiFi Password or SSID not specified." |
| `Arguments.TrailingFlagIsMissingValue` | src/main.rs:30-35 | `-u` or `-p` as the last argument, with no earlier stop, gives "Missing value for '-u'" or "Missing value for '-p'" |
| `Arguments.BadPasswordIsError` | src/main.rs:48-51 | a `-p` value of the wrong byte length, with no earlier stop, gives the "Password invalid" error |
| `Arguments.ConsumedValueIsReread` | src/main.rs:29-31 | a `-u` whose value is `-s` leads to a scan: the value is visited again as a flag |
| `Arguments.SsidNamedLikeAFlag` | src/main.rs:29-45 | `wifictl -u -p` fails with "Missing value for '-p'" rather than naming the network `-p` |
| `ScanOutput.Split` | src/main.rs:96 | splitting gives at least one piece, no piece contains the separator, and there are two or more pieces iff the separator occurs |
| `ScanOutput.JoinSplit` | src/main.rs:96 | joining the pieces of a split with the separator gives the line back |
| `ScanOutput.SplitWithoutSeparator` | src/main.rs:96 | a string without the separator splits into itself alone |
| `ScanOutput.SplitAtFirstSeparator` | src/main.rs:96 | the text before the first separator is the first piece, and the rest is split the same way |
| `ScanOutput.SplitJoin` | src/main.rs:96 | splitting the join of separator-free pieces gives the same pieces |
| `ScanOutput.StripQuotes` | src/main.rs:103 | the result has no `"`, and holds every other character as often as the input does |
| `ScanOutput.StripQuotesAppend` | src/main.rs:103 | quote removal distributes over concatenation, so the order of the other characters is kept |
| `ScanOutput.StripQuotesWithoutQuotes` | src/main.rs:103 | a string without quotes is unchanged |
| `ScanOutput.QuotedName` | src/main.rs:103 | a name between two quotes comes out as the bare name |
| `ScanOutput.SecondSegment` | src/main.rs:96-97 | segment 1 is missing iff the line has no `:`, and it never contains `:` |
| `ScanOutput.OfferedName` | src/main.rs:96-103 | a line offers a name exactly when that name is what its segment 1 gives |
| `ScanOutput.ConcatIncludes` | src/main.rs:95-103 | whatever one line contributes is in the collected list |
| `ScanOutput.ConcatSource` | src/main.rs:95-103 | everything in the collected list was contributed by some line |
| `ScanOutput.CandidatesContents` | src/main.rs:95-103 | a name is offered iff some line's segment 1 is not `""` and gives that name once quotes are removed |
| `ScanOutput.CandidatesOfPrefix` | src/main.rs:95-103 | one more line appends what that line offers |
| `ScanOutput.FirstOccurrencesExtend` | src/main.rs:104-108 | appending a name that is not yet listed, and skipping one that is, keeps the list in first-occurrence order |
| `ScanOutput.SameHead` | src/main.rs:104-108 | two lists with the same names, both in increasing order of some key, begin with the same name |
| `ScanOutput.SameTailElements` | src/main.rs:104-108 | removing a shared first name from two repeat-free lists with the same names leaves lists with the same names |
| `ScanOutput.IncreasingTail` | src/main.rs:104-108 | a list in strictly increasing key order has no repeats, and its tail is still increasing |
| `ScanOutput.IncreasingUnique` | src/main.rs:94-109 | two lists with the same names, both in strictly increasing order of one key, are equal |
| `ScanOutput.FirstOccurrencesUnique` | src/main.rs:94-109 | the contract of the parser determines its result |
| `ScanOutput.LineNameOf` | src/main.rs:96-103 | a line `key:segment` offers nothing if the segment is `""`, and the unquoted segment otherwise |
| `ScanOutput.QuotedLineName` | src/main.rs:96-103 | the line `key:"name"` of a visible network offers `name` |
| `ScanOutput.ConcatOfFour` | src/main.rs:95-103 | four lines contribute what each line contributes, in line order |
| `ScanOutput.ExampleCandidates` | src/main.rs:95-103 | lines for A, a hidden network, A again and B offer A, A, B |
| `ScanOutput.HiddenAndRepeatedNames` | src/main.rs:94-109 | for those lines the parser's result is exactly `[A, B]`: the hidden network and the repeat are dropped, order kept |
| `ScanOutput.OfferedBySegment` | src/main.rs:96-103 | a line whose segment 1 is `""` offers nothing, any other offers that segment without quotes |
| `ScanOutput.ScanStep` | src/main.rs:96-108 | skipping a hidden or already listed name, or appending a new one, keeps the list in first-occurrence order after one more line |
| `ScanOutput.ParseScanLines` | src/main.rs:94-109 | the result is a panic iff some line lacks `:`; otherwise it lists every offered name exactly once, in order of first appearance, and nothing else |
| `WifiUpdate.SetWifi` | src/main.rs:123-139 | afterwards `wifis` is present, `wlan0` is exactly `{dhcp4: true, optional: false, access-points: {ssid: password}}`, the interface names are the old ones plus `wlan0`, and `ethernets`, `version` and every other wireless interface are unchanged |
| `WifiUpdate.WifiUpdateDeterministic` | src/main.rs:123-139 | the update's result is determined by the document, network and password |
| `WifiUpdate.WifiUpdateIdempotent` | src/main.rs:123-139 | applying the update again to its result gives the same document |
| `WifiUpdate.EarlierAccessPointsDropped` | src/main.rs:127-137 | after the update `wlan0` has no access point other than the new network |
| `WifiUpdate.UpdateSurvivesStorage` | src/main.rs:123-141 | the updated document written and read back is unchanged, and its stored form holds the new password under `wlan0`/`access-points`/the network |
| `WifiUpdate.FirstWirelessInterface` | src/main.rs:123-139 | a document with only `eth0` and no `wifis` gains `wifis` holding `wlan0` alone with the new access point; `eth0` is kept |
| `Program.Run` | src/main.rs:7-154 | an argument error prints its message; `-s` prints the scanner's error, or panics iff a line lacks `:`, and otherwise prints the parsed names; configuring fails iff the document cannot be read, and otherwise writes; a written document is only produced with a valid password and both values set, is the stored form of a document, and that document is the update of the stored one |

## Left out

- Reading and writing the file (src/netplan.rs:38-67) are not modelled. This
  covers the fixed path `/etc/netplan/50-cloud-init.yaml`, file-system errors
  and the YAML text format. A document is modelled as the `Value` tree that
  YAML text maps to. `Program.Run` takes the stored tree as a parameter (`None`
  when the file cannot be read or parsed) and returns the written tree.
- Failures of the write step (src/main.rs:141-145) are not modelled: a run
  that reaches `Written` is assumed to have written.
- `netplan apply` (src/netplan.rs:69-85) runs an external command, so it is
  left out.
- The `iwlist` and `grep` commands of `scan` (src/main.rs:68-92) are left out.
  So are the UTF-8 decoding of their output and its division into lines. The
  parser takes the lines, or the error text, as a parameter.
- Printing, the process exit and its status are left out. The run returns an
  `Effect` instead.
- The order of `HashMap` entries is left out. Dafny `map`s have no order, and
  the order carries no meaning here.
- Error text from the YAML library is left out. A rejected document is
  `Rejected`, with no message.
- So is the library's other accepted form of a record, a sequence of field
  values in place of a mapping.
- Nothing checks the field kinds of a document on the write path. Every
  record writes successfully, as the derived serialiser does for these types.
- Netplan.ParseAccessPoint: accepts only a `Str` password. The YAML library
  also hands a plain number or boolean scalar to a string field as its text,
  so the program reads `password: 12345678` as the string "12345678". The
  model's `Value` tree keeps no source text for `Int` and `Bool` nodes (it
  cannot tell `012` from `12`), so such a document reads as `Rejected` here.
- YAML floating-point scalars have no `Value` node, so a stored file holding
  one (under a key the records ignore) is outside the model. Sequences are
  modelled (`Seq`) and are only ever ignored or rejected by the readers.
- The program takes its arguments with `std::env::args` (src/main.rs:8),
  which panics on an argument that is not valid Unicode. Arguments are
  modelled as strings, so that panic is not.
