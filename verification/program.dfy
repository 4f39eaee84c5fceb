/**
 One run of the program (`main` and `set_wifi` in src/main.rs), with its
 surroundings as parameters: the output of the scan command (or the reason
 it could not be run) and the stored document as a key/value tree (or
 nothing, when the file cannot be read or is not YAML). Instead of printing
 and exiting, a run returns its `Effect`.
 */
module Program {
  import opened Common
  import opened Netplan
  import opened Arguments
  import opened ScanOutput
  import opened WifiUpdate

  datatype Effect =
    | Printed(names: seq<string>)  // scan results printed, exit status 0
    | Failed(message: string)      // message printed, exit status 1
    | Panicked                     // the scan parser panicked
    | ReadFailed                   // the stored document could not be read, exit status 1
    | Written(content: Value)      // the document written back, then applied

  method Run(args: seq<string>, scanOutput: Result<seq<string>>, stored: Option<Value>) returns (effect: Effect)
    ensures ArgsCommand(args).Error? ==> effect == Failed(ArgsCommand(args).message)
    ensures ArgsCommand(args).Scan? && scanOutput.Err? ==> effect == Failed(scanOutput.message)
    ensures ArgsCommand(args).Scan? && scanOutput.Ok? ==>
      (effect.Panicked? <==> exists k :: 0 <= k < |scanOutput.value| && Colon !in scanOutput.value[k])
    ensures ArgsCommand(args).Scan? && scanOutput.Ok? && (forall k :: 0 <= k < |scanOutput.value| ==> Colon in scanOutput.value[k])
      ==> effect.Printed?
    ensures effect.Printed? ==>
      ArgsCommand(args).Scan? && scanOutput.Ok? && FirstOccurrences(effect.names, Candidates(scanOutput.value))
    ensures effect.ReadFailed? <==>
      ArgsCommand(args).Configure? && (stored.None? || ParseNetplanFile(stored.value).Rejected?)
    ensures ArgsCommand(args).Configure? && stored.Some? && ParseNetplanFile(stored.value).Decoded? ==> effect.Written?
    ensures effect.Written? ==>
      ParseNetplanFile(effect.content).Decoded? && effect.content == NetplanFileValue(ParseNetplanFile(effect.content).value)
    ensures effect.Written? ==>
      && ArgsCommand(args).Configure?
      && ValidPassword(ArgsCommand(args).password)
      && stored.Some? && ParseNetplanFile(stored.value).Decoded?
      && ParseNetplanFile(effect.content).Decoded?
      && WifiUpdated(ParseNetplanFile(stored.value).value, ParseNetplanFile(effect.content).value,
                     ArgsCommand(args).ssid, ArgsCommand(args).password)
  {
    var command := ParseArgs(args);
    match command
    case Error(message) =>
      effect := Failed(message);
    case Scan =>
      match scanOutput {
        case Err(message) =>
          effect := Failed(message);
        case Ok(lines) =>
          var names := ParseScanLines(lines);
          effect := if names.Some? then Printed(names.value) else Panicked;
      }
    case Configure(ssid, password) =>
      ConfiguredPasswordIsValid(args);
      var file := if stored.Some? then ParseNetplanFile(stored.value) else Rejected;
      if file.Rejected? {
        effect := ReadFailed;
      } else {
        var updated := SetWifi(file.value, ssid, password);
        NetplanFileRoundTrip(updated);
        effect := Written(NetplanFileValue(updated));
      }
  }
}
