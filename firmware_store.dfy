/** The Pinia store `firmware`: its state as the fields of one object, and the
    actions that update those fields in place. */
module Store {
  import opened Wrappers
  import opened FirmwareState
  import opened Flashing

  const INITIAL_BAUD_RATE: nat := 115200

  class FirmwareStore {
    var stable: seq<FirmwareResource>
    var alpha: seq<FirmwareResource>
    var pullRequests: seq<FirmwareResource>
    var selectedFirmware: Option<FirmwareResource>
    var selectedFile: Option<LocalFile>
    var baudRate: nat
    var hasSeenReleaseNotes: bool
    var shouldCleanInstall: bool
    var flashPercentDone: nat
    var isFlashing: bool
    var flashingIndex: nat
    var isReaderLocked: bool
    var isConnected: bool

    /** The fields the getters and the selection actions work on. */
    function Selection(): SelectionState
      reads this`selectedFirmware, this`selectedFile, this`hasSeenReleaseNotes
    {
      SelectionState(selectedFirmware, selectedFile, hasSeenReleaseNotes)
    }

    /** The fields the `reportProgress` callbacks write. */
    function Progress(): FlashProgress
      reads this`flashPercentDone, this`flashingIndex, this`isFlashing
    {
      FlashProgress(flashPercentDone, flashingIndex, isFlashing)
    }

    /** Never both a release and a local file. */
    ghost predicate Valid()
      reads this`selectedFirmware, this`selectedFile, this`hasSeenReleaseNotes
    {
      Selection().Exclusive()
    }

    /** The state the store is created with. */
    constructor ()
      ensures Valid()
      ensures Selection() == INITIAL_SELECTION
      ensures Progress() == FlashProgress(0, 0, false)
      ensures stable == [STABLE_RELEASE] && alpha == [] && pullRequests == []
      ensures baudRate == INITIAL_BAUD_RATE
      ensures !shouldCleanInstall && !isReaderLocked && !isConnected
    {
      stable := [STABLE_RELEASE];
      alpha := [];
      pullRequests := [];
      selectedFirmware := None;
      selectedFile := Some(LocalFile(None, []));
      baudRate := INITIAL_BAUD_RATE;
      hasSeenReleaseNotes := false;
      shouldCleanInstall := false;
      flashPercentDone := 0;
      isFlashing := false;
      flashingIndex := 0;
      isReaderLocked := false;
      isConnected := false;
    }

    /** `continueToFlash` */
    method ContinueToFlash()
      modifies this`hasSeenReleaseNotes
      ensures Valid() == old(Valid())
      ensures Selection() == old(Selection()).ContinueToFlash()
    {
      hasSeenReleaseNotes := true;
    }

    /** `setSelectedFirmware` */
    method SetSelectedFirmware(firmware: FirmwareResource)
      modifies this`selectedFirmware, this`selectedFile, this`hasSeenReleaseNotes
      ensures Valid()
      ensures Selection() == old(Selection()).WithFirmware(firmware)
    {
      selectedFirmware := Some(firmware);
      selectedFile := None;
      hasSeenReleaseNotes := false;
    }

    /** `setFirmwareFile` */
    method SetFirmwareFile(file: LocalFile)
      modifies this`selectedFirmware, this`selectedFile
      ensures Valid()
      ensures Selection() == old(Selection()).WithFile(file)
    {
      selectedFile := Some(file);
      selectedFirmware := None;
    }

    /** The `reportProgress` callback of the plan built under `rule`, called by
        the flashing library with a file index and byte counts. */
    method ReportProgress(rule: ProgressRule, fileIndex: nat, written: nat, total: nat)
      requires total > 0
      modifies this`flashPercentDone, this`flashingIndex, this`isFlashing
      ensures Progress() == AfterReport(rule, old(Progress()), Report(fileIndex, written, total))
    {
      match rule {
        case SingleImage =>
          flashPercentDone := Percent(written, total);
          if written == total {
            isFlashing := false;
          }
        case CleanInstall =>
          flashingIndex := fileIndex;
          flashPercentDone := Percent(written, total);
          if written == total && fileIndex > 1 {
            isFlashing := false;
          }
      }
    }

    /** `updateEspFlash` once the serial port is granted and the chip answers:
        fetch the application and, if that succeeds, start flashing it alone. */
    method UpdateEspFlash(fileName: string, ext: Externals) returns (r: Result<FlashOptions, FetchError>)
      modifies this`isConnected, this`isFlashing
      ensures isConnected
      ensures var src := Selection().FetchBinaryContent(fileName, ext);
        match src
        case Ok(s) => isFlashing && r == Ok(UpdatePlan(SourceContent(s, ext)))
        case Err(e) => isFlashing == old(isFlashing) && r == Err(e)
    {
      isConnected := true;
      var src := Selection().FetchBinaryContent(fileName, ext);
      if src.Err? {
        return Err(src.error);
      }
      var content := SourceContent(src.value, ext);
      isFlashing := true;
      r := Ok(UpdatePlan(content));
    }

    /** `cleanInstallEspFlash` once the serial port is granted and the chip
        answers: fetch the three images in turn, stopping at the first failure,
        and start a clean install of all three. */
    method CleanInstallEspFlash(fileName: string, otaFileName: string, littleFsFileName: string, ext: Externals)
      returns (r: Result<FlashOptions, FetchError>)
      modifies this`isConnected, this`isFlashing
      ensures isConnected
      ensures var app := Selection().FetchBinaryContent(fileName, ext);
        var ota := Selection().FetchBinaryContent(otaFileName, ext);
        var littleFs := Selection().FetchBinaryContent(littleFsFileName, ext);
        if app.Ok? && ota.Ok? && littleFs.Ok? then
          isFlashing
          && r == Ok(CleanInstallPlan(SourceContent(app.value, ext), SourceContent(ota.value, ext),
                                      SourceContent(littleFs.value, ext)))
        else
          isFlashing == old(isFlashing)
          && r == Err(if app.Err? then app.error else if ota.Err? then ota.error else littleFs.error)
    {
      isConnected := true;
      var app := Selection().FetchBinaryContent(fileName, ext);
      if app.Err? {
        return Err(app.error);
      }
      var ota := Selection().FetchBinaryContent(otaFileName, ext);
      if ota.Err? {
        return Err(ota.error);
      }
      var littleFs := Selection().FetchBinaryContent(littleFsFileName, ext);
      if littleFs.Err? {
        return Err(littleFs.error);
      }
      isFlashing := true;
      r := Ok(CleanInstallPlan(SourceContent(app.value, ext), SourceContent(ota.value, ext),
                               SourceContent(littleFs.value, ext)));
    }
  }
}
