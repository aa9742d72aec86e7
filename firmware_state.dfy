/** The selection half of the firmware store: what the user picked (a remote
    release or a local file), the getters Pinia computes from it, and the pure
    decisions of the actions that read it (`getReleaseFileUrl`, where
    `fetchBinaryContent` takes its bytes from, which entry `downloadUf2FileSystem`
    saves). */
module FirmwareState {
  import opened Wrappers
  import opened JsBuiltins

  /** A release from the firmware list (`FirmwareResource`). */
  datatype FirmwareResource = FirmwareResource(
    id: string,
    title: string,
    pageUrl: string,
    zipUrl: Option<string>,
    releaseNotes: string)

  /** A browser `File`: its name (None for the placeholder object `{}` the store
      starts with) and its bytes. */
  datatype LocalFile = LocalFile(name: Option<string>, data: seq<bv8>)

  /** What the `isZipFile` getter evaluates to: `undefined` when no file is
      selected, a TypeError when the selected object has no `name`, else a boolean. */
  datatype ZipFlag = NoFile | NameMissing | Flag(isZip: bool)

  /** Where `fetchBinaryContent` takes the bytes from. */
  datatype ContentSource =
    | Remote(url: string)
    | ZipEntry(archive: LocalFile, entryName: string)
    | WholeFile(file: LocalFile)

  datatype FetchError =
    | NothingToFetch           // 'Cannot fetch binary content without a file or firmware selected'
    | FileNameUndefined        // TypeError: `isZipFile` read `endsWith` of an undefined name
    | NoMatchInZip(pattern: string)  // 'Could not find file with pattern … in zip'

  /** The code this store calls but does not contain, as functions. */
  datatype Externals = Externals(
    corsFriendlyReleaseUrl: string -> string,    // getCorsFriendyReleaseUrl(zip_url)
    regexTest: (string, string) -> bool,         // new RegExp(pattern).test(name)
    zipEntries: LocalFile -> seq<string>,        // file names of ZipReader.getEntries(), in archive order
    fetchUrl: string -> seq<bv8>,                // fetch(url), then blob().arrayBuffer()
    entryData: (LocalFile, string) -> seq<bv8>)  // entry.getData() of the named entry

  const ZIP_SUFFIX := ".zip"
  const TBEAM_PREFIX := "firmware-tbeam-."
  const S3_MARKER := "s3"
  const UPDATE_SUFFIX := "update.bin"
  const ANY_VERSION := ".+"

  /** The release the store lists as stable at start-up (its release notes are left out). */
  const STABLE_RELEASE := FirmwareResource(
    "v2.4.0.46d7b82",
    "Meshtastic DEFCON 2024 Edition Firmware",
    "https://github.com/meshtastic/firmware/releases/tag/v2.4.0.46d7b82",
    Some("https://github.com/meshtastic/firmware/releases/download/v2.4.0.46d7b82/firmware-2.4.0.46d7b82.zip"),
    "")

  /** The zip-entry test of `fetchBinaryContent` for a requested file name. */
  predicate EntryMatches(fileName: string, entryName: string, regexTest: (string, string) -> bool) {
    if StartsWith(fileName, TBEAM_PREFIX) then
      !Includes(entryName, S3_MARKER) && regexTest(fileName, entryName)
      && (EndsWith(fileName, UPDATE_SUFFIX) == EndsWith(entryName, UPDATE_SUFFIX))
    else
      regexTest(fileName, entryName) && (EndsWith(fileName, UPDATE_SUFFIX) == EndsWith(entryName, UPDATE_SUFFIX))
  }

  /** The entry `fetchBinaryContent` takes from a zip: the first, in archive order,
      that matches the pattern, agrees with it on ending in `update.bin`, and, for a
      T-Beam pattern, is not an S3 build. */
  function ZipEntryIndex(fileName: string, entries: seq<string>, regexTest: (string, string) -> bool)
    : (r: Option<nat>)
    ensures r.Some? ==> r.value < |entries|
    ensures r.Some? ==> regexTest(fileName, entries[r.value])
    ensures r.Some? ==> (EndsWith(entries[r.value], UPDATE_SUFFIX) <==> EndsWith(fileName, UPDATE_SUFFIX))
    ensures r.Some? && StartsWith(fileName, TBEAM_PREFIX) ==> !Includes(entries[r.value], S3_MARKER)
    ensures r.Some? ==> forall j :: 0 <= j < r.value ==> !EntryMatches(fileName, entries[j], regexTest)
    ensures r.None? ==> forall j :: 0 <= j < |entries| ==> !EntryMatches(fileName, entries[j], regexTest)
  {
    FindIndex(entries, name => EntryMatches(fileName, name, regexTest))
  }

  /** The bytes a source yields: a download, a decompressed entry, or the file itself. */
  function SourceContent(src: ContentSource, ext: Externals): seq<bv8> {
    match src
    case Remote(url) => ext.fetchUrl(url)
    case ZipEntry(archive, entryName) => ext.entryData(archive, entryName)
    case WholeFile(file) => file.data
  }

  /** The selection fields of the store's state, with its getters as members. */
  datatype SelectionState = SelectionState(
    selectedFirmware: Option<FirmwareResource>,
    selectedFile: Option<LocalFile>,
    hasSeenReleaseNotes: bool)
  {
    /** `hasOnlineFirmware`: a firmware with a non-empty id is selected. */
    predicate HasOnlineFirmware() {
      selectedFirmware.Some? && selectedFirmware.value.id != ""
    }

    /** `hasFirmwareFile`: a file with a non-empty name is selected. */
    predicate HasFirmwareFile() {
      selectedFile.Some? && selectedFile.value.name.Some? && selectedFile.value.name.value != ""
    }

    /** At most one of a remote release and a local file is held. */
    predicate Exclusive() {
      selectedFirmware.None? || selectedFile.None?
    }

    /** `selectedFirmware?.zip_url` is truthy. */
    predicate HasZipUrl() {
      selectedFirmware.Some? && selectedFirmware.value.zipUrl.Some? && selectedFirmware.value.zipUrl.value != ""
    }

    /** `firmwareVersion`: the id without its first 'v', or the pattern `.+`
        that any version matches. */
    function FirmwareVersion(): (v: string)
      ensures !HasOnlineFirmware() ==> v == ANY_VERSION
      ensures HasOnlineFirmware() && 'v' !in selectedFirmware.value.id ==> v == selectedFirmware.value.id
      ensures HasOnlineFirmware() && 'v' in selectedFirmware.value.id ==>
        var id := selectedFirmware.value.id;
        var i := FirstIndexOf(id, 'v');
        |v| == |id| - 1 && v == id[..i] + id[i + 1..]
      ensures HasOnlineFirmware() && StartsWith(selectedFirmware.value.id, "v") ==>
        v == selectedFirmware.value.id[1..]
    {
      if HasOnlineFirmware() then
        var id := selectedFirmware.value.id;
        assert StartsWith(id, "v") ==> id[0] == 'v' && FirstIndexOf(id, 'v') == 0 by {
          if StartsWith(id, "v") {
            assert id[0] == id[..1][0];
          }
        }
        RemoveFirst(id, 'v')
      else ANY_VERSION
    }

    /** `canShowFlash`: the flash step is hidden only while an online release is
        selected and its notes are unread. */
    predicate CanShowFlash()
      ensures CanShowFlash() <==> (HasOnlineFirmware() ==> hasSeenReleaseNotes)
    {
      if selectedFirmware.Some? && selectedFirmware.value.id != "" then hasSeenReleaseNotes else true
    }

    /** `isZipFile`: `selectedFile?.name.endsWith('.zip')`. */
    function IsZipFile(): (z: ZipFlag)
      ensures z == NoFile <==> selectedFile.None?
      ensures z == NameMissing <==> selectedFile.Some? && selectedFile.value.name.None?
      ensures z.Flag? ==> z.isZip == EndsWith(selectedFile.value.name.value, ZIP_SUFFIX)
      ensures HasFirmwareFile() ==> z.Flag?
    {
      match selectedFile
      case None => NoFile
      case Some(file) =>
        match file.name
        case None => NameMissing
        case Some(name) => Flag(EndsWith(name, ZIP_SUFFIX))
    }

    /** `continueToFlash`: the release notes have been read. */
    function ContinueToFlash(): (t: SelectionState)
      ensures t.CanShowFlash()
      ensures t.hasSeenReleaseNotes
      ensures t.selectedFirmware == selectedFirmware && t.selectedFile == selectedFile
    {
      this.(hasSeenReleaseNotes := true)
    }

    /** `setSelectedFirmware`: take a release, drop any file, and ask for the notes again. */
    function WithFirmware(firmware: FirmwareResource): (t: SelectionState)
      ensures t.selectedFirmware == Some(firmware) && t.selectedFile == None && t.Exclusive()
      ensures t.HasOnlineFirmware() <==> firmware.id != ""
      ensures !t.HasFirmwareFile() && t.IsZipFile() == NoFile
      ensures !t.hasSeenReleaseNotes
      ensures t.CanShowFlash() <==> firmware.id == ""
      ensures t.ContinueToFlash().CanShowFlash()
    {
      SelectionState(Some(firmware), None, false)
    }

    /** `setFirmwareFile`: take a local file and drop any release; whether the
        notes were seen is left as it was. */
    function WithFile(file: LocalFile): (t: SelectionState)
      ensures t.selectedFile == Some(file) && t.selectedFirmware == None && t.Exclusive()
      ensures !t.HasOnlineFirmware() && !t.HasZipUrl() && t.CanShowFlash()
      ensures t.FirmwareVersion() == ANY_VERSION
      ensures t.hasSeenReleaseNotes == hasSeenReleaseNotes
      ensures t.HasFirmwareFile() <==> file.name.Some? && file.name.value != ""
    {
      SelectionState(None, Some(file), hasSeenReleaseNotes)
    }

    /** `getReleaseFileUrl`: the file's URL next to the release's zip, or '' when
        the release has no zip URL. */
    function ReleaseFileUrl(fileName: string, corsFriendlyReleaseUrl: string -> string): (url: string)
      ensures url == "" <==> !HasZipUrl()
      ensures HasZipUrl() ==>
        var base := corsFriendlyReleaseUrl(selectedFirmware.value.zipUrl.value);
        |url| == |base| + 1 + |fileName| && StartsWith(url, base) && EndsWith(url, "/" + fileName)
    {
      if !HasZipUrl() then ""
      else
        var base := corsFriendlyReleaseUrl(selectedFirmware.value.zipUrl.value);
        var url := base + "/" + fileName;
        assert url[..|base|] == base;
        assert url[|url| - |"/" + fileName|..] == "/" + fileName;
        url
    }

    /** `fetchBinaryContent`: where the bytes for a requested file come from.
        A release zip URL wins, then an entry of a local zip, then a local file
        that is not a zip; otherwise the fetch fails. */
    function FetchBinaryContent(fileName: string, ext: Externals): (r: Result<ContentSource, FetchError>)
      ensures (r.Ok? && r.value.Remote?) <==> HasZipUrl()
      ensures r.Ok? && r.value.Remote? ==> r.value.url == ReleaseFileUrl(fileName, ext.corsFriendlyReleaseUrl)
      ensures (r.Ok? && r.value.WholeFile?) <==> !HasZipUrl() && IsZipFile() == Flag(false)
      ensures r.Ok? && r.value.WholeFile? ==> selectedFile == Some(r.value.file)
      ensures r.Ok? && r.value.ZipEntry? ==>
        !HasZipUrl() && IsZipFile() == Flag(true) && selectedFile == Some(r.value.archive)
        && var entries := ext.zipEntries(r.value.archive);
           var k := ZipEntryIndex(fileName, entries, ext.regexTest);
           k.Some? && r.value.entryName == entries[k.value]
      ensures r == Err(FileNameUndefined) <==> !HasZipUrl() && IsZipFile() == NameMissing
      ensures r == Err(NothingToFetch) <==>
        !HasZipUrl()
        && (selectedFile.None?
            || (IsZipFile() == Flag(true)
                && ZipEntryIndex(fileName, ext.zipEntries(selectedFile.value), ext.regexTest).None?))
      ensures !HasZipUrl() && IsZipFile() == Flag(true)
              && ZipEntryIndex(fileName, ext.zipEntries(selectedFile.value), ext.regexTest).Some? ==>
        r.Ok? && r.value.ZipEntry?
      ensures r.Err? ==> !r.error.NoMatchInZip? && !HasZipUrl()
    {
      if HasZipUrl() then
        Ok(Remote(ReleaseFileUrl(fileName, ext.corsFriendlyReleaseUrl)))
      else if selectedFile.Some? then
        match IsZipFile()
        case NameMissing => Err(FileNameUndefined)
        case Flag(true) =>
          var entries := ext.zipEntries(selectedFile.value);
          (match ZipEntryIndex(fileName, entries, ext.regexTest)
           case Some(k) => Ok(ZipEntry(selectedFile.value, entries[k]))
           case None => Err(NothingToFetch))
        case Flag(false) => Ok(WholeFile(selectedFile.value))
      else
        Err(NothingToFetch)
    }

    /** `downloadUf2FileSystem`: the name of the entry of the selected zip that is
        saved, the first whose name the pattern matches, or the error it throws. */
    function Uf2FileSystemEntry(searchPattern: string, ext: Externals): (r: Result<string, FetchError>)
      requires selectedFile.Some?
      ensures var entries := ext.zipEntries(selectedFile.value);
        r.Ok? ==> exists i :: 0 <= i < |entries| && entries[i] == r.value
                    && ext.regexTest(searchPattern, entries[i])
                    && forall j :: 0 <= j < i ==> !ext.regexTest(searchPattern, entries[j])
      ensures var entries := ext.zipEntries(selectedFile.value);
        r.Err? ==> r.error == NoMatchInZip(searchPattern)
                   && forall j :: 0 <= j < |entries| ==> !ext.regexTest(searchPattern, entries[j])
    {
      var entries := ext.zipEntries(selectedFile.value);
      match FindIndex(entries, name => ext.regexTest(searchPattern, name))
      case Some(k) => Ok(entries[k])
      case None => Err(NoMatchInZip(searchPattern))
    }
  }

  /** The selection the store starts with: `selectedFirmware` is an empty array,
      which has no `id` and no `zip_url` and so reads as no release, and
      `selectedFile` is `{}`, an object without a name. */
  const INITIAL_SELECTION := SelectionState(None, Some(LocalFile(None, [])), false)

  /** At start-up nothing is selected as far as the getters tell, yet `isZipFile`
      throws, so every fetch fails with that TypeError. */
  lemma InitialSelectionQuirk(fileName: string, ext: Externals)
    ensures INITIAL_SELECTION.Exclusive()
    ensures !INITIAL_SELECTION.HasOnlineFirmware() && !INITIAL_SELECTION.HasFirmwareFile()
    ensures INITIAL_SELECTION.CanShowFlash() && INITIAL_SELECTION.FirmwareVersion() == ANY_VERSION
    ensures INITIAL_SELECTION.IsZipFile() == NameMissing
    ensures INITIAL_SELECTION.FetchBinaryContent(fileName, ext) == Err(FileNameUndefined)
  {
  }

  /** The stable release's version string is its tag without the leading 'v'. */
  lemma StableReleaseVersion(s: SelectionState)
    ensures s.WithFirmware(STABLE_RELEASE).FirmwareVersion() == "2.4.0.46d7b82"
  {
  }

  /** Selecting a release with a zip URL makes every fetch download from next to
      that zip, whatever file was held before; selecting a file afterwards makes
      no fetch download. */
  lemma SelectionDecidesRemote(s: SelectionState, firmware: FirmwareResource, file: LocalFile,
                               fileName: string, ext: Externals)
    requires firmware.zipUrl.Some? && firmware.zipUrl.value != ""
    ensures var r := s.WithFirmware(firmware).FetchBinaryContent(fileName, ext);
      r.Ok? && r.value == Remote(ext.corsFriendlyReleaseUrl(firmware.zipUrl.value) + "/" + fileName)
    ensures var r := s.WithFirmware(firmware).WithFile(file).FetchBinaryContent(fileName, ext);
      !(r.Ok? && r.value.Remote?)
  {
  }
}
