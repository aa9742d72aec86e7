# Firmware store of the web flasher, in Dafny

This project models the Pinia store `firmware` of a browser application that
flashes Meshtastic firmware onto ESP32 devices over Web Serial. The store holds
what the user selected: a remote release from the firmware list, or a local
file (a raw binary or a zip archive). It also holds the "release notes seen"
gate and the progress of a flash. From this state it decides:

- where the bytes of a requested image come from (next to the release's zip
  URL, an entry of a local zip, or the local file itself);
- which zip entry matches a requested file name;
- which images go to which flash addresses;
- how the flashing library's progress reports update the percentage, the
  image index and the "flashing" flag.

Modules:

- `Wrappers` (`wrappers.dfy`): `Option` and `Result`.
- `JsBuiltins` (`js_builtins.dfy`): the JavaScript built-ins the store relies
  on, over `seq<char>`. These are `startsWith`, `endsWith`, `includes`,
  `replace` with a one-character pattern, `Array.prototype.find`, and the
  decimal rendering of a number in a template literal.
- `FirmwareState` (`firmware_state.dfy`): the selection fields as a
  `SelectionState` value. Its members are the getters (Pinia getters are
  functions of `state`) and the pure decisions of `getReleaseFileUrl`,
  `fetchBinaryContent` and `downloadUf2FileSystem`.
- `Flashing` (`flashing.dfy`): the two `FlashOptions` plans, the integer form
  of `Math.round`, and what a `reportProgress` callback does to the progress
  fields, one report at a time and over a run of reports.
- `Store` (`firmware_store.dfy`): the class `FirmwareStore` with the store's
  state as fields. Its methods update those fields in place. Each method is
  specified by the `SelectionState` or `Flashing` function it must agree
  with, and its `modifies` clause names the exact fields it may change.

Code the store calls but does not contain is an `Externals` value of
functions, passed as a parameter:

- `getCorsFriendyReleaseUrl`;
- `RegExp.prototype.test`;
- the list of entry names of a zip;
- downloading a URL;
- extracting a zip entry.

The initial `selectedFirmware` is an empty array. It has no `id` and no
`zip_url`, and every getter and action reads only those two properties, so it
behaves exactly like `undefined` and is modelled as `None`. The initial
`selectedFile` is `{}`, modelled as a file whose name is `None`. On it,
`isZipFile` throws a TypeError (`undefined.endsWith`), so at start-up every
`fetchBinaryContent` fails with that TypeError rather than with the "Cannot
fetch binary content" error (`FirmwareState.InitialSelectionQuirk`).

## Model

| member | source | states |
|---|---|---|
| `JsBuiltins.IncludesIffOccurs` | stores/firmwareStore.ts:179 | `includes` as a left-to-right scan holds exactly when the substring occurs at some position |
| `JsBuiltins.FirstIndexOf` | stores/firmwareStore.ts:55 | the result is a position holding the character, and no earlier position holds it |
| `JsBuiltins.RemoveFirst` | stores/firmwareStore.ts:55 | `replace('v', '')` leaves a string without 'v' unchanged, and otherwise removes exactly the first 'v' |
| `JsBuiltins.FindIndex` | stores/firmwareStore.ts:80 | `find` yields the first element in list order that satisfies the predicate, or nothing when none does |
| `JsBuiltins.NatToString` | stores/firmwareStore.ts:54 | a number renders as a non-empty string of digits that starts with '0' only for zero, and zero renders as exactly "0" |
| `JsBuiltins.NatToStringRoundTrip` | stores/firmwareStore.ts:54 | reading the rendered digits back gives the number |
| `FirmwareState.ZipEntryIndex` | stores/firmwareStore.ts:176-182 | the chosen entry matches the pattern, ends in `update.bin` exactly when the pattern does, is not an `s3` build when the pattern starts with `firmware-tbeam-.`, and no earlier entry passes the test; with no result, no entry passes |
| `FirmwareState.SelectionState.HasOnlineFirmware` | stores/firmwareStore.ts:52 | the getter's definition: a release with a non-empty id is selected; its values after each action are proved in `WithFirmware` (true iff the id is non-empty) and `WithFile` (false) |
| `FirmwareState.SelectionState.HasFirmwareFile` | stores/firmwareStore.ts:53 | the getter's definition: a file with a non-empty name is selected; its values after each action are proved in `WithFirmware` (false) and `WithFile` (true iff the name is non-empty), and `IsZipFile` proves that a file it accepts never makes `isZipFile` throw |
| `FirmwareState.SelectionState.FirmwareVersion` | stores/firmwareStore.ts:55 | without a release with a non-empty id the version is `.+`; otherwise it is the id with its first 'v' removed (the id unchanged if it has no 'v', the id minus its first character if it starts with 'v') |
| `FirmwareState.SelectionState.CanShowFlash` | stores/firmwareStore.ts:56 | the getter's definition, restated through `hasOnlineFirmware`: the flash step shows unless an online release is selected and its notes are unread; its values after each action are proved in `WithFirmware`, `WithFile` and `ContinueToFlash` |
| `FirmwareState.SelectionState.IsZipFile` | stores/firmwareStore.ts:57 | `undefined` exactly when no file is selected, a TypeError exactly when the file has no name, otherwise whether the name ends in `.zip`; a file that `hasFirmwareFile` accepts never throws |
| `FirmwareState.SelectionState.ContinueToFlash` | stores/firmwareStore.ts:60-62 | afterwards the flash step shows and the selection is unchanged |
| `FirmwareState.SelectionState.WithFirmware` | stores/firmwareStore.ts:52-69 | `setSelectedFirmware` stores the release, clears the file and the notes gate; then `hasOnlineFirmware` iff the id is non-empty, `hasFirmwareFile` is false, and `canShowFlash` is false for a non-empty id until `continueToFlash` makes it true |
| `FirmwareState.SelectionState.WithFile` | stores/firmwareStore.ts:90-93 | `setFirmwareFile` stores the file and clears the release; then `hasOnlineFirmware` is false, `canShowFlash` is true, the version is `.+`, the notes gate is unchanged, and `hasFirmwareFile` iff the name is non-empty |
| `FirmwareState.SelectionState.ReleaseFileUrl` | stores/firmwareStore.ts:70-74 | `''` exactly when the release has no zip URL; otherwise the CORS-friendly base, a '/', then the file name |
| `FirmwareState.SelectionState.FetchBinaryContent` | stores/firmwareStore.ts:163-193 | a zip URL means a download of `ReleaseFileUrl`, whatever file is held; otherwise a `.zip` file with a matching entry always yields that entry, the one `ZipEntryIndex` picks, and a non-zip file is taken whole; no file, or a zip without a matching entry, fails with the "cannot fetch" error; a file without a name fails with the TypeError; the no-match-in-zip error of `downloadUf2FileSystem` never arises here |
| `FirmwareState.SelectionState.Uf2FileSystemEntry` | stores/firmwareStore.ts:75-89 | the saved entry is the first whose name the pattern matches; when none matches, it fails with the pattern in the error |
| `FirmwareState.InitialSelectionQuirk` | stores/firmwareStore.ts:38-57 | at start-up the selection is exclusive, neither getter reports a selection, the flash step shows, the version is `.+`, and `isZipFile` throws, so every fetch fails with that TypeError |
| `FirmwareState.StableReleaseVersion` | stores/firmwareStore.ts:29-35 | selecting the listed stable release gives version `2.4.0.46d7b82` |
| `FirmwareState.SelectionDecidesRemote` | stores/firmwareStore.ts:164-169 | after selecting a release with a zip URL every fetch downloads from next to that zip; after then selecting a file none does |
| `Flashing.UpdatePlan` | stores/firmwareStore.ts:105-111 | one image, the fetched content, at 0x10000, without erasing the chip, with the chip's own size, mode and frequency kept and compression on |
| `Flashing.CleanInstallPlan` | stores/firmwareStore.ts:145-151 | three images in argument order at 0x0, 0x260000 and 0x300000 (ascending), the whole chip erased first, same kept settings |
| `Flashing.Percent` | stores/firmwareStore.ts:113 | the integer nearest 100·written/total with halves rounded up, as `Math.round` does; within 0..100 when written ≤ total; 100 when written = total |
| `Flashing.PercentLabel` | stores/firmwareStore.ts:54 | `percentDone` is the percentage's decimal digits followed by '%', with no leading zero (zero gives "0%"), and the digits read back as the percentage |
| `Flashing.AfterReport` | stores/firmwareStore.ts:112-159 | one report sets the percentage (100 when the image is complete, at most 100 when written ≤ total); flashing stays on exactly when it was on and the report does not complete the flash |
| `Flashing.FlashingUntilCompletion` | stores/firmwareStore.ts:114-117 | after any run of reports the store is still flashing iff it was flashing and no report completed the flash: written = total, and under a clean install also fileIndex > 1 |
| `Flashing.ProgressFollowsLastReport` | stores/firmwareStore.ts:152-154 | after a run of reports the percentage is the last report's, and a clean install's index is the last report's file index while a single-image update leaves it alone |
| `Flashing.PercentStaysInRange` | stores/firmwareStore.ts:113 | while no report has written > total, the percentage stays within 0..100 |
| `Flashing.FinalReportEndsFlash` | stores/firmwareStore.ts:155-158 | a run whose last report completes the flash ends at 100 percent and not flashing |
| `Store.FirmwareStore.constructor` | stores/firmwareStore.ts:27-50 | the initial state: the stable release listed, nothing else listed, the `[]`/`{}` selection, the notes gate closed, baud rate 115200, no progress, not flashing, not connected |
| `Store.FirmwareStore.ContinueToFlash` | stores/firmwareStore.ts:60-62 | sets only `hasSeenReleaseNotes`, as `SelectionState.ContinueToFlash`, and leaves the exclusivity of release and file as it was |
| `Store.FirmwareStore.SetSelectedFirmware` | stores/firmwareStore.ts:65-69 | changes only the three selection fields, as `SelectionState.WithFirmware`, and keeps release and file exclusive |
| `Store.FirmwareStore.SetFirmwareFile` | stores/firmwareStore.ts:90-93 | changes only `selectedFile` and `selectedFirmware`, as `SelectionState.WithFile`, and keeps release and file exclusive |
| `Store.FirmwareStore.ReportProgress` | stores/firmwareStore.ts:152-159 | changes only the progress fields, as `AfterReport` under the plan's rule |
| `Store.FirmwareStore.UpdateEspFlash` | stores/firmwareStore.ts:94-121 | marks the store connected; if the fetch fails, returns its error with `isFlashing` unchanged; otherwise sets `isFlashing` and returns the single-image plan of the fetched content |
| `Store.FirmwareStore.CleanInstallEspFlash` | stores/firmwareStore.ts:132-162 | marks the store connected; fetches the app, OTA and LittleFS images in that order; the first failure is returned with `isFlashing` unchanged; otherwise sets `isFlashing` and returns the clean-install plan of the three |

## Left out

- The flashing protocol (`ESPLoader.main`, `writeFlash`, `Transport`): chip detection and writing belong to the external esptool library. The model stops at the plan handed to it and at the callback it calls.
- Store.FirmwareStore.UpdateEspFlash: models only the path where the serial port is granted and the chip connects. A refused port or a failed `ESPLoader.main` throws inside external code before the fetch.
- Store.FirmwareStore.CleanInstallEspFlash: the same as `UpdateEspFlash`.
- `startWrite` and `resetEsp32`: they only call the external library and toggle RTS on a 100 ms timer.
- `readSerial`, the `port` field and the `ondisconnect` handler that clears `isConnected`: Web Serial I/O and an endless read loop.
- `connectEsp32`: it builds loader options around the external library and a terminal.
- Network, archives and files: `fetch`, `Blob`, `arrayBuffer`, zip.js (`ZipReader`, `getEntries`, `getData`), `saveAs`, xterm's `Terminal`, `openTerminal` and `console.log`. The model takes entry names and bytes from `Externals`.
- Regular expressions: `RegExp` matching is the `regexTest` function of `Externals`. A pattern that `new RegExp` rejects, which throws, is not modelled.
- `convertToBinaryString` is not part of this model. Content is kept as the bytes it would convert.
- `getCorsFriendyReleaseUrl` and `createUrl` are not part of this model. The first is the `corsFriendlyReleaseUrl` function of `Externals`.
- Flashing.Percent: requires `total > 0`. In JavaScript a zero total gives `NaN`, or `Infinity` rounded, which has no integer counterpart.
- Flashing.Percent: uses exact fractions, where the source rounds the floating-point value `(written / total) * 100`.
- The `firmwareApi` client and the empty `fetchList` action: they do nothing in this store.
- The release-notes text of the stable release: it is display data.
- The `async` interleaving of actions: each action is modelled as running to completion.
- `baudRate`, `shouldCleanInstall` and `isReaderLocked`: they are set up by the constructor and never changed by the modelled actions.
