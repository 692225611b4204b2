# Device registry of a Wake-on-LAN desktop app, in Dafny

This project models the device registry of a small Tauri app that stores network
devices and sends them Wake-on-LAN packets. The registry lives in
`src-tauri/src/devicemanager.rs`. It keeps an ordered list of `Device` records
(`id`, `name`, `mac`, optional `targetAddr`, optional `port`) in one JSON file,
`devices.json`. Every command reads the whole list from that file, changes it in
memory and writes the whole list back:

- **load** returns the stored list. A missing file counts as an empty list. Any
  other open error, and a file that does not decode, is an error.
- **add** overwrites the caller's `id` with a freshly generated UUID and appends
  the record.
- **update** overwrites the first record that has the same `id`. It fails if no
  record has it.
- **delete** drops every record with the given `id`. It fails if the length did
  not change.
- Every failure other than the write's own returns before the file is written.
  When the write reports success, the command returns the list it wrote.

How the model is built (`devicemanager.dfy`, module `DeviceManager`; `wrappers.dfy`
holds `Option` and `Result`):

- The file is an abstract value, `FileState`: `Missing`, `Unopenable`, `Malformed`
  (present but not decodable) or `Json(devices)`.
- Serialisation stores the list verbatim.
- Writing the file has four outcomes, given as a parameter (`WriteOutcome`):
  - `Written`: the file now holds the list.
  - `CreateFails`: `File::create` fails and the file is unchanged.
  - `WriteFails`: a write fails after `File::create` has truncated the file and the
    error is reported, so the file no longer decodes.
  - `FlushLost`: the write succeeds as far as the code can see, but the file is
    left truncated. `to_writer_pretty` takes the `BufWriter` by value and never
    flushes it, so the last flush happens when the writer is dropped, and an error
    there is discarded. For any list whose JSON fits in the buffer, a write error is
    never reported: this is the only way one can occur. The command then returns
    `Ok` while the file no longer decodes.
- The generated UUID is a parameter, `newId`. Its freshness is a premise of the
  uniqueness lemma. The code itself never checks it, so `Add` does not require it.
- `DeviceStore` is a class whose `file` field is the backing file. Its methods
  `Load`, `Add`, `Update` and `Delete` follow the Rust functions step by step:
  read, change a local list, write, return early on error.
- Each command method is proved equal to a pure specification: `AddStep`,
  `UpdateStep` or `DeleteStep`. Each one gives the returned result and the file
  left behind. The lemmas state the registry's properties about these functions.
- `Iterator::position` and `Vec::retain` are modelled twice. `FindPosition` and
  `RetainOthers` are loops. `FirstIndexOf` and `Retained` are the recursive
  functions that specify them.

The code does not do the following, which one might expect of such a registry,
and the model does not do them either:

- Validating `name` or `mac`, normalising the MAC, or checking the port range.
  Port 0 is storable because the port is only a `u16`.
- Degrading a read failure to an empty list: the error is propagated.
- Removing just one record on delete: every record with the id is removed.
- Atomic writes or locking.

## Model

| member | source | states |
|---|---|---|
| DeviceManager.ReadDevices | src-tauri/src/devicemanager.rs:39-53 | reading succeeds exactly for a missing file (empty list) or a decodable one (its list); any other open error is OpenFailed, a decode error DecodeFailed |
| DeviceManager.DeviceStore.Load | src-tauri/src/devicemanager.rs:69-73 | load returns the stored list, the empty list for a missing file, and the open or decode error otherwise; it does not change the file |
| DeviceManager.FileAfterWrite | src-tauri/src/devicemanager.rs:57-65 | a completed write reads back as exactly the written list; a failed create leaves the file as it was; a write that fails after the truncation, reported or lost at the final flush, leaves a file that no longer decodes |
| DeviceManager.Persist | src-tauri/src/devicemanager.rs:57-65 | the write reports success exactly for Written and FlushLost, and then the command returns the list it wrote; a create failure is CreateFailed with the file unchanged; a reported write failure is WriteFailed |
| DeviceManager.DeviceStore.WriteDevices | src-tauri/src/devicemanager.rs:57-65 | the new file is the file after the write, success is reported exactly for Written and FlushLost, and the create and write failures are CreateFailed and WriteFailed |
| DeviceManager.FirstIndexOf | src-tauri/src/devicemanager.rs:102 | the result is absent exactly when no record has the id; otherwise it is an index holding the id with no earlier index holding it |
| DeviceManager.FindPosition | src-tauri/src/devicemanager.rs:102 | the front-to-back scan returns the first index whose record has the id, or nothing when no record has it |
| DeviceManager.Retained | src-tauri/src/devicemanager.rs:119-122 | the kept records are exactly the records whose id differs, never more than the input, and as many as the input exactly when no record has the id |
| DeviceManager.RetainOthers | src-tauri/src/devicemanager.rs:120 | the retain loop keeps exactly the Retained records |
| DeviceManager.RetainedAppend | src-tauri/src/devicemanager.rs:120 | retaining distributes over concatenation, so the kept records keep their original relative order |
| DeviceManager.RetainedSnoc | src-tauri/src/devicemanager.rs:120 | retaining a list with one record appended keeps that record exactly when its id differs, after the records kept from the list |
| DeviceManager.RetainedNoMatch | src-tauri/src/devicemanager.rs:119-122 | when no record has the id, retain leaves the list unchanged |
| DeviceManager.RetainedUniqueRemovesOne | src-tauri/src/devicemanager.rs:119-120 | with unique ids, retain removes exactly the record at the id's position, so the length drops by one |
| DeviceManager.RetainedKeepsUnique | src-tauri/src/devicemanager.rs:120 | retain keeps the ids unique |
| DeviceManager.AddStep | src-tauri/src/devicemanager.rs:76-92 | add succeeds exactly when the read succeeds and the write reports success; a failure other than a write failing after the truncation leaves the file as it was; a success with a completed write has stored exactly the returned list, while a reported write failure and a success whose final flush was lost both leave a file that does not decode; a read failure returns the read's own error with the file unchanged |
| DeviceManager.DeviceStore.Add | src-tauri/src/devicemanager.rs:76-92 | the add command returns and leaves the file as AddStep does, through the read, the id stamp, the push and the write |
| DeviceManager.AddAppendsOne | src-tauri/src/devicemanager.rs:81-91 | a successful add returns the previous list unchanged plus one last record carrying the new id and the caller's name, mac, targetAddr and port |
| DeviceManager.AddKeepsIdsUnique | src-tauri/src/devicemanager.rs:81-91 | when the stored ids are unique and the new id is fresh, a successful add returns a list whose ids are unique |
| DeviceManager.UpdateStep | src-tauri/src/devicemanager.rs:95-113 | update succeeds exactly when the read succeeds, some record has the id and the write reports success; a failure other than a write failing after the truncation leaves the file as it was; a completed write stores exactly the returned list, while a reported write failure and a lost final flush both leave a file that does not decode; a read failure returns the read's own error with the file unchanged |
| DeviceManager.DeviceStore.Update | src-tauri/src/devicemanager.rs:95-113 | the update command returns and leaves the file as UpdateStep does, through the position scan and the overwrite at that index |
| DeviceManager.UpdateReplacesFirst | src-tauri/src/devicemanager.rs:102-106 | with a known id and a write that reports success (completed or with its final flush lost), update succeeds, puts the record at the first position holding the id, keeps the length, every other position and the id sequence |
| DeviceManager.ReplaceKeepsIds | src-tauri/src/devicemanager.rs:104 | overwriting a position with a record of the same id leaves the sequence of ids unchanged |
| DeviceManager.UpdateKeepsIdsUnique | src-tauri/src/devicemanager.rs:102-104 | a successful update keeps the ids unique |
| DeviceManager.UpdateUnknownFails | src-tauri/src/devicemanager.rs:102-111 | update with an id no record has fails with UpdateNotFound and leaves the file as it was |
| DeviceManager.DeleteStep | src-tauri/src/devicemanager.rs:115-132 | delete succeeds exactly when the read succeeds, some record has the id and the write reports success; a failure other than a write failing after the truncation leaves the file as it was; a completed write stores exactly the returned list, while a reported write failure and a lost final flush both leave a file that does not decode; a read failure returns the read's own error with the file unchanged |
| DeviceManager.DeviceStore.Delete | src-tauri/src/devicemanager.rs:115-132 | the delete command returns and leaves the file as DeleteStep does, through retain, the length check and the write |
| DeviceManager.DeleteKeepsOthers | src-tauri/src/devicemanager.rs:119-131 | a successful delete returns the Retained list, which is shorter and holds exactly the records with another id |
| DeviceManager.DeleteUniqueRemovesOne | src-tauri/src/devicemanager.rs:119-120 | with unique ids, a successful delete removes just the record at the id's position, the length drops by one and the ids stay unique |
| DeviceManager.DeleteUnknownFails | src-tauri/src/devicemanager.rs:122-127 | delete with an id no record has fails with DeleteNotFound and leaves the file as it was |
| DeviceManager.DeleteTwiceFails | src-tauri/src/devicemanager.rs:115-131 | after a successful delete, deleting the same id again fails and leaves the file unchanged: with DeleteNotFound after a completed write, with DecodeFailed after a lost final flush |

## Left out

- `get_config_path` (`devicemanager.rs:24-36`) is left out: finding and creating the config directory, and that step's own early failure. The model starts from the file's state.
- JSON encoding through serde_json (`devicemanager.rs:15-18, 44, 62`) is left out. Writing stores the list verbatim, and decoding succeeds exactly for a `Json` file.
- UUID v4 generation (`devicemanager.rs:83`) is a parameter, `newId`. Its randomness and its uniqueness are outside the model.
- Logging (`println!`/`eprintln!`) is left out. So are the `async` wrappers and the `#[tauri::command]` functions (`devicemanager.rs:136-179`), which only turn errors into strings. Error values carry only their kind and the id, not the message text.
- The in-place `Vec` mutation (`push`, index assignment, `retain`) is modelled as reassigning a local `seq`. The vector is local to each command, so no aliasing is lost.
- `src-tauri/src/wol.rs` is not part of this model. MAC parsing and packet sending happen inside an external crate whose source is not available, and the send is UDP network I/O.
- `src-tauri/src/lib.rs` is not part of this model. It only registers the commands with Tauri.
- Concurrency is left out. The code has no locking, and the model runs one command at a time.
