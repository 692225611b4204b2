/** The device registry of the Wake-on-LAN app: an ordered list of device records
    persisted as one JSON file, read and rewritten in full by every command.

    The file is an abstract value (FileState); the outcome of writing it and the
    freshly generated UUID are parameters of the commands. */
module DeviceManager {
  import opened Wrappers

  /** A UDP port as the source stores it: an unsigned 16-bit integer. */
  newtype u16 = x: int | 0 <= x < 0x1_0000

  /** One registered device. `targetAddr` and `port` are optional. */
  datatype Device = Device(
    id: string,
    name: string,
    mac: string,
    targetAddr: Option<string>,
    port: Option<u16>)

  // ---------------------------------------------------------------------------
  // The list: lookup by id, removal by id, and the id-uniqueness invariant
  // ---------------------------------------------------------------------------

  /** Some record in `ds` carries `id`. */
  predicate HasId(ds: seq<Device>, id: string) {
    exists i :: 0 <= i < |ds| && ds[i].id == id
  }

  /** No two records in `ds` carry the same id. */
  predicate UniqueIds(ds: seq<Device>) {
    forall i, j :: 0 <= i < j < |ds| ==> ds[i].id != ds[j].id
  }

  /** The ids of `ds`, in order. */
  function Ids(ds: seq<Device>): (r: seq<string>)
    ensures |r| == |ds| && forall i :: 0 <= i < |ds| ==> r[i] == ds[i].id
  {
    if ds == [] then [] else [ds[0].id] + Ids(ds[1..])
  }

  /** The index of the first record whose id is `id`, as `Iterator::position` finds it. */
  function FirstIndexOf(ds: seq<Device>, id: string): (r: Option<nat>)
    ensures r.None? <==> !HasId(ds, id)
    ensures r.Some? ==> r.value < |ds| && ds[r.value].id == id
    ensures r.Some? ==> forall j :: 0 <= j < r.value ==> ds[j].id != id
  {
    if ds == [] then None
    else if ds[0].id == id then Some(0)
    else
      match FirstIndexOf(ds[1..], id)
      case None =>
        assert forall i :: 0 < i < |ds| ==> ds[i] == ds[1..][i - 1];
        None
      case Some(k) =>
        assert forall j :: 0 < j <= k ==> ds[j] == ds[1..][j - 1];
        Some(k + 1)
  }

  /** The records of `ds` whose id differs from `id`, as `Vec::retain` keeps them. */
  function Retained(ds: seq<Device>, id: string): (r: seq<Device>)
    ensures |r| <= |ds|
    ensures forall d :: d in r <==> d in ds && d.id != id
    ensures |r| == |ds| <==> !HasId(ds, id)
  {
    if ds == [] then []
    else
      var rest := Retained(ds[1..], id);
      assert forall d :: d in ds <==> d == ds[0] || d in ds[1..];
      assert HasId(ds, id) <==> ds[0].id == id || HasId(ds[1..], id) by {
        if HasId(ds[1..], id) {
          var i :| 0 <= i < |ds[1..]| && ds[1..][i].id == id;
          assert ds[i + 1].id == id;
        }
        if HasId(ds, id) && ds[0].id != id {
          var i :| 0 <= i < |ds| && ds[i].id == id;
          assert ds[1..][i - 1].id == id;
        }
      }
      if ds[0].id != id then [ds[0]] + rest else rest
  }

  /** Retaining distributes over concatenation: the kept records stay in their
      original relative order. */
  lemma {:induction false} RetainedAppend(a: seq<Device>, b: seq<Device>, id: string)
    ensures Retained(a + b, id) == Retained(a, id) + Retained(b, id)
  {
    if a == [] {
      assert a + b == b;
    } else {
      assert (a + b)[1..] == a[1..] + b;
      RetainedAppend(a[1..], b, id);
    }
  }

  /** Retaining after appending one record: the record is kept exactly when its id differs. */
  lemma RetainedSnoc(ds: seq<Device>, d: Device, id: string)
    ensures Retained(ds + [d], id) == Retained(ds, id) + (if d.id != id then [d] else [])
  {
    RetainedAppend(ds, [d], id);
    assert [d][1..] == [];
  }

  /** When no record carries `id`, retaining changes nothing. */
  lemma {:induction false} RetainedNoMatch(ds: seq<Device>, id: string)
    requires !HasId(ds, id)
    ensures Retained(ds, id) == ds
  {
    if ds != [] {
      assert ds[0].id != id;
      forall j | 0 <= j < |ds[1..]| ensures ds[1..][j].id != id {
        assert ds[1..][j] == ds[j + 1];
      }
      RetainedNoMatch(ds[1..], id);
      assert ds == [ds[0]] + ds[1..];
    }
  }

  /** With unique ids, retaining removes exactly the one record at the first
      (and only) position of `id`. */
  lemma RetainedUniqueRemovesOne(ds: seq<Device>, id: string, i: nat)
    requires UniqueIds(ds)
    requires FirstIndexOf(ds, id) == Some(i)
    ensures Retained(ds, id) == ds[..i] + ds[i + 1..]
    ensures |Retained(ds, id)| == |ds| - 1
  {
    assert ds == ds[..i] + ([ds[i]] + ds[i + 1..]);
    RetainedAppend(ds[..i], [ds[i]] + ds[i + 1..], id);
    RetainedAppend([ds[i]], ds[i + 1..], id);
    forall j | 0 <= j < i ensures ds[..i][j].id != id {
      assert ds[..i][j] == ds[j];
    }
    var after := ds[i + 1..];
    forall j | 0 <= j < |after| ensures after[j].id != id {
      assert after[j] == ds[i + 1 + j];
    }
    RetainedNoMatch(ds[..i], id);
    RetainedNoMatch(ds[i + 1..], id);
  }

  /** Retaining keeps ids unique. */
  lemma {:induction false} RetainedKeepsUnique(ds: seq<Device>, id: string)
    requires UniqueIds(ds)
    ensures UniqueIds(Retained(ds, id))
  {
    if ds != [] {
      var rest := Retained(ds[1..], id);
      assert UniqueIds(ds[1..]) by {
        forall i, j | 0 <= i < j < |ds[1..]| ensures ds[1..][i].id != ds[1..][j].id {
          assert ds[1..][i] == ds[i + 1] && ds[1..][j] == ds[j + 1];
        }
      }
      RetainedKeepsUnique(ds[1..], id);
      if ds[0].id != id {
        forall k | 0 <= k < |rest| ensures rest[k].id != ds[0].id {
          assert rest[k] in ds[1..];
          var m :| 0 <= m < |ds[1..]| && ds[1..][m] == rest[k];
          assert ds[m + 1] == rest[k];
        }
        var r := [ds[0]] + rest;
        forall i, j | 0 <= i < j < |r| ensures r[i].id != r[j].id {
          if i == 0 {
            assert r[j] == rest[j - 1];
          } else {
            assert r[i] == rest[i - 1] && r[j] == rest[j - 1];
          }
        }
      }
    }
  }

  /** Finds the first position of `id` by a scan from the front
      (`devices.iter().position(|d| d.id == id)`). */
  method FindPosition(ds: seq<Device>, id: string) returns (index: Option<nat>)
    ensures index == FirstIndexOf(ds, id)
  {
    var i := 0;
    while i < |ds|
      invariant 0 <= i <= |ds|
      invariant forall j :: 0 <= j < i ==> ds[j].id != id
    {
      if ds[i].id == id {
        index := Some(i);
        return;
      }
      i := i + 1;
    }
    index := None;
  }

  /** Keeps the records whose id differs from `id`, front to back
      (`devices.retain(|d| d.id != id)`). */
  method RetainOthers(ds: seq<Device>, id: string) returns (kept: seq<Device>)
    ensures kept == Retained(ds, id)
  {
    kept := [];
    var i := 0;
    while i < |ds|
      invariant 0 <= i <= |ds|
      invariant kept == Retained(ds[..i], id)
    {
      var d := ds[i];
      assert ds[..i + 1] == ds[..i] + [d];
      RetainedSnoc(ds[..i], d, id);
      if d.id != id {
        kept := kept + [d];
      }
      i := i + 1;
    }
    assert ds[..i] == ds;
  }

  // ---------------------------------------------------------------------------
  // The backing file and the outcome of each command
  // ---------------------------------------------------------------------------

  /** The state of devices.json: absent, present but not openable, present but not
      decodable, or holding a JSON array that decodes to `devices`. */
  datatype FileState = Missing | Unopenable | Malformed | Json(devices: seq<Device>)

  /** How a write of the file turns out. `File::create` truncates the file before
      anything is written, and the JSON goes through a `BufWriter` that is never
      flushed explicitly: the final flush happens when the writer is dropped, and an
      error there is discarded.
      - Written: the file holds the list;
      - CreateFails: creating the file fails, the file is as it was, the error is reported;
      - WriteFails: a write of a full buffer fails after the truncation, the error is reported;
      - FlushLost: the final flush on drop fails after the truncation, the error is lost
        and the write reports success. */
  datatype WriteOutcome = Written | CreateFails | WriteFails | FlushLost {
    /** write_devices_to_file returns Ok. */
    predicate ReportsSuccess() {
      Written? || FlushLost?
    }
  }

  /** The failures a command reports. */
  datatype Error =
    | OpenFailed
    | DecodeFailed
    | CreateFailed
    | WriteFailed
    | UpdateNotFound(id: string)
    | DeleteNotFound(id: string)

  /** What a command returns to its caller, and the file it leaves behind. */
  datatype Step = Step(result: Result<seq<Device>, Error>, file: FileState)

  /** Reads the device list. A missing file is an empty list; any other open error,
      and a file that does not decode, is a failure. */
  function ReadDevices(f: FileState): (r: Result<seq<Device>, Error>)
    ensures r.Success? <==> f.Missing? || f.Json?
    ensures f.Missing? ==> r == Success([])
    ensures f.Json? ==> r == Success(f.devices)
    ensures f.Unopenable? ==> r == Failure(OpenFailed)
    ensures f.Malformed? ==> r == Failure(DecodeFailed)
  {
    match f
    case Json(ds) => Success(ds)
    case Missing => Success([])
    case Unopenable => Failure(OpenFailed)
    case Malformed => Failure(DecodeFailed)
  }

  /** The file after writing `ds` to it with outcome `w`: a complete write reads back
      as `ds`, a failed create leaves the file, a write that fails after the
      truncation leaves a file that no longer decodes. */
  function FileAfterWrite(f: FileState, ds: seq<Device>, w: WriteOutcome): (g: FileState)
    ensures w == Written ==> ReadDevices(g) == Success(ds)
    ensures w == CreateFails ==> g == f
    ensures w == WriteFails || w == FlushLost ==> ReadDevices(g) == Failure(DecodeFailed)
  {
    match w
    case Written => Json(ds)
    case CreateFails => f
    case WriteFails => Malformed
    case FlushLost => Malformed
  }

  /** Writes `ds` and, if the write reported success, returns it. */
  function Persist(f: FileState, ds: seq<Device>, w: WriteOutcome): (s: Step)
    ensures s.result.Success? <==> w.ReportsSuccess()
    ensures s.result.Success? ==> s.result.value == ds
    ensures w == CreateFails ==> s == Step(Failure(CreateFailed), f)
    ensures w == WriteFails ==> s.result == Failure(WriteFailed)
    ensures s.file == FileAfterWrite(f, ds, w)
  {
    var result := match w
      case Written => Success(ds)
      case CreateFails => Failure(CreateFailed)
      case WriteFails => Failure(WriteFailed)
      case FlushLost => Success(ds);
    Step(result, FileAfterWrite(f, ds, w))
  }

  /** add: stamp the generated id on the caller's record and append it. It fails only
      on a read failure or a reported write failure; only a write failing after the
      truncation changes the file on failure; a success whose write completed has
      stored exactly the returned list, one whose final flush was lost has not. */
  function AddStep(f: FileState, device: Device, newId: string, w: WriteOutcome): (s: Step)
    ensures s.result.Success? <==> ReadDevices(f).Success? && w.ReportsSuccess()
    ensures s.result.Failure? && s.result.error != WriteFailed ==> s.file == f
    ensures s.result.Success? && w == Written ==> ReadDevices(s.file) == s.result
    ensures s.result.Success? && w == FlushLost ==> ReadDevices(s.file) == Failure(DecodeFailed)
    ensures s.result == Failure(WriteFailed) ==> ReadDevices(s.file) == Failure(DecodeFailed)
    ensures ReadDevices(f).Failure? ==> s == Step(Failure(ReadDevices(f).error), f)
  {
    match ReadDevices(f)
    case Failure(e) => Step(Failure(e), f)
    case Success(ds) => Persist(f, ds + [device.(id := newId)], w)
  }

  /** update: overwrite the first record with the same id, in place. It succeeds
      exactly when the read succeeds, some record has the id and the write reports
      success; the file changes on failure only when the write fails after the
      truncation; a completed write stores exactly the returned list. */
  function UpdateStep(f: FileState, device: Device, w: WriteOutcome): (s: Step)
    ensures s.result.Success? <==>
      ReadDevices(f).Success? && HasId(ReadDevices(f).value, device.id) && w.ReportsSuccess()
    ensures s.result.Failure? && s.result.error != WriteFailed ==> s.file == f
    ensures s.result.Success? && w == Written ==> ReadDevices(s.file) == s.result
    ensures s.result.Success? && w == FlushLost ==> ReadDevices(s.file) == Failure(DecodeFailed)
    ensures s.result == Failure(WriteFailed) ==> ReadDevices(s.file) == Failure(DecodeFailed)
    ensures ReadDevices(f).Failure? ==> s == Step(Failure(ReadDevices(f).error), f)
  {
    match ReadDevices(f)
    case Failure(e) => Step(Failure(e), f)
    case Success(ds) =>
      match FirstIndexOf(ds, device.id)
      case Some(i) => Persist(f, ds[i := device], w)
      case None => Step(Failure(UpdateNotFound(device.id)), f)
  }

  /** delete: drop every record with the id; fail if the length did not change. It
      succeeds exactly when the read succeeds, some record has the id and the write
      reports success; the file changes on failure only when the write fails after
      the truncation; a completed write stores exactly the returned list. */
  function DeleteStep(f: FileState, id: string, w: WriteOutcome): (s: Step)
    ensures s.result.Success? <==>
      ReadDevices(f).Success? && HasId(ReadDevices(f).value, id) && w.ReportsSuccess()
    ensures s.result.Failure? && s.result.error != WriteFailed ==> s.file == f
    ensures s.result.Success? && w == Written ==> ReadDevices(s.file) == s.result
    ensures s.result.Success? && w == FlushLost ==> ReadDevices(s.file) == Failure(DecodeFailed)
    ensures s.result == Failure(WriteFailed) ==> ReadDevices(s.file) == Failure(DecodeFailed)
    ensures ReadDevices(f).Failure? ==> s == Step(Failure(ReadDevices(f).error), f)
  {
    match ReadDevices(f)
    case Failure(e) => Step(Failure(e), f)
    case Success(ds) =>
      var kept := Retained(ds, id);
      if |kept| == |ds| then Step(Failure(DeleteNotFound(id)), f)
      else Persist(f, kept, w)
  }

  // ---------------------------------------------------------------------------
  // What the commands promise
  // ---------------------------------------------------------------------------

  /** A successful add returns the previous list with one record appended: the
      caller's record with only its id replaced. */
  lemma AddAppendsOne(f: FileState, device: Device, newId: string, w: WriteOutcome)
    ensures AddStep(f, device, newId, w).result.Success? ==>
      var ds := ReadDevices(f).value;
      var r := AddStep(f, device, newId, w).result.value;
      |r| == |ds| + 1 && r[..|ds|] == ds &&
      r[|ds|].id == newId && r[|ds|].name == device.name && r[|ds|].mac == device.mac &&
      r[|ds|].targetAddr == device.targetAddr && r[|ds|].port == device.port
  {
  }

  /** A successful add with a fresh id keeps the ids of the list unique. */
  lemma AddKeepsIdsUnique(f: FileState, ds: seq<Device>, device: Device, newId: string, w: WriteOutcome)
    requires ReadDevices(f) == Success(ds) && UniqueIds(ds) && !HasId(ds, newId)
    ensures AddStep(f, device, newId, w).result.Success? ==>
      UniqueIds(AddStep(f, device, newId, w).result.value)
  {
  }

  /** update with a known id replaces the first record carrying it and nothing else;
      the length and the sequence of ids are unchanged. */
  lemma UpdateReplacesFirst(f: FileState, device: Device, ds: seq<Device>, w: WriteOutcome)
    requires ReadDevices(f) == Success(ds) && HasId(ds, device.id) && w.ReportsSuccess()
    ensures
      var i := FirstIndexOf(ds, device.id).value;
      var r := UpdateStep(f, device, w).result;
      r.Success? && |r.value| == |ds| && r.value[i] == device &&
      (forall j :: 0 <= j < i ==> ds[j].id != device.id) &&
      (forall j :: 0 <= j < |ds| && j != i ==> r.value[j] == ds[j]) &&
      Ids(r.value) == Ids(ds)
  {
    var i := FirstIndexOf(ds, device.id).value;
    var r := ds[i := device];
    assert UpdateStep(f, device, w) == Persist(f, r, w);
    ReplaceKeepsIds(ds, i, device);
  }

  /** Overwriting a record by one with the same id leaves the id sequence unchanged. */
  lemma ReplaceKeepsIds(ds: seq<Device>, i: nat, d: Device)
    requires i < |ds| && ds[i].id == d.id
    ensures Ids(ds[i := d]) == Ids(ds)
  {
    var a, b := Ids(ds[i := d]), Ids(ds);
    forall k | 0 <= k < |ds| ensures a[k] == b[k] {}
  }

  /** update keeps ids unique (it replaces a record by one with the same id). */
  lemma UpdateKeepsIdsUnique(f: FileState, device: Device, w: WriteOutcome)
    requires ReadDevices(f).Success? && UniqueIds(ReadDevices(f).value)
    ensures UpdateStep(f, device, w).result.Success? ==>
      UniqueIds(UpdateStep(f, device, w).result.value)
  {
  }

  /** update with an id no record has fails with NotFound and leaves the file as it was. */
  lemma UpdateUnknownFails(f: FileState, device: Device, w: WriteOutcome)
    requires ReadDevices(f).Success? && !HasId(ReadDevices(f).value, device.id)
    ensures UpdateStep(f, device, w) == Step(Failure(UpdateNotFound(device.id)), f)
  {
  }

  /** A successful delete returns exactly the records with another id, in their
      original order (see RetainedAppend), and fewer than before. */
  lemma DeleteKeepsOthers(f: FileState, id: string, w: WriteOutcome)
    requires ReadDevices(f).Success?
    ensures
      var ds := ReadDevices(f).value;
      var r := DeleteStep(f, id, w).result;
      r.Success? ==> r.value == Retained(ds, id) &&
                     |r.value| < |ds| &&
                     (forall d :: d in r.value <==> d in ds && d.id != id)
  {
  }

  /** With unique ids, a successful delete removes one record, at the position of
      the id, and keeps the ids unique. */
  lemma DeleteUniqueRemovesOne(f: FileState, id: string, w: WriteOutcome)
    requires ReadDevices(f).Success? && UniqueIds(ReadDevices(f).value)
    ensures
      var ds := ReadDevices(f).value;
      var r := DeleteStep(f, id, w).result;
      r.Success? ==>
        var i := FirstIndexOf(ds, id).value;
        r.value == ds[..i] + ds[i + 1..] && |r.value| == |ds| - 1 && UniqueIds(r.value)
  {
    var ds := ReadDevices(f).value;
    if DeleteStep(f, id, w).result.Success? {
      RetainedUniqueRemovesOne(ds, id, FirstIndexOf(ds, id).value);
      RetainedKeepsUnique(ds, id);
    }
  }

  /** delete with an id no record has fails with NotFound and leaves the file as it was. */
  lemma DeleteUnknownFails(f: FileState, id: string, w: WriteOutcome)
    requires ReadDevices(f).Success? && !HasId(ReadDevices(f).value, id)
    ensures DeleteStep(f, id, w) == Step(Failure(DeleteNotFound(id)), f)
  {
  }

  /** Deleting the same id a second time, after a successful delete, fails and
      leaves the file as it is: with DeleteNotFound when the first write completed,
      and with DecodeFailed when its final flush was lost. */
  lemma DeleteTwiceFails(f: FileState, id: string, w1: WriteOutcome, w2: WriteOutcome)
    requires DeleteStep(f, id, w1).result.Success?
    ensures
      var f1 := DeleteStep(f, id, w1).file;
      DeleteStep(f1, id, w2).result.Failure? && DeleteStep(f1, id, w2).file == f1 &&
      (w1 == Written ==> DeleteStep(f1, id, w2).result.error == DeleteNotFound(id)) &&
      (w1 == FlushLost ==> DeleteStep(f1, id, w2).result.error == DecodeFailed)
  {
    if w1 == Written {
      var kept := Retained(ReadDevices(f).value, id);
      forall i | 0 <= i < |kept| ensures kept[i].id != id {
        assert kept[i] in kept;
      }
    }
  }

  // ---------------------------------------------------------------------------
  // The store: each command reads the file, changes the list, and writes it back
  // ---------------------------------------------------------------------------

  class DeviceStore {
    /** The devices.json file in the app's config directory. */
    var file: FileState

    constructor (initial: FileState)
      ensures file == initial
    {
      file := initial;
    }

    /** load_devices_internal: the stored list, or the read failure. */
    method Load() returns (r: Result<seq<Device>, Error>)
      ensures r.Success? <==> file.Missing? || file.Json?
      ensures file.Missing? ==> r == Success([])
      ensures file.Json? ==> r == Success(file.devices)
      ensures file.Unopenable? ==> r == Failure(OpenFailed)
      ensures file.Malformed? ==> r == Failure(DecodeFailed)
    {
      r := ReadDevices(file);
    }

    /** write_devices_to_file. */
    method WriteDevices(devices: seq<Device>, w: WriteOutcome) returns (r: Result<(), Error>)
      modifies this
      ensures file == FileAfterWrite(old(file), devices, w)
      ensures r.Success? <==> w.ReportsSuccess()
      ensures w == CreateFails ==> r == Failure(CreateFailed)
      ensures w == WriteFails ==> r == Failure(WriteFailed)
    {
      match w
      case Written =>
        file := Json(devices);
        r := Success(());
      case CreateFails =>
        r := Failure(CreateFailed);
      case WriteFails =>
        file := Malformed;
        r := Failure(WriteFailed);
      case FlushLost =>
        file := Malformed;
        r := Success(());
    }

    /** add_device_internal, with `newId` standing for the generated UUID. */
    method Add(device: Device, newId: string, w: WriteOutcome) returns (r: Result<seq<Device>, Error>)
      modifies this
      ensures Step(r, file) == AddStep(old(file), device, newId, w)
    {
      var read := Load();
      if read.Failure? {
        return Failure(read.error);
      }
      var devices := read.value;
      var newDevice := device.(id := newId);
      devices := devices + [newDevice];
      var written := WriteDevices(devices, w);
      if written.Failure? {
        return Failure(written.error);
      }
      r := Success(devices);
    }

    /** update_device_internal. */
    method Update(device: Device, w: WriteOutcome) returns (r: Result<seq<Device>, Error>)
      modifies this
      ensures Step(r, file) == UpdateStep(old(file), device, w)
    {
      var read := Load();
      if read.Failure? {
        return Failure(read.error);
      }
      var devices := read.value;
      var index := FindPosition(devices, device.id);
      if index.Some? {
        devices := devices[index.value := device];
        var written := WriteDevices(devices, w);
        if written.Failure? {
          return Failure(written.error);
        }
        r := Success(devices);
      } else {
        r := Failure(UpdateNotFound(device.id));
      }
    }

    /** delete_device_internal. */
    method Delete(id: string, w: WriteOutcome) returns (r: Result<seq<Device>, Error>)
      modifies this
      ensures Step(r, file) == DeleteStep(old(file), id, w)
    {
      var read := Load();
      if read.Failure? {
        return Failure(read.error);
      }
      var devices := read.value;
      var initialLen := |devices|;
      devices := RetainOthers(devices, id);
      if |devices| == initialLen {
        return Failure(DeleteNotFound(id));
      }
      var written := WriteDevices(devices, w);
      if written.Failure? {
        return Failure(written.error);
      }
      r := Success(devices);
    }
  }
}
