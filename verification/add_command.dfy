/**
 * The `add` command (src/index.ts:110-233) once the prompts have answered:
 * pick the key file, check it, warn about it, then append the new profile
 * to the store. Prompt rendering is not modelled; the answers are inputs,
 * and so is what the file system reports about the chosen path.
 */
module AddCommand {

  import opened Optional
  import opened Profiles
  import opened Text
  import opened Validators
  import opened Picker
  import opened Store

  /** What the file system says about paths: `present` answers `existsSync`;
      `modes` answers `statSync(p).mode`, and a path missing from it is one
      whose `statSync` throws. */
  datatype Disk = Disk(present: set<string>, modes: map<string, bv32>)

  /** Why `add` returns early without writing anything. */
  datatype AddAbort =
    | SelectionFailed(why: PickFailure)  // the picker's promise was rejected
    | NoPemSelected                      // the path is empty or blank
    | FileMissing                        // `existsSync` said no
    | ExtensionDeclined                  // not `.pem`, and the user said no

  /** The permission advisory: only ever printed, never a reason to stop. */
  datatype PermissionNote =
    | PermissionsOk
    | PermissionsInsecure(bits: bv32)
    | PermissionsUnchecked  // `statSync` threw: "Could not check file permissions."

  /** Either an early return, or the key file `add` goes on with and what it
      printed about it along the way. */
  datatype KeyFileDecision =
    | Abort(reason: AddAbort)
    | Proceed(pemFilePath: string, extensionWarned: bool, permissions: PermissionNote)

  /** The permission check on an existing key file. */
  function PermissionNoteFor(path: string, disk: Disk): (note: PermissionNote)
    ensures note == PermissionsUnchecked <==> path !in disk.modes
    ensures note.PermissionsInsecure? <==> path in disk.modes && InsecurePermissions(disk.modes[path])
    ensures note.PermissionsInsecure? ==> note.bits == disk.modes[path] % 0x200 && note.bits != OwnerReadWrite
  {
    if path !in disk.modes then PermissionsUnchecked
    else if InsecurePermissions(disk.modes[path]) then PermissionsInsecure(PermissionBits(disk.modes[path]))
    else PermissionsOk
  }

  /** The key-file steps of `add`, in the source's order: the picker's
      result, the blank-path check, `existsSync`, the `.pem` prompt (asked
      only for another extension), then the permission advisory. */
  function DecideKeyFile(pick: Pick, disk: Disk, continueWithoutPem: bool): (r: KeyFileDecision)
    ensures r.Proceed? ==> pick.Picked? && r.pemFilePath == pick.path && pick.path in disk.present
    ensures r.Proceed? ==> r.extensionWarned == !HasPemExtension(pick.path)
    ensures r.Proceed? ==> r.permissions == PermissionNoteFor(pick.path, disk)
    ensures pick.PickRejected? ==> r == Abort(SelectionFailed(pick.why))
    ensures pick.Picked? ==>
              (r == Abort(NoPemSelected) <==> forall i :: 0 <= i < |pick.path| ==> IsJsSpace(pick.path[i]))
    ensures pick.Picked? ==>
              (r == Abort(FileMissing) <==>
                 && (exists i :: 0 <= i < |pick.path| && !IsJsSpace(pick.path[i]))
                 && pick.path !in disk.present)
    ensures pick.Picked? ==>
              (r == Abort(ExtensionDeclined) <==>
                 && (exists i :: 0 <= i < |pick.path| && !IsJsSpace(pick.path[i]))
                 && pick.path in disk.present
                 && !HasPemExtension(pick.path)
                 && !continueWithoutPem)
  {
    match pick
    case PickRejected(why) => Abort(SelectionFailed(why))
    case Picked(p) =>
      if p == "" || Trim(p) == "" then Abort(NoPemSelected)
      else if p !in disk.present then Abort(FileMissing)
      else if !HasPemExtension(p) && !continueWithoutPem then Abort(ExtensionDeclined)
      else Proceed(p, !HasPemExtension(p), PermissionNoteFor(p, disk))
  }

  /** `add` goes on exactly when the picker gave a non-blank path that exists
      and either ends in `.pem` or the user agreed to continue; the
      extension warning is shown exactly for another extension. */
  lemma DecideKeyFileSpec(pick: Pick, disk: Disk, continueWithoutPem: bool)
    ensures DecideKeyFile(pick, disk, continueWithoutPem).Proceed? <==>
              && pick.Picked?
              && (exists i :: 0 <= i < |pick.path| && !IsJsSpace(pick.path[i]))
              && pick.path in disk.present
              && (HasPemExtension(pick.path) || continueWithoutPem)
    ensures DecideKeyFile(pick, disk, continueWithoutPem).Proceed? ==>
              var d := DecideKeyFile(pick, disk, continueWithoutPem);
              d.pemFilePath == pick.path && d.extensionWarned == !HasPemExtension(pick.path)
    ensures pick.Picked? && HasPemExtension(pick.path) ==>
              DecideKeyFile(pick, disk, true) == DecideKeyFile(pick, disk, false)
  {
  }

  /** The permission check never stops `add`: two disks that agree on which
      files exist lead to the same path and the same decision to go on,
      whatever the modes. */
  lemma PermissionsNeverAbort(pick: Pick, present: set<string>, m1: map<string, bv32>, m2: map<string, bv32>, c: bool)
    ensures DecideKeyFile(pick, Disk(present, m1), c).Proceed? == DecideKeyFile(pick, Disk(present, m2), c).Proceed?
    ensures DecideKeyFile(pick, Disk(present, m1), c).Proceed? ==>
              DecideKeyFile(pick, Disk(present, m1), c).pemFilePath == DecideKeyFile(pick, Disk(present, m2), c).pemFilePath
  {
    var d1, d2 := DecideKeyFile(pick, Disk(present, m1), c), DecideKeyFile(pick, Disk(present, m2), c);
    if pick.Picked? {
      var p := pick.path;
      var pem := HasPemExtension(p);
      var stop := p == "" || Trim(p) == "" || p !in present || (!pem && !c);
      assert d1.Proceed? == !stop;
      assert d2.Proceed? == !stop;
    }
  }

  /** A primary answer that is just the volume token gives the empty path,
      which `add` rejects as "no PEM file selected". */
  lemma BareVolumeIsNotSelected(out: string, fallback: Exec, disk: Disk, c: bool)
    requires Trim(out) == VolumePrefix
    ensures DecideKeyFile(OpenFilePicker(ExecOutput(out), fallback), disk, c) == Abort(NoPemSelected)
  {
    BareVolumeGivesEmptyPath(out, fallback);
  }

  /** Everything the `add` prompts and the picker processes produced. The
      name and IP prompts re-ask until their hooks accept, so what arrives
      here has passed them. */
  datatype Answers = Answers(
    name: string,
    description: string,
    primary: Exec,
    fallback: Exec,
    continueWithoutPem: bool,
    ip: string)

  /** The whole `add` action: decide on the key file; on an early return the
      store is left as it was, otherwise the new profile is appended with
      id = the current length. */
  method RunAdd(file: ConnectionFile, a: Answers, disk: Disk) returns (decision: KeyFileDecision, added: Option<Connection>)
    requires ValidateName(a.name) == NameAccepted
    requires ValidateIp(a.ip) == IpAccepted
    modifies file
    ensures decision == DecideKeyFile(OpenFilePicker(a.primary, a.fallback), disk, a.continueWithoutPem)
    ensures decision.Abort? ==> added == None && file.contents == old(file.contents)
    ensures decision.Proceed? ==>
              var d := Draft(a.name, a.description, decision.pemFilePath, a.ip);
              && added == Some(WithId(d, |old(file.contents).GetOr([])|))
              && file.contents == Some(WithAdded(old(file.contents).GetOr([]), d))
  {
    var pick := OpenFilePicker(a.primary, a.fallback);
    decision := DecideKeyFile(pick, disk, a.continueWithoutPem);
    if decision.Abort? {
      return decision, None;
    }
    var c := file.Add(Draft(a.name, a.description, decision.pemFilePath, a.ip));
    added := Some(c);
  }
}
