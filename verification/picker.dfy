/**
 * `openFilePicker`: asks macOS for a key file through `osascript`, first with
 * a plain `choose file`, then, if that process fails, through System Events.
 * The processes themselves are not modelled: what each one printed (or that
 * it failed) is an input. What is modelled is how the printed text becomes a
 * path, and when the picker gives up.
 */
module Picker {

  import opened Optional
  import opened Text

  /** The outcome of one `osascript` run: it failed, or it printed `stdout`. */
  datatype Exec = ExecFailed | ExecOutput(stdout: string)

  /** Why the picker's promise is rejected. */
  datatype PickFailure =
    | NoFileSelected     // the chosen run printed only whitespace
    | PickerUnavailable  // both runs failed

  datatype Pick = Picked(path: string) | PickRejected(why: PickFailure)

  /** The volume token that AppleScript puts in front of a file alias. */
  const VolumePrefix: string := "alias Macintosh HD"

  /** The primary run's rewrite: every `:` becomes `/`, then the first
      `alias Macintosh HD` is deleted. The result has no colon left. */
  function NormalisePrimary(t: string): (p: string)
    ensures ':' !in p
  {
    var slashed := ReplaceAllChar(t, ':', '/');
    RemoveFirstSubset(slashed, VolumePrefix);
    RemoveFirst(slashed, VolumePrefix)
  }

  /** `openFilePicker`, given what the primary and (when it is run) the
      fallback `osascript` produced. */
  function OpenFilePicker(primary: Exec, fallback: Exec): (r: Pick)
    ensures r == PickRejected(PickerUnavailable) <==> primary.ExecFailed? && fallback.ExecFailed?
    ensures primary.ExecOutput? && r.Picked? ==> r.path == NormalisePrimary(Trim(primary.stdout))
    ensures primary.ExecOutput? && r.Picked? ==> ':' !in r.path
  {
    match primary
    case ExecOutput(out) =>
      var t := Trim(out);
      if t != "" then Picked(NormalisePrimary(t)) else PickRejected(NoFileSelected)
    case ExecFailed =>
      match fallback
      case ExecFailed => PickRejected(PickerUnavailable)
      case ExecOutput(out) =>
        var t := Trim(out);
        if t != "" then Picked(t) else PickRejected(NoFileSelected)
  }

  /** The text of the run whose output the picker uses, if any produced one. */
  function UsedOutput(primary: Exec, fallback: Exec): Option<string>
  {
    if primary.ExecOutput? then Some(primary.stdout)
    else if fallback.ExecOutput? then Some(fallback.stdout)
    else None
  }

  /** The picker's contract: it gives up only when both runs fail; it
      reports "no file selected" exactly when the output it used is blank;
      the fallback runs only after the primary fails; a path from the
      primary run has no colon, a path from the fallback is the trimmed
      output and nothing more. */
  lemma OpenFilePickerSpec(primary: Exec, fallback: Exec)
    ensures OpenFilePicker(primary, fallback) == PickRejected(PickerUnavailable)
            <==> primary.ExecFailed? && fallback.ExecFailed?
    ensures OpenFilePicker(primary, fallback) == PickRejected(NoFileSelected)
            <==> UsedOutput(primary, fallback).Some? &&
                 forall i :: 0 <= i < |UsedOutput(primary, fallback).value| ==>
                               IsJsSpace(UsedOutput(primary, fallback).value[i])
    ensures primary.ExecOutput? ==>
              forall other :: OpenFilePicker(primary, other) == OpenFilePicker(primary, fallback)
    ensures primary.ExecOutput? && OpenFilePicker(primary, fallback).Picked? ==>
              ':' !in OpenFilePicker(primary, fallback).path
    ensures primary.ExecFailed? && OpenFilePicker(primary, fallback).Picked? ==>
              OpenFilePicker(primary, fallback).path == Trim(fallback.stdout)
  {
  }

  /** `alias Macintosh HD` is deleted only once: an occurrence after the
      first survives the rewrite, shifted left by the prefix's length. */
  lemma OnlyFirstPrefixRemoved(t: string, i: nat, j: nat)
    requires var s := ReplaceAllChar(t, ':', '/');
             OccursAt(s, VolumePrefix, i) && (forall k :: 0 <= k < i ==> !OccursAt(s, VolumePrefix, k))
    requires i + |VolumePrefix| <= j && OccursAt(ReplaceAllChar(t, ':', '/'), VolumePrefix, j)
    ensures OccursAt(NormalisePrimary(t), VolumePrefix, j - |VolumePrefix|)
  {
    RemoveFirstKeepsLater(ReplaceAllChar(t, ':', '/'), VolumePrefix, i, j);
  }

  /** The usual AppleScript answer `alias Macintosh HD:Users:...` becomes
      the POSIX path `/Users/...`. */
  lemma AliasBecomesPosixPath(out: string, rest: string, fallback: Exec)
    requires Trim(out) == VolumePrefix + ":" + rest
    ensures OpenFilePicker(ExecOutput(out), fallback) == Picked("/" + ReplaceAllChar(rest, ':', '/'))
  {
    RemoveLeadingThenSlash(VolumePrefix, rest);
    assert Trim(out) != "";
  }

  /** An answer that is the bare volume token normalises to the empty path;
      the picker still resolves with it, and the `add` action catches it. */
  lemma BareVolumeGivesEmptyPath(out: string, fallback: Exec)
    requires Trim(out) == VolumePrefix
    ensures OpenFilePicker(ExecOutput(out), fallback) == Picked("")
  {
    ReplaceAllCharAbsent(VolumePrefix, ':', '/');
    RemoveFirstAtStart(VolumePrefix, VolumePrefix);
  }

  /** The fallback's text is only trimmed: a colon path stays a colon path. */
  lemma FallbackKeepsColons(out: string)
    requires Trim(out) == VolumePrefix + ":key.pem"
    ensures OpenFilePicker(ExecFailed, ExecOutput(out)) == Picked(VolumePrefix + ":key.pem")
    ensures ':' in OpenFilePicker(ExecFailed, ExecOutput(out)).path
  {
    assert (VolumePrefix + ":key.pem")[|VolumePrefix|] == ':';
  }
}
