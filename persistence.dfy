/**
 * The shell's persisted workspace state: the versioned envelope written to
 * disk, the decoder that also accepts the legacy formats, and the
 * primary/backup/temp file rotation that saving and loading perform.
 * The three files are abstract slots; JSON text is already parsed.
 */
module Persistence {
  import opened Wrappers
  import opened Json

  /** `STATE_SCHEMA_VERSION`: the envelope version this build writes. */
  const StateSchemaVersion := 1

  /** `DecodedState`: the UI state read, and whether the file should be rewritten as a current envelope. */
  datatype DecodedState = DecodedState(uiState: Json, needsRewrite: bool)

  /** Why a state file could not be used. */
  datatype StateError =
    | Unreadable                         // the file could not be read or is not JSON
    | SchemaVersionNotInteger(found: Json)
    | MissingUiState                     // a version 1 envelope without `ui_state`
    | MissingLegacyState                 // a version 0 envelope without `state` or `ui_state`
    | UnsupportedSchemaVersion(version: nat)
    | WriteFailed(step: IoStep)          // a step of a save failed

  /** The file operations of a save or restore that can fail. */
  datatype IoStep = WriteTemp | RotatePrimary | CommitTemp

  /** `serde_json::Value::as_u64`: an integer number in the `u64` range. */
  function AsU64(v: Json): (r: Option<nat>)
    ensures r.Some? <==> v.JInt? && 0 <= v.i < 0x1_0000_0000_0000_0000
    ensures r.Some? ==> r.value == v.i
  {
    if v.JInt? && 0 <= v.i < 0x1_0000_0000_0000_0000 then Some(v.i) else None
  }

  /** `decode_legacy_envelope_v0`: `state`, else `ui_state`, always to be rewritten. */
  function DecodeLegacyEnvelopeV0(fields: map<string, Json>): (r: Result<DecodedState, StateError>)
    ensures "state" in fields ==> r == Success(DecodedState(fields["state"], true))
    ensures "state" !in fields && "ui_state" in fields ==> r == Success(DecodedState(fields["ui_state"], true))
    ensures "state" !in fields && "ui_state" !in fields ==> r == Failure(MissingLegacyState)
  {
    if "state" in fields then Success(DecodedState(fields["state"], true))
    else if "ui_state" in fields then Success(DecodedState(fields["ui_state"], true))
    else Failure(MissingLegacyState)
  }

  /**
   * `decode_persisted_value`: a non-object, or an object without
   * `schema_version`, is legacy state as a whole; otherwise the version must
   * be a `u64` and either 1 (with `ui_state`) or 0 (a legacy envelope).
   */
  function DecodePersistedValue(raw: Json): (r: Result<DecodedState, StateError>)
    ensures !raw.JObject? ==> r == Success(DecodedState(raw, true))
    ensures raw.JObject? && "schema_version" !in raw.fields ==> r == Success(DecodedState(raw, true))
    ensures raw.JObject? && "schema_version" in raw.fields && AsU64(raw.fields["schema_version"]).None? ==>
              r == Failure(SchemaVersionNotInteger(raw.fields["schema_version"]))
    ensures raw.JObject? && "schema_version" in raw.fields && AsU64(raw.fields["schema_version"]).Some? ==>
              var v := AsU64(raw.fields["schema_version"]).value;
              && (v == 1 ==> r == (if "ui_state" in raw.fields then Success(DecodedState(raw.fields["ui_state"], false))
                                   else Failure(MissingUiState)))
              && (v == 0 ==> r == DecodeLegacyEnvelopeV0(raw.fields))
              && (v > 1 ==> r == Failure(UnsupportedSchemaVersion(v)))
  {
    if !raw.JObject? then Success(DecodedState(raw, true))
    else if "schema_version" !in raw.fields then Success(DecodedState(raw, true))
    else
      match AsU64(raw.fields["schema_version"])
      case None => Failure(SchemaVersionNotInteger(raw.fields["schema_version"]))
      case Some(version) =>
        if version == 1 then
          if "ui_state" in raw.fields then Success(DecodedState(raw.fields["ui_state"], false))
          else Failure(MissingUiState)
        else if version == 0 then DecodeLegacyEnvelopeV0(raw.fields)
        else Failure(UnsupportedSchemaVersion(version))
  }

  /** Only a decoded version 1 envelope is left as it is. */
  lemma NoRewriteOnlyForV1(raw: Json)
    requires DecodePersistedValue(raw).Success? && !DecodePersistedValue(raw).value.needsRewrite
    ensures raw.JObject? && "schema_version" in raw.fields && raw.fields["schema_version"] == JInt(1)
    ensures "ui_state" in raw.fields && DecodePersistedValue(raw).value.uiState == raw.fields["ui_state"]
  {
    var v := AsU64(raw.fields["schema_version"]).value;
    assert v == 1;
  }

  /** `PersistedStateV1`: the envelope a save writes, stamped with the time `updatedAt`. */
  function Envelope(uiState: Json, updatedAt: nat): Json {
    JObject(map["schema_version" := JInt(StateSchemaVersion),
                "updated_at_unix_ms" := JInt(updatedAt),
                "ui_state" := uiState])
  }

  /** An envelope decodes to the state it carries, with nothing to rewrite. */
  lemma EnvelopeRoundTrip(uiState: Json, updatedAt: nat)
    ensures DecodePersistedValue(Envelope(uiState, updatedAt)) == Success(DecodedState(uiState, false))
  {
    var fields := Envelope(uiState, updatedAt).fields;
    assert "schema_version" != "ui_state" && "updated_at_unix_ms" != "ui_state";
    assert fields["schema_version"] == JInt(1);
    assert fields["ui_state"] == uiState;
  }

  /** Rewriting a legacy value as an envelope keeps its state. */
  lemma RewriteKeepsState(raw: Json, updatedAt: nat)
    requires DecodePersistedValue(raw).Success? && DecodePersistedValue(raw).value.needsRewrite
    ensures var d := DecodePersistedValue(raw).value;
            DecodePersistedValue(Envelope(d.uiState, updatedAt)) == Success(DecodedState(d.uiState, false))
  {
    EnvelopeRoundTrip(DecodePersistedValue(raw).value.uiState, updatedAt);
  }

  // ---------------------------------------------------------------------
  // The three files
  // ---------------------------------------------------------------------

  /** A state file: missing, present but unreadable or not JSON, or holding a JSON value. */
  datatype StateFile = Absent | Garbled | Holds(value: Json)

  /** The primary, backup and temp files of the state directory. */
  datatype Files = Files(primary: StateFile, backup: StateFile, temp: StateFile)

  /** `read_state_file`: nothing for a missing file, an error for an unusable one, else the decoded state. */
  function ReadStateFile(f: StateFile): (r: Result<Option<DecodedState>, StateError>)
    ensures f.Absent? <==> r == Success(None)
    ensures f.Garbled? ==> r == Failure(Unreadable)
    ensures f.Holds? ==> (r.Success? <==> DecodePersistedValue(f.value).Success?)
    ensures f.Holds? && r.Success? ==> r.value == Some(DecodePersistedValue(f.value).value)
  {
    match f
    case Absent => Success(None)
    case Garbled => Failure(Unreadable)
    case Holds(v) =>
      match DecodePersistedValue(v)
      case Success(d) => Success(Some(d))
      case Failure(e) => Failure(e)
  }

  /** The state a file yields, if it yields one. */
  function UsableState(f: StateFile): (r: Option<DecodedState>)
    ensures r.Some? <==> ReadStateFile(f).Success? && ReadStateFile(f).value.Some?
    ensures r.Some? ==> r == ReadStateFile(f).value
  {
    if f.Holds? && DecodePersistedValue(f.value).Success? then Some(DecodePersistedValue(f.value).value) else None
  }

  /**
   * The files after `save_ui_state_value_inner`, and whether it succeeded,
   * when the step `fail` (if any) fails: write the envelope to temp, remove
   * the backup, move the primary to the backup, move temp to the primary.
   * A failed temp write leaves a garbled temp file; a step is only attempted
   * when the ones before it succeeded, and the primary is only moved when
   * there is one.
   */
  function SaveOutcome(f: Files, uiState: Json, now: nat, fail: Option<IoStep>): (Files, bool) {
    if fail == Some(WriteTemp) then (f.(temp := Garbled), false)
    else
      var written := Files(f.primary, Absent, Holds(Envelope(uiState, now)));
      if f.primary != Absent && fail == Some(RotatePrimary) then (written, false)
      else
        var rotated := written.(primary := Absent, backup := f.primary);
        if fail == Some(CommitTemp) then (rotated, false)
        else (Files(rotated.temp, rotated.backup, Absent), true)
  }

  /** A save that succeeds leaves the new envelope as the primary and the previous primary as the backup. */
  lemma SaveCommits(f: Files, uiState: Json, now: nat, fail: Option<IoStep>)
    ensures var (g, ok) := SaveOutcome(f, uiState, now, fail);
            && (ok <==> fail.None? || (fail == Some(RotatePrimary) && f.primary == Absent))
            && (ok ==> g == Files(Holds(Envelope(uiState, now)), f.primary, Absent))
  {
    if fail.Some? && fail.value == CommitTemp {
      assert !SaveOutcome(f, uiState, now, fail).1;
    }
  }

  /**
   * Whichever step fails, the previous primary is still the primary or has
   * become the backup: a failed save never loses the last saved state.
   */
  lemma SaveKeepsPreviousPrimary(f: Files, uiState: Json, now: nat, fail: Option<IoStep>)
    ensures var g := SaveOutcome(f, uiState, now, fail).0;
            g.primary == f.primary || g.backup == f.primary
    ensures var g := SaveOutcome(f, uiState, now, fail).0;
            fail != Some(WriteTemp) ==> g.primary == Holds(Envelope(uiState, now)) || g.temp == Holds(Envelope(uiState, now))
  {
  }

  /**
   * The files after `restore_primary_copy`: the envelope is written to temp,
   * the primary removed and temp moved into its place. The backup is never touched.
   */
  function RestoreOutcome(f: Files, uiState: Json, now: nat, fail: Option<IoStep>): (Files, bool) {
    if fail == Some(WriteTemp) then (f.(temp := Garbled), false)
    else if fail == Some(CommitTemp) then (Files(Absent, f.backup, Holds(Envelope(uiState, now))), false)
    else (Files(Holds(Envelope(uiState, now)), f.backup, Absent), true)
  }

  /**
   * `load_ui_state_value`: the files afterwards and the result, where
   * `rewriteFail` and `restoreFail` are the steps (if any) that fail in the
   * rewrite of a legacy primary and in the restore of the primary from the backup.
   */
  function LoadOutcome(f: Files, now: nat, rewriteFail: Option<IoStep>, restoreFail: Option<IoStep>)
    : (Files, Result<Option<Json>, StateError>)
  {
    match UsableState(f.primary)
    case Some(d) =>
      if !d.needsRewrite then (f, Success(Some(d.uiState)))
      else
        var (g, ok) := SaveOutcome(f, d.uiState, now, rewriteFail);
        (g, if ok then Success(Some(d.uiState)) else Failure(WriteFailed(rewriteFail.value)))
    case None =>
      match UsableState(f.backup)
      case Some(d) => (RestoreOutcome(f, d.uiState, now, restoreFail).0, Success(Some(d.uiState)))
      case None => (f, Success(None))
  }

  /** A usable primary is what a load returns; a current one is left as it is, a legacy one is rewritten. */
  lemma LoadPrefersPrimary(f: Files, now: nat, rewriteFail: Option<IoStep>, restoreFail: Option<IoStep>)
    requires UsableState(f.primary).Some?
    ensures var d := UsableState(f.primary).value;
            var (g, r) := LoadOutcome(f, now, rewriteFail, restoreFail);
            && (!d.needsRewrite ==> g == f && r == Success(Some(d.uiState)))
            && (d.needsRewrite && rewriteFail.None? ==>
                  g == Files(Holds(Envelope(d.uiState, now)), f.primary, Absent) && r == Success(Some(d.uiState)))
  {
  }

  /**
   * Without a usable primary, a usable backup is returned, and the primary is
   * restored from it when the restore succeeds; the backup stays as it was.
   */
  lemma LoadFallsBackToBackup(f: Files, now: nat, rewriteFail: Option<IoStep>, restoreFail: Option<IoStep>)
    requires UsableState(f.primary).None? && UsableState(f.backup).Some?
    ensures var d := UsableState(f.backup).value;
            var (g, r) := LoadOutcome(f, now, rewriteFail, restoreFail);
            && r == Success(Some(d.uiState))
            && g.backup == f.backup
            && (restoreFail.None? ==> g.primary == Holds(Envelope(d.uiState, now)))
  {
  }

  /** With neither file usable there is nothing to load, and nothing changes. */
  lemma LoadFindsNothing(f: Files, now: nat, rewriteFail: Option<IoStep>, restoreFail: Option<IoStep>)
    requires UsableState(f.primary).None? && UsableState(f.backup).None?
    ensures LoadOutcome(f, now, rewriteFail, restoreFail) == (f, Success(None))
  {
  }

  /** A load fails only when a legacy primary could be read but not rewritten. */
  lemma LoadFailsOnlyOnRewrite(f: Files, now: nat, rewriteFail: Option<IoStep>, restoreFail: Option<IoStep>)
    requires LoadOutcome(f, now, rewriteFail, restoreFail).1.Failure?
    ensures UsableState(f.primary).Some? && UsableState(f.primary).value.needsRewrite && rewriteFail.Some?
  {
  }

  /** A successful save is read back by the next load, which changes nothing. */
  lemma SaveThenLoad(f: Files, uiState: Json, now: nat, later: nat, rewriteFail: Option<IoStep>, restoreFail: Option<IoStep>)
    ensures var g := SaveOutcome(f, uiState, now, None).0;
            LoadOutcome(g, later, rewriteFail, restoreFail) == (g, Success(Some(uiState)))
  {
    EnvelopeRoundTrip(uiState, now);
  }

  /**
   * Loading again after a load that found a state and hit no failure finds
   * the same state, this time in a current primary that is left as it is.
   */
  lemma LoadAgainFindsSameState(f: Files, now: nat, later: nat, rewriteFail: Option<IoStep>, restoreFail: Option<IoStep>)
    requires LoadOutcome(f, now, None, None).1.Success? && LoadOutcome(f, now, None, None).1.value.Some?
    ensures var (g, r) := LoadOutcome(f, now, None, None);
            LoadOutcome(g, later, rewriteFail, restoreFail) == (g, r)
  {
    var (g, r) := LoadOutcome(f, now, None, None);
    match UsableState(f.primary)
    case Some(d) =>
      if d.needsRewrite {
        EnvelopeRoundTrip(d.uiState, now);
      }
    case None =>
      var d := UsableState(f.backup).value;
      EnvelopeRoundTrip(d.uiState, now);
  }

  // ---------------------------------------------------------------------
  // The state directory, changed step by step
  // ---------------------------------------------------------------------

  /** The state directory: the three files, each replaced as a whole by the file operations. */
  class StateStore {
    var primary: StateFile
    var backup: StateFile
    var temp: StateFile

    function Contents(): Files
      reads this
    {
      Files(primary, backup, temp)
    }

    constructor (files: Files)
      ensures Contents() == files
    {
      primary, backup, temp := files.primary, files.backup, files.temp;
    }

    /** `save_ui_state_value_inner`, stamped with `now`, where the step `fail` (if any) fails. */
    method SaveInner(uiState: Json, now: nat, fail: Option<IoStep>) returns (r: Result<(), StateError>)
      modifies this
      ensures (Contents(), r.Success?) == SaveOutcome(old(Contents()), uiState, now, fail)
      ensures r.Failure? ==> fail.Some? && r.error == WriteFailed(fail.value)
    {
      if fail == Some(WriteTemp) {
        temp := Garbled;
        return Failure(WriteFailed(WriteTemp));
      }
      temp := Holds(Envelope(uiState, now));
      if backup != Absent {
        backup := Absent;
      }
      if primary != Absent {
        if fail == Some(RotatePrimary) {
          return Failure(WriteFailed(RotatePrimary));
        }
        primary, backup := Absent, primary;
      }
      if fail == Some(CommitTemp) {
        return Failure(WriteFailed(CommitTemp));
      }
      primary, temp := temp, Absent;
      r := Success(());
    }

    /** `restore_primary_copy`, stamped with `now`, where the step `fail` (if any) fails. */
    method RestorePrimaryCopy(uiState: Json, now: nat, fail: Option<IoStep>) returns (r: Result<(), StateError>)
      modifies this
      ensures (Contents(), r.Success?) == RestoreOutcome(old(Contents()), uiState, now, fail)
    {
      if fail == Some(WriteTemp) {
        temp := Garbled;
        return Failure(WriteFailed(WriteTemp));
      }
      temp := Holds(Envelope(uiState, now));
      if primary != Absent {
        primary := Absent;
      }
      if fail == Some(CommitTemp) {
        return Failure(WriteFailed(CommitTemp));
      }
      primary, temp := temp, Absent;
      r := Success(());
    }

    /** `load_ui_state_value`, with the failing steps of its rewrite and its restore as parameters. */
    method Load(now: nat, rewriteFail: Option<IoStep>, restoreFail: Option<IoStep>) returns (r: Result<Option<Json>, StateError>)
      modifies this
      ensures (Contents(), r) == LoadOutcome(old(Contents()), now, rewriteFail, restoreFail)
    {
      var fromPrimary := ReadStateFile(primary);
      if fromPrimary.Success? && fromPrimary.value.Some? {
        var d := fromPrimary.value.value;
        if d.needsRewrite {
          var saved := SaveInner(d.uiState, now, rewriteFail);
          if saved.Failure? {
            return Failure(saved.error);
          }
        }
        return Success(Some(d.uiState));
      }
      var fromBackup := ReadStateFile(backup);
      if fromBackup.Success? && fromBackup.value.Some? {
        var d := fromBackup.value.value;
        var _ := RestorePrimaryCopy(d.uiState, now, restoreFail);
        return Success(Some(d.uiState));
      }
      r := Success(None);
    }
  }
}
