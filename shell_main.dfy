/**
 * The shell's start-up configuration: where the updater looks for updates,
 * which urls the UI and the content views load (from command-line flags,
 * then environment variables, then defaults), and keeping the CEF binaries
 * on `PATH`. The process environment is a map the start-up code updates.
 */
module ShellMain {
  import opened Wrappers
  import opened Strings

  /** `DEFAULT_DEV_UI_URL`: the UI dev server. */
  const DefaultDevUiUrl := "http://localhost:5173"

  /** The content url used when neither flag nor environment gives one. */
  const DefaultContentUrl := "https://www.microsoft.com/edge"

  /** `non_empty`: the trimmed value, or nothing when that is empty. */
  function NonEmpty(value: string): (r: Option<string>)
    ensures r.None? <==> RustBlank(value)
    ensures r.Some? ==> r.value == RustTrim(value) && r.value != ""
  {
    var trimmed := RustTrim(value);
    if trimmed == "" then None else Some(trimmed)
  }

  /**
   * `resolve_update_url`: the `PULSE_UPDATE_URL` environment value when it is
   * not blank, else the value compiled in when that is not blank; both trimmed.
   */
  function ResolveUpdateUrl(envValue: Option<string>, compiledValue: Option<string>): (r: Option<string>)
    ensures envValue.Some? && !RustBlank(envValue.value) ==> r == Some(RustTrim(envValue.value))
    ensures (envValue.None? || RustBlank(envValue.value)) && compiledValue.Some? && !RustBlank(compiledValue.value) ==>
              r == Some(RustTrim(compiledValue.value))
    ensures r.None? <==> (envValue.None? || RustBlank(envValue.value)) && (compiledValue.None? || RustBlank(compiledValue.value))
  {
    var fromEnv := if envValue.Some? then NonEmpty(envValue.value) else None;
    if fromEnv.Some? then fromEnv
    else if compiledValue.Some? then NonEmpty(compiledValue.value)
    else None
  }

  // ---------------------------------------------------------------------
  // Command-line flags
  // ---------------------------------------------------------------------

  /**
   * What argument `i` gives for `flag`: the rest of a `flag=value` argument
   * when it is not blank, else the next argument after an argument equal to
   * `flag`, when there is one and it is not blank. Values are not trimmed.
   */
  function FlagAt(args: seq<string>, flag: string, i: nat): (r: Option<string>)
    requires i < |args|
    ensures r.Some? ==> !RustBlank(r.value)
  {
    var equalsPrefix := flag + "=";
    if StartsWith(args[i], equalsPrefix) && !RustBlank(args[i][|equalsPrefix|..]) then
      Some(args[i][|equalsPrefix|..])
    else if args[i] == flag && i + 1 < |args| && !RustBlank(args[i + 1]) then
      Some(args[i + 1])
    else None
  }

  /** The first value `FlagAt` gives from argument `from` on. */
  function FlagFrom(args: seq<string>, flag: string, from: nat): (r: Option<string>)
    requires from <= |args|
    ensures r.Some? ==> !RustBlank(r.value)
    decreases |args| - from
  {
    if from == |args| then None
    else if FlagAt(args, flag, from).Some? then FlagAt(args, flag, from)
    else FlagFrom(args, flag, from + 1)
  }

  /** `FlagFrom` finds nothing exactly when no argument gives a value. */
  lemma {:induction false} FlagFromNone(args: seq<string>, flag: string, from: nat)
    requires from <= |args|
    ensures FlagFrom(args, flag, from).None? <==> forall i :: from <= i < |args| ==> FlagAt(args, flag, i).None?
    decreases |args| - from
  {
    if from < |args| {
      FlagFromNone(args, flag, from + 1);
    }
  }

  /** `FlagFrom` is the value at the first argument that gives one. */
  lemma {:induction false} FlagFromIsFirstHit(args: seq<string>, flag: string, from: nat, i: nat)
    requires from <= i < |args| && FlagAt(args, flag, i).Some?
    requires forall j :: from <= j < i ==> FlagAt(args, flag, j).None?
    ensures FlagFrom(args, flag, from) == FlagAt(args, flag, i)
    decreases i - from
  {
    if from < i {
      FlagFromIsFirstHit(args, flag, from + 1, i);
    }
  }

  /** `resolve_flag_from_args`: scan the arguments in order and return the first value found. */
  method ResolveFlagFromArgs(args: seq<string>, flag: string) returns (r: Option<string>)
    ensures r == FlagFrom(args, flag, 0)
  {
    var equalsPrefix := flag + "=";
    var index := 0;
    while index < |args|
      invariant 0 <= index <= |args|
      invariant FlagFrom(args, flag, 0) == FlagFrom(args, flag, index)
    {
      var arg := args[index];
      if StartsWith(arg, equalsPrefix) {
        var value := arg[|equalsPrefix|..];
        if !RustBlank(value) {
          return Some(value);
        }
      }
      if arg == flag && index + 1 < |args| {
        var next := args[index + 1];
        if !RustBlank(next) {
          return Some(next);
        }
      }
      index := index + 1;
    }
    return None;
  }

  /** A value found in some arguments is still the one found when more arguments follow them. */
  lemma {:induction false} FlagFoundInPrefix(args: seq<string>, extra: seq<string>, flag: string, from: nat)
    requires from <= |args|
    requires FlagFrom(args, flag, from).Some?
    ensures FlagFrom(args + extra, flag, from) == FlagFrom(args, flag, from)
    decreases |args| - from
  {
    var all := args + extra;
    assert all[from] == args[from];
    if FlagAt(args, flag, from).Some? {
      assert FlagAt(all, flag, from) == FlagAt(args, flag, from);
    } else {
      FlagFoundInPrefix(args, extra, flag, from + 1);
      assert from + 1 < |args|;
      assert all[from + 1] == args[from + 1];
      assert FlagAt(all, flag, from) == FlagAt(args, flag, from);
    }
  }

  // ---------------------------------------------------------------------
  // Urls and PATH
  // ---------------------------------------------------------------------

  /**
   * `resolve_default_ui_url`: the dev server in a debug build; otherwise the
   * packaged `ui/index.html` next to the executable (`packagedUiUrl`, when it
   * exists), else the dev server.
   */
  function ResolveDefaultUiUrl(debugBuild: bool, packagedUiUrl: Option<string>): (r: string)
    ensures debugBuild || packagedUiUrl.None? ==> r == DefaultDevUiUrl
    ensures !debugBuild && packagedUiUrl.Some? ==> r == packagedUiUrl.value
  {
    if debugBuild then DefaultDevUiUrl else packagedUiUrl.GetOr(DefaultDevUiUrl)
  }

  /** `Option::filter(|v| !v.trim().is_empty())`. */
  function NonBlank(value: Option<string>): (r: Option<string>)
    ensures r.Some? <==> value.Some? && !RustBlank(value.value)
    ensures r.Some? ==> r == value
  {
    if value.Some? && !RustBlank(value.value) then value else None
  }

  /**
   * The UI url: `--pulse-ui-url`, else `--ui-url`, else the `PULSE_UI_URL`
   * environment value; when the one chosen is blank, the default.
   */
  function ResolveUiUrl(args: seq<string>, env: map<string, string>, default: string): (r: string)
    ensures FlagFrom(args, "--pulse-ui-url", 0).Some? ==> r == FlagFrom(args, "--pulse-ui-url", 0).value
    ensures FlagFrom(args, "--pulse-ui-url", 0).None? && FlagFrom(args, "--ui-url", 0).Some? ==>
              r == FlagFrom(args, "--ui-url", 0).value
    ensures FlagFrom(args, "--pulse-ui-url", 0).None? && FlagFrom(args, "--ui-url", 0).None? ==>
              r == (if "PULSE_UI_URL" in env && !RustBlank(env["PULSE_UI_URL"]) then env["PULSE_UI_URL"] else default)
  {
    var chosen :=
      if FlagFrom(args, "--pulse-ui-url", 0).Some? then FlagFrom(args, "--pulse-ui-url", 0)
      else if FlagFrom(args, "--ui-url", 0).Some? then FlagFrom(args, "--ui-url", 0)
      else if "PULSE_UI_URL" in env then Some(env["PULSE_UI_URL"])
      else None;
    NonBlank(chosen).GetOr(default)
  }

  /** The content url: `--pulse-content-url`, else a non-blank `PULSE_URL`, else the default site. */
  function ResolveContentUrl(args: seq<string>, env: map<string, string>): (r: string)
    ensures FlagFrom(args, "--pulse-content-url", 0).Some? ==> r == FlagFrom(args, "--pulse-content-url", 0).value
    ensures FlagFrom(args, "--pulse-content-url", 0).None? ==>
              r == (if "PULSE_URL" in env && !RustBlank(env["PULSE_URL"]) then env["PULSE_URL"] else DefaultContentUrl)
  {
    var chosen :=
      if FlagFrom(args, "--pulse-content-url", 0).Some? then FlagFrom(args, "--pulse-content-url", 0)
      else if "PULSE_URL" in env then Some(env["PULSE_URL"])
      else None;
    NonBlank(chosen).GetOr(DefaultContentUrl)
  }

  /** Some `;`-separated entry of `path` equals `entry`, ignoring ASCII case. */
  predicate PathHasEntry(path: string, entry: string) {
    var parts := Split(path, ';');
    exists i :: 0 <= i < |parts| && EqIgnoreAsciiCase(parts[i], entry)
  }

  /**
   * The new `PATH` when `CEF_PATH` must be added to it: a non-empty
   * `CEF_PATH` that is no entry of `PATH` (missing `PATH` reads as empty) is
   * appended after a `;`. `None` when `PATH` is left as it is.
   */
  function PathWithCef(cefPath: Option<string>, currentPath: Option<string>): (r: Option<string>)
    ensures r.Some? <==> cefPath.Some? && cefPath.value != "" && !PathHasEntry(currentPath.GetOr(""), cefPath.value)
    ensures r.Some? ==> r.value == currentPath.GetOr("") + ";" + cefPath.value
  {
    if cefPath.None? || cefPath.value == "" then None
    else
      var current := currentPath.GetOr("");
      if PathHasEntry(current, cefPath.value) then None else Some(current + ";" + cefPath.value)
  }

  /** Joining one more part adds the separator and the part. */
  lemma {:induction false} JoinAppend(parts: seq<string>, last: string, sep: char)
    requires |parts| >= 1
    ensures Join(parts + [last], sep) == Join(parts, sep) + [sep] + last
    decreases |parts|
  {
    if |parts| > 1 {
      assert (parts + [last])[1..] == parts[1..] + [last];
      JoinAppend(parts[1..], last, sep);
    } else {
      assert (parts + [last])[1..] == [last];
    }
  }

  /** Once `CEF_PATH` (without `;` in it) has been added, a second start-up leaves `PATH` alone. */
  lemma CefPathAddedOnce(cefPath: string, currentPath: Option<string>)
    requires cefPath != "" && ';' !in cefPath
    requires PathWithCef(Some(cefPath), currentPath).Some?
    ensures PathWithCef(Some(cefPath), PathWithCef(Some(cefPath), currentPath)).None?
  {
    var current := currentPath.GetOr("");
    var updated := current + ";" + cefPath;
    var parts := Split(current, ';') + [cefPath];
    forall i | 0 <= i < |parts|
      ensures ';' !in parts[i]
    {
      if i < |parts| - 1 {
        assert parts[i] == Split(current, ';')[i];
      }
    }
    JoinAppend(Split(current, ';'), cefPath, ';');
    assert Join(parts, ';') == updated;
    SplitJoin(parts, ';');
    assert Split(updated, ';')[|parts| - 1] == cefPath;
  }

  /** The UI url `configure_runtime_env` picks, looking the flags up in turn. */
  method PickUiUrl(args: seq<string>, env: map<string, string>, debugBuild: bool, packagedUiUrl: Option<string>)
    returns (url: string)
    ensures url == ResolveUiUrl(args, env, ResolveDefaultUiUrl(debugBuild, packagedUiUrl))
  {
    var chosen := ResolveFlagFromArgs(args, "--pulse-ui-url");
    if chosen.None? {
      chosen := ResolveFlagFromArgs(args, "--ui-url");
    }
    if chosen.None? && "PULSE_UI_URL" in env {
      chosen := Some(env["PULSE_UI_URL"]);
    }
    url := NonBlank(chosen).GetOr(ResolveDefaultUiUrl(debugBuild, packagedUiUrl));
  }

  /** The content url `configure_runtime_env` picks. */
  method PickContentUrl(args: seq<string>, env: map<string, string>) returns (url: string)
    ensures url == ResolveContentUrl(args, env)
  {
    var chosen := ResolveFlagFromArgs(args, "--pulse-content-url");
    if chosen.None? && "PULSE_URL" in env {
      chosen := Some(env["PULSE_URL"]);
    }
    url := NonBlank(chosen).GetOr(DefaultContentUrl);
  }

  /** The environment value of `key`, if it is set. */
  function EnvVar(env: map<string, string>, key: string): (r: Option<string>)
    ensures r.Some? <==> key in env
    ensures r.Some? ==> r.value == env[key]
  {
    if key in env then Some(env[key]) else None
  }

  /** The environment variables the start-up code reads and writes. */
  class ProcessEnvironment {
    var vars: map<string, string>

    constructor (vars: map<string, string>)
      ensures this.vars == vars
    {
      this.vars := vars;
    }

    /**
     * `configure_runtime_env`: add `CEF_PATH` to `PATH` when needed, then set
     * `PULSE_UI_URL` and `PULSE_URL` to the urls the shell will load.
     */
    method ConfigureRuntimeEnv(args: seq<string>, debugBuild: bool, packagedUiUrl: Option<string>)
      modifies this
      ensures var newPath := PathWithCef(EnvVar(old(vars), "CEF_PATH"), EnvVar(old(vars), "PATH"));
              var withPath := if newPath.Some? then old(vars)["PATH" := newPath.value] else old(vars);
              vars == withPath["PULSE_UI_URL" := ResolveUiUrl(args, old(vars), ResolveDefaultUiUrl(debugBuild, packagedUiUrl))]
                              ["PULSE_URL" := ResolveContentUrl(args, old(vars))]
    {
      var env := vars;
      var newPath := PathWithCef(EnvVar(env, "CEF_PATH"), EnvVar(env, "PATH"));
      if newPath.Some? {
        vars := vars["PATH" := newPath.value];
      }
      var ui := PickUiUrl(args, env, debugBuild, packagedUiUrl);
      var content := PickContentUrl(args, env);
      vars := vars["PULSE_UI_URL" := ui]["PULSE_URL" := content];
    }
  }
}
