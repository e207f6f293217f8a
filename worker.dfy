/**
 * The Pyodide web worker: it loads the Python runtime, installs the packages of the
 * environment specification one by one, runs the dashboard script and then relays
 * messages between the host page and the running Panel document.
 *
 * The interpreter is an oracle: whether each step succeeded is an input, and the
 * worker's observable behaviour is the ordered sequence of messages it posts to the
 * host page together with the interpreter actions it requests.
 */
module Worker {
  import opened Wrappers
  import opened JsString

  /** A value the worker passes along without inspecting it (a patch, buffers, a
      render descriptor, the serialized location); modelled by its serialized text. */
  type Opaque = string

  /** A message the worker posts to the host page. */
  datatype Outgoing =
    | Status(msg: string)
      /** `{type: 'status', msg: undefined}`: a status whose text was read past the
          start of an array */
    | StatusUndefined
    | Render(docsJson: Opaque, renderItems: Opaque, rootIds: Opaque)
      /** what `sendPatch` posts when the interpreter forwards a document change */
    | Patch(patch: Opaque, buffers: Opaque)
    | Idle

  /** How far loading the runtime got: `loadPyodide()` and `loadPackage("micropip")`
      either both succeed, or one of them rejects and startup stops there. */
  datatype Boot = Booted | RuntimeLoadFailed | MicropipLoadFailed

  /** The outcome of running the dashboard script: the three values it returns, or
      the string form of the exception it raised. */
  datatype ScriptOutcome =
    | ScriptOk(docsJson: Opaque, renderItems: Opaque, rootIds: Opaque)
    | ScriptError(trace: string)

  const LoadingMsg: string := "Loading pyodide"
  const ExecutingMsg: string := "Executing code"
  const InstallingPrefix: string := "Installing "
  const ErrorPrefix: string := "Error while installing "

  /** The fixed environment specification the worker installs, in order: two wheels
      from the HoloViz CDN, then plain package requirements. */
  const EnvSpec: seq<string> := [
    BokehWheels + "/bokeh-3.6.3-py3-none-any.whl",
    PanelWheels + "/panel-1.6.1-py3-none-any.whl",
    "pyodide-http==0.2.1", "holoviews", "hvplot", "numpy", "pandas", "scipy",
    "vega_datasets"]
  const BokehWheels: string := "https://cdn.holoviz.org/panel/wheels"
  const PanelWheels: string := "https://cdn.holoviz.org/panel/1.6.1/dist/wheels"

  // ---------------------------------------------------------------------------
  // Package display names
  // ---------------------------------------------------------------------------

  /** `pkg.split('/').slice(-1)[0]`: the file name at the end of a wheel URL. */
  function WheelFile(pkg: string): string
  {
    Last(Split(pkg, '/'))
  }

  /** The name shown while installing `pkg`: for a wheel, the text of its file name
      before the first `-`; for anything else, the entry itself. */
  function DisplayName(pkg: string): (name: string)
    ensures !EndsWith(pkg, ".whl") ==> name == pkg
    ensures EndsWith(pkg, ".whl") ==> '/' !in name && '-' !in name
  {
    if EndsWith(pkg, ".whl") then
      var file := WheelFile(pkg);
      var name := Split(file, '-')[0];
      assert file in Split(pkg, '/');
      FirstPieceIsPrefix(file, '-');
      assert name in Split(file, '-');
      assert forall k :: 0 <= k < |name| ==> name[k] == file[k];
      name
    else pkg
  }

  /** The display names of a list of entries, in order. */
  function DisplayNames(pkgs: seq<string>): (names: seq<string>)
    ensures |names| == |pkgs|
    ensures forall i :: 0 <= i < |pkgs| ==> names[i] == DisplayName(pkgs[i])
  {
    seq(|pkgs|, i requires 0 <= i < |pkgs| => DisplayName(pkgs[i]))
  }

  /**
   * The display name of a wheel: its file name is the part of the URL after the
   * last `/`, and the name is the part of that file name before the first `-`.
   * So the name holds neither `/` nor `-`.
   */
  lemma DisplayNameOfWheel(pkg: string)
    requires EndsWith(pkg, ".whl")
    ensures var file, name := WheelFile(pkg), DisplayName(pkg);
      && '/' !in name && '-' !in name
      && '/' !in file
      && |file| <= |pkg| && pkg[|pkg| - |file|..] == file
      && (|file| < |pkg| ==> pkg[|pkg| - |file| - 1] == '/')
      && |name| <= |file| && file[..|name|] == name
      && (|name| < |file| ==> file[|name|] == '-')
  {
    LastPieceIsSuffix(pkg, '/');
    FirstPieceIsPrefix(WheelFile(pkg), '-');
    assert WheelFile(pkg) in Split(pkg, '/');
  }

  /** Conversely, a wheel URL `dir/name-rest` with `.whl` at the end is displayed as
      `name` when `name` has no `-` and the file name has no `/`. */
  lemma DisplayNameOfWheelPath(dir: string, name: string, rest: string)
    requires '-' !in name && '/' !in name && '/' !in rest
    requires EndsWith(rest, ".whl")
    ensures DisplayName(dir + "/" + name + "-" + rest) == name
  {
    var pkg := dir + "/" + name + "-" + rest;
    assert pkg[|pkg| - 4..] == rest[|rest| - 4..];
    var file := name + "-" + rest;
    assert '/' !in file;
    assert dir + "/" + name + "-" + rest == dir + ['/'] + file;
    SplitAtLast(dir, '/', file);
    assert name + "-" + rest == name + ['-'] + rest;
    SplitAtFirst(name, '-', rest);
  }

  /** A wheel is shown by its distribution name wherever it is hosted. */
  lemma PanelWheelName(dir: string)
    ensures DisplayName(dir + "/panel-1.6.1-py3-none-any.whl") == "panel"
  {
    var rest := "1.6.1-py3-none-any.whl";
    assert EndsWith(rest, ".whl") by { assert rest[|rest| - 4..] == ".whl"; }
    assert dir + "/panel-1.6.1-py3-none-any.whl" == dir + "/" + "panel" + "-" + rest;
    DisplayNameOfWheelPath(dir, "panel", rest);
  }

  /** The same for the Bokeh wheel, whose version has a different shape. */
  lemma BokehWheelName(dir: string)
    ensures DisplayName(dir + "/bokeh-3.6.3-py3-none-any.whl") == "bokeh"
  {
    var rest := "3.6.3-py3-none-any.whl";
    assert EndsWith(rest, ".whl") by { assert rest[|rest| - 4..] == ".whl"; }
    assert dir + "/bokeh-3.6.3-py3-none-any.whl" == dir + "/" + "bokeh" + "-" + rest;
    DisplayNameOfWheelPath(dir, "bokeh", rest);
  }

  /** A requirement that is not a wheel is shown verbatim, even with `-` or `==` in it. */
  lemma VerbatimNames()
    ensures DisplayName("pyodide-http==0.2.1") == "pyodide-http==0.2.1"
    ensures DisplayName("numpy") == "numpy"
  {
  }

  /** The names the worker shows for its own environment specification. */
  lemma EnvSpecDisplayNames()
    ensures DisplayNames(EnvSpec) == [
      "bokeh", "panel", "pyodide-http==0.2.1", "holoviews", "hvplot", "numpy",
      "pandas", "scipy", "vega_datasets"]
  {
    BokehWheelName(BokehWheels);
    PanelWheelName(PanelWheels);
  }

  // ---------------------------------------------------------------------------
  // Error summary
  // ---------------------------------------------------------------------------

  /** `tblines[tblines.length - 2]` with `tblines = trace.split('\n')`: the second
      to last line, or nothing (JavaScript's `undefined`) for a one-line trace. */
  function ErrorSummary(trace: string): (line: Option<string>)
    ensures line.None? <==> '\n' !in trace
    ensures line.Some? ==> '\n' !in line.value
  {
    var lines := Split(trace, '\n');
    SplitSeparator(trace, '\n');
    if |lines| >= 2 then Some(lines[|lines| - 2]) else None
  }

  /**
   * The summary is the line between the last two line breaks: whatever precedes
   * the trace's last line break, the summary is the line it ends, and the text
   * after that break is the trace's last line.
   */
  lemma {:induction false} ErrorSummaryOfLines(x: string, line: string, y: string)
    requires '\n' !in line && '\n' !in y
    ensures ErrorSummary(x + "\n" + line + "\n" + y) == Some(line)
  {
    assert x + "\n" + line + "\n" + y == (x + ['\n'] + line) + ['\n'] + y;
    SplitAtLast(x + ['\n'] + line, '\n', y);
    SplitAtLast(x, '\n', line);
  }

  /** The summary of a two-line trace is its first line. */
  lemma {:induction false} ErrorSummaryOfTwoLines(line: string, y: string)
    requires '\n' !in line && '\n' !in y
    ensures ErrorSummary(line + "\n" + y) == Some(line)
  {
    assert line + "\n" + y == line + ['\n'] + y;
    SplitAtFirst(line, '\n', y);
    SplitNoSeparator(y, '\n');
  }

  /** The summary of a three-line trace is its middle line. */
  lemma ErrorSummaryOfThreeLines(trace: string)
    requires trace == "A\nB error: oops\nC"
    ensures ErrorSummary(trace) == Some("B error: oops")
  {
    var line := "B error: oops";
    assert '\n' !in line by { assert forall k :: 0 <= k < |line| ==> line[k] != '\n'; }
    assert trace == "A" + "\n" + line + "\n" + "C";
    ErrorSummaryOfLines("A", line, "C");
  }

  /** This trace ends in a line break, so its last line is empty and its summary is
      the line before, `ValueError: bad`. */
  lemma ErrorSummaryOfEndingBreak(trace: string)
    requires trace == "Traceback\nValueError: bad\n"
    ensures ErrorSummary(trace) == Some("ValueError: bad")
  {
    assert trace == "Traceback" + "\n" + "ValueError: bad" + "\n" + "";
    ErrorSummaryOfLines("Traceback", "ValueError: bad", "");
  }

  /** A one-line trace has no second to last line. */
  lemma ErrorSummaryOfOneLine()
    ensures ErrorSummary("one line") == None
  {
  }

  // ---------------------------------------------------------------------------
  // Startup
  // ---------------------------------------------------------------------------

  function InstallingMsg(name: string): string { InstallingPrefix + name }

  function InstallErrorMsg(name: string): string { ErrorPrefix + name }

  /** The statuses one iteration of the install loop posts for the entry shown as
      `name`. */
  function InstallStep(name: string, installed: bool): seq<Outgoing>
  {
    [Status(InstallingMsg(name))] + (if installed then [] else [Status(InstallErrorMsg(name))])
  }

  /** The statuses the install loop posts for the entries shown as `names`, whose
      installs succeed as `installed` says. */
  function InstallTrace(names: seq<string>, installed: seq<bool>): seq<Outgoing>
    requires |installed| == |names|
    decreases |names|
  {
    if |names| == 0 then []
    else
      var n := |names| - 1;
      InstallTrace(names[..n], installed[..n]) + InstallStep(names[n], installed[n])
  }

  /** The install trace of the first `i + 1` entries extends that of the first `i`
      by one iteration. */
  lemma InstallTracePrefix(names: seq<string>, installed: seq<bool>, i: nat)
    requires |installed| == |names| && i < |names|
    ensures InstallTrace(names[..i + 1], installed[..i + 1])
         == InstallTrace(names[..i], installed[..i]) + InstallStep(names[i], installed[i])
  {
    assert names[..i + 1][..i] == names[..i];
    assert installed[..i + 1][..i] == installed[..i];
  }

  /** The message posted for the script's outcome. */
  function ScriptReport(script: ScriptOutcome): (msg: Outgoing)
    ensures msg.Render? <==> script.ScriptOk?
    ensures script.ScriptOk? ==>
      msg == Render(script.docsJson, script.renderItems, script.rootIds)
    ensures msg.StatusUndefined? <==> script.ScriptError? && '\n' !in script.trace
    ensures msg.Status? ==> '\n' !in msg.msg
  {
    match script
    case ScriptOk(d, r, i) => Render(d, r, i)
    case ScriptError(trace) =>
      match ErrorSummary(trace)
      case Some(line) => Status(line)
      case None => StatusUndefined
  }

  /** Everything `startApplication` posts. */
  function StartupTrace(pkgs: seq<string>, installed: seq<bool>, boot: Boot,
                        script: ScriptOutcome): (t: seq<Outgoing>)
    requires |installed| == |pkgs|
    ensures |t| >= 1 && t[0] == Status(LoadingMsg)
    ensures |t| == 1 <==> boot != Booted
    ensures boot == Booted ==> t[|t| - 1] == ScriptReport(script)
  {
    if boot != Booted then [Status(LoadingMsg)]
    else BootedTrace(DisplayNames(pkgs), installed, ScriptReport(script))
  }

  /** What `startApplication` posts once the runtime is loaded: the loading status,
      the install statuses, `Executing code` and the script's report `last`. */
  function BootedTrace(names: seq<string>, installed: seq<bool>, last: Outgoing)
    : (t: seq<Outgoing>)
    requires |installed| == |names|
    ensures |t| >= 3 && t[0] == Status(LoadingMsg)
    ensures t[|t| - 2] == Status(ExecutingMsg) && t[|t| - 1] == last
  {
    [Status(LoadingMsg)] + InstallTrace(names, installed) + [Status(ExecutingMsg)] + [last]
  }

  /**
   * `startApplication`: posts the loading status, loads the runtime, installs each
   * entry of `pkgs` (an install that fails is reported and skipped), announces and
   * runs the script, and reports its outcome. `rejected` says whether the returned
   * promise rejects: when loading the runtime fails, or when the script raised and
   * the error is thrown again after being reported.
   */
  method StartApplication(pkgs: seq<string>, installed: seq<bool>, boot: Boot,
                          script: ScriptOutcome)
    returns (out: seq<Outgoing>, rejected: bool)
    requires |installed| == |pkgs|
    ensures out == StartupTrace(pkgs, installed, boot, script)
    ensures rejected <==> boot != Booted || script.ScriptError?
  {
    out := [Status(LoadingMsg)];
    if boot != Booted {
      return out, true;
    }
    var installs := InstallPackages(pkgs, installed);
    out := out + installs;
    out := out + [Status(ExecutingMsg)];
    match script
    case ScriptOk(d, r, ids) =>
      out := out + [Render(d, r, ids)];
      rejected := false;
    case ScriptError(trace) =>
      var summary := ErrorSummary(trace);
      if summary.Some? {
        out := out + [Status(summary.value)];
      } else {
        out := out + [StatusUndefined];
      }
      rejected := true;
  }

  /** The install loop of `startApplication`: for each entry, an `Installing` status,
      then the install, and an error status when it fails; a failure does not stop
      the loop. */
  method InstallPackages(pkgs: seq<string>, installed: seq<bool>) returns (out: seq<Outgoing>)
    requires |installed| == |pkgs|
    ensures out == InstallTrace(DisplayNames(pkgs), installed)
  {
    out := [];
    ghost var names := DisplayNames(pkgs);
    var i := 0;
    while i < |pkgs|
      invariant 0 <= i <= |pkgs|
      invariant out == InstallTrace(names[..i], installed[..i])
    {
      ghost var before := out;
      var name := DisplayName(pkgs[i]);
      out := out + [Status(InstallingMsg(name))];
      if !installed[i] {
        out := out + [Status(InstallErrorMsg(name))];
      }
      assert out == before + InstallStep(name, installed[i]);
      InstallTracePrefix(names, installed, i);
      i := i + 1;
    }
    assert names[..i] == names && installed[..i] == installed;
  }

  // --- reading a trace back ---------------------------------------------------

  predicate StartsWith(s: string, prefix: string)
  {
    |prefix| <= |s| && s[..|prefix|] == prefix
  }

  /** The texts, after `prefix`, of the statuses in `out` that start with `prefix`. */
  function Tagged(out: seq<Outgoing>, prefix: string): seq<string>
    decreases |out|
  {
    if |out| == 0 then []
    else
      var m := out[|out| - 1];
      Tagged(out[..|out| - 1], prefix)
        + (if m.Status? && StartsWith(m.msg, prefix) then [m.msg[|prefix|..]] else [])
  }

  /** The names of the entries whose install failed, in order. */
  function FailedNames(names: seq<string>, installed: seq<bool>): seq<string>
    requires |installed| == |names|
    decreases |names|
  {
    if |names| == 0 then []
    else
      var n := |names| - 1;
      FailedNames(names[..n], installed[..n]) + (if installed[n] then [] else [names[n]])
  }

  /** The number of failed installs. */
  function Failures(installed: seq<bool>): nat
    decreases |installed|
  {
    if |installed| == 0 then 0
    else
      var n := |installed| - 1;
      Failures(installed[..n]) + (if installed[n] then 0 else 1)
  }

  /** A non-empty sequence is its prefix without the last element, then that element. */
  lemma DropLastAppend<T>(s: seq<T>)
    requires |s| > 0
    ensures s[..|s| - 1] + [s[|s| - 1]] == s
  {
  }

  lemma {:induction false} TaggedAppend(a: seq<Outgoing>, b: seq<Outgoing>, prefix: string)
    ensures Tagged(a + b, prefix) == Tagged(a, prefix) + Tagged(b, prefix)
    decreases |b|
  {
    if |b| > 0 {
      var n := |b| - 1;
      assert (a + b)[..|a + b| - 1] == a + b[..n];
      assert (a + b)[|a + b| - 1] == b[n];
      TaggedAppend(a, b[..n], prefix);
    } else {
      assert a + b == a;
    }
  }

  /** Neither kind of install status can be taken for the other. */
  lemma InstallMessagesDiffer(name: string)
    ensures StartsWith(InstallingMsg(name), InstallingPrefix)
    ensures InstallingMsg(name)[|InstallingPrefix|..] == name
    ensures !StartsWith(InstallingMsg(name), ErrorPrefix)
    ensures StartsWith(InstallErrorMsg(name), ErrorPrefix)
    ensures InstallErrorMsg(name)[|ErrorPrefix|..] == name
    ensures !StartsWith(InstallErrorMsg(name), InstallingPrefix)
  {
    assert InstallingMsg(name)[0] == 'I';
    assert InstallErrorMsg(name)[0] == 'E';
  }

  /** One loop iteration shows one `Installing` status, and one error status exactly
      when the install failed, both for the entry's name. */
  lemma InstallStepTagged(name: string, installed: bool)
    ensures Tagged(InstallStep(name, installed), InstallingPrefix) == [name]
    ensures Tagged(InstallStep(name, installed), ErrorPrefix)
      == if installed then [] else [name]
  {
    var step := InstallStep(name, installed);
    InstallMessagesDiffer(name);
    TaggedAppend([step[0]], step[1..], InstallingPrefix);
    TaggedAppend([step[0]], step[1..], ErrorPrefix);
    assert [step[0]] + step[1..] == step;
  }

  /** The install loop posts exactly one `Installing {name}` status per entry, in the
      order of the list. */
  lemma {:induction false} InstallingInOrder(names: seq<string>, installed: seq<bool>)
    requires |installed| == |names|
    ensures Tagged(InstallTrace(names, installed), InstallingPrefix) == names
    decreases |names|
  {
    if |names| > 0 {
      var n := |names| - 1;
      var before := InstallTrace(names[..n], installed[..n]);
      var step := InstallStep(names[n], installed[n]);
      assert InstallTrace(names, installed) == before + step;
      InstallingInOrder(names[..n], installed[..n]);
      TaggedAppend(before, step, InstallingPrefix);
      InstallStepTagged(names[n], installed[n]);
      calc {
        Tagged(InstallTrace(names, installed), InstallingPrefix);
        Tagged(before, InstallingPrefix) + Tagged(step, InstallingPrefix);
        names[..n] + [names[n]];
        { DropLastAppend(names); }
        names;
      }
    }
  }

  /** The install loop posts exactly one `Error while installing {name}` status per
      failed entry, in the order of the list: a failure never stops the loop. */
  lemma {:induction false} ErrorsInOrder(names: seq<string>, installed: seq<bool>)
    requires |installed| == |names|
    ensures Tagged(InstallTrace(names, installed), ErrorPrefix) == FailedNames(names, installed)
    decreases |names|
  {
    if |names| > 0 {
      var n := |names| - 1;
      var before := InstallTrace(names[..n], installed[..n]);
      var step := InstallStep(names[n], installed[n]);
      assert InstallTrace(names, installed) == before + step;
      ErrorsInOrder(names[..n], installed[..n]);
      TaggedAppend(before, step, ErrorPrefix);
      InstallStepTagged(names[n], installed[n]);
    }
  }

  /** There are as many failed names as failed installs. */
  lemma {:induction false} FailedNamesCount(names: seq<string>, installed: seq<bool>)
    requires |installed| == |names|
    ensures |FailedNames(names, installed)| == Failures(installed)
    decreases |names|
  {
    if |names| > 0 {
      var n := |names| - 1;
      FailedNamesCount(names[..n], installed[..n]);
    }
  }

  /** N entries of which M fail give exactly N `Installing` statuses and M error
      statuses, and nothing else. */
  lemma {:induction false} InstallTraceCounts(names: seq<string>, installed: seq<bool>)
    requires |installed| == |names|
    ensures |Tagged(InstallTrace(names, installed), InstallingPrefix)| == |names|
    ensures |Tagged(InstallTrace(names, installed), ErrorPrefix)| == Failures(installed)
    ensures |InstallTrace(names, installed)| == |names| + Failures(installed)
    decreases |names|
  {
    InstallingInOrder(names, installed);
    ErrorsInOrder(names, installed);
    FailedNamesCount(names, installed);
    if |names| > 0 {
      var n := |names| - 1;
      InstallTraceCounts(names[..n], installed[..n]);
    }
  }

  /** Every message of the install loop is an `Installing` or an error status. */
  lemma {:induction false} InstallTraceStatuses(names: seq<string>, installed: seq<bool>)
    requires |installed| == |names|
    ensures forall m :: m in InstallTrace(names, installed) ==>
      m.Status? && (StartsWith(m.msg, InstallingPrefix) || StartsWith(m.msg, ErrorPrefix))
    decreases |names|
  {
    if |names| > 0 {
      var n := |names| - 1;
      InstallTraceStatuses(names[..n], installed[..n]);
      InstallMessagesDiffer(names[n]);
    }
  }

  /** Each error status comes immediately after the `Installing` status with the
      same name, that is, right after the status of the entry that failed. */
  lemma {:induction false} ErrorFollowsInstalling(names: seq<string>, installed: seq<bool>, k: nat)
    requires |installed| == |names|
    requires k < |InstallTrace(names, installed)|
    requires InstallTrace(names, installed)[k].Status?
    requires StartsWith(InstallTrace(names, installed)[k].msg, ErrorPrefix)
    ensures var t := InstallTrace(names, installed);
      k > 0 && t[k - 1] == Status(InstallingMsg(t[k].msg[|ErrorPrefix|..]))
    decreases |names|
  {
    var n := |names| - 1;
    var before := InstallTrace(names[..n], installed[..n]);
    var t := InstallTrace(names, installed);
    InstallMessagesDiffer(names[n]);
    if k < |before| {
      assert t[k] == before[k];
      ErrorFollowsInstalling(names[..n], installed[..n], k);
      assert t[k - 1] == before[k - 1];
    } else {
      assert k != |before|;
      assert t[k] == Status(InstallErrorMsg(names[n]));
    }
  }

  /** The parts of a booted startup trace and their lengths. */
  lemma {:induction false} BootedShape(names: seq<string>, installed: seq<bool>, last: Outgoing)
    requires |installed| == |names|
    ensures var t := BootedTrace(names, installed, last);
      && |t| == |names| + Failures(installed) + 3
      && t[0] == Status(LoadingMsg)
      && t[1..|t| - 2] == InstallTrace(names, installed)
      && t[|t| - 2] == Status(ExecutingMsg)
      && t[|t| - 1] == last
  {
    InstallTraceCounts(names, installed);
    var t := BootedTrace(names, installed, last);
    var inst := InstallTrace(names, installed);
    assert t == [Status(LoadingMsg)] + inst + [Status(ExecutingMsg), last];
  }

  /** Before its last message, a booted startup trace holds only statuses, and
      `Executing code` is the second to last of them and no other. */
  lemma BootedStatuses(names: seq<string>, installed: seq<bool>, last: Outgoing)
    requires |installed| == |names|
    ensures var t := BootedTrace(names, installed, last);
      forall k :: 0 <= k < |t| - 1 ==>
        t[k].Status? && (t[k] == Status(ExecutingMsg) <==> k == |t| - 2)
  {
    var t := BootedTrace(names, installed, last);
    var inst := InstallTrace(names, installed);
    assert t == [Status(LoadingMsg)] + inst + [Status(ExecutingMsg), last];
    InstallTraceStatuses(names, installed);
    assert !StartsWith(ExecutingMsg, InstallingPrefix) by {
      assert ExecutingMsg[0] != InstallingPrefix[0];
    }
    assert !StartsWith(ExecutingMsg, ErrorPrefix) by {
      assert |ExecutingMsg| < |ErrorPrefix|;
    }
    forall k | 1 <= k < |t| - 2 ensures t[k].Status? && t[k] != Status(ExecutingMsg) {
      assert t[k] == inst[k - 1];
      assert inst[k - 1] in inst;
    }
  }

  /**
   * The shape of the startup trace: `Loading pyodide` comes first. If the runtime
   * fails to load, that is all. Otherwise the install statuses follow, then
   * `Executing code`, whatever the installs did, then the script's report.
   */
  lemma StartupShape(pkgs: seq<string>, installed: seq<bool>, boot: Boot,
                     script: ScriptOutcome)
    requires |installed| == |pkgs|
    ensures var t := StartupTrace(pkgs, installed, boot, script);
      && t[0] == Status(LoadingMsg)
      && (boot != Booted ==> t == [Status(LoadingMsg)])
      && (boot == Booted ==>
            && |t| == |pkgs| + Failures(installed) + 3
            && t[1..|t| - 2] == InstallTrace(DisplayNames(pkgs), installed)
            && t[|t| - 2] == Status(ExecutingMsg)
            && t[|t| - 1] == ScriptReport(script))
  {
    if boot == Booted {
      BootedShape(DisplayNames(pkgs), installed, ScriptReport(script));
    }
  }

  /** The statuses before the install loop and after it carry neither prefix. */
  lemma StartupFrameUntagged(prefix: string)
    requires prefix == InstallingPrefix || prefix == ErrorPrefix
    ensures Tagged([Status(LoadingMsg)], prefix) == []
    ensures Tagged([Status(ExecutingMsg)], prefix) == []
  {
    if prefix == InstallingPrefix {
      assert LoadingMsg[0] != InstallingPrefix[0];
      assert ExecutingMsg[0] != InstallingPrefix[0];
    } else {
      assert |LoadingMsg| < |ErrorPrefix| && |ExecutingMsg| < |ErrorPrefix|;
    }
  }

  /** Before the script's report, the statuses with `prefix` are exactly those of the
      install loop. */
  lemma BootedTagged(names: seq<string>, installed: seq<bool>, last: Outgoing, prefix: string)
    requires |installed| == |names|
    requires prefix == InstallingPrefix || prefix == ErrorPrefix
    ensures var t := BootedTrace(names, installed, last);
      Tagged(t[..|t| - 1], prefix) == Tagged(InstallTrace(names, installed), prefix)
  {
    var t := BootedTrace(names, installed, last);
    var inst := InstallTrace(names, installed);
    assert t[..|t| - 1] == [Status(LoadingMsg)] + inst + [Status(ExecutingMsg)];
    TaggedAppend([Status(LoadingMsg)] + inst, [Status(ExecutingMsg)], prefix);
    TaggedAppend([Status(LoadingMsg)], inst, prefix);
    StartupFrameUntagged(prefix);
  }

  /** Over the whole startup, `Installing` statuses name every entry once, in list
      order, and error statuses name the failed entries, in list order. */
  lemma StartupInstallOrder(pkgs: seq<string>, installed: seq<bool>, script: ScriptOutcome)
    requires |installed| == |pkgs|
    ensures var t := StartupTrace(pkgs, installed, Booted, script);
      && Tagged(t[..|t| - 1], InstallingPrefix) == DisplayNames(pkgs)
      && Tagged(t[..|t| - 1], ErrorPrefix) == FailedNames(DisplayNames(pkgs), installed)
      && |Tagged(t[..|t| - 1], ErrorPrefix)| == Failures(installed)
  {
    var names := DisplayNames(pkgs);
    BootedTagged(names, installed, ScriptReport(script), InstallingPrefix);
    BootedTagged(names, installed, ScriptReport(script), ErrorPrefix);
    InstallingInOrder(names, installed);
    ErrorsInOrder(names, installed);
    FailedNamesCount(names, installed);
  }

  /** `Executing code` is posted exactly once before the script's report. */
  lemma ExecutingOnce(pkgs: seq<string>, installed: seq<bool>, script: ScriptOutcome)
    requires |installed| == |pkgs|
    ensures var t := StartupTrace(pkgs, installed, Booted, script);
      forall k :: 0 <= k < |t| - 1 ==> (t[k] == Status(ExecutingMsg) <==> k == |t| - 2)
  {
    BootedStatuses(DisplayNames(pkgs), installed, ScriptReport(script));
  }

  /**
   * When the script succeeds, exactly one `render` message is posted, as the last
   * message, carrying the script's three values unchanged and in order. When it
   * fails, no `render` message is posted and the last message is the status with
   * the trace's summary line.
   */
  lemma RenderOnce(pkgs: seq<string>, installed: seq<bool>, boot: Boot, script: ScriptOutcome)
    requires |installed| == |pkgs|
    ensures var t := StartupTrace(pkgs, installed, boot, script);
      && (forall k :: 0 <= k < |t| - 1 ==> !t[k].Render?)
      && (boot == Booted && script.ScriptOk? ==>
            t[|t| - 1] == Render(script.docsJson, script.renderItems, script.rootIds))
      && (script.ScriptError? ==> !t[|t| - 1].Render?)
      && (boot == Booted && script.ScriptError? ==>
            t[|t| - 1] == (match ErrorSummary(script.trace)
                           case Some(line) => Status(line)
                           case None => StatusUndefined))
  {
    if boot == Booted {
      BootedStatuses(DisplayNames(pkgs), installed, ScriptReport(script));
    }
  }

  // ---------------------------------------------------------------------------
  // Message relay
  // ---------------------------------------------------------------------------

  /** A message from the host page: its `type` and the payload fields the worker
      reads for `patch` and `location`. */
  datatype Incoming = Incoming(kind: string, patch: Opaque, location: Opaque)

  /** The interpreter work a message asks for. */
  datatype Action =
    | NoAction
      /** link the live document to `sendPatch`, marking its edits as coming from `js` */
    | LinkDocs
      /** bind the global `patch` and apply it to the document, as an edit from `js` */
    | ApplyPatch(patch: Opaque)
      /** bind the global `location` and merge it into the document's location */
    | UpdateLocation(location: Opaque)

  datatype Reaction = Reaction(out: seq<Outgoing>, action: Action)

  /**
   * `self.onmessage`. Only a `patch` message is answered, with one `idle`, which is
   * posted as soon as the patch is handed to the interpreter and does not depend on
   * it; a message of any other type than the three handled ones does nothing.
   */
  function Dispatch(m: Incoming): (r: Reaction)
    ensures forall o :: o in r.out ==> o == Idle
    ensures Idle in r.out <==> m.kind == "patch"
    ensures |r.out| == (if m.kind == "patch" then 1 else 0)
    ensures r.action == NoAction <==> m.kind !in {"rendered", "patch", "location"}
    ensures r.action == LinkDocs <==> m.kind == "rendered"
    ensures r.action.ApplyPatch? <==> m.kind == "patch"
    ensures r.action.UpdateLocation? <==> m.kind == "location"
    ensures r.action.ApplyPatch? ==> r.action.patch == m.patch
    ensures r.action.UpdateLocation? ==> r.action.location == m.location
  {
    if m.kind == "rendered" then Reaction([], LinkDocs)
    else if m.kind == "patch" then Reaction([Idle], ApplyPatch(m.patch))
    else if m.kind == "location" then Reaction([], UpdateLocation(m.location))
    else Reaction([], NoAction)
  }

  /** Everything the worker posts in answer to a stream of host messages. */
  function Relay(ms: seq<Incoming>): (out: seq<Outgoing>)
    ensures forall o :: o in out ==> o == Idle
    ensures |out| == PatchCount(ms)
    decreases |ms|
  {
    if |ms| == 0 then [] else Relay(ms[..|ms| - 1]) + Dispatch(ms[|ms| - 1]).out
  }

  /** The number of `patch` messages in a stream. */
  function PatchCount(ms: seq<Incoming>): nat
    decreases |ms|
  {
    if |ms| == 0 then 0
    else PatchCount(ms[..|ms| - 1]) + (if ms[|ms| - 1].kind == "patch" then 1 else 0)
  }

  /** Over any stream of host messages, the worker posts one `idle` per `patch`
      message and nothing else. */
  lemma {:induction false} RelayIdles(ms: seq<Incoming>)
    ensures Relay(ms) == seq(PatchCount(ms), _ => Idle)
    decreases |ms|
  {
    if |ms| > 0 {
      var n := |ms| - 1;
      RelayIdles(ms[..n]);
      var d := Dispatch(ms[n]);
      assert d.out == if ms[n].kind == "patch" then [Idle] else [];
    }
  }

  // ---------------------------------------------------------------------------
  // Location merge
  // ---------------------------------------------------------------------------

  /**
   * What the interpreter does for `UpdateLocation`, given the parsed payload:
   * the document's location, when there is one, maps each of its declared
   * parameters to its value. Every payload key that is a declared parameter takes
   * the payload's value; every other parameter keeps its value; payload keys that
   * are not parameters are ignored. Without a location nothing happens.
   */
  function MergeLocation<V>(location: Option<map<string, V>>, parsed: map<string, V>)
    : (r: Option<map<string, V>>)
    ensures location.None? ==> r.None?
    ensures location.Some? ==> r.Some? && r.value.Keys == location.value.Keys
    ensures location.Some? ==> forall k :: k in location.value ==>
      r.value[k] == (if k in parsed then parsed[k] else location.value[k])
  {
    match location
    case None => None
    case Some(params) => Some(params + map k | k in parsed && k in params :: parsed[k])
  }

  /** Merging the same payload twice is the same as merging it once. */
  lemma MergeLocationIdempotent<V>(location: Option<map<string, V>>, parsed: map<string, V>)
    ensures MergeLocation(MergeLocation(location, parsed), parsed) == MergeLocation(location, parsed)
  {
    if location.Some? {
      var once := MergeLocation(location, parsed).value;
      var twice := MergeLocation(MergeLocation(location, parsed), parsed).value;
      assert twice.Keys == once.Keys;
      assert forall k :: k in twice ==> twice[k] == once[k];
      assert twice == once;
    }
  }

  /** The merge depends on the payload only through its keys that are parameters. */
  lemma MergeLocationIgnoresUndeclared<V>(params: map<string, V>, parsed: map<string, V>,
                                          extra: map<string, V>)
    requires forall k :: k in extra ==> k !in params
    ensures MergeLocation(Some(params), parsed + extra) == MergeLocation(Some(params), parsed)
  {
    var a := MergeLocation(Some(params), parsed + extra).value;
    var b := MergeLocation(Some(params), parsed).value;
    assert a.Keys == b.Keys;
    forall k | k in a ensures a[k] == b[k] {
      assert k in parsed + extra <==> k in parsed;
      if k in parsed { assert (parsed + extra)[k] == parsed[k]; }
    }
    assert a == b;
  }

  lemma MergeLocationExample()
    ensures MergeLocation(Some(map["x" := 0]), map["x" := 1, "y" := 2]) == Some(map["x" := 1])
    ensures MergeLocation(None, map["x" := 1, "y" := 2]) == None
  {
    var r := MergeLocation(Some(map["x" := 0]), map["x" := 1, "y" := 2]).value;
    assert r.Keys == {"x"};
    assert r["x"] == 1;
    assert r == map["x" := 1];
  }
}
