# Pyodide worker of the movie-data EDA dashboard

This project models the web worker `app.js` of an interactive exploratory-data-analysis
dashboard that runs entirely in the browser. The worker loads the Pyodide Python runtime,
installs a fixed list of packages, runs an embedded Panel script and then relays messages
between the host page and the live Panel document.

The Python runtime is treated as an oracle. Each step that calls into it is an input of
the model: whether the runtime and `micropip` loaded, whether each install succeeded, and
what the script returned or raised. What the model describes is what the worker itself
decides: the ordered sequence of messages it posts to the host page, and the
interpreter work each incoming message asks for.

The model has three modules:

- `Wrappers` (`wrappers.dfy`): the `Option` datatype.
- `JsString` (`jsstring.dfy`): the JavaScript string operations the worker uses.
  `EndsWith` is `String.prototype.endsWith`. `Split` is `String.prototype.split` with a
  one-character separator; `Join` is its partner. The lemmas describe which pieces come
  out when a string is split at a first or last separator.
- `Worker` (`worker.dfy`): the worker itself, in four parts.
  - Package display names: `DisplayName` derives the name shown while installing an entry.
  - The startup sequence: `StartApplication` is a method, and the source's loop over the
    environment specification is its helper method `InstallPackages`. The method is proved
    equal to the function `StartupTrace`, and the lemmas about that function state counts,
    order and shape.
  - The error summary: `ErrorSummary` picks the second to last line of an exception's text.
  - The message relay: `Dispatch` is `self.onmessage`, `Relay` folds it over a stream of
    messages, and `MergeLocation` is the location update the `location` message requests.

Opaque payloads (patches, buffers, the three render values, the serialized location)
are modelled by their serialized text and are never inspected.

When an exception's text has a single line, the source reads `tblines[-1]`. In
JavaScript that is `undefined`, and the worker still posts a status message with that
`undefined` text; it does not crash. The model keeps this behaviour: `ErrorSummary`
returns `None`, and the posted message is `Outgoing.StatusUndefined`. Falling back to
the whole trace would change the posted text; the model keeps the `undefined` status
the code posts.

## Model

| member | source | states |
|---|---|---|
| `JsString.Split` | app.js:22 | `split` always returns at least one piece; no piece contains the separator; joining the pieces with the separator gives back the input |
| `JsString.SplitNoSeparator` | app.js:22 | a string without the separator splits into itself alone |
| `JsString.SplitSeparator` | app.js:56-59 | a string splits into two or more pieces exactly when it contains the separator |
| `JsString.SplitAtFirst` | app.js:22 | splitting `x + sep + y` with `sep` not in `x` gives `x` and then the pieces of `y` |
| `JsString.SplitAtLast` | app.js:22 | splitting `x + sep + y` with `sep` not in `y` gives the pieces of `x` and then `y` |
| `JsString.FirstPieceIsPrefix` | app.js:22 | the first piece is a prefix of the input, and the separator directly follows it unless it is the whole input |
| `JsString.JoinLast` | app.js:22 | joining parts gives the join of all but the last part, the separator, then the last part |
| `JsString.LastPieceIsSuffix` | app.js:22 | the last piece is a suffix of the input, and the separator directly precedes it unless it is the whole input |
| `Worker.DisplayName` | app.js:21-25 | an entry that does not end in `.whl` is displayed verbatim, whatever it contains; a wheel's display name contains neither `/` nor `-` |
| `Worker.DisplayNameOfWheel` | app.js:21-22 | for an entry ending in `.whl`: the file name after the last `/` is a suffix of the entry, with no `/` in it; the display name is the prefix of that file name up to its first `-`; so the name contains neither `/` nor `-` |
| `Worker.DisplayNameOfWheelPath` | app.js:21-22 | conversely, a wheel URL `dir/name-rest`, with `rest` ending in `.whl`, is displayed as `name` when `name` has no `-` and the file name has no `/` |
| `Worker.PanelWheelName` | app.js:18-22 | `.../panel-1.6.1-py3-none-any.whl` is displayed as `panel`, whatever the directory |
| `Worker.BokehWheelName` | app.js:18-22 | `.../bokeh-3.6.3-py3-none-any.whl` is displayed as `bokeh`, whatever the directory |
| `Worker.VerbatimNames` | app.js:23-25 | two examples of entries that are not wheels and are displayed verbatim: `pyodide-http==0.2.1` and `numpy` |
| `Worker.EnvSpecDisplayNames` | app.js:18-25 | the nine entries of the fixed environment specification are displayed as `bokeh`, `panel`, `pyodide-http==0.2.1`, `holoviews`, `hvplot`, `numpy`, `pandas`, `scipy`, `vega_datasets` |
| `Worker.ErrorSummary` | app.js:55-59 | there is a summary line exactly when the trace contains a line break; the summary contains no line break |
| `Worker.ErrorSummaryOfLines` | app.js:55-59 | the summary is the line that ends at the trace's last line break, whatever comes before it |
| `Worker.ErrorSummaryOfTwoLines` | app.js:55-59 | the summary of a two-line trace is its first line |
| `Worker.ErrorSummaryOfThreeLines` | app.js:55-59 | `"A\nB error: oops\nC"` is summarised as `B error: oops` |
| `Worker.ErrorSummaryOfEndingBreak` | app.js:55-59 | example: `Traceback\nValueError: bad\n`, which ends in a line break and so has an empty last line, is summarised as `ValueError: bad` |
| `Worker.ErrorSummaryOfOneLine` | app.js:56-59 | example: the one-line trace `one line` has no summary line, so the status is posted with an undefined text |
| `Worker.ScriptReport` | app.js:46-60 | the report is `render` exactly when the script succeeded, and then carries its three values unchanged; it is the undefined status exactly when the script raised with a one-line trace; a status text never holds a line break |
| `Worker.StartupTrace` | app.js:11-62 | `Loading pyodide` comes first; it is the only message exactly when the runtime fails to load; otherwise the last message is the script's report |
| `Worker.BootedTrace` | app.js:13-60 | once the runtime is loaded, `Loading pyodide` comes first, `Executing code` second to last and the script's report last |
| `Worker.InstallPackages` | app.js:19-39 | the install loop posts exactly `InstallTrace` of the entries' display names, whose counts and order the lemmas below state |
| `Worker.StartApplication` | app.js:11-62 | the messages posted are exactly those of `StartupTrace`; the returned promise rejects exactly when loading the runtime fails or the script raised and the error is rethrown |
| `Worker.InstallMessagesDiffer` | app.js:26-36 | an `Installing` status and an `Error while installing` status can never be confused, and the name can be read back from each |
| `Worker.InstallStepTagged` | app.js:26-37 | one install iteration posts one `Installing {name}` status, plus one error status for the same name exactly when the install failed |
| `Worker.InstallingInOrder` | app.js:19-26 | the install loop posts the `Installing` statuses of exactly the list's names, in list order, one per entry |
| `Worker.ErrorsInOrder` | app.js:27-38 | the install loop posts the error statuses of exactly the failed entries, in list order; a failure does not stop the loop |
| `Worker.FailedNamesCount` | app.js:27-38 | there are as many failed names as failed installs |
| `Worker.InstallTraceCounts` | app.js:19-39 | with N entries and M failures, the loop posts exactly N `Installing` statuses, exactly M error statuses, and N + M messages in all |
| `Worker.InstallTraceStatuses` | app.js:19-39 | every message the loop posts is an `Installing` status or an error status |
| `Worker.ErrorFollowsInstalling` | app.js:26-37 | each error status comes immediately after the `Installing` status of the same name |
| `Worker.StartupShape` | app.js:11-62 | `Loading pyodide` is posted first; if the runtime fails to load, nothing else is posted; otherwise the loop's statuses follow, then `Executing code`, then the script's report, 3 + N + M messages in all |
| `Worker.StartupFrameUntagged` | app.js:13-41 | `Loading pyodide` and `Executing code` are neither `Installing` nor error statuses |
| `Worker.BootedTagged` | app.js:13-41 | before the script's report, the `Installing` and error statuses are exactly those of the install loop |
| `Worker.BootedStatuses` | app.js:13-41 | once the runtime is loaded, every message before the last is a status, and `Executing code` is the second to last and no other |
| `Worker.StartupInstallOrder` | app.js:13-41 | over the whole startup, the `Installing` statuses name every entry once, in list order, and the error statuses name the M failed entries, in list order |
| `Worker.ExecutingOnce` | app.js:40-41 | `Executing code` is posted exactly once before the script's report, whatever the install outcomes |
| `Worker.RenderOnce` | app.js:46-60 | no `render` message is posted before the last message; on success the last message is `render` with `docs_json`, `render_items` and `root_ids` unchanged and in that order; on failure there is no `render` message, and the last message is the status with the summary line, or an undefined text |
| `Worker.Dispatch` | app.js:65-94 | only `patch` is answered, with exactly one `idle` and nothing else; `rendered` asks for the document link, `patch` to apply its patch, `location` to merge its location, payloads unchanged; any other type asks for nothing and posts nothing |
| `Worker.Relay` | app.js:65-94 | over a stream of host messages, only `idle` is posted, once per `patch` message |
| `Worker.RelayIdles` | app.js:74-80 | over any stream of host messages, the worker posts exactly one `idle` per `patch` message and nothing else; the `idle` does not depend on the patch being applied |
| `Worker.MergeLocation` | app.js:87-92 | with no location, nothing changes; otherwise the location keeps its set of parameters, each parameter in the payload takes the payload's value, every other parameter keeps its value, and payload keys that are not parameters are ignored |
| `Worker.MergeLocationIdempotent` | app.js:87-92 | merging the same payload twice gives the same location as merging it once |
| `Worker.MergeLocationIgnoresUndeclared` | app.js:91 | adding payload keys that are not parameters of the location changes nothing |
| `Worker.MergeLocationExample` | app.js:87-92 | payload `{x: 1, y: 2}` on a location declaring only `x` updates `x` to 1 and ignores `y`; with no location the result is still no location |

## Left out

- `app.py`, and the same Python script embedded as a string at app.js:42-44. They are pandas filtering, floating-point statistics, random jitter and hvplot/Panel widget construction, all calls into libraries outside this model. The script is an oracle whose outcome is a `ScriptOutcome`.
- `loadPyodide`, `loadPackage("micropip")` and `micropip.install` (app.js:14-17, 28-31) are network I/O inside the interpreter. Their outcomes are inputs (`Boot` and one `bool` per entry). The console logging around them is not modelled.
- `self.pyodide` and the registration of `sendPatch` as an interpreter global (app.js:14-15) are interpreter state. `StartApplication` returns the posted messages and whether the promise rejects, not a session object.
- `sendPatch` (app.js:3-9) appears only as the `Outgoing.Patch` constructor. The interpreter calls it, and that is outside the model. `msg_id` is not forwarded in the source either.
- `_link_docs_worker`, `_convert_json_patch`, `apply_json_patch` and `edit_readonly` (app.js:68-78, 86-89) are Panel and Bokeh internals. `Dispatch` only records which action is requested (`Action`). Whether `rendered` wires the document twice when sent twice is not modelled.
- The fire-and-forget order of the `patch` handler and the event-loop scheduling (app.js:76-80) are concurrency. The model states only that `idle` is posted whatever the interpreter does.
- `json.loads` of the location payload (app.js:88): `MergeLocation` takes the parsed map. The location's declared parameters are the keys of its map. Validation errors `param.update` might raise are not modelled.
- Messages that arrive before `self.pyodide` has been set (the handler would then throw) are not modelled.
- `console.log` and the `postMessage` transport: the posted messages are a sequence.
