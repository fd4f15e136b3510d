# Workspace and folder dropdowns: a verified model

This project models the rules in `js/fot_registerExtensions.js`, the browser
extension for a node-graph editor. It keeps "workspace" and "folder" nodes in
step with each other. The host editor's objects are replaced by plain Dafny
state: a `Widget` class (`type`, `options.values`, `value`), a `Node` class
(`type`, `widgets`, `workspace_codename`, the input slots' types) and a
`Registry` class for `window.fot_ui_features`. What the backend returns is an
input to each operation.

- `js_values.dfy` (`JsValues`) covers the JavaScript values the extension
  handles: `undefined` and `null`, truthiness, and property and index reads.
- `fingerprint.dfy` (`Fingerprint`) covers the workspace fingerprint:
  - the `h := 31*h + c` hash over UTF-16 code units, with 32-bit wrap-around
    after every step;
  - its proof against the closed form `s[0]*31^(n-1) + … + s[n-1]` modulo 2^32;
  - the `toString(16)` rendering, with its inverse.
- `widgets.dfy` (`Widgets`) covers:
  - selecting on a dropdown with fallback (`selectWorkspace`, `selectFolder`);
  - refreshing a dropdown from a list the backend returned;
  - turning the folder text widget into a dropdown (`refreshFolders`, and the
    `onConfigure` of a folder node);
  - writing the fingerprint and the size into a workspace node;
  - pushing a workspace codename to downstream consumers.
- `ui_features.dfy` (`UiFeatures`) covers the guard chain of
  `extract_node_ui_features` and how `beforeRegisterNodeDef` records its result.

Each method that changes state says, in its `ensures`, how its new state
follows from the old. Where there is one, it does this through a pure
transition on a widget's state (`Selected`, `WithOptions`, `AsCombo`,
`AsLoadingCombo`, `AfterFolderRefresh`, `Recorded`). The lemmas are stated about
those transitions.

A `widgets.find(...)` that finds nothing makes the source throw a TypeError when
it uses the result. So does a missing second input slot in `onConfigure`. The
model does not forbid these inputs: such a method returns `ok == false` and
states what it had already changed.

Two behaviours follow the code, not a looser reading of it:
- `refreshFolders` stops before fetching when the codename is `undefined` *or*
  `null`, because it uses `== undefined`.
- `refreshWorkspaceData` stops only for `undefined`, because it uses
  `=== undefined`. A `null` codename is requested.

## Model

| member | source | states |
|---|---|---|
| `JsValues.Property` | js/fot_registerExtensions.js:315-316 | reading a named key gives the object's field when it has one, and `undefined` otherwise |
| `JsValues.Element` | js/fot_registerExtensions.js:320 | `v[1]` on an array is its second element if there is one; on a string, the one-character string at that index when it is in range; on an object, the field named `"1"`; on a number or boolean, `undefined` |
| `Fingerprint.ToInt32` | js/fot_registerExtensions.js:104-105 | the result is a signed 32-bit value congruent to the input modulo 2^32 |
| `Fingerprint.ShiftSubtractStep` | js/fot_registerExtensions.js:104-105 | the loop body as written, `((h << 5) - h) + c` then `h & h`, equals the wrapped recurrence `ToInt32(31*h + c)` |
| `Fingerprint.Hash` | js/fot_registerExtensions.js:101-106 | the loop returns the fold of the wrapped recurrence from 0 over all code units |
| `Fingerprint.HashIsWrappedWeightedSum` | js/fot_registerExtensions.js:101-106 | wrapping after every step equals wrapping the exact polynomial `Σ s[i]*31^(n-1-i)` once, so the hash is that polynomial modulo 2^32 |
| `Fingerprint.HashOfShortStrings` | js/fot_registerExtensions.js:101-106 | the empty string hashes to 0 and a single code unit to itself |
| `Fingerprint.Hex` | js/fot_registerExtensions.js:107 | lowercase hexadecimal digits, at least one, a leading `0` only for zero |
| `Fingerprint.ToString16` | js/fot_registerExtensions.js:107 | `toString(16)` begins with `-` exactly when the number is negative, followed by hex digits |
| `Fingerprint.HexRoundTrip` | js/fot_registerExtensions.js:107 | parsing the hexadecimal rendering gives the number back |
| `Fingerprint.ToString16RoundTrip` | js/fot_registerExtensions.js:107 | parsing the signed rendering gives the number back, so distinct hashes render differently |
| `Fingerprint.HexLength` | js/fot_registerExtensions.js:107 | a number below 16^k renders in at most k digits |
| `Fingerprint.ToString16OfInt32Length` | js/fot_registerExtensions.js:107 | a 32-bit hash renders in at most nine characters |
| `Fingerprint.HashString` | js/fot_registerExtensions.js:94-108 | the hash string is empty exactly when no workspace was returned; otherwise it has 1 to 9 characters and parses back to the hash of the serialisation |
| `Widgets.Find` | js/fot_registerExtensions.js:64 | `widgets.find` returns nothing exactly when no widget has the name, else the first widget with that name |
| `Widgets.Choose` | js/fot_registerExtensions.js:66-74 | the chosen value is always an option, or `"default"` when there are none; a requested value that is an option is kept |
| `Widgets.Selected` | js/fot_registerExtensions.js:216-224 | selection leaves the type and options alone and leaves the value a listed option, or `"default"` with no options |
| `Widgets.SelectionKeepsRequest` | js/fot_registerExtensions.js:66-67 | the requested value survives selection if and only if it is an option (or it is `"default"` and there are no options) |
| `Widgets.SelectionFallsBack` | js/fot_registerExtensions.js:69-74 | an unlisted request falls back to the first option, and to `"default"` only with no options |
| `Widgets.ReselectionIsIdentity` | js/fot_registerExtensions.js:62-75 | selecting the value a selection produced changes nothing |
| `Widgets.SelectWorkspace` | js/fot_registerExtensions.js:62-81 | the codename widget ends in the `Selected` state and the node's `workspace_codename` equals its value; without a codename widget nothing changes and `ok` is false |
| `Widgets.SelectFolder` | js/fot_registerExtensions.js:210-226 | the folder widget ends in the `Selected` state; only that widget is written |
| `Widgets.WithOptions` | js/fot_registerExtensions.js:190-198 | after a list arrives the options are the list and the value is a listed entry, or `"default"` for an empty list |
| `Widgets.RefreshKeepsSelection` | js/fot_registerExtensions.js:193-196 | a refresh keeps the current selection if and only if the new list still contains it |
| `Widgets.RefreshIsIdempotent` | js/fot_registerExtensions.js:190-198 | receiving the same list twice is receiving it once |
| `Widgets.RefreshWorkspaces` | js/fot_registerExtensions.js:45-50 | on a listed response the codename widget takes the list and reselects its value, mirrored into the node; on a failure, or with no codename widget, nothing changes |
| `Widgets.AsCombo` | js/fot_registerExtensions.js:173-177 | conversion yields a combo with the same value; a text widget loses its options, and a combo is untouched |
| `Widgets.AsComboIsIdempotent` | js/fot_registerExtensions.js:173-177 | converting twice is converting once |
| `Widgets.ConvertFolderWidget` | js/fot_registerExtensions.js:172-177 | the folder widget, if any, ends in the `AsCombo` state; nothing else is written |
| `Widgets.AfterFolderRefresh` | js/fot_registerExtensions.js:169-208 | a refreshed folder widget is always a combo; with a codename and a listed response its options are the list and it shows the current folder if still listed, else the first listed folder, or `"default"` for an empty list; otherwise it keeps its value, a combo keeps its options and a converted text widget has none |
| `Widgets.RefreshFolders` | js/fot_registerExtensions.js:169-208 | a request is made exactly when the codename is neither `undefined` nor `null`; the folder widget ends in the `AfterFolderRefresh` state |
| `Widgets.AsLoadingCombo` | js/fot_registerExtensions.js:485-490 | a text widget becomes a combo whose only option is `"Loading..."` and whose value is `"Loading..."`, a fixed point of selection; a combo is untouched |
| `Widgets.AsLoadingComboIsIdempotent` | js/fot_registerExtensions.js:485-490 | the `onConfigure` conversion applied twice is applied once |
| `Widgets.OnConfigureFolder` | js/fot_registerExtensions.js:482-493 | the folder widget ends in the `AsLoadingCombo` state; a converted node's second input slot becomes `"COMBO"`, and without one `ok` is false |
| `Widgets.RefreshWorkspaceData` | js/fot_registerExtensions.js:83-123 | nothing happens for an `undefined` codename; otherwise `workspace_hash` gets `HashString` of the returned workspace, and a `fot_Workspace` node gets its width and height; only these three widgets are written |
| `Widgets.RefreshDownstreamConsumers` | js/fot_registerExtensions.js:130-142 | every downstream consumer takes the producer's codename; non-consumers, other nodes and the producer's own codename are unchanged |
| `UiFeatures.ExtractNodeUiFeatures` | js/fot_registerExtensions.js:313-328 | nothing is returned unless `input.hidden.ui_features[1].default` is present; otherwise the result is what parsing it gives, and it throws exactly when parsing throws |
| `UiFeatures.ExtractFindsDeclaration` | js/fot_registerExtensions.js:313-328 | a definition declaring `ui_features` as `["STRING", {"default": list}]` yields the parse of `list` |
| `UiFeatures.Recorded` | js/fot_registerExtensions.js:335-345 | only a produced list is recorded; it is stored under the node's name, the table is created if absent, and other entries are kept |
| `UiFeatures.RecordingIsIdempotent` | js/fot_registerExtensions.js:342-345 | recording the same outcome twice is recording it once |
| `UiFeatures.RecordingCommutes` | js/fot_registerExtensions.js:342-345 | node types with different names may be registered in either order |
| `UiFeatures.Registry.BeforeRegisterNodeDef` | js/fot_registerExtensions.js:330-347 | the table becomes `Recorded` of the extraction's outcome; `threw` reports a parse error, which leaves the table unchanged |

## Left out

- Network requests (`fetch`) are not modelled. The request's outcome is an input instead: a `ListResponse` for `get_workspaces` and `get_folders`, and an optional `Workspace` for `get_workspace`.
- `addWorkspace` and `addFolder` are not modelled. They are a POST request followed by `refreshWorkspaces`/`refreshFolders` and a selection, and both of those are modelled.
- Widgets.RefreshWorkspaceData: a rejected `get_workspace` request (an unhandled rejection in the source) is not modelled; the model assumes the response arrived.
- Asynchronous ordering is not modelled: the un-awaited `refreshWorkspaceData` and `refreshDownstreamConsumers` calls, and the 500 ms `setTimeout` in `onConnectInput`. Each operation runs as one atomic step.
- Widgets.RefreshDownstreamConsumers: does not model the awaited `onWorkspaceCodenameUpdated` callback that each consumer runs (on a folder node it is `refreshFolders`, modelled separately). Other code could run between iterations while the loop waits.
- Host plumbing is not modelled, because it belongs to the host editor: prototype patching and callback chaining (`setup_node`, `onNodeCreated`, `onExecuted`, `graph.configure`, `onNodeAdded`, `disconnectInput`, the folder node's `onConfigure` never calling the method it replaces), `addCustomWidget`, `prompt`, hiding the hash widget, `setDirtyCanvas`, and logging.
- Option lists are sorted with `localeCompare(…, {numeric: true})`, which is locale-dependent collation from the runtime. The lists in `ListResponse` are taken as already sorted.
- `JSON.stringify` over the sorted keys is not modelled; the serialisation arrives as a sequence of UTF-16 code units. `JSON.parse` is a parameter that yields `None` where it would throw.
- `findUpstreamWorkspace`, `findDownstreamNodes`, `is_workspace_consumer`, `is_workspace_producer` and `updateWorkspaceCodename` are not modelled. They live in `js/workspaces.js`, which is not part of this model. The downstream list and the consumer test are parameters.
- `__init__.py` (the backend's route registration and directory listing) is server-side I/O and not modelled.
- Numbers are reals, so `NaN` (which is falsy) cannot occur as a `ui_features` value. Strings are sequences of Unicode scalar values, so `s[1]` on a string with surrogate pairs is not exact.
- Every widget is assumed to have an `options` object. A read of `widget.options.values` on a widget without one is not modelled.
- Every node is assumed to have a `widgets` array. A read of `node.widgets.find` on a node without one, which throws in `refreshFolders` before any request is made, is not modelled.
