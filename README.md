# Workflow editor nodes: reference fields and active outputs

This project models the two pieces of logic in the node components of a visual
workflow editor, a canvas where nodes are wired together into a processing
pipeline.

- **Reference fields** (`Tts`, tts-node.tsx). An input field of the
  text-to-speech node holds a value and a mode. Reference mode is meant to
  hold a pointer to another node's output, written
  `nodeAncestors.<source node id>.<source handle>`. The link button flips the
  mode: it enters reference mode with an empty value, and leaving the mode
  keeps whatever text the field holds. A connection addressed to the field writes
  the reference and enters reference mode. Whenever the value changes, a
  reconciliation step re-enters reference mode if the value carries the
  prefix. Every change of mode asks the canvas to refresh the node's layout
  (`updateNodeInternals`). The field's handle is published as
  `<nodeId>__<name>` and accepts connections only while the node has no
  incoming connection.
- **Active outputs** (`VideoSource`, video-source-node.tsx). The video-source
  node has a fixed table of three possible outputs. A menu toggles each
  output's index in a list of active indices: an absent index is appended, a
  present one is removed everywhere. Each toggle asks for one layout refresh.
  Each active index is rendered as a row whose source handle is
  `<nodeId>__<outputId>`.

Each transition is a function on values (`Tts.ToggleReference`,
`Tts.HandleConnection`, `Tts.ReconcileReference`,
`VideoSource.NextActiveOutputs`). The lemmas are proved about these functions.
The classes `Tts.InputField` and `VideoSource.VideoSourceNode` hold the
component state as fields and update it in place. Their methods are proved to
produce exactly those functions' results, and to log exactly the layout
refreshes the component issues. `Handles.HandleId` is the handle-id template
that both components use.

Modelling choices:

- React state setters and the effects they trigger are atomic steps. Setting
  the mode (`InputField.SetReferencing`) refreshes the layout only when the
  mode actually changes, because an effect does not re-run for an unchanged
  dependency. Writing the value (`InputField.SetValue`) runs reconciliation
  only when the value changes.
- Handle ids in a connection are `string | null`, modelled as
  `Option<string>`. A null source handle is written into the reference as the
  text `null`, as a template literal does.
- `updateNodeInternals` is modelled as a log of the node ids it was given.
  `useHandleConnections` is modelled as the count it yields.

Two behaviours of the code are kept as written:

- Toggling out of reference mode leaves the value unchanged. A reference
  written by a connection therefore stays in the box while the field is
  literal (`Tts.ToggleOffKeepsReferenceText`).
- `handleConnection` compares the connection's target handle with the bare
  field name. The handle itself is published as `<nodeId>__<name>`, so a
  connection carrying the published id never matches
  (`Tts.HandleConnectionIgnoresPublishedHandle`). The model keeps this
  comparison as written.

## Model

| member | source | states |
|---|---|---|
| `Handles.HandleId` | src/app/_components/nodes/tts-node.tsx:87 | the handle id is the node id, then `__`, then the name, with length the sum of the three |
| `Handles.HandleIdInjective` | src/app/_components/nodes/video-source-node.tsx:154 | within one node, equal handle ids come from equal names |
| `Handles.HandleIdIsNotBareName` | src/app/_components/nodes/tts-node.tsx:87 | for every node id, a published handle id is longer than the bare field name and never equals it |
| `Tts.ReferenceValue` | src/app/_components/nodes/tts-node.tsx:52 | the written reference always starts with `nodeAncestors.`; its length accounts for the source id, one dot and the handle text |
| `Tts.IsReferenceText` | src/app/_components/nodes/tts-node.tsx:62 | the test holds exactly when the value starts with `nodeAncestors.`; the non-emptiness guard adds nothing |
| `Tts.SplitAtFirstDot` | src/app/_components/nodes/tts-node.tsx:52 | splits at a dot exactly when there is one; the left part has no dot and the parts rebuild the input |
| `Tts.ParseReference` | src/app/_components/nodes/tts-node.tsx:52 | a parsed reference has the prefix and rebuilds as prefix, source id, one dot and handle; text without the prefix never parses |
| `Tts.ParseReferenceValue` | src/app/_components/nodes/tts-node.tsx:52 | for a source id without a dot, the written reference reads back as that source id and handle text |
| `Tts.ReferenceValueAmbiguous` | src/app/_components/nodes/tts-node.tsx:52 | two connections whose source ids differ (one contains a dot) write the same reference |
| `Tts.ReferenceValueNullHandle` | src/app/_components/nodes/tts-node.tsx:52 | a null source handle is written as `null`, the same as a handle named `null` |
| `Tts.IsConnectable` | src/app/_components/nodes/tts-node.tsx:88 | the handle accepts a connection exactly when the node has no incoming connection (the count is per node) |
| `Tts.ToggleReference` | src/app/_components/nodes/tts-node.tsx:37-42 | the mode flips; entering reference mode clears the value; leaving it keeps the value |
| `Tts.HandleConnection` | src/app/_components/nodes/tts-node.tsx:48-58 | an addressed connection sets the value to its reference and enters reference mode; any other connection changes nothing |
| `Tts.ReconcileReference` | src/app/_components/nodes/tts-node.tsx:60-65 | the value never changes; afterwards the field is in reference mode exactly when it was before or the value has the prefix |
| `Tts.Mount` | src/app/_components/nodes/tts-node.tsx:29-65 | just after mount the value is the initial one, and the field is in reference mode exactly when that value has the prefix |
| `Tts.Refreshes` | src/app/_components/nodes/tts-node.tsx:44-46 | a mode change causes one refresh for the node; no change causes none |
| `Tts.ReconcileNeverClears` | src/app/_components/nodes/tts-node.tsx:60-65 | reconciliation never leaves reference mode |
| `Tts.ReconcileIdempotent` | src/app/_components/nodes/tts-node.tsx:60-65 | reconciling twice is the same as reconciling once |
| `Tts.ReconcileAfterConnection` | src/app/_components/nodes/tts-node.tsx:52-63 | after an addressed connection, reconciliation is a no-op |
| `Tts.HandleConnectionIdempotent` | src/app/_components/nodes/tts-node.tsx:51-55 | delivering the same connection twice is the same as delivering it once |
| `Tts.HandleConnectionIgnoresPublishedHandle` | src/app/_components/nodes/tts-node.tsx:51-87 | for every node id, a connection whose target handle is the published handle id leaves the field unchanged |
| `Tts.ToggleTwice` | src/app/_components/nodes/tts-node.tsx:37-42 | two toggles restore the mode and leave the value empty |
| `Tts.ToggleOffKeepsReferenceText` | src/app/_components/nodes/tts-node.tsx:37-65 | after a connection and a toggle, the field is literal but its value is still the reference text |
| `Tts.ConnectScenario` | src/app/_components/nodes/tts-node.tsx:48-88 | the empty `videoUrl` field of node `2`, connected from `videoUrl` of node `1` with the bare field name as target handle, holds `nodeAncestors.1.videoUrl` in reference mode; one connection closes the handle |
| `Tts.ConnectScenarioPublishedHandle` | src/app/_components/nodes/tts-node.tsx:51-87 | the connection as the canvas reports it, with published handle ids `1__videoUrl` and `2__videoUrl`, leaves the field empty and literal |
| `Tts.InputField.IsDisabled` | src/app/_components/nodes/tts-node.tsx:74 | the text input is disabled exactly in reference mode |
| `Tts.InputField.PublishedHandleId` | src/app/_components/nodes/tts-node.tsx:87 | the field's target handle is published as `HandleId(nodeId, name)` |
| `Tts.InputField.constructor` | src/app/_components/nodes/tts-node.tsx:29-65 | the mounted field is `Mount(initialValue)`; one refresh from the mount effect, plus one more if reconciliation entered reference mode |
| `Tts.InputField.SetReferencing` | src/app/_components/nodes/tts-node.tsx:44-46 | sets the mode and leaves the value alone; logs one refresh exactly when the mode changed (the step shared by `Toggle`, `OnConnect` and `Reconcile`) |
| `Tts.InputField.Reconcile` | src/app/_components/nodes/tts-node.tsx:60-65 | the new state is `ReconcileReference` of the old one; logs one refresh exactly when the mode changed |
| `Tts.InputField.SetValue` | src/app/_components/nodes/tts-node.tsx:53-65 | an unchanged value changes nothing; a new value is stored and reconciled; logs one refresh exactly when the mode changed |
| `Tts.InputField.Toggle` | src/app/_components/nodes/tts-node.tsx:37-46 | the new state is `ToggleReference` of the old one, so the input's disabled state flips; logs exactly one refresh for the node |
| `Tts.InputField.OnConnect` | src/app/_components/nodes/tts-node.tsx:48-58 | the new state is `HandleConnection` of the old one; logs one refresh exactly when the mode changed; a connection carrying the field's published handle id changes neither the state nor the log |
| `VideoSource.Without` | src/app/_components/nodes/video-source-node.tsx:61 | removes every occurrence of the index and keeps every other element with its multiplicity |
| `VideoSource.NextActiveOutputs` | src/app/_components/nodes/video-source-node.tsx:59-63 | membership of the toggled index flips, membership of all other indices is unchanged; an absent index is appended after all earlier entries; a present one is removed with all its occurrences |
| `VideoSource.WithoutConcat` | src/app/_components/nodes/video-source-node.tsx:61 | removal distributes over concatenation, so the remaining entries keep their relative order |
| `VideoSource.WithoutAbsent` | src/app/_components/nodes/video-source-node.tsx:61 | removing an index that is absent changes nothing |
| `VideoSource.WithoutNoDuplicates` | src/app/_components/nodes/video-source-node.tsx:61 | removal keeps a list free of duplicates |
| `VideoSource.ToggleKeepsNoDuplicates` | src/app/_components/nodes/video-source-node.tsx:60-62 | a list without duplicates has none after a toggle |
| `VideoSource.ToggleKeepsInBounds` | src/app/_components/nodes/video-source-node.tsx:111-123 | toggling a table index keeps every active index inside the table, so the lookup at line 123 is defined |
| `VideoSource.ToggleAbsentTwice` | src/app/_components/nodes/video-source-node.tsx:60-62 | toggling an absent index twice restores the original list |
| `VideoSource.TogglePresentTwice` | src/app/_components/nodes/video-source-node.tsx:60-62 | toggling a present index twice moves it to the end |
| `VideoSource.ToggleScenario` | src/app/_components/nodes/video-source-node.tsx:41-62 | from no active outputs, toggling 1 gives `[1]` and toggling 1 again gives `[]` |
| `VideoSource.RenderRows` | src/app/_components/nodes/video-source-node.tsx:120-161 | rendering succeeds exactly when every active index is in the table; then row k is the row of `PossibleOutputs[active[k]]`, with key, caption, icon, color, tooltip and handle id `HandleId(id, output id)` |
| `VideoSource.OutputIdsDistinct` | src/app/_components/nodes/video-source-node.tsx:29-38 | the three output ids of the table are pairwise distinct |
| `VideoSource.RowsDistinct` | src/app/_components/nodes/video-source-node.tsx:122-154 | with distinct in-bounds active indices, rendered rows have distinct React keys and distinct handle ids |
| `VideoSource.MenuItems` | src/app/_components/nodes/video-source-node.tsx:111-115 | one menu entry per table output, in table order, marked active exactly when its index is active |
| `VideoSource.VideoSourceNode.constructor` | src/app/_components/nodes/video-source-node.tsx:41 | a new node has no active outputs and has issued no refresh |
| `VideoSource.VideoSourceNode.ToggleOutput` | src/app/_components/nodes/video-source-node.tsx:57-71 | the active list becomes `NextActiveOutputs` of the old one; exactly one refresh for the node id is logged; duplicate-freedom and table bounds are kept |
| `VideoSource.VideoSourceNode.Rows` | src/app/_components/nodes/video-source-node.tsx:120-161 | in every reachable state, rendering yields one row per active index, in order, with handle id `HandleId(id, output id)` |
| `VideoSource.VideoSourceNode.Menu` | src/app/_components/nodes/video-source-node.tsx:111-115 | each menu entry is marked active exactly when its index is in the active list |

## Left out

- The canvas (src/app/_components/workflow-canvas.tsx): its `onConnect` hands the connection to the graph library's `addEdge`, which is not shown. The node and edge collections belong to that library, and the node-type table and initial nodes are static configuration.
- The page (src/app/page.tsx): it only mounts the canvas on the client side.
- Form validation: the zod schemas, react-hook-form's `register`, `handleSubmit` and error messages, and `onSubmit`. These live in foreign libraries, and `onSubmit` only logs.
- `updateNodeInternals` and `useHandleConnections` are graph-library internals. The first is modelled as a log of node ids, the second as the connection count given to `Tts.IsConnectable`.
- React scheduling: re-rendering, effect ordering within one commit, `useCallback` memoisation, and the stale `isReferencing` that `toggleReference` reads from its closure. Each handler is one atomic step.
- An initial value that is `undefined` (node data without `videoUrl`) is modelled as the empty string. Both fail the reconciliation guard.
- `handleConnection` is never passed to any handle or canvas callback. `Tts.InputField.OnConnect` models what it would do if it were called.
- Typing into the text input goes through `register`, which is not shown. `Tts.InputField.SetValue` covers writes to the value through the form.
- Rendering beyond the output rows and menu entries (layout, styling classes other than the output color, icons as images, tooltip behaviour) and `console.log` output.
- `VideoSource.VideoSourceNode.ToggleOutput` requires an index of the table. Its only caller is the menu, which passes the indices of `possibleOutputs`.
