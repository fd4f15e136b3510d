/** The widgets and nodes of the graph editor as far as the extension touches
    them: the `codename` dropdown of a workspace node, the `folder` dropdown of a
    folder node, and the hidden `workspace_hash`, `width` and `height` widgets.
    Each state change is a method over the host's mutable objects, tied to a pure
    transition on a widget's state; the lemmas are about the transitions.
    A `widgets.find` that finds nothing makes the source throw a TypeError; the
    methods below report that as `ok == false` instead of excluding it. */
module Widgets {
  import opened JsValues
  import Fingerprint

  const CodenameWidget: string := "codename"
  const FolderWidget: string := "folder"
  const HashWidget: string := "workspace_hash"
  const WidthWidget: string := "width"
  const HeightWidget: string := "height"
  const WorkspaceNodeType: string := "fot_Workspace"
  const ComboKind: string := "combo"
  const ComboInputType: string := "COMBO"
  const DefaultChoice: string := "default"
  const Loading: string := "Loading..."

  /** What the extension reads and writes on a widget: `type`, `options.values`, `value`. */
  datatype WidgetState = WidgetState(kind: string, options: seq<string>, value: JsValue)

  class Widget {
    const name: string
    var kind: string
    var options: seq<string>
    var value: JsValue

    function State(): WidgetState
      reads this
    {
      WidgetState(kind, options, value)
    }
  }

  class Node {
    const nodeType: string
    const widgets: seq<Widget>
    /** `node.workspace_codename`; `Undefined` until something sets it. */
    var workspaceCodename: JsValue
    /** The `type` of each input slot, `node.inputs[i].type`. */
    var inputTypes: seq<string>
  }

  /** `widgets.find(w => w.name === name)`: the first widget with that name, if any. */
  function Find(widgets: seq<Widget>, name: string): (r: Option<Widget>)
    ensures r.None? <==> forall w :: w in widgets ==> w.name != name
    ensures r.Some? ==> r.value.name == name
    ensures r.Some? ==> exists i :: (0 <= i < |widgets| && widgets[i] == r.value
                                     && forall j :: 0 <= j < i ==> widgets[j].name != name)
    decreases |widgets|
  {
    if widgets == [] then None
    else if widgets[0].name == name then Some(widgets[0])
    else
      var r := Find(widgets[1..], name);
      assert forall w :: w in widgets[1..] ==> w in widgets;
      assert forall w :: w in widgets ==> w == widgets[0] || w in widgets[1..];
      assert r.Some? ==> exists i :: 1 <= i < |widgets| && widgets[i] == r.value
                           && forall j :: 0 <= j < i ==> widgets[j].name != name by {
        if r.Some? {
          var i :| 0 <= i < |widgets[1..]| && widgets[1..][i] == r.value
                   && forall j :: 0 <= j < i ==> widgets[1..][j].name != name;
          assert widgets[i + 1] == r.value;
          assert forall j :: 0 <= j < i + 1 ==> widgets[j].name != name by {
            forall j | 0 <= j < i + 1 ensures widgets[j].name != name {
              if j > 0 {
                assert widgets[j] == widgets[1..][j - 1];
              }
            }
          }
        }
      }
      r
  }

  /** The objects a method may write when it writes the widget `found`. */
  function Target(found: Option<Widget>): set<Widget> {
    if found.Some? then {found.value} else {}
  }

  // ---------------------------------------------------------------------
  // Dropdown selection with fallback
  // ---------------------------------------------------------------------

  /** `options.includes(requested)`; only a string can be among the options. */
  predicate Includes(options: seq<string>, requested: JsValue) {
    requested.Str? && requested.s in options
  }

  /** The value a dropdown ends on when `requested` is asked for: the request if it
      is an option, else the first option, else `"default"`. */
  function Choose(options: seq<string>, requested: JsValue): (r: string)
    ensures r in options || (options == [] && r == DefaultChoice)
    ensures Includes(options, requested) ==> r == requested.s
  {
    if Includes(options, requested) then requested.s
    else if |options| > 0 then options[0]
    else DefaultChoice
  }

  /** A dropdown after `requested` was selected on it. */
  function Selected(w: WidgetState, requested: JsValue): (r: WidgetState)
    ensures r.kind == w.kind && r.options == w.options
    ensures r.value.Str? && (Includes(w.options, r.value) || (w.options == [] && r.value.s == DefaultChoice))
  {
    w.(value := Str(Choose(w.options, requested)))
  }

  /** Selection keeps the requested value exactly when it is an option, or when the
      options are empty and `"default"` was requested. */
  lemma SelectionKeepsRequest(options: seq<string>, requested: JsValue)
    ensures Str(Choose(options, requested)) == requested
            <==> Includes(options, requested) || (options == [] && requested == Str(DefaultChoice))
  {
  }

  /** A request that is not an option falls back to the first option, and to
      `"default"` only when there are no options. */
  lemma SelectionFallsBack(options: seq<string>, requested: JsValue)
    requires !Includes(options, requested)
    ensures options != [] ==> Choose(options, requested) == options[0]
    ensures options == [] ==> Choose(options, requested) == DefaultChoice
  {
  }

  /** Selecting the value a selection produced changes nothing. */
  lemma ReselectionIsIdentity(w: WidgetState, requested: JsValue)
    ensures Selected(Selected(w, requested), Selected(w, requested).value) == Selected(w, requested)
  {
  }

  /** `selectWorkspace(node, requested)`: selects on the `codename` dropdown and
      mirrors the selected value into `node.workspace_codename`. (The source then
      starts `refreshWorkspaceData` without awaiting it; that is `RefreshWorkspaceData`.) */
  method SelectWorkspace(node: Node, requested: JsValue) returns (ok: bool)
    modifies node`workspaceCodename, Target(Find(node.widgets, CodenameWidget))
    ensures ok <==> Find(node.widgets, CodenameWidget).Some?
    ensures !ok ==> node.workspaceCodename == old(node.workspaceCodename)
    ensures ok ==> var w := Find(node.widgets, CodenameWidget).value;
                   && w.State() == Selected(old(w.State()), requested)
                   && node.workspaceCodename == w.value
  {
    var found := Find(node.widgets, CodenameWidget);
    if found.None? {
      return false;
    }
    var widget := found.value;
    var workspaces := widget.options;
    if Includes(workspaces, requested) {
      widget.value := requested;
    } else if |workspaces| > 0 {
      widget.value := Str(workspaces[0]);
    } else {
      widget.value := Str(DefaultChoice);
    }
    node.workspaceCodename := widget.value;
    return true;
  }

  /** `selectFolder(node, requested)`: selects on the `folder` dropdown. */
  method SelectFolder(node: Node, requested: JsValue) returns (ok: bool)
    modifies Target(Find(node.widgets, FolderWidget))
    ensures ok <==> Find(node.widgets, FolderWidget).Some?
    ensures ok ==> var w := Find(node.widgets, FolderWidget).value;
                   w.State() == Selected(old(w.State()), requested)
  {
    var found := Find(node.widgets, FolderWidget);
    if found.None? {
      return false;
    }
    var widget := found.value;
    var folders := widget.options;
    if Includes(folders, requested) {
      widget.value := requested;
    } else if |folders| > 0 {
      widget.value := Str(folders[0]);
    } else {
      widget.value := Str(DefaultChoice);
    }
    return true;
  }

  // ---------------------------------------------------------------------
  // Refreshing the dropdowns from a list the backend returned
  // ---------------------------------------------------------------------

  /** The outcome of a `get_workspaces` or `get_folders` request: the list (already
      sorted), or a failure (`!response.ok`, a network error, or a body without a
      list), which the source only logs. */
  datatype ListResponse = Listed(names: seq<string>) | Failed

  /** A dropdown after a list arrived: the list becomes the options and the current
      value is selected again. */
  function WithOptions(w: WidgetState, names: seq<string>): (r: WidgetState)
    ensures r.kind == w.kind && r.options == names
    ensures r.value.Str? && (Includes(names, r.value) || (names == [] && r.value.s == DefaultChoice))
  {
    Selected(w.(options := names), w.value)
  }

  /** A refresh keeps the current selection exactly when the new list still has it
      (or when the list is empty and the selection is `"default"`). */
  lemma RefreshKeepsSelection(w: WidgetState, names: seq<string>)
    ensures WithOptions(w, names).value == w.value
            <==> Includes(names, w.value) || (names == [] && w.value == Str(DefaultChoice))
  {
    SelectionKeepsRequest(names, w.value);
  }

  /** Receiving the same list twice is receiving it once. */
  lemma RefreshIsIdempotent(w: WidgetState, names: seq<string>)
    ensures WithOptions(WithOptions(w, names), names) == WithOptions(w, names)
  {
  }

  /** `refreshWorkspaces(node)` after the request: the `codename` options are
      replaced and the current value is selected again through `selectWorkspace`. */
  method RefreshWorkspaces(node: Node, response: ListResponse)
    modifies node`workspaceCodename, Target(Find(node.widgets, CodenameWidget))
    ensures var found := Find(node.widgets, CodenameWidget);
            if response.Listed? && found.Some? then
              && found.value.State() == WithOptions(old(found.value.State()), response.names)
              && node.workspaceCodename == found.value.value
            else
              && node.workspaceCodename == old(node.workspaceCodename)
              && (found.Some? ==> found.value.State() == old(found.value.State()))
  {
    if response.Failed? {
      return;
    }
    var found := Find(node.widgets, CodenameWidget);
    if found.None? {
      return;  // `widget.value` throws inside the try block; the error is logged
    }
    var widget := found.value;
    var currentValue := widget.value;
    widget.options := response.names;
    var _ := SelectWorkspace(node, currentValue);
  }

  /** A text widget turned into a dropdown with no options; a dropdown is left as it is. */
  function AsCombo(w: WidgetState): (r: WidgetState)
    ensures r.kind == ComboKind && r.value == w.value
    ensures w.kind == ComboKind ==> r == w
    ensures w.kind != ComboKind ==> r.options == []
  {
    if w.kind != ComboKind then w.(kind := ComboKind, options := []) else w
  }

  lemma AsComboIsIdempotent(w: WidgetState)
    ensures AsCombo(AsCombo(w)) == AsCombo(w)
  {
  }

  /** The prologue of `refreshFolders`: the `folder` widget, if there is one, becomes a dropdown. */
  method ConvertFolderWidget(node: Node)
    modifies Target(Find(node.widgets, FolderWidget))
    ensures var found := Find(node.widgets, FolderWidget);
            found.Some? ==> found.value.State() == AsCombo(old(found.value.State()))
  {
    var folderWidget := Find(node.widgets, FolderWidget);
    if folderWidget.Some? && folderWidget.value.kind != ComboKind {
      folderWidget.value.kind := ComboKind;
      folderWidget.value.options := [];
    }
  }

  /** The `folder` dropdown after a whole `refreshFolders`: converted to a dropdown,
      then, when the node has a workspace codename and the backend listed the
      folders, refreshed with that list. */
  function AfterFolderRefresh(w: WidgetState, codename: JsValue, response: ListResponse): (r: WidgetState)
    ensures r.kind == ComboKind
    ensures !IsNullish(codename) && response.Listed? ==>
              && r.options == response.names
              && (Includes(response.names, r.value) || (response.names == [] && r.value == Str(DefaultChoice)))
              && (Includes(response.names, w.value) ==> r.value == w.value)
    ensures !IsNullish(codename) && response.Listed? && response.names != [] && !Includes(response.names, w.value) ==>
              r.value == Str(response.names[0])
    ensures IsNullish(codename) || response.Failed? ==>
              && r.value == w.value
              && (w.kind == ComboKind ==> r.options == w.options)
              && (w.kind != ComboKind ==> r.options == [])
  {
    var converted := AsCombo(w);
    if !IsNullish(codename) && response.Listed? then WithOptions(converted, response.names) else converted
  }

  /** `refreshFolders(app, node)`, with the `get_folders` request's outcome as input.
      `fetched` tells whether the request is made at all: not when the node's
      `workspace_codename` is `undefined` or `null`. */
  method RefreshFolders(node: Node, response: ListResponse) returns (fetched: bool)
    modifies Target(Find(node.widgets, FolderWidget))
    ensures fetched <==> !IsNullish(node.workspaceCodename)
    ensures var found := Find(node.widgets, FolderWidget);
            found.Some? ==> found.value.State()
                            == AfterFolderRefresh(old(found.value.State()), node.workspaceCodename, response)
  {
    ConvertFolderWidget(node);
    var workspaceCodename := node.workspaceCodename;
    if IsNullish(workspaceCodename) {
      return false;
    }
    fetched := true;
    if response.Failed? {
      return;
    }
    var found := Find(node.widgets, FolderWidget);
    if found.Some? {
      var widget := found.value;
      var currentValue := widget.value;
      widget.options := response.names;
      var _ := SelectFolder(node, currentValue);
    }
  }

  /** The conversion `onConfigure` of a folder node makes: a dropdown that shows
      `"Loading..."` until the folders arrive. */
  function AsLoadingCombo(w: WidgetState): (r: WidgetState)
    ensures r.kind == ComboKind
    ensures w.kind == ComboKind ==> r == w
    ensures w.kind != ComboKind ==> r.options == [Loading] && r.value == Str(Loading)
    ensures w.kind != ComboKind ==> Selected(r, r.value) == r
  {
    if w.kind != ComboKind then WidgetState(ComboKind, [Loading], Str(Loading)) else w
  }

  lemma AsLoadingComboIsIdempotent(w: WidgetState)
    ensures AsLoadingCombo(AsLoadingCombo(w)) == AsLoadingCombo(w)
  {
  }

  /** `onConfigure` of a folder node: converts the `folder` widget and retypes the
      node's second input slot as `"COMBO"`. When there is no second input slot the
      source throws after converting the widget; `ok` is then false. */
  method OnConfigureFolder(node: Node) returns (ok: bool)
    modifies node`inputTypes, Target(Find(node.widgets, FolderWidget))
    ensures var found := Find(node.widgets, FolderWidget);
            var converted := found.Some? && old(found.value.kind) != ComboKind;
            && (found.Some? ==> found.value.State() == AsLoadingCombo(old(found.value.State())))
            && (ok <==> !converted || |old(node.inputTypes)| >= 2)
            && node.inputTypes == if converted && ok then old(node.inputTypes)[1 := ComboInputType]
                                  else old(node.inputTypes)
  {
    var folderWidget := Find(node.widgets, FolderWidget);
    if folderWidget.Some? && folderWidget.value.kind != ComboKind {
      folderWidget.value.kind := ComboKind;
      folderWidget.value.options := [Loading];
      folderWidget.value.value := Str(Loading);
      if |node.inputTypes| < 2 {
        return false;
      }
      node.inputTypes := node.inputTypes[1 := ComboInputType];
    }
    return true;
  }

  // ---------------------------------------------------------------------
  // Workspace data: fingerprint and size
  // ---------------------------------------------------------------------

  /** The workspace the `get_workspace` request returned: its serialisation with
      sorted keys (as UTF-16 code units) and its `width` and `height` entries. */
  datatype Workspace = Workspace(serialised: seq<Fingerprint.CodeUnit>, width: JsValue, height: JsValue)

  function Serialised(workspace: Option<Workspace>): Option<seq<Fingerprint.CodeUnit>> {
    match workspace
    case None => None
    case Some(ws) => Some(ws.serialised)
  }

  /** `refreshWorkspaceData(node)`, with the workspace the backend returned (`None`
      when the response has none) as input. Nothing is requested while the node's
      `workspace_codename` is `undefined` (a `null` codename is requested). The
      `workspace_hash` widget gets the fingerprint; a `fot_Workspace` node also gets
      the workspace's width and height. `ok` is false where the source throws
      because a widget it writes is missing. */
  method RefreshWorkspaceData(node: Node, workspace: Option<Workspace>) returns (ok: bool)
    modifies Target(Find(node.widgets, HashWidget)), Target(Find(node.widgets, WidthWidget)),
             Target(Find(node.widgets, HeightWidget))
    ensures var hash := Find(node.widgets, HashWidget);
            var width := Find(node.widgets, WidthWidget);
            var height := Find(node.widgets, HeightWidget);
            var requested := node.workspaceCodename != Undefined;
            var sized := requested && workspace.Some? && node.nodeType == WorkspaceNodeType;
            && (ok <==> !requested || (hash.Some? && (sized ==> width.Some? && height.Some?)))
            && (hash.Some? ==> hash.value.State() == if requested
                 then old(hash.value.State()).(value := Str(Fingerprint.HashString(Serialised(workspace))))
                 else old(hash.value.State()))
            && (width.Some? ==> width.value.State() == if sized && hash.Some?
                 then old(width.value.State()).(value := workspace.value.width)
                 else old(width.value.State()))
            && (height.Some? ==> height.value.State() == if sized && hash.Some? && width.Some?
                 then old(height.value.State()).(value := workspace.value.height)
                 else old(height.value.State()))
  {
    if node.workspaceCodename == Undefined {
      return true;
    }
    var hashstr := "";
    if workspace.Some? {
      var hash := Fingerprint.Hash(workspace.value.serialised);
      hashstr := Fingerprint.ToString16(hash);
    }
    var w := Find(node.widgets, HashWidget);
    if w.None? {
      return false;
    }
    w.value.value := Str(hashstr);
    if workspace.Some? && node.nodeType == WorkspaceNodeType {
      w := Find(node.widgets, WidthWidget);
      if w.None? {
        return false;
      }
      w.value.value := workspace.value.width;
      w := Find(node.widgets, HeightWidget);
      if w.None? {
        return false;
      }
      w.value.value := workspace.value.height;
    }
    return true;
  }

  // ---------------------------------------------------------------------
  // Propagation to downstream consumers
  // ---------------------------------------------------------------------

  /** The loop of `refreshDownstreamConsumers`: every node downstream of `producer`
      whose type is a workspace consumer takes the producer's codename. The
      downstream list and the consumer test come from code outside this model. */
  method RefreshDownstreamConsumers(producer: Node, downstreams: seq<Node>, isConsumer: string -> bool)
    modifies set d | d in downstreams && isConsumer(d.nodeType)
    ensures forall d :: d in downstreams && isConsumer(d.nodeType)
                        ==> d.workspaceCodename == old(producer.workspaceCodename)
    ensures forall d :: d in downstreams ==> d.inputTypes == old(d.inputTypes)
    ensures producer.workspaceCodename == old(producer.workspaceCodename)
  {
    for k := 0 to |downstreams|
      invariant forall j :: 0 <= j < k && isConsumer(downstreams[j].nodeType)
                            ==> downstreams[j].workspaceCodename == old(producer.workspaceCodename)
      invariant forall d :: d in downstreams ==> d.inputTypes == old(d.inputTypes)
      invariant producer.workspaceCodename == old(producer.workspaceCodename)
    {
      var downstream := downstreams[k];
      if isConsumer(downstream.nodeType) {
        downstream.workspaceCodename := producer.workspaceCodename;
      }
    }
  }
}
