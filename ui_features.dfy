/** The `nodes_ui_features` extension: a node definition may declare, as the
    default of a hidden input named `ui_features`, a JSON list of UI features;
    before the node type is registered the list is parsed and recorded in the
    page-wide table `window.fot_ui_features`, under the node's name.
    `JSON.parse` is a parameter: it yields `None` where the real one throws. */
module UiFeatures {
  import opened JsValues

  /** What `beforeRegisterNodeDef` reads of the node definition (`nodeSpecs`). */
  datatype NodeDef = NodeDef(name: string, input: JsValue)

  /** How a call ended: it returned a value (`Undefined` for a bare `return`) or threw. */
  datatype Completion = Normal(result: JsValue) | Threw

  /** Whether every step of `input.hidden.ui_features[1].default` is there. */
  predicate Declares(input: JsValue) {
    && !IsNullish(input)
    && !IsNullish(Property(input, "hidden"))
    && IsTruthy(Property(Property(input, "hidden"), "ui_features"))
    && !IsNullish(Element(Property(Property(input, "hidden"), "ui_features"), 1))
    && !IsNullish(Property(Element(Property(Property(input, "hidden"), "ui_features"), 1), "default"))
  }

  /** The string the node declares as its feature list. */
  function DeclaredList(input: JsValue): JsValue
    requires Declares(input)
  {
    Property(Element(Property(Property(input, "hidden"), "ui_features"), 1), "default")
  }

  /** The guard chain of `extract_node_ui_features`: returns nothing unless the node
      declares a feature list, and otherwise what parsing the declaration gives. */
  function ExtractNodeUiFeatures(spec: NodeDef, parse: JsValue -> Option<JsValue>): (c: Completion)
    ensures !Declares(spec.input) ==> c == Normal(Undefined)
    ensures Declares(spec.input) ==> (c.Threw? <==> parse(DeclaredList(spec.input)).None?)
    ensures c.Normal? && Declares(spec.input) ==> parse(DeclaredList(spec.input)) == Some(c.result)
  {
    var input := spec.input;
    if IsNullish(input) then Normal(Undefined)
    else
      var hidden := Property(input, "hidden");
      if IsNullish(hidden) then Normal(Undefined)
      else
        var uiFeatures := Property(hidden, "ui_features");
        // the source tests `input` a second time at this point; that test cannot fail
        if !IsTruthy(uiFeatures) then Normal(Undefined)
        else
          var settings := Element(uiFeatures, 1);
          if IsNullish(settings) then Normal(Undefined)
          else
            var listStr := Property(settings, "default");
            if IsNullish(listStr) then Normal(Undefined)
            else
              match parse(listStr)
              case None => Threw
              case Some(list) => Normal(list)
  }

  /** The shape a node definition uses to declare its features: a hidden input
      `ui_features` whose type entry is `["STRING", {"default": list}]`. */
  function Declaration(list: JsValue): JsValue {
    Obj(map["hidden" := Obj(map["ui_features" := Arr([Str("STRING"), Obj(map["default" := list])])])])
  }

  /** A declared list is found and handed to the parser unchanged. */
  lemma ExtractFindsDeclaration(name: string, list: JsValue, parse: JsValue -> Option<JsValue>)
    requires !IsNullish(list)
    ensures Declares(Declaration(list)) && DeclaredList(Declaration(list)) == list
    ensures ExtractNodeUiFeatures(NodeDef(name, Declaration(list)), parse)
            == if parse(list).Some? then Normal(parse(list).value) else Threw
  {
    var features := Arr([Str("STRING"), Obj(map["default" := list])]);
    assert Property(Declaration(list), "hidden") == Obj(map["ui_features" := features]);
    assert Element(features, 1) == Obj(map["default" := list]);
  }

  /** `window.fot_ui_features` after recording the outcome `c` for `name`: only a
      produced list is recorded; the table is created when it does not exist. */
  function Recorded(table: Option<map<string, JsValue>>, name: string, c: Completion)
    : (r: Option<map<string, JsValue>>)
    ensures c.Threw? || c.result == Undefined ==> r == table
    ensures c.Normal? && c.result != Undefined ==>
              && r.Some? && name in r.value && r.value[name] == c.result
              && r.value.Keys == (if table.Some? then table.value.Keys else {}) + {name}
              && forall k :: table.Some? && k in table.value && k != name ==> r.value[k] == table.value[k]
  {
    if c.Threw? || c.result == Undefined then table
    else
      var existing := if table.Some? then table.value else map[];
      Some(existing[name := c.result])
  }

  /** Recording the same outcome twice is recording it once. */
  lemma RecordingIsIdempotent(table: Option<map<string, JsValue>>, name: string, c: Completion)
    ensures Recorded(Recorded(table, name, c), name, c) == Recorded(table, name, c)
  {
    if c.Normal? && c.result != Undefined {
      var once := Recorded(table, name, c).value;
      assert once[name := c.result] == once;
    }
  }

  /** Node types with different names can be registered in either order. */
  lemma RecordingCommutes(table: Option<map<string, JsValue>>, a: string, ca: Completion,
                          b: string, cb: Completion)
    requires a != b
    ensures Recorded(Recorded(table, a, ca), b, cb) == Recorded(Recorded(table, b, cb), a, ca)
  {
    if ca.Normal? && ca.result != Undefined && cb.Normal? && cb.result != Undefined {
      var existing := if table.Some? then table.value else map[];
      assert existing[a := ca.result][b := cb.result] == existing[b := cb.result][a := ca.result];
    }
  }

  /** The page-wide table, `window.fot_ui_features`; `None` while it is `undefined`. */
  class Registry {
    var table: Option<map<string, JsValue>>

    /** `beforeRegisterNodeDef` of the `nodes_ui_features` extension. `threw` is
        true when parsing the declared list threw; the table is then unchanged. */
    method BeforeRegisterNodeDef(spec: NodeDef, parse: JsValue -> Option<JsValue>) returns (threw: bool)
      modifies this
      ensures threw <==> ExtractNodeUiFeatures(spec, parse).Threw?
      ensures table == Recorded(old(table), spec.name, ExtractNodeUiFeatures(spec, parse))
    {
      var c := ExtractNodeUiFeatures(spec, parse);
      if c.Threw? {
        return true;
      }
      var list := c.result;
      if list == Undefined {
        return false;
      }
      if table.None? {
        table := Some(map[]);
      }
      table := Some(table.value[spec.name := list]);
      return false;
    }
  }
}
