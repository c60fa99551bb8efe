/**
 The input field of the text-to-speech node (`InputField` in
 src/app/_components/nodes/tts-node.tsx). A field holds a text value and a
 reference-mode flag. Reference mode is meant to hold a pointer to another
 node's output, encoded as `nodeAncestors.<source node id>.<source handle>`;
 the link button enters it with an empty value, and the text outlives leaving
 the mode.

 The field's transitions are given first as functions on a `Field` value;
 the class `InputField` then performs them in place, together with the
 layout-refresh notifications (`updateNodeInternals`) they cause.
 */
module Tts {
  import opened Wrappers
  import opened Handles

  /** The prefix that marks a value as a reference to another node's output. */
  const ReferencePrefix: string := "nodeAncestors."

  /** The one field the TTS node renders. */
  const FieldName: string := "videoUrl"

  /** A connection event of the graph canvas. Handle ids may be null. */
  datatype Connection = Connection(
    source: string,
    sourceHandle: Option<string>,
    target: string,
    targetHandle: Option<string>)

  /** The field's state: its text and whether it is in reference mode. */
  datatype Field = Field(value: string, isReferencing: bool)

  predicate StartsWith(s: string, prefix: string) {
    |prefix| <= |s| && s[..|prefix|] == prefix
  }

  /** How a template literal renders a `string | null`. */
  function Interpolate(h: Option<string>): string {
    match h
    case None => "null"
    case Some(s) => s
  }

  // ---------------------------------------------------------------------
  // The reference encoding

  /** The value written into a field that a connection is addressed to. */
  function ReferenceValue(c: Connection): (r: string)
    ensures StartsWith(r, ReferencePrefix)
    ensures |r| == |ReferencePrefix| + |c.source| + 1 + |Interpolate(c.sourceHandle)|
  {
    ReferencePrefix + c.source + "." + Interpolate(c.sourceHandle)
  }

  /** The reconciliation test `value && value.startsWith('nodeAncestors.')`. */
  function IsReferenceText(value: string): (b: bool)
    ensures b <==> StartsWith(value, ReferencePrefix)
    ensures b ==> value != ""
  {
    |value| > 0 && StartsWith(value, ReferencePrefix)
  }

  /** Splits `s` at its first '.', if it has one. */
  function SplitAtFirstDot(s: string): (r: Option<(string, string)>)
    ensures r.None? <==> '.' !in s
    ensures r.Some? ==> '.' !in r.value.0 && s == r.value.0 + "." + r.value.1
  {
    if |s| == 0 then None
    else if s[0] == '.' then Some(([], s[1..]))
    else
      match SplitAtFirstDot(s[1..])
      case None => None
      case Some(p) => Some(([s[0]] + p.0, p.1))
  }

  /**
   Reads a reference back into the source node id and the source handle,
   taking the node id to end at the first '.' after the prefix.
   */
  function ParseReference(r: string): (p: Option<(string, string)>)
    ensures p.Some? ==> r == ReferencePrefix + p.value.0 + "." + p.value.1
    ensures p.Some? ==> IsReferenceText(r) && '.' !in p.value.0
    ensures !IsReferenceText(r) ==> p.None?
  {
    if StartsWith(r, ReferencePrefix) then
      assert r == ReferencePrefix + r[|ReferencePrefix|..];
      SplitAtFirstDot(r[|ReferencePrefix|..])
    else None
  }

  /** When `a` has no '.', the first '.' of `a + "." + b` is the one after `a`. */
  lemma {:induction false} SplitAtFirstDotAfter(a: string, b: string)
    requires '.' !in a
    ensures SplitAtFirstDot(a + "." + b) == Some((a, b))
  {
    var w := a + "." + b;
    if a != [] {
      assert w[0] == a[0] != '.';
      assert w[1..] == a[1..] + "." + b;
      SplitAtFirstDotAfter(a[1..], b);
      assert [a[0]] + a[1..] == a;
    }
  }

  /** A reference written for a source node id without '.' reads back as that id and handle. */
  lemma {:induction false} ParseReferenceValue(c: Connection)
    requires '.' !in c.source
    ensures ParseReference(ReferenceValue(c)) == Some((c.source, Interpolate(c.sourceHandle)))
  {
    var r := ReferenceValue(c);
    var rest := c.source + "." + Interpolate(c.sourceHandle);
    assert r[|ReferencePrefix|..] == rest;
    SplitAtFirstDotAfter(c.source, Interpolate(c.sourceHandle));
  }

  /** The encoding is not injective when a node id contains '.': these two connections collide. */
  lemma ReferenceValueAmbiguous()
    ensures ReferenceValue(Connection("a.b", Some("c"), "2", Some(FieldName)))
         == ReferenceValue(Connection("a", Some("b.c"), "2", Some(FieldName)))
  {
  }

  /** A missing source handle is written as the text "null". */
  lemma ReferenceValueNullHandle(source: string, target: string, targetHandle: Option<string>)
    ensures ReferenceValue(Connection(source, None, target, targetHandle))
         == ReferenceValue(Connection(source, Some("null"), target, targetHandle))
         == ReferencePrefix + source + ".null"
  {
  }

  // ---------------------------------------------------------------------
  // The connectability gate

  /**
   Whether the field's handle accepts a connection, given the number of
   target connections of the whole node. The count is taken per node, not
   per handle.
   */
  function IsConnectable(connectionCount: nat): (b: bool)
    ensures b <==> connectionCount == 0
  {
    connectionCount == 0
  }

  // ---------------------------------------------------------------------
  // Transitions of a field

  /** Flipping reference mode; entering it clears the value. */
  function ToggleReference(f: Field): (g: Field)
    ensures g.isReferencing == !f.isReferencing
    ensures !f.isReferencing ==> g.value == ""
    ensures f.isReferencing ==> g.value == f.value
  {
    if f.isReferencing then Field(f.value, false) else Field("", true)
  }

  /** Whether a connection is addressed to field `name` of node `nodeId`. */
  predicate Addressed(c: Connection, nodeId: string, name: string) {
    c.target == nodeId && c.targetHandle == Some(name)
  }

  /** The effect of a connection event on field `name` of node `nodeId`. */
  function HandleConnection(f: Field, c: Connection, nodeId: string, name: string): (g: Field)
    ensures Addressed(c, nodeId, name) ==> g.value == ReferenceValue(c) && g.isReferencing
    ensures !Addressed(c, nodeId, name) ==> g == f
  {
    if Addressed(c, nodeId, name) then Field(ReferenceValue(c), true) else f
  }

  /** The reconciliation of reference mode with the stored value. */
  function ReconcileReference(f: Field): (g: Field)
    ensures g.value == f.value
    ensures g.isReferencing <==> f.isReferencing || IsReferenceText(f.value)
  {
    if IsReferenceText(f.value) then f.(isReferencing := true) else f
  }

  /** The field just after mount: literal mode, then reconciled with the initial value. */
  function Mount(initialValue: string): (f: Field)
    ensures f.value == initialValue
    ensures f.isReferencing <==> IsReferenceText(initialValue)
  {
    ReconcileReference(Field(initialValue, false))
  }

  /** The layout refreshes caused by a change of reference mode from `before` to `after`. */
  function Refreshes(before: bool, after: bool, nodeId: string): (r: seq<string>)
    ensures |r| == (if before == after then 0 else 1)
    ensures forall i :: 0 <= i < |r| ==> r[i] == nodeId
  {
    if before == after then [] else [nodeId]
  }

  // ---------------------------------------------------------------------
  // Properties of the transitions

  /** Reconciliation never leaves reference mode. */
  lemma ReconcileNeverClears(f: Field)
    requires f.isReferencing
    ensures ReconcileReference(f) == f
  {
  }

  /** Reconciling twice is reconciling once. */
  lemma ReconcileIdempotent(f: Field)
    ensures ReconcileReference(ReconcileReference(f)) == ReconcileReference(f)
  {
  }

  /** After a connection addressed to the field, reconciliation has nothing to do. */
  lemma ReconcileAfterConnection(f: Field, c: Connection, nodeId: string, name: string)
    ensures Addressed(c, nodeId, name) ==>
      ReconcileReference(HandleConnection(f, c, nodeId, name)) == HandleConnection(f, c, nodeId, name)
  {
  }

  /** Delivering the same connection twice is delivering it once. */
  lemma HandleConnectionIdempotent(f: Field, c: Connection, nodeId: string, name: string)
    ensures HandleConnection(HandleConnection(f, c, nodeId, name), c, nodeId, name)
         == HandleConnection(f, c, nodeId, name)
  {
  }

  /**
   A connection carrying the id the field's handle is published under does
   not match the comparison against the bare field name, so it leaves the
   field unchanged.
   */
  lemma HandleConnectionIgnoresPublishedHandle(f: Field, c: Connection, nodeId: string, name: string)
    requires c.targetHandle == Some(HandleId(nodeId, name))
    ensures HandleConnection(f, c, nodeId, name) == f
  {
    HandleIdIsNotBareName(nodeId, name);
  }

  /** Toggling twice returns to the original mode with an empty value. */
  lemma ToggleTwice(f: Field)
    ensures ToggleReference(ToggleReference(f)) == Field("", f.isReferencing)
  {
  }

  /**
   Leaving reference mode keeps the reference text: after a connection and a
   toggle, the field is literal although its value carries the prefix, and
   reconciliation does not run because the value did not change.
   */
  lemma ToggleOffKeepsReferenceText(f: Field, c: Connection, nodeId: string, name: string)
    requires Addressed(c, nodeId, name)
    ensures var g := ToggleReference(HandleConnection(f, c, nodeId, name));
      !g.isReferencing && IsReferenceText(g.value) && g.value == ReferenceValue(c)
  {
  }

  /**
   The worked case: field `videoUrl` of node `2`, empty, gets a connection from
   output `videoUrl` of node `1`; its handle then rejects further connections.
   */
  lemma ConnectScenario()
    ensures HandleConnection(Mount(""), Connection("1", Some("videoUrl"), "2", Some("videoUrl")), "2", FieldName)
         == Field("nodeAncestors.1.videoUrl", true)
    ensures !IsConnectable(1)
  {
  }

  /** The same case with the handle id the canvas actually reports: the field stays literal. */
  lemma ConnectScenarioPublishedHandle()
    ensures HandleConnection(Mount(""), Connection("1", Some("1__videoUrl"), "2", Some(HandleId("2", FieldName))), "2", FieldName)
         == Field("", false)
  {
    HandleConnectionIgnoresPublishedHandle(Mount(""), Connection("1", Some("1__videoUrl"), "2", Some(HandleId("2", FieldName))), "2", FieldName);
  }

  // ---------------------------------------------------------------------
  // The component, with its state updated in place

  class InputField {
    const nodeId: string
    const name: string
    /** The form value of the field (`watch(name)`). */
    var value: string
    var isReferencing: bool
    /** Every `updateNodeInternals` call, with the node id it was given, in order. */
    var refreshLog: seq<string>

    function State(): Field
      reads this
    {
      Field(value, isReferencing)
    }

    /** The text input is disabled exactly in reference mode. */
    function IsDisabled(): (b: bool)
      reads this
      ensures b <==> State().isReferencing
    {
      isReferencing
    }

    /** The id the field's target handle is published under. */
    function PublishedHandleId(): (id: string)
      ensures id == HandleId(nodeId, name)
    {
      HandleId(nodeId, name)
    }

    /**
     Mounting: the flag starts false, the refresh effect runs once, and the
     reconciliation effect then sees the initial value.
     */
    constructor (nodeId: string, name: string, initialValue: string)
      ensures this.nodeId == nodeId && this.name == name
      ensures State() == Mount(initialValue)
      ensures refreshLog == [nodeId] + Refreshes(false, isReferencing, nodeId)
    {
      this.nodeId := nodeId;
      this.name := name;
      value := initialValue;
      isReferencing := false;
      refreshLog := [nodeId];
      new;
      Reconcile();
    }

    /**
     `setIsReferencing` together with the effect on `isReferencing`: the
     layout is refreshed once when the flag changes, and not at all when the
     new flag equals the old one. A building block of `Toggle`, `OnConnect`
     and `Reconcile`, not an operation the component offers by itself.
     */
    method SetReferencing(b: bool)
      modifies this
      ensures value == old(value) && isReferencing == b
      ensures refreshLog == old(refreshLog) + Refreshes(old(isReferencing), b, nodeId)
    {
      if b != isReferencing {
        isReferencing := b;
        refreshLog := refreshLog + [nodeId];
      }
    }

    /** The effect on `value`: re-enter reference mode when the value carries the prefix. */
    method Reconcile()
      modifies this
      ensures State() == ReconcileReference(old(State()))
      ensures refreshLog == old(refreshLog) + Refreshes(old(isReferencing), isReferencing, nodeId)
    {
      if IsReferenceText(value) {
        SetReferencing(true);
      }
    }

    /** `setValue(name, v)`; the effect on `value` runs only when the value changes. */
    method SetValue(v: string)
      modifies this
      ensures State() == if v == old(value) then old(State()) else ReconcileReference(Field(v, old(isReferencing)))
      ensures refreshLog == old(refreshLog) + Refreshes(old(isReferencing), isReferencing, nodeId)
    {
      if v != value {
        value := v;
        Reconcile();
      }
    }

    /** The link button (`toggleReference`). */
    method Toggle()
      modifies this
      ensures State() == ToggleReference(old(State()))
      ensures IsDisabled() == !old(IsDisabled())
      ensures refreshLog == old(refreshLog) + [nodeId]
    {
      var wasReferencing := isReferencing;
      SetReferencing(!wasReferencing);
      if !wasReferencing {
        SetValue("");
      }
    }

    /** A connection event (`handleConnection`). */
    method OnConnect(c: Connection)
      modifies this
      ensures State() == HandleConnection(old(State()), c, nodeId, name)
      ensures refreshLog == old(refreshLog) + Refreshes(old(isReferencing), isReferencing, nodeId)
      ensures c.targetHandle == Some(PublishedHandleId()) ==>
        State() == old(State()) && refreshLog == old(refreshLog)
    {
      if c.targetHandle == Some(PublishedHandleId()) {
        HandleConnectionIgnoresPublishedHandle(State(), c, nodeId, name);
      }
      if Addressed(c, nodeId, name) {
        SetValue(ReferenceValue(c));
        SetReferencing(true);
      }
    }
  }
}
