/**
 The video-source node (src/app/_components/nodes/video-source-node.tsx).
 The node offers a fixed table of three possible outputs; the user selects,
 through a menu, which of them are active. The active outputs are held as a
 list of indices into the table, and every active output is rendered as a
 row carrying a source handle.
 */
module VideoSource {
  import opened Wrappers
  import opened Handles

  datatype Icon = Video | Volume2 | Scissors

  /** One entry of the table of possible outputs. */
  datatype OutputDescriptor = OutputDescriptor(id: string, caption: string, icon: Icon, color: string)

  const PossibleOutputs: seq<OutputDescriptor> := [
    OutputDescriptor("videoUrl", "URL", Video, "bg-blue-100 text-blue-800"),
    OutputDescriptor("keepOriginalAudio", "Audio", Volume2, "bg-green-100 text-green-800"),
    OutputDescriptor("videoSections", "Sections", Scissors, "bg-purple-100 text-purple-800")
  ]

  predicate NoDuplicates(s: seq<nat>) {
    forall i, j :: 0 <= i < j < |s| ==> s[i] != s[j]
  }

  /** Every index of `s` selects an entry of a table of `n` entries. */
  predicate InBounds(s: seq<nat>, n: nat) {
    forall k :: 0 <= k < |s| ==> s[k] < n
  }

  // ---------------------------------------------------------------------
  // Toggling an index

  /** The list with every occurrence of `x` dropped (`filter((i) => i !== x)`). */
  function Without(s: seq<nat>, x: nat): (r: seq<nat>)
    ensures multiset(r) == multiset(s)[x := 0]
    ensures forall y :: y in r <==> y in s && y != x
  {
    if s == [] then []
    else
      assert s == [s[0]] + s[1..];
      if s[0] == x then Without(s[1..], x) else [s[0]] + Without(s[1..], x)
  }

  /** The updater passed to `setActiveOutputIndices`. */
  function NextActiveOutputs(prev: seq<nat>, index: nat): (next: seq<nat>)
    ensures index in next <==> index !in prev
    ensures forall j :: j != index ==> (j in next <==> j in prev)
    ensures index !in prev ==> |next| == |prev| + 1 && next[..|prev|] == prev && next[|prev|] == index
    ensures index in prev ==> multiset(next) == multiset(prev)[index := 0]
  {
    if index in prev then Without(prev, index) else prev + [index]
  }

  // ---------------------------------------------------------------------
  // Properties of toggling

  /** Dropping distributes over concatenation: the survivors keep their relative order. */
  lemma {:induction false} WithoutConcat(a: seq<nat>, b: seq<nat>, x: nat)
    ensures Without(a + b, x) == Without(a, x) + Without(b, x)
  {
    if a != [] {
      assert (a + b)[1..] == a[1..] + b;
      WithoutConcat(a[1..], b, x);
    } else {
      assert a + b == b;
    }
  }

  /** Dropping an absent index changes nothing. */
  lemma {:induction false} WithoutAbsent(s: seq<nat>, x: nat)
    requires x !in s
    ensures Without(s, x) == s
  {
    if s != [] {
      WithoutAbsent(s[1..], x);
    }
  }

  /** Dropping keeps a list free of duplicates. */
  lemma {:induction false} WithoutNoDuplicates(s: seq<nat>, x: nat)
    requires NoDuplicates(s)
    ensures NoDuplicates(Without(s, x))
  {
    if s != [] {
      assert NoDuplicates(s[1..]) by {
        forall i, j | 0 <= i < j < |s[1..]| ensures s[1..][i] != s[1..][j] {
          assert s[1..][i] == s[i + 1] && s[1..][j] == s[j + 1];
        }
      }
      WithoutNoDuplicates(s[1..], x);
      if s[0] != x {
        var r := Without(s[1..], x);
        assert s[0] !in s[1..];
        assert s[0] !in r;
        forall i, j | 0 <= i < j < |[s[0]] + r| ensures ([s[0]] + r)[i] != ([s[0]] + r)[j] {
          if i == 0 {
            assert ([s[0]] + r)[j] == r[j - 1];
          } else {
            assert ([s[0]] + r)[i] == r[i - 1] && ([s[0]] + r)[j] == r[j - 1];
          }
        }
      }
    }
  }

  /** A toggle keeps the active list free of duplicates. */
  lemma ToggleKeepsNoDuplicates(prev: seq<nat>, index: nat)
    requires NoDuplicates(prev)
    ensures NoDuplicates(NextActiveOutputs(prev, index))
  {
    if index in prev {
      WithoutNoDuplicates(prev, index);
    }
  }

  /** A toggle with an index of the table keeps every active index in the table. */
  lemma ToggleKeepsInBounds(prev: seq<nat>, index: nat, n: nat)
    requires InBounds(prev, n) && index < n
    ensures InBounds(NextActiveOutputs(prev, index), n)
  {
    var next := NextActiveOutputs(prev, index);
    forall k | 0 <= k < |next| ensures next[k] < n {
      assert next[k] in next;
      if next[k] != index {
        assert next[k] in prev;
      }
    }
  }

  /** Toggling an absent index twice restores the list. */
  lemma ToggleAbsentTwice(prev: seq<nat>, index: nat)
    requires index !in prev
    ensures NextActiveOutputs(NextActiveOutputs(prev, index), index) == prev
  {
    WithoutConcat(prev, [index], index);
    WithoutAbsent(prev, index);
  }

  /**
   Toggling a present index twice does not restore the list in general: it
   moves the index to the end.
   */
  lemma TogglePresentTwice(prev: seq<nat>, index: nat)
    requires index in prev
    ensures NextActiveOutputs(NextActiveOutputs(prev, index), index) == Without(prev, index) + [index]
  {
  }

  /** The worked case: none active; toggling 1 activates it; toggling 1 again deactivates it. */
  lemma ToggleScenario()
    ensures NextActiveOutputs([], 1) == [1]
    ensures NextActiveOutputs([1], 1) == []
  {
    assert [1][1..] == [];
  }

  // ---------------------------------------------------------------------
  // Rendering

  /** A rendered output row: React key, label, icon, color, tooltip text and source handle id. */
  datatype OutputRow = OutputRow(key: string, caption: string, icon: Icon, color: string, tooltip: string, handleId: string)

  /** The row node `id` renders for one output. */
  function RowFor(id: string, output: OutputDescriptor): OutputRow {
    OutputRow(output.id, output.caption, output.icon, output.color, output.caption + " Output", HandleId(id, output.id))
  }

  /**
   The rows for the active indices, in order. `None` when an index has no
   entry in the table: the row then reads a property of `undefined` and
   rendering throws.
   */
  function RenderRows(id: string, active: seq<nat>): (rows: Option<seq<OutputRow>>)
    ensures rows.Some? <==> InBounds(active, |PossibleOutputs|)
    ensures rows.Some? ==> |rows.value| == |active|
    ensures rows.Some? ==> forall k :: 0 <= k < |active| ==> rows.value[k] == RowFor(id, PossibleOutputs[active[k]])
  {
    if active == [] then Some([])
    else if active[0] >= |PossibleOutputs| then None
    else
      match RenderRows(id, active[1..])
      case None => None
      case Some(rest) => Some([RowFor(id, PossibleOutputs[active[0]])] + rest)
  }

  /** The table's output ids are pairwise distinct. */
  lemma OutputIdsDistinct(i: nat, j: nat)
    requires i < j < |PossibleOutputs|
    ensures PossibleOutputs[i].id != PossibleOutputs[j].id
  {
    assert PossibleOutputs[0].id[0] == 'v' && PossibleOutputs[1].id[0] == 'k';
    assert PossibleOutputs[0].id[5] == 'U' && PossibleOutputs[2].id[5] == 'S';
    assert PossibleOutputs[1].id[0] == 'k' && PossibleOutputs[2].id[0] == 'v';
  }

  /** Distinct active indices render rows with distinct React keys and distinct handle ids. */
  lemma RowsDistinct(id: string, active: seq<nat>, i: nat, j: nat)
    requires NoDuplicates(active) && InBounds(active, |PossibleOutputs|)
    requires i < j < |active|
    ensures RenderRows(id, active).Some?
    ensures RenderRows(id, active).value[i].key != RenderRows(id, active).value[j].key
    ensures RenderRows(id, active).value[i].handleId != RenderRows(id, active).value[j].handleId
  {
    var a, b := active[i], active[j];
    if a < b {
      OutputIdsDistinct(a, b);
    } else {
      OutputIdsDistinct(b, a);
    }
    if HandleId(id, PossibleOutputs[a].id) == HandleId(id, PossibleOutputs[b].id) {
      HandleIdInjective(id, PossibleOutputs[a].id, PossibleOutputs[b].id);
    }
  }

  /** A menu entry: the output's label and whether it is marked "(Active)". */
  datatype MenuItem = MenuItem(key: string, caption: string, isActive: bool)

  /** The dropdown menu: one entry per possible output, in table order. */
  function MenuItems(active: seq<nat>): (items: seq<MenuItem>)
    ensures |items| == |PossibleOutputs|
    ensures forall i :: 0 <= i < |items| ==>
      items[i].key == PossibleOutputs[i].id && items[i].caption == PossibleOutputs[i].caption &&
      (items[i].isActive <==> i in active)
  {
    seq(|PossibleOutputs|, i requires 0 <= i < |PossibleOutputs| =>
      MenuItem(PossibleOutputs[i].id, PossibleOutputs[i].caption, i in active))
  }

  // ---------------------------------------------------------------------
  // The component, with its state updated in place

  class VideoSourceNode {
    const id: string
    var activeOutputIndices: seq<nat>
    /** Every `updateNodeInternals` call, with the node id it was given, in order. */
    var refreshLog: seq<string>

    ghost predicate Valid()
      reads this
    {
      NoDuplicates(activeOutputIndices) &&
      InBounds(activeOutputIndices, |PossibleOutputs|) &&
      forall i :: 0 <= i < |refreshLog| ==> refreshLog[i] == id
    }

    constructor (id: string)
      ensures this.id == id
      ensures Valid()
      ensures activeOutputIndices == [] && refreshLog == []
    {
      this.id := id;
      activeOutputIndices := [];
      refreshLog := [];
    }

    /** `toggleOutput`, called from the menu with an index of the table. */
    method ToggleOutput(index: nat)
      requires Valid()
      requires index < |PossibleOutputs|
      modifies this
      ensures Valid()
      ensures activeOutputIndices == NextActiveOutputs(old(activeOutputIndices), index)
      ensures refreshLog == old(refreshLog) + [id]
    {
      ToggleKeepsNoDuplicates(activeOutputIndices, index);
      ToggleKeepsInBounds(activeOutputIndices, index, |PossibleOutputs|);
      activeOutputIndices := NextActiveOutputs(activeOutputIndices, index);
      refreshLog := refreshLog + [id];
    }

    /** The rendered output rows; rendering never fails in a reachable state. */
    function Rows(): (rows: seq<OutputRow>)
      reads this
      requires Valid()
      ensures |rows| == |activeOutputIndices|
      ensures forall k :: 0 <= k < |rows| ==>
        rows[k].handleId == HandleId(id, PossibleOutputs[activeOutputIndices[k]].id)
    {
      RenderRows(id, activeOutputIndices).value
    }

    function Menu(): (items: seq<MenuItem>)
      reads this
      ensures forall i :: 0 <= i < |items| ==> (items[i].isActive <==> i in activeOutputIndices)
    {
      MenuItems(activeOutputIndices)
    }
  }
}
