/** The label/value scan of a listing page: the page's definition-list blocks
    are walked in order, remembering the text of the most recent `dt` key,
    and the `dd` values filed under "Property Type:" and "List Date:" are kept.
    The scan is modelled twice: as the state machine the crawler runs, and as
    an independent description ("the last value whose nearest preceding label
    is L"), and the two are proved to agree. */
module DefinitionList {
  import opened Wrappers

  const PropertyTypeLabel: string := "Property Type:"
  const ListDateLabel: string := "List Date:"

  /** A child of a `dl` element as the HTML parser yields it. */
  datatype Node =
    | Element(name: string, text: string)  // a tag: its name and its text content
    | Text(content: string)                // a bare string between tags

  /** A cell of the label/value table: a `dt` label or a `dd` value. */
  datatype Cell = Dt(text: string) | Dd(text: string)

  /** The cells one child contributes: a `dt` or `dd` tag gives one cell,
      anything else gives none. */
  function CellsOfNode(n: Node): (cs: seq<Cell>)
    ensures |cs| <= 1
    ensures |cs| == 1 <==> n.Element? && (n.name == "dt" || n.name == "dd")
    ensures |cs| == 1 ==> cs[0].text == n.text && (cs[0].Dt? <==> n.name == "dt")
  {
    match n
    case Element(name, text) =>
      if name == "dt" then [Dt(text)] else if name == "dd" then [Dd(text)] else []
    case Text(_) => []
  }

  /** The `dt`/`dd` children of one block, in document order. */
  function Cells(children: seq<Node>): (cs: seq<Cell>)
    ensures |cs| <= |children|
  {
    if |children| == 0 then [] else CellsOfNode(children[0]) + Cells(children[1..])
  }

  /** A one-child block contributes exactly that child's cells. With
      `CellsAppend` this fixes `Cells` on every block: it keeps each `dt`/`dd`
      tag, in document order, and nothing else. */
  lemma CellsOfOne(n: Node)
    ensures Cells([n]) == CellsOfNode(n)
  {
    assert [n][1..] == [];
  }

  /** Filtering distributes over concatenation: it neither reorders cells nor
      lets one child affect what another contributes. */
  lemma {:induction false} CellsAppend(a: seq<Node>, b: seq<Node>)
    ensures Cells(a + b) == Cells(a) + Cells(b)
    decreases |a|
  {
    if |a| == 0 {
      assert a + b == b;
    } else {
      assert (a + b)[0] == a[0];
      assert (a + b)[1..] == a[1..] + b;
      CellsAppend(a[1..], b);
    }
  }

  /** A block made only of non-`dt`/`dd` children contributes nothing. */
  lemma {:induction false} CellsIgnoresOtherChildren(children: seq<Node>)
    requires forall i :: 0 <= i < |children| ==> CellsOfNode(children[i]) == []
    ensures Cells(children) == []
    decreases |children|
  {
    if |children| > 0 {
      assert CellsOfNode(children[0]) == [];
      CellsIgnoresOtherChildren(children[1..]);
    }
  }

  // ---------------------------------------------------------------------------
  // The state machine
  // ---------------------------------------------------------------------------

  /** The three variables of the scan: the most recent label and the two outputs. */
  datatype ScanState = ScanState(header: Option<string>, propertyType: Option<string>, listDate: Option<string>)

  /** All three variables start as `None`. */
  const Start: ScanState := ScanState(None, None, None)

  /** One cell: a label becomes the current header; a value is stored in the
      output its current header names, and is dropped otherwise. */
  function Step(st: ScanState, c: Cell): (r: ScanState)
    ensures c.Dd? ==> r.header == st.header
    ensures r.propertyType == st.propertyType
      || (r.propertyType.Some? && c == Dd(r.propertyType.value) && st.header == Some(PropertyTypeLabel))
    ensures r.listDate == st.listDate
      || (r.listDate.Some? && c == Dd(r.listDate.value) && st.header == Some(ListDateLabel))
  {
    match c
    case Dt(h) => st.(header := Some(h))
    case Dd(v) =>
      if st.header == Some(PropertyTypeLabel) then st.(propertyType := Some(v))
      else if st.header == Some(ListDateLabel) then st.(listDate := Some(v))
      else st
  }

  /** The state after running the cells `cs` in order from `st`. An output
      once found is never cleared, and a changed output holds the text of one
      of the `dd` cells scanned. */
  function ScanCells(st: ScanState, cs: seq<Cell>): (r: ScanState)
    ensures st.propertyType.Some? ==> r.propertyType.Some?
    ensures st.listDate.Some? ==> r.listDate.Some?
    ensures r.propertyType == st.propertyType || (r.propertyType.Some? && Dd(r.propertyType.value) in cs)
    ensures r.listDate == st.listDate || (r.listDate.Some? && Dd(r.listDate.value) in cs)
    decreases |cs|
  {
    if |cs| == 0 then st else Step(ScanCells(st, cs[..|cs| - 1]), cs[|cs| - 1])
  }

  /** Scanning two runs of cells one after the other is scanning their concatenation. */
  lemma {:induction false} ScanCellsAppend(st: ScanState, a: seq<Cell>, b: seq<Cell>)
    ensures ScanCells(st, a + b) == ScanCells(ScanCells(st, a), b)
    decreases |b|
  {
    if |b| == 0 {
      assert a + b == a;
    } else {
      var ab := a + b;
      assert ab[..|ab| - 1] == a + b[..|b| - 1];
      assert ab[|ab| - 1] == b[|b| - 1];
      ScanCellsAppend(st, a, b[..|b| - 1]);
    }
  }

  /** Both outputs have been found: the condition for leaving the block loop. */
  predicate Complete(st: ScanState) {
    st.propertyType.Some? && st.listDate.Some?
  }

  /** The block loop: every block is scanned to its end, and only then is the
      early-exit condition tested. The header carries over from block to block. */
  function ScanBlocks(st: ScanState, blocks: seq<seq<Node>>): (r: ScanState)
    ensures st.propertyType.Some? ==> r.propertyType.Some?
    ensures st.listDate.Some? ==> r.listDate.Some?
    decreases |blocks|
  {
    if |blocks| == 0 then st
    else
      var after := ScanCells(st, Cells(blocks[0]));
      if Complete(after) then after else ScanBlocks(after, blocks[1..])
  }

  /** How many blocks the block loop examines before it stops. */
  function VisitedBlocks(st: ScanState, blocks: seq<seq<Node>>): (n: nat)
    ensures n <= |blocks|
    ensures |blocks| > 0 ==> n >= 1
    decreases |blocks|
  {
    if |blocks| == 0 then 0
    else
      var after := ScanCells(st, Cells(blocks[0]));
      if Complete(after) then 1 else 1 + VisitedBlocks(after, blocks[1..])
  }

  /** The `dt`/`dd` cells of a run of blocks, as one sequence. */
  function Flatten(blocks: seq<seq<Node>>): (cs: seq<Cell>)
    decreases |blocks|
  {
    if |blocks| == 0 then [] else Cells(blocks[0]) + Flatten(blocks[1..])
  }

  /** The `dt`/`dd` cells of the blocks a listing's scan actually visits. */
  function VisitedCells(blocks: seq<seq<Node>>): seq<Cell> {
    Flatten(blocks[..VisitedBlocks(Start, blocks)])
  }

  lemma {:induction false} FlattenAppend(a: seq<seq<Node>>, b: seq<seq<Node>>)
    ensures Flatten(a + b) == Flatten(a) + Flatten(b)
    decreases |a|
  {
    if |a| == 0 {
      assert a + b == b;
    } else {
      assert (a + b)[0] == a[0];
      assert (a + b)[1..] == a[1..] + b;
      FlattenAppend(a[1..], b);
    }
  }

  /** The cells of the first block alone. */
  lemma FlattenFirst(blocks: seq<seq<Node>>)
    requires |blocks| > 0
    ensures Flatten(blocks[..1]) == Cells(blocks[0])
  {
    assert blocks[..1] == [blocks[0]];
    assert [blocks[0]][1..] == [];
  }

  // ---------------------------------------------------------------------------
  // The reference description
  // ---------------------------------------------------------------------------

  /** The text of the nearest `dt` strictly before position `i`, if any. */
  function HeaderBefore(cs: seq<Cell>, i: nat): Option<string>
    requires i <= |cs|
    decreases i
  {
    if i == 0 then None
    else match cs[i - 1]
      case Dt(h) => Some(h)
      case Dd(_) => HeaderBefore(cs, i - 1)
  }

  /** Cell `i` is a value filed under `key`. */
  predicate IsValueFor(cs: seq<Cell>, i: nat, key: string)
    requires i < |cs|
  {
    cs[i].Dd? && HeaderBefore(cs, i) == Some(key)
  }

  /** The text of the last value filed under `key` among the first `n` cells. */
  function LastValueBefore(cs: seq<Cell>, n: nat, key: string): Option<string>
    requires n <= |cs|
    decreases n
  {
    if n == 0 then None
    else if IsValueFor(cs, n - 1, key) then Some(cs[n - 1].text)
    else LastValueBefore(cs, n - 1, key)
  }

  /** The text of the last value filed under `key`, if any. */
  function LastValue(cs: seq<Cell>, key: string): Option<string> {
    LastValueBefore(cs, |cs|, key)
  }

  /** `LastValueBefore` is what its name says: absent exactly when no value is
      filed under `key`, and otherwise the text of a value filed under
      `key` that no later one replaces. */
  lemma {:induction false} LastValueBeforeSpec(cs: seq<Cell>, n: nat, key: string)
    requires n <= |cs|
    ensures LastValueBefore(cs, n, key).None? <==> forall i :: 0 <= i < n ==> !IsValueFor(cs, i, key)
    ensures LastValueBefore(cs, n, key).Some? ==>
      exists i :: 0 <= i < n && IsValueFor(cs, i, key) && cs[i].text == LastValueBefore(cs, n, key).value &&
        forall j :: i < j < n ==> !IsValueFor(cs, j, key)
    decreases n
  {
    if n > 0 && !IsValueFor(cs, n - 1, key) {
      LastValueBeforeSpec(cs, n - 1, key);
      if LastValueBefore(cs, n, key).Some? {
        var i :| 0 <= i < n - 1 && IsValueFor(cs, i, key) && cs[i].text == LastValueBefore(cs, n, key).value &&
          forall j :: i < j < n - 1 ==> !IsValueFor(cs, j, key);
        assert forall j :: i < j < n ==> !IsValueFor(cs, j, key);
      }
    }
  }

  /** The state machine computes the reference description: after the first
      `n` cells its header is the nearest preceding label and each output is
      the last value filed under that output's label. */
  lemma {:induction false} ScanCellsIsReference(cs: seq<Cell>, n: nat)
    requires n <= |cs|
    ensures ScanCells(Start, cs[..n]) ==
      ScanState(HeaderBefore(cs, n), LastValueBefore(cs, n, PropertyTypeLabel), LastValueBefore(cs, n, ListDateLabel))
    decreases n
  {
    if n > 0 {
      assert cs[..n][..n - 1] == cs[..n - 1];
      assert cs[..n][n - 1] == cs[n - 1];
      ScanCellsIsReference(cs, n - 1);
    }
  }

  /** Over whole blocks: the block loop's result is the flat scan of exactly
      the cells of the blocks it visits. Block boundaries play no part other
      than being the points where the exit condition is tested. */
  lemma {:induction false} ScanBlocksIsFlatScan(st: ScanState, blocks: seq<seq<Node>>)
    ensures ScanBlocks(st, blocks) == ScanCells(st, Flatten(blocks[..VisitedBlocks(st, blocks)]))
    decreases |blocks|
  {
    if |blocks| == 0 {
      assert blocks[..0] == [];
    } else {
      var after := ScanCells(st, Cells(blocks[0]));
      var n := VisitedBlocks(st, blocks);
      FlattenFirst(blocks);
      if !Complete(after) {
        var rest := blocks[1..];
        ScanBlocksIsFlatScan(after, rest);
        var m := VisitedBlocks(after, rest);
        assert blocks[..n] == [blocks[0]] + rest[..m];
        assert Flatten(blocks[..n]) == Cells(blocks[0]) + Flatten(rest[..m]);
        ScanCellsAppend(st, Cells(blocks[0]), Flatten(rest[..m]));
      }
    }
  }

  /** A changed output of the block loop holds the text of a `dd` in one of
      the blocks. */
  lemma ScanBlocksValueOrigin(st: ScanState, blocks: seq<seq<Node>>)
    ensures var r := ScanBlocks(st, blocks);
      r.propertyType == st.propertyType || (r.propertyType.Some? && Dd(r.propertyType.value) in Flatten(blocks))
    ensures var r := ScanBlocks(st, blocks);
      r.listDate == st.listDate || (r.listDate.Some? && Dd(r.listDate.value) in Flatten(blocks))
  {
    var n := VisitedBlocks(st, blocks);
    ScanBlocksIsFlatScan(st, blocks);
    assert blocks == blocks[..n] + blocks[n..];
    FlattenAppend(blocks[..n], blocks[n..]);
  }

  /** The exit test happens only between blocks: every block before the last
      visited one left at least one output missing, and the loop ends early
      only because both outputs were present after a whole block. */
  lemma {:induction false} VisitedBlocksSpec(st: ScanState, blocks: seq<seq<Node>>)
    requires !Complete(st)
    ensures forall k :: 0 <= k < VisitedBlocks(st, blocks) ==> !Complete(ScanCells(st, Flatten(blocks[..k])))
    ensures VisitedBlocks(st, blocks) < |blocks| ==>
      Complete(ScanCells(st, Flatten(blocks[..VisitedBlocks(st, blocks)])))
    decreases |blocks|
  {
    if |blocks| > 0 {
      var after := ScanCells(st, Cells(blocks[0]));
      var n := VisitedBlocks(st, blocks);
      assert blocks[..0] == [];
      assert ScanCells(st, Flatten(blocks[..0])) == st;
      FlattenFirst(blocks);
      if !Complete(after) {
        var rest := blocks[1..];
        VisitedBlocksSpec(after, rest);
        forall k | 1 <= k <= n
          ensures ScanCells(st, Flatten(blocks[..k])) == ScanCells(after, Flatten(rest[..k - 1]))
        {
          assert blocks[..k] == [blocks[0]] + rest[..k - 1];
          assert Flatten(blocks[..k]) == Cells(blocks[0]) + Flatten(rest[..k - 1]);
          ScanCellsAppend(st, Cells(blocks[0]), Flatten(rest[..k - 1]));
        }
      }
    }
  }

  /** Once the outputs are complete after some prefix of blocks, nothing after
      that prefix is ever examined. */
  lemma {:induction false} CompleteIgnoresLaterBlocks(st: ScanState, pre: seq<seq<Node>>, rest: seq<seq<Node>>)
    requires |pre| > 0
    requires Complete(ScanBlocks(st, pre))
    ensures ScanBlocks(st, pre + rest) == ScanBlocks(st, pre)
    decreases |pre|
  {
    var all := pre + rest;
    assert all[0] == pre[0];
    var after := ScanCells(st, Cells(pre[0]));
    if Complete(after) {
      assert ScanBlocks(st, all) == after;
    } else {
      assert ScanBlocks(st, pre) == ScanBlocks(after, pre[1..]);
      assert |pre| > 1;
      assert all[1..] == pre[1..] + rest;
      assert ScanBlocks(st, all) == ScanBlocks(after, all[1..]);
      CompleteIgnoresLaterBlocks(after, pre[1..], rest);
    }
  }

  /** A found output is never lost: values only ever replace values. */
  lemma {:induction false} CompleteStaysComplete(st: ScanState, cs: seq<Cell>)
    requires Complete(st)
    ensures Complete(ScanCells(st, cs))
    decreases |cs|
  {
    if |cs| > 0 {
      CompleteStaysComplete(st, cs[..|cs| - 1]);
    }
  }

  /** There is no exit in the middle of a block: even when the first `n`
      cells of a block already complete both outputs, the rest of the block
      is still scanned, so later values in it overwrite the ones found. */
  lemma NoExitInsideBlock(st: ScanState, block: seq<Node>, rest: seq<seq<Node>>, n: nat)
    requires n <= |Cells(block)|
    requires Complete(ScanCells(st, Cells(block)[..n]))
    ensures ScanBlocks(st, [block] + rest) == ScanCells(ScanCells(st, Cells(block)[..n]), Cells(block)[n..])
  {
    var cs := Cells(block);
    assert cs == cs[..n] + cs[n..];
    ScanCellsAppend(st, cs[..n], cs[n..]);
    CompleteStaysComplete(ScanCells(st, cs[..n]), cs[n..]);
    assert ([block] + rest)[0] == block;
  }

  /** Splitting a block in two changes nothing unless the first half already
      completes both outputs: the header crosses the block boundary. */
  lemma MergeBlocks(st: ScanState, a: seq<Node>, b: seq<Node>)
    requires !Complete(ScanCells(st, Cells(a)))
    ensures ScanBlocks(st, [a, b]) == ScanBlocks(st, [a + b])
  {
    CellsAppend(a, b);
    ScanCellsAppend(st, Cells(a), Cells(b));
    assert [a, b][1..] == [b];
    assert [b][1..] == [];
    assert [a + b][1..] == [];
  }

  /** Values that come before any label change nothing: the header is still `None`. */
  lemma {:induction false} LeadingValuesIgnored(vs: seq<Cell>, rest: seq<Cell>)
    requires forall i :: 0 <= i < |vs| ==> vs[i].Dd?
    ensures ScanCells(Start, vs + rest) == ScanCells(Start, rest)
  {
    ScanCellsAppend(Start, vs, rest);
    LeadingValuesKeepStart(vs);
  }

  lemma {:induction false} LeadingValuesKeepStart(vs: seq<Cell>)
    requires forall i :: 0 <= i < |vs| ==> vs[i].Dd?
    ensures ScanCells(Start, vs) == Start
    decreases |vs|
  {
    if |vs| > 0 {
      LeadingValuesKeepStart(vs[..|vs| - 1]);
    }
  }

  // ---------------------------------------------------------------------------
  // The extraction as the crawler uses it
  // ---------------------------------------------------------------------------

  /** The two fields a listing's definition lists yield. */
  datatype Fields = Fields(propertyType: Option<string>, listDate: Option<string>)

  /** The scan of a listing's blocks: each output is the last value filed
      under its label among the cells of the blocks actually visited. */
  function ExtractFields(blocks: seq<seq<Node>>): (f: Fields)
    ensures f.propertyType == LastValue(VisitedCells(blocks), PropertyTypeLabel)
    ensures f.listDate == LastValue(VisitedCells(blocks), ListDateLabel)
  {
    var st := ScanBlocks(Start, blocks);
    var cs := VisitedCells(blocks);
    ScanBlocksIsFlatScan(Start, blocks);
    ScanCellsIsReference(cs, |cs|);
    assert cs[..|cs|] == cs;
    Fields(st.propertyType, st.listDate)
  }

  /** A label that never occurs leaves its output `None`; a missing label is
      never an error. */
  lemma {:induction false} MissingLabelGivesNone(cs: seq<Cell>, n: nat, key: string)
    requires n <= |cs|
    requires forall i :: 0 <= i < |cs| ==> cs[i] != Dt(key)
    ensures LastValueBefore(cs, n, key) == None
    decreases n
  {
    if n > 0 {
      HeaderNeverLabel(cs, n - 1, key);
      MissingLabelGivesNone(cs, n - 1, key);
    }
  }

  lemma {:induction false} HeaderNeverLabel(cs: seq<Cell>, i: nat, key: string)
    requires i <= |cs|
    requires forall k :: 0 <= k < |cs| ==> cs[k] != Dt(key)
    ensures HeaderBefore(cs, i) != Some(key)
    decreases i
  {
    if i > 0 {
      HeaderNeverLabel(cs, i - 1, key);
    }
  }

  /** At the level of a whole listing: if no block has a "Property Type:"
      label the property type is `None`, and likewise for "List Date:". */
  lemma AbsentLabelsGiveNone(blocks: seq<seq<Node>>)
    ensures (forall i :: 0 <= i < |Flatten(blocks)| ==> Flatten(blocks)[i] != Dt(PropertyTypeLabel)) ==>
      ExtractFields(blocks).propertyType == None
    ensures (forall i :: 0 <= i < |Flatten(blocks)| ==> Flatten(blocks)[i] != Dt(ListDateLabel)) ==>
      ExtractFields(blocks).listDate == None
  {
    var n := VisitedBlocks(Start, blocks);
    var cs := Flatten(blocks[..n]);
    assert blocks == blocks[..n] + blocks[n..];
    FlattenAppend(blocks[..n], blocks[n..]);
    assert forall i :: 0 <= i < |cs| ==> cs[i] == Flatten(blocks)[i];
    if forall i :: 0 <= i < |Flatten(blocks)| ==> Flatten(blocks)[i] != Dt(PropertyTypeLabel) {
      MissingLabelGivesNone(cs, |cs|, PropertyTypeLabel);
    }
    if forall i :: 0 <= i < |Flatten(blocks)| ==> Flatten(blocks)[i] != Dt(ListDateLabel) {
      MissingLabelGivesNone(cs, |cs|, ListDateLabel);
    }
  }

  /** Cells appended after position `i` do not change the header before it. */
  lemma {:induction false} HeaderBeforePrefix(cs: seq<Cell>, ds: seq<Cell>, i: nat)
    requires i <= |cs|
    ensures HeaderBefore(cs + ds, i) == HeaderBefore(cs, i)
    decreases i
  {
    if i > 0 {
      assert (cs + ds)[i - 1] == cs[i - 1];
      HeaderBeforePrefix(cs, ds, i - 1);
    }
  }

  /** Over a whole listing, a field is found exactly when some `dd` anywhere in
      the listing is filed under its label, even in a block the early exit
      never reads: the loop only leaves early once both fields are set. */
  lemma PresentIffSome(blocks: seq<seq<Node>>, key: string)
    requires key == PropertyTypeLabel || key == ListDateLabel
    ensures LastValue(VisitedCells(blocks), key).Some? <==>
      exists i :: 0 <= i < |Flatten(blocks)| && IsValueFor(Flatten(blocks), i, key)
  {
    var n := VisitedBlocks(Start, blocks);
    var visited := VisitedCells(blocks);
    var all := Flatten(blocks);
    assert blocks == blocks[..n] + blocks[n..];
    FlattenAppend(blocks[..n], blocks[n..]);
    assert all == visited + Flatten(blocks[n..]);
    LastValueBeforeSpec(visited, |visited|, key);
    if LastValue(visited, key).Some? {
      var i :| 0 <= i < |visited| && IsValueFor(visited, i, key) && visited[i].text == LastValue(visited, key).value &&
        forall j :: i < j < |visited| ==> !IsValueFor(visited, j, key);
      HeaderBeforePrefix(visited, Flatten(blocks[n..]), i);
      assert IsValueFor(all, i, key);
    }
    if n == |blocks| {
      assert blocks[..n] == blocks;
    } else {
      VisitedBlocksSpec(Start, blocks);
      ScanCellsIsReference(visited, |visited|);
      assert visited[..|visited|] == visited;
    }
  }

  /** The inner loop over one block's `dt`/`dd` tags. */
  method ScanBlock(st: ScanState, tags: seq<Cell>) returns (previousHeader: Option<string>, propertyType: Option<string>, listDate: Option<string>)
    ensures ScanState(previousHeader, propertyType, listDate) == ScanCells(st, tags)
  {
    previousHeader, propertyType, listDate := st.header, st.propertyType, st.listDate;
    var i := 0;
    while i < |tags|
      invariant 0 <= i <= |tags|
      invariant ScanState(previousHeader, propertyType, listDate) == ScanCells(st, tags[..i])
      decreases |tags| - i
    {
      assert tags[..i + 1][..i] == tags[..i];
      match tags[i] {
        case Dt(h) =>
          previousHeader := Some(h);
        case Dd(v) =>
          if previousHeader == Some(PropertyTypeLabel) {
            propertyType := Some(v);
          } else if previousHeader == Some(ListDateLabel) {
            listDate := Some(v);
          }
      }
      i := i + 1;
    }
    assert tags[..i] == tags;
  }

  /** The outer loop as the crawler writes it: one pass of the inner loop per
      block, and a `break` once both outputs are present after a block. */
  method ScanDefinitionLists(blocks: seq<seq<Node>>) returns (propertyType: Option<string>, listDate: Option<string>)
    ensures propertyType == LastValue(VisitedCells(blocks), PropertyTypeLabel)
    ensures listDate == LastValue(VisitedCells(blocks), ListDateLabel)
  {
    propertyType := None;
    listDate := None;
    var previousHeader: Option<string> := None;
    var b := 0;
    while b < |blocks|
      invariant 0 <= b <= |blocks|
      invariant ScanBlocks(ScanState(previousHeader, propertyType, listDate), blocks[b..]) == ScanBlocks(Start, blocks)
      decreases |blocks| - b
    {
      ScanBlocksAt(ScanState(previousHeader, propertyType, listDate), blocks, b);
      previousHeader, propertyType, listDate := ScanBlock(ScanState(previousHeader, propertyType, listDate), Cells(blocks[b]));
      if propertyType.Some? && listDate.Some? {
        break;
      }
      b := b + 1;
    }
    if b == |blocks| {
      assert blocks[b..] == [];
    }
    assert ScanBlocks(Start, blocks) == ScanState(previousHeader, propertyType, listDate);
    ghost var f := ExtractFields(blocks);
    assert f.propertyType == propertyType && f.listDate == listDate;
  }

  /** One turn of the block loop, on the blocks from position `b` on. */
  lemma ScanBlocksAt(st: ScanState, blocks: seq<seq<Node>>, b: nat)
    requires b < |blocks|
    ensures var after := ScanCells(st, Cells(blocks[b]));
      ScanBlocks(st, blocks[b..]) == if Complete(after) then after else ScanBlocks(after, blocks[b + 1..])
  {
    assert blocks[b..][0] == blocks[b];
    assert blocks[b..][1..] == blocks[b + 1..];
  }
}
