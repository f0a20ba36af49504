/**
 * The control panel of src/viz/Agenda.tsx: the interpreter's agenda drawn as
 * a list, most recently scheduled item first. One pass in agenda order counts
 * Mark instructions; the j-th Mark is drawn with class `mark-j`, a Return is
 * tagged with the count reached so far, and both take a colour from the
 * palette at that count. The pass's results are then reversed.
 *
 * What an AST node or an instruction looks like inside its row (ASTNode,
 * Instruction) is not part of this model; a row is reduced to the classes and
 * attributes this component sets on it.
 */
module AgendaView {
  import opened Wrappers
  import opened JsText

  datatype InstructionKind = MarkInstr | ReturnInstr | OtherInstr

  /** An agenda item as the component tells them apart (isASTNode, isInstruction, neither). */
  datatype AgendaItem =
    | AstNode
    | Instruction(kind: InstructionKind)
    | Unrecognised

  /**
   * A drawn row. `last` is the last-item highlight, `lvalue` the lvalue
   * highlight; `markClass` is j for the class `mark-j`, `returnInst` the class
   * `return-inst`, `dataMark` the data-mark attribute and `colour` the
   * background colour (None where the style sets none, or sets it to undefined
   * because the palette is empty). An unrecognised item is an empty fragment.
   */
  datatype Row =
    | AstRow(key: nat, last: bool, lvalue: bool)
    | InstructionRow(key: nat, last: bool, lvalue: bool, markClass: Option<nat>, returnInst: bool,
                     dataMark: Option<nat>, colour: Option<string>)
    | EmptyRow

  /** The panel: a placeholder icon when there is no agenda, else the rows. */
  datatype Panel = Placeholder | Rows(rows: seq<Row>)

  predicate IsMark(item: AgendaItem)
  {
    item.Instruction? && item.kind == MarkInstr
  }

  predicate IsReturn(item: AgendaItem)
  {
    item.Instruction? && item.kind == ReturnInstr
  }

  /** How many Mark instructions `items` holds. */
  function MarkCount(items: seq<AgendaItem>): (n: nat)
    ensures n <= |items|
  {
    if items == [] then 0
    else MarkCount(items[..|items| - 1]) + (if IsMark(items[|items| - 1]) then 1 else 0)
  }

  /** `colors[i % colors.length]`, which is undefined for an empty palette. */
  function PaletteColour(colors: seq<string>, i: nat): Option<string>
  {
    if |colors| == 0 then None else Some(colors[i % |colors|])
  }

  /** `lvalueFlags !== undefined && lvalueFlags[k]`; an index past the array reads undefined. */
  predicate LvalueFlag(lvalueFlags: Option<seq<bool>>, k: nat)
  {
    lvalueFlags.Some? && k < |lvalueFlags.value| && lvalueFlags.value[k]
  }

  /**
   * Row k, stated from the agenda's prefix rather than from a running
   * counter: with `before` the Marks strictly before item k, a Mark is the
   * (before+1)-th and a Return is tagged `before`.
   */
  function RowOf(items: seq<AgendaItem>, k: nat, lvalueFlags: Option<seq<bool>>, colors: seq<string>): Row
    requires k < |items|
  {
    var before := MarkCount(items[..k]);
    var last := k == |items| - 1;
    match items[k]
    case AstNode => AstRow(k, last, LvalueFlag(lvalueFlags, k))
    case Instruction(kind) =>
      InstructionRow(k, last, LvalueFlag(lvalueFlags, k),
                     if kind == MarkInstr then Some(before + 1) else None,
                     kind == ReturnInstr,
                     if kind == ReturnInstr then Some(before) else None,
                     if kind == MarkInstr then PaletteColour(colors, before + 1)
                     else if kind == ReturnInstr then PaletteColour(colors, before)
                     else None)
    case Unrecognised => EmptyRow
  }

  lemma PrefixStep(items: seq<AgendaItem>, k: nat)
    requires k < |items|
    ensures MarkCount(items[..k + 1]) == MarkCount(items[..k]) + (if IsMark(items[k]) then 1 else 0)
  {
    assert items[..k + 1][..k] == items[..k];
  }

  /**
   * The component: the agenda is mapped in order with a counter that only a
   * Mark increments, before its row is built, and the mapped rows are then
   * reversed, so row k of the agenda is drawn at position n-1-k.
   */
  method DrawAgenda(agenda: Option<seq<AgendaItem>>, lvalueFlags: Option<seq<bool>>, colors: seq<string>)
    returns (panel: Panel)
    ensures agenda.None? <==> panel.Placeholder?
    ensures agenda.Some? ==> |panel.rows| == |agenda.value|
    ensures agenda.Some? ==>
              forall k :: 0 <= k < |agenda.value| ==>
                panel.rows[|agenda.value| - 1 - k] == RowOf(agenda.value, k, lvalueFlags, colors)
  {
    if agenda.None? {
      return Placeholder;
    }
    var items := agenda.value;
    var markIdx := 0;
    var mapped: seq<Row> := [];
    for k := 0 to |items|
      invariant markIdx == MarkCount(items[..k])
      invariant |mapped| == k
      invariant forall j :: 0 <= j < k ==> mapped[j] == RowOf(items, j, lvalueFlags, colors)
    {
      PrefixStep(items, k);
      var isLast := k == |items| - 1;
      var isLvalue := lvalueFlags.Some? && k < |lvalueFlags.value| && lvalueFlags.value[k];
      var row: Row;
      match items[k] {
        case AstNode =>
          row := AstRow(k, isLast, isLvalue);
        case Instruction(kind) =>
          if kind == MarkInstr {
            markIdx := markIdx + 1;
          }
          var colour := if (kind == MarkInstr || kind == ReturnInstr) && |colors| > 0
                        then Some(colors[markIdx % |colors|]) else None;
          row := InstructionRow(k, isLast, isLvalue,
                                if kind == MarkInstr then Some(markIdx) else None,
                                kind == ReturnInstr,
                                if kind == ReturnInstr then Some(markIdx) else None,
                                colour);
        case Unrecognised =>
          row := EmptyRow;
      }
      mapped := mapped + [row];
    }
    panel := Rows(Reverse(mapped));
  }

  // ---------------------------------------------------------------------------
  // Properties
  // ---------------------------------------------------------------------------

  /** The count over a prefix never decreases as the prefix grows. */
  lemma {:induction false} MarkCountMonotone(items: seq<AgendaItem>, i: nat, j: nat)
    requires i <= j <= |items|
    ensures MarkCount(items[..i]) <= MarkCount(items[..j])
    decreases j - i
  {
    if i < j {
      MarkCountMonotone(items, i, j - 1);
      PrefixStep(items, j - 1);
    }
  }

  /** Two different Marks get different numbers, the earlier one the smaller. */
  lemma MarkNumbersIncrease(items: seq<AgendaItem>, i: nat, j: nat, lvalueFlags: Option<seq<bool>>, colors: seq<string>)
    requires i < j < |items| && IsMark(items[i]) && IsMark(items[j])
    ensures RowOf(items, i, lvalueFlags, colors).markClass.value < RowOf(items, j, lvalueFlags, colors).markClass.value
  {
    MarkCountMonotone(items, i + 1, j);
    PrefixStep(items, i);
  }

  /** Every number from 1 to the number of Marks is the class of some Mark: Marks are numbered 1, 2, ... without gaps. */
  lemma {:induction false} MarkNumbersOnto(items: seq<AgendaItem>, m: nat, lvalueFlags: Option<seq<bool>>, colors: seq<string>)
    requires 1 <= m <= MarkCount(items)
    ensures exists k :: 0 <= k < |items| && IsMark(items[k]) && RowOf(items, k, lvalueFlags, colors).markClass == Some(m)
    decreases |items|
  {
    var n := |items| - 1;
    var init := items[..n];
    assert items[..n] == init;
    if IsMark(items[n]) && m == MarkCount(items) {
      assert RowOf(items, n, lvalueFlags, colors).markClass == Some(m);
    } else {
      MarkNumbersOnto(init, m, lvalueFlags, colors);
      var k :| 0 <= k < |init| && IsMark(init[k]) && RowOf(init, k, lvalueFlags, colors).markClass == Some(m);
      assert items[..k] == init[..k];
      assert RowOf(items, k, lvalueFlags, colors).markClass == Some(m);
    }
  }

  /** Marks strictly between positions i and j. */
  predicate NoMarkBetween(items: seq<AgendaItem>, i: nat, j: nat)
    requires i <= j <= |items|
  {
    forall x :: i < x < j ==> !IsMark(items[x])
  }

  lemma {:induction false} CountWithoutMarks(items: seq<AgendaItem>, i: nat, j: nat)
    requires i < j <= |items| && NoMarkBetween(items, i, j)
    ensures MarkCount(items[..j]) == MarkCount(items[..i + 1])
    decreases j - i
  {
    if j > i + 1 {
      CountWithoutMarks(items, i, j - 1);
      PrefixStep(items, j - 1);
    }
  }

  /**
   * A Return is tagged with the number of the closest Mark before it and
   * drawn in that Mark's colour; with no Mark before it, it is tagged 0.
   */
  lemma ReturnTagsPrecedingMark(items: seq<AgendaItem>, i: nat, j: nat, lvalueFlags: Option<seq<bool>>, colors: seq<string>)
    requires i < j < |items| && IsMark(items[i]) && IsReturn(items[j]) && NoMarkBetween(items, i, j)
    ensures RowOf(items, j, lvalueFlags, colors).dataMark == RowOf(items, i, lvalueFlags, colors).markClass
    ensures RowOf(items, j, lvalueFlags, colors).colour == RowOf(items, i, lvalueFlags, colors).colour
  {
    CountWithoutMarks(items, i, j);
    PrefixStep(items, i);
  }

  lemma ReturnWithoutMark(items: seq<AgendaItem>, j: nat, lvalueFlags: Option<seq<bool>>, colors: seq<string>)
    requires j < |items| && IsReturn(items[j]) && forall x :: 0 <= x < j ==> !IsMark(items[x])
    ensures RowOf(items, j, lvalueFlags, colors).dataMark == Some(0)
  {
    if j > 0 {
      assert NoMarkBetween(items, 0, j);
      CountWithoutMarks(items, 0, j);
      PrefixStep(items, 0);
    }
  }

  /**
   * Only Marks and Returns are coloured, and only from a non-empty palette,
   * with the entry at their number modulo the palette's length; nothing else
   * carries a mark class, a data-mark or the return class.
   */
  lemma Decorations(items: seq<AgendaItem>, k: nat, lvalueFlags: Option<seq<bool>>, colors: seq<string>)
    requires k < |items|
    ensures var row := RowOf(items, k, lvalueFlags, colors);
            && (row.InstructionRow? && row.colour.Some? <==> (IsMark(items[k]) || IsReturn(items[k])) && |colors| > 0)
            && (row.InstructionRow? && row.markClass.Some? <==> IsMark(items[k]))
            && (row.InstructionRow? && row.dataMark.Some? <==> IsReturn(items[k]))
            && (row.InstructionRow? && row.returnInst <==> IsReturn(items[k]))
            && (IsMark(items[k]) && |colors| > 0 ==> row.colour == Some(colors[row.markClass.value % |colors|]))
            && (IsReturn(items[k]) && |colors| > 0 ==> row.colour == Some(colors[row.dataMark.value % |colors|]))
  {
  }

  /** Row k carries the lvalue highlight exactly when the flags are given and flag k is set. */
  lemma LvalueHighlight(items: seq<AgendaItem>, k: nat, lvalueFlags: Option<seq<bool>>, colors: seq<string>)
    requires k < |items| && !items[k].Unrecognised?
    ensures RowOf(items, k, lvalueFlags, colors).lvalue
            <==> lvalueFlags.Some? && k < |lvalueFlags.value| && lvalueFlags.value[k]
  {
  }

  /**
   * In rows laid out as DrawAgenda lays them out, the most recently
   * scheduled item comes first, and it is the only row with the last-item highlight (unless it is unrecognised,
   * in which case no row has it).
   */
  lemma LastItemFirst(items: seq<AgendaItem>, lvalueFlags: Option<seq<bool>>, colors: seq<string>, rows: seq<Row>)
    requires |rows| == |items|
    requires forall k :: 0 <= k < |items| ==> rows[|items| - 1 - k] == RowOf(items, k, lvalueFlags, colors)
    ensures forall p :: 0 <= p < |items| ==>
              (!rows[p].EmptyRow? && rows[p].last <==> p == 0 && !items[|items| - 1].Unrecognised?)
    ensures |items| > 0 ==> rows[0] == RowOf(items, |items| - 1, lvalueFlags, colors)
  {
    forall p | 0 <= p < |items|
      ensures !rows[p].EmptyRow? && rows[p].last <==> p == 0 && !items[|items| - 1].Unrecognised?
    {
      var k := |items| - 1 - p;
      assert rows[p] == RowOf(items, k, lvalueFlags, colors);
    }
  }
}
