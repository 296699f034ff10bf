/**
 * The reusable row buffer over lines of the COPY text format (row.go:28-187), driven once per line
 * (transformation_pipeline.go:158-196).
 */
module CopyRow {
  import opened Wrappers
  import opened CopyText

  /** The part of a line that one column occupies. */
  datatype Span = Span(start: nat, end: nat)

  type Pos = s: Span | s.start <= s.end witness Span(0, 0)

  const USE_DYNAMIC_SIZE := -1

  // ---------------------------------------------------------------- lines and columns

  /** The columns of a line, which tabs separate. */
  function Split(line: seq<Byte>): (cols: seq<seq<Byte>>)
    ensures cols != []
  {
    if line == [] then [[]]
    else var rest := Split(line[1..]);
      if line[0] == TAB then [[]] + rest else [[line[0]] + rest[0]] + rest[1..]
  }

  function JoinColumns(cols: seq<seq<Byte>>): seq<Byte> {
    if cols == [] then []
    else if |cols| == 1 then cols[0]
    else cols[0] + [TAB] + JoinColumns(cols[1..])
  }

  ghost predicate NoTabs(cols: seq<seq<Byte>>) {
    forall i :: 0 <= i < |cols| ==> TAB !in cols[i]
  }

  lemma {:induction false} JoinSplit(line: seq<Byte>)
    ensures JoinColumns(Split(line)) == line && NoTabs(Split(line))
  {
    if line != [] {
      JoinSplit(line[1..]);
      var rest := Split(line[1..]);
      if line[0] == TAB {
        assert Split(line)[1..] == rest;
      } else {
        assert Split(line)[1..] == rest[1..];
        if |rest| == 1 {
          assert JoinColumns(Split(line)) == [line[0]] + rest[0];
        } else {
          var tail := JoinColumns(rest[1..]);
          assert [line[0]] + rest[0] + [TAB] + tail == [line[0]] + (rest[0] + [TAB] + tail);
        }
      }
    }
  }

  lemma {:induction false} SplitJoin(cols: seq<seq<Byte>>)
    requires cols != [] && NoTabs(cols)
    ensures Split(JoinColumns(cols)) == cols
    decreases |cols|
  {
    if |cols| == 1 {
      SplitColumn(cols[0], []);
      assert cols[0] + [] == cols[0];
    } else {
      SplitJoin(cols[1..]);
      SplitColumn(cols[0], [TAB] + JoinColumns(cols[1..]));
      assert cols[0] + ([TAB] + JoinColumns(cols[1..])) == JoinColumns(cols);
      SplitAfterTab(JoinColumns(cols[1..]));
      assert [cols[0]] + cols[1..] == cols;
    }
  }

  lemma SplitAfterTab(rest: seq<Byte>)
    ensures Split([TAB] + rest) == [[]] + Split(rest)
  {
    assert ([TAB] + rest)[1..] == rest;
  }

  /** A text without tabs in front of the end of a line or of a tab is a column of its own. */
  lemma {:induction false} SplitColumn(col: seq<Byte>, rest: seq<Byte>)
    requires TAB !in col && (rest == [] || rest[0] == TAB)
    ensures Split(col + rest) == [col] + Split(rest)[1..]
  {
    if col == [] {
      assert col + rest == rest;
      assert Split(rest)[0] == [];
    } else {
      assert (col + rest)[1..] == col[1..] + rest;
      SplitColumn(col[1..], rest);
      assert [col[0]] + col[1..] == col;
    }
  }

  /** Columns are what byte 9 separates. */
  lemma TabsSeparate(col: seq<Byte>, rest: seq<Byte>)
    requires 9 !in col
    ensures Split(col) == [col] && Split(col + [9] + rest) == [col] + Split(rest)
    ensures JoinColumns([col]) == col && JoinColumns([col] + Split(rest)) == col + [9] + rest
  {
    SplitColumn(col, []);
    SplitColumn(col, [9] + rest);
    assert col + [] == col && col + ([9] + rest) == col + [9] + rest;
    SplitAfterTab(rest);
    JoinSplit(rest);
    assert ([col] + Split(rest))[1..] == Split(rest);
  }

  function NextTab(line: seq<Byte>, from: nat): (end: nat)
    requires from <= |line|
    ensures from <= end <= |line| && TAB !in line[from..end] && (end < |line| ==> line[end] == TAB)
    decreases |line| - from
  {
    if from == |line| || line[from] == TAB then from else NextTab(line, from + 1)
  }

  /** Where the columns of a line are. */
  function Positions(line: seq<Byte>, from: nat): seq<Pos>
    requires from <= |line| + 1
    decreases |line| + 1 - from
  {
    if from > |line| then [] else var end := NextTab(line, from); [Span(from, end)] + Positions(line, end + 1)
  }

  predicate Inside(line: seq<Byte>, p: Pos) {
    p.end <= |line|
  }

  ghost predicate AllInside(line: seq<Byte>, ps: seq<Pos>) {
    forall i :: 0 <= i < |ps| ==> Inside(line, ps[i])
  }

  function Texts(line: seq<Byte>, ps: seq<Pos>): seq<seq<Byte>>
    requires AllInside(line, ps)
  {
    seq(|ps|, i requires 0 <= i < |ps| => line[ps[i].start..ps[i].end])
  }

  lemma {:induction false} PositionsSplit(line: seq<Byte>, from: nat)
    requires from <= |line|
    ensures AllInside(line, Positions(line, from)) && Texts(line, Positions(line, from)) == Split(line[from..])
    decreases |line| - from
  {
    hide Split, NextTab, Texts, AllInside, Positions, Inside;
    var end := NextTab(line, from);
    var p: Pos := Span(from, end);
    SplitAtTab(line, from, end);
    PositionsUnfold(line, from);
    if end < |line| {
      PositionsSplit(line, end + 1);
      assert Split(line[from..]) == [line[from..end]] + Split(line[end + 1..]);
    } else {
      TextsNothing(line);
    }
    TextsStep(line, p, Positions(line, end + 1)) by { InsideIs(line, p); }
  }

  lemma PositionsUnfold(line: seq<Byte>, from: nat)
    requires from <= |line|
    ensures var end := NextTab(line, from); Positions(line, from) == [Span(from, end)] + Positions(line, end + 1)
    ensures Positions(line, |line| + 1) == []
  {
  }

  lemma InsideIs(line: seq<Byte>, p: Pos)
    requires p.end <= |line|
    ensures Inside(line, p)
  {
  }

  lemma TextsNothing(line: seq<Byte>)
    ensures AllInside(line, []) && Texts(line, []) == []
  {
  }

  lemma TextsStep(line: seq<Byte>, p: Pos, ps: seq<Pos>)
    requires Inside(line, p) && AllInside(line, ps)
    ensures AllInside(line, [p] + ps) && Texts(line, [p] + ps) == [line[p.start..p.end]] + Texts(line, ps)
  {
  }

  lemma SplitAtTab(line: seq<Byte>, from: nat, end: nat)
    requires from <= end <= |line| && TAB !in line[from..end] && (end < |line| ==> line[end] == TAB)
    ensures Split(line[from..]) == [line[from..end]] + if end < |line| then Split(line[end + 1..]) else []
  {
    hide Split;
    var col, rest := line[from..end], line[end..];
    assert line[from..] == col + rest;
    SplitColumn(col, rest);
    if end == |line| {
      SplitNothing();
    } else {
      assert rest == [TAB] + line[end + 1..];
      SplitAfterTab(line[end + 1..]);
    }
  }

  lemma SplitNothing()
    ensures Split([]) == [[]]
  {
  }

  // ---------------------------------------------------------------- the row

  function AttrText(v: RawValue): seq<Byte> {
    if v.Null? then NULL_SEQ else Encoded(v.data)
  }

  function Nones(n: nat): seq<Option<RawValue>> {
    seq(n, _ => None)
  }

  function After(s: seq<Pos>, n: nat): seq<Pos> {
    if n <= |s| then s[n..] else []
  }

  lemma StaleStart(stale: seq<Pos>, values: seq<Option<RawValue>>)
    ensures [] + After(stale, 0) == stale && values + Nones(0) == values
  {
  }

  lemma PositionsStep(done: seq<Pos>, line: seq<Byte>, from: nat)
    requires from <= |line|
    ensures var end := NextTab(line, from);
            done + Positions(line, from) == done + [Span(from, end)] + Positions(line, end + 1)
    ensures Positions(line, from) != []
  {
  }

  lemma PositionsEnd(done: seq<Pos>, line: seq<Byte>, from: nat)
    requires from == |line| + 1
    ensures done + Positions(line, from) == done
  {
  }

  lemma NonesGrow(values: seq<Option<RawValue>>, n: nat)
    ensures values + Nones(n) + [None] == values + Nones(n + 1)
  {
  }

  /** One more position in front of the stale ones, whether in the place of a stale one or behind the last. */
  lemma StaleStep(done: seq<Pos>, stale: seq<Pos>, p: Pos)
    ensures var n := |done|; var now := done + After(stale, n);
            if n < |now| then now[n := p] == done + [p] + After(stale, n + 1)
            else now + [p] == done + [p] + After(stale, n + 1)
  {
  }

  function Cell(text: seq<Byte>, v: Option<RawValue>): seq<Byte> {
    if v.Some? then AttrText(v.value) else text
  }

  /** Every column that was not set has its place inside the line. */
  ghost predicate Covered(raw: seq<Byte>, ps: seq<Pos>, values: seq<Option<RawValue>>)
    requires |ps| == |values|
  {
    forall i :: 0 <= i < |ps| && values[i].None? ==> Inside(raw, ps[i])
  }

  function CellAt(raw: seq<Byte>, p: Pos, v: Option<RawValue>): seq<Byte>
    requires v.None? ==> Inside(raw, p)
  {
    if v.Some? then AttrText(v.value) else raw[p.start..p.end]
  }

  ghost function Cells(raw: seq<Byte>, ps: seq<Pos>, values: seq<Option<RawValue>>): (r: seq<seq<Byte>>)
    requires |ps| == |values| && Covered(raw, ps, values)
    ensures |r| == |ps|
  {
    seq(|ps|, i requires 0 <= i < |ps| => CellAt(raw, ps[i], values[i]))
  }

  /** What reading a column gives; `Outside` stands for a slice that ends behind the line. */
  datatype ColumnResult = Missing | Outside | Column(result: AttrResult)

  class Row {
    var raw: seq<Byte>
    var newValues: seq<Option<RawValue>>
    var columnPos: seq<Pos>
    var tupleSize: nat
    const isDynamic: bool

    ghost predicate Valid()
      reads this
    {
      |columnPos| == |newValues| == tupleSize
    }

    /** Size zero and other negative sizes stop the program. */
    constructor (size: int)
      requires size > 0 || size == USE_DYNAMIC_SIZE
      ensures Valid() && Covered(raw, columnPos, newValues) && raw == [] && isDynamic == (size == USE_DYNAMIC_SIZE)
      ensures tupleSize == (if size == USE_DYNAMIC_SIZE then 0 else size) && newValues == Nones(tupleSize)
      ensures columnPos == seq(tupleSize, _ => Span(0, 0))
    {
      var n := if size == USE_DYNAMIC_SIZE then 0 else size;
      isDynamic := size == USE_DYNAMIC_SIZE;
      columnPos := seq(n, _ => Span(0, 0));
      newValues := Nones(n);
      raw := [];
      tupleSize := n;
    }

    method AppendNewEmptyBuffer()
      requires Valid()
      modifies this`columnPos, this`newValues, this`tupleSize
      ensures Valid() && tupleSize == old(tupleSize) + 1
      ensures columnPos == old(columnPos) + [Span(0, 0)] && newValues == old(newValues) + [None]
    {
      columnPos := columnPos + [Span(0, 0)];
      newValues := newValues + [None];
      tupleSize := tupleSize + 1;
    }

    /**
     * Positions of the new line go in front of those left from an earlier one. With too many columns for a
     * fixed size the positions are overwritten all the same, but the line is not taken over.
     */
    method Decode(line: seq<Byte>) returns (ok: bool)
      requires Valid()
      modifies this
      ensures Valid()
      ensures ok <==> isDynamic || |Positions(line, 0)| <= old(tupleSize)
      ensures ok ==> raw == line && columnPos == Positions(line, 0) + After(old(columnPos), |Positions(line, 0)|)
      ensures ok ==> newValues == old(newValues) + Nones(tupleSize - old(tupleSize))
      ensures !ok ==> raw == old(raw) && newValues == old(newValues)
      ensures !ok ==> columnPos == Positions(line, 0)[..old(tupleSize)]
    {
      hide NextTab, Positions, After, Nones;
      StaleStart(columnPos, newValues);
      var colStartPos, idx := 0, 0;
      ghost var done: seq<Pos> := [];
      while colStartPos <= |line|
        invariant Valid() && colStartPos <= |line| + 1 && idx == |done| <= tupleSize && raw == old(raw)
        invariant tupleSize >= old(tupleSize) && (!isDynamic ==> tupleSize == old(tupleSize))
        invariant done + Positions(line, colStartPos) == Positions(line, 0)
        invariant columnPos == done + After(old(columnPos), idx)
        invariant newValues == old(newValues) + Nones(tupleSize - old(tupleSize))
      {
        var colEndPos := NextTab(line, colStartPos);
        PositionsStep(done, line, colStartPos);
        ghost var p: Pos := Span(colStartPos, colEndPos);
        StaleStep(done, old(columnPos), p);
        NonesGrow(old(newValues), tupleSize - old(tupleSize));
        var stored := StorePosition(idx, Span(colStartPos, colEndPos));
        if !stored {
          assert Positions(line, 0)[..idx] == done && |Positions(line, 0)| > idx;
          return false;
        }
        done := done + [p];
        colStartPos := colEndPos + 1;
        idx := idx + 1;
      }
      PositionsEnd(done, line, colStartPos);
      raw := line;
      ok := true;
    }

    /** Column `idx` gets its place; a dynamic row grows for it. */
    method StorePosition(idx: nat, p: Pos) returns (ok: bool)
      requires Valid() && idx <= tupleSize
      modifies this`columnPos, this`newValues, this`tupleSize
      ensures Valid() && (ok <==> isDynamic || idx < old(tupleSize))
      ensures tupleSize == old(tupleSize) + if ok && idx == old(tupleSize) then 1 else 0
      ensures newValues == old(newValues) + if ok && idx == old(tupleSize) then [None] else []
      ensures ok && idx < old(tupleSize) ==> columnPos == old(columnPos)[idx := p]
      ensures ok && idx == old(tupleSize) ==> columnPos == old(columnPos) + [p]
      ensures !ok ==> columnPos == old(columnPos)
    {
      if isDynamic && idx >= tupleSize {
        AppendNewEmptyBuffer();
      } else if idx >= |columnPos| {
        return false;
      }
      columnPos := columnPos[idx := p];
      ok := true;
    }

    /** A value set for the current line wins over the line itself; a missing column is an error. */
    method GetColumn(idx: nat, validUtf8: seq<Byte> -> bool) returns (r: ColumnResult)
      requires Valid()
      ensures r.Missing? <==> idx >= tupleSize
      ensures idx < tupleSize && newValues[idx].Some? ==> r == Column(Value(newValues[idx].value))
      ensures idx < tupleSize && newValues[idx].None? ==>
                if Inside(raw, columnPos[idx])
                then r == Column(Decoded(raw[columnPos[idx].start..columnPos[idx].end], [], validUtf8))
                else r.Outside?
    {
      if |columnPos| <= idx {
        return Missing;
      }
      if newValues[idx].Some? {
        return Column(Value(newValues[idx].value));
      }
      if !Inside(raw, columnPos[idx]) {
        return ColumnResult.Outside;
      }
      var result := DecodeAttr(raw[columnPos[idx].start..columnPos[idx].end], [], validUtf8);
      return Column(result);
    }

    method SetColumn(idx: nat, v: RawValue) returns (ok: bool)
      requires Valid()
      modifies this`newValues
      ensures Valid() && ok == (idx < tupleSize)
      ensures newValues == ApplySet(old(newValues), (idx, v))
    {
      if idx > |columnPos| - 1 {
        return false;
      }
      newValues := newValues[idx := Some(v)];
      ok := true;
    }

    /**
     * A row without columns gives back the line as it is. `None` stands for reading behind the end of the line,
     * at the first column that was not set and lies outside; the columns before it are no longer set.
     */
    method Encode() returns (text: Option<seq<Byte>>)
      requires Valid()
      modifies this`newValues
      ensures Valid() && (text.Some? <==> old(Covered(raw, columnPos, newValues)))
      ensures text.Some? ==> newValues == Nones(tupleSize)
      ensures text.Some? ==>
                text.value == if tupleSize == 0 then raw else JoinColumns(Cells(raw, columnPos, old(newValues)))
      ensures text.None? ==> StoppedOutside(raw, columnPos, old(newValues), newValues)
    {
      hide JoinColumns, EncodedSoFar, Inside, Cells, CellAt, Nones, Covered, InsideUpTo, StoppedOutside;
      if |newValues| == 0 {
        EmptyRow(raw, columnPos, newValues);
        return Some(raw);
      }
      ghost var values, line, ps := newValues, raw, columnPos;
      var res: seq<Byte> := [];
      EncodingStarts(line, ps, values);
      for idx := 0 to |columnPos|
        invariant Valid() && raw == line && columnPos == ps && |ps| == |values|
        invariant newValues == Nones(idx) + values[idx..] && |Nones(idx)| == idx
        invariant InsideUpTo(line, ps, values, idx) && EncodedSoFar(line, ps, values, idx, res)
      {
        ghost var before := res;
        assert newValues[idx] == values[idx];
        var cell := EncodeColumn(idx);
        if cell.None? {
          OutsideAt(line, ps, values, idx);
          return None;
        }
        res := res + cell.value;
        if idx != |columnPos| - 1 {
          res := res + [TAB];
        }
        EncodingGoesOn(line, ps, values, idx, before, res);
        ClearedOne(values, idx);
      }
      EncodingEnds(line, ps, values, res);
      return Some(res);
    }

    method EncodeColumn(idx: nat) returns (cell: Option<seq<Byte>>)
      requires Valid() && idx < tupleSize
      modifies this`newValues
      ensures cell.None? <==> old(newValues[idx]).None? && !Inside(raw, columnPos[idx])
      ensures cell.Some? ==> cell.value == CellAt(raw, columnPos[idx], old(newValues[idx]))
      ensures newValues == if cell.Some? then old(newValues)[idx := None] else old(newValues)
    {
      if newValues[idx].Some? {
        var v := EncodeAttr(newValues[idx].value, []);
        newValues := newValues[idx := None];
        return Some(v);
      }
      if columnPos[idx].end > |raw| {
        return None;
      }
      return Some(raw[columnPos[idx].start..columnPos[idx].end]);
    }
  }

  ghost predicate InsideUpTo(raw: seq<Byte>, ps: seq<Pos>, values: seq<Option<RawValue>>, n: nat)
    requires n <= |ps| == |values|
  {
    forall i :: 0 <= i < n && values[i].None? ==> Inside(raw, ps[i])
  }

  /** At the first column that was not set and lies outside; the columns before it are cleared. */
  ghost predicate StoppedOutside(raw: seq<Byte>, ps: seq<Pos>, before: seq<Option<RawValue>>,
                                 after: seq<Option<RawValue>>)
    requires |ps| == |before|
  {
    exists k: nat :: k < |ps| && before[k].None? && !Inside(raw, ps[k]) && InsideUpTo(raw, ps, before, k) &&
                     after == Nones(k) + before[k..]
  }

  lemma EmptyRow(raw: seq<Byte>, ps: seq<Pos>, values: seq<Option<RawValue>>)
    requires |ps| == |values| == 0
    ensures Covered(raw, ps, values) && values == Nones(0)
  {
  }

  lemma OutsideAt(raw: seq<Byte>, ps: seq<Pos>, values: seq<Option<RawValue>>, k: nat)
    requires k < |ps| == |values| && values[k].None? && !Inside(raw, ps[k]) && InsideUpTo(raw, ps, values, k)
    ensures !Covered(raw, ps, values) && StoppedOutside(raw, ps, values, Nones(k) + values[k..])
  {
    hide Inside;
  }

  lemma ClearedOne(values: seq<Option<RawValue>>, idx: nat)
    requires idx < |values|
    ensures (Nones(idx) + values[idx..])[idx := None] == Nones(idx + 1) + values[idx + 1..] &&
            |Nones(idx + 1)| == idx + 1
  {
  }

  /** With the remaining columns the text is complete, provided they lie inside the line. */
  ghost predicate EncodedSoFar(raw: seq<Byte>, ps: seq<Pos>, values: seq<Option<RawValue>>, idx: nat, text: seq<Byte>)
    requires idx <= |ps| == |values|
  {
    Covered(raw, ps, values) ==>
        text + JoinColumns(Cells(raw, ps, values)[idx..]) == JoinColumns(Cells(raw, ps, values))
  }

  lemma EncodingStarts(raw: seq<Byte>, ps: seq<Pos>, values: seq<Option<RawValue>>)
    requires |ps| == |values|
    ensures EncodedSoFar(raw, ps, values, 0, []) && values == Nones(0) + values[0..] && |Nones(0)| == 0
    ensures InsideUpTo(raw, ps, values, 0)
  {
    if Covered(raw, ps, values) {
      assert Cells(raw, ps, values)[0..] == Cells(raw, ps, values);
    }
  }

  lemma EncodingGoesOn(raw: seq<Byte>, ps: seq<Pos>, values: seq<Option<RawValue>>, idx: nat, before: seq<Byte>,
                       text: seq<Byte>)
    requires idx < |ps| == |values| && EncodedSoFar(raw, ps, values, idx, before)
    requires (values[idx].None? ==> Inside(raw, ps[idx])) && InsideUpTo(raw, ps, values, idx)
    requires text == before + CellAt(raw, ps[idx], values[idx]) + if idx != |ps| - 1 then [TAB] else []
    ensures EncodedSoFar(raw, ps, values, idx + 1, text) && InsideUpTo(raw, ps, values, idx + 1)
  {
    hide JoinColumns, CellAt, Inside;
    if Covered(raw, ps, values) {
      var cells := Cells(raw, ps, values);
      assert cells[idx] == CellAt(raw, ps[idx], values[idx]);
      JoinStep(before, cells, idx);
    }
  }

  lemma EncodingEnds(raw: seq<Byte>, ps: seq<Pos>, values: seq<Option<RawValue>>, text: seq<Byte>)
    requires |ps| == |values| && EncodedSoFar(raw, ps, values, |ps|, text) && InsideUpTo(raw, ps, values, |ps|)
    ensures Covered(raw, ps, values) && text == JoinColumns(Cells(raw, ps, values))
    ensures Nones(|ps|) + values[|ps|..] == Nones(|ps|)
  {
    assert Cells(raw, ps, values)[|ps|..] == [];
    JoinNothing(text);
  }

  lemma JoinStep(before: seq<Byte>, cells: seq<seq<Byte>>, idx: nat)
    requires idx < |cells|
    ensures before + JoinColumns(cells[idx..])
         == before + cells[idx] + (if idx != |cells| - 1 then [TAB] else []) + JoinColumns(cells[idx + 1..])
  {
    assert cells[idx..][1..] == cells[idx + 1..];
    if idx != |cells| - 1 {
      var tail := JoinColumns(cells[idx + 1..]);
      assert before + (cells[idx] + [TAB] + tail) == before + cells[idx] + [TAB] + tail;
    }
  }

  lemma JoinNothing(text: seq<Byte>)
    ensures text + JoinColumns([]) == text
  {
  }

  // ---------------------------------------------------------------- one line after another

  function ApplySet(values: seq<Option<RawValue>>, change: (nat, RawValue)): seq<Option<RawValue>> {
    if change.0 < |values| then values[change.0 := Some(change.1)] else values
  }

  function ApplySets(values: seq<Option<RawValue>>, sets: seq<(nat, RawValue)>): (r: seq<Option<RawValue>>)
    ensures |r| == |values|
  {
    if sets == [] then values else ApplySet(ApplySets(values, sets[..|sets| - 1]), sets[|sets| - 1])
  }

  /** The output for a line under the changes made to it: a function of these two alone. */
  function Render(line: seq<Byte>, sets: seq<(nat, RawValue)>): seq<Byte> {
    var cols := Split(line);
    var values := ApplySets(Nones(|cols|), sets);
    JoinColumns(seq(|cols|, i requires 0 <= i < |cols| => Cell(cols[i], values[i])))
  }

  /** The value set last for a column, if any. */
  function LastSet(sets: seq<(nat, RawValue)>, i: nat): Option<RawValue> {
    if sets == [] then None
    else if sets[|sets| - 1].0 == i then Some(sets[|sets| - 1].1)
    else LastSet(sets[..|sets| - 1], i)
  }

  /** The set that counts is the last one for the column. */
  lemma {:induction false} LastSetIs(sets: seq<(nat, RawValue)>, i: nat, k: nat)
    requires k <= |sets| && forall j :: k <= j < |sets| ==> sets[j].0 != i
    ensures k == 0 ==> LastSet(sets, i) == None
    ensures k > 0 && sets[k - 1].0 == i ==> LastSet(sets, i) == Some(sets[k - 1].1)
  {
    if k < |sets| {
      LastSetIs(sets[..|sets| - 1], i, k);
    }
  }

  lemma {:induction false} AppliedIsLast(n: nat, sets: seq<(nat, RawValue)>, i: nat)
    requires i < n
    ensures ApplySets(Nones(n), sets)[i] == LastSet(sets, i)
  {
    if sets != [] {
      AppliedIsLast(n, sets[..|sets| - 1], i);
    }
  }

  lemma AttrTextHasNoTab(v: RawValue)
    ensures TAB !in AttrText(v)
  {
    if v.Data? {
      EncodedIsOneField(v.data);
    }
  }

  /** Splitting the output finds the same columns: untouched ones byte for byte, changed ones encoded. */
  lemma RenderKeepsColumns(line: seq<Byte>, sets: seq<(nat, RawValue)>)
    ensures |Split(Render(line, sets))| == |Split(line)|
    ensures forall i: nat :: i < |Split(line)| ==>
              Split(Render(line, sets))[i] == Cell(Split(line)[i], LastSet(sets, i))
  {
    hide Split, JoinColumns, ApplySets, LastSet;
    var cols := Split(line);
    var values := ApplySets(Nones(|cols|), sets);
    var cells := seq(|cols|, i requires 0 <= i < |cols| => Cell(cols[i], values[i]));
    JoinSplit(line);
    forall i: nat | i < |cols|
      ensures TAB !in cells[i] && values[i] == LastSet(sets, i)
    {
      AppliedIsLast(|cols|, sets, i);
      if values[i].Some? {
        AttrTextHasNoTab(values[i].value);
      }
    }
    SplitJoin(cells);
  }

  lemma UntouchedLineIsCopied(line: seq<Byte>)
    ensures Render(line, []) == line
  {
    JoinSplit(line);
    var cols := Split(line);
    assert seq(|cols|, i requires 0 <= i < |cols| => Cell(cols[i], ApplySets(Nones(|cols|), [])[i])) == cols;
  }

  /** A reader of the output sees each changed column as the codec's image of its value. */
  lemma RenderReadsBack(line: seq<Byte>, sets: seq<(nat, RawValue)>, i: nat, validUtf8: seq<Byte> -> bool)
    requires i < |Split(line)| == |Split(Render(line, sets))|
    ensures Decoded(Split(Render(line, sets))[i], [], validUtf8) ==
            match LastSet(sets, i)
            case None => Decoded(Split(line)[i], [], validUtf8)
            case Some(Null) => Value(Null)
            case Some(Data(d)) => Value(Data(Lossy(d)))
  {
    RenderKeepsColumns(line, sets);
    if LastSet(sets, i).Some? && LastSet(sets, i).value.Data? {
      CodecIsLossy(LastSet(sets, i).value.data, validUtf8);
    }
  }

  /** No value set for an earlier line is left. */
  ghost predicate Fresh(row: Row)
    reads row
  {
    row.Valid() && row.newValues == Nones(row.tupleSize)
  }

  /** The places of a row after a line was taken over: those of the line, then those left from earlier lines. */
  function Places(line: seq<Byte>, stale: seq<Pos>): (ps: seq<Pos>) {
    Positions(line, 0) + After(stale, |Positions(line, 0)|)
  }

  lemma PlacesAre(line: seq<Byte>, stale: seq<Pos>)
    ensures var n, ps := |Split(line)|, Places(line, stale);
            && |Positions(line, 0)| == n <= |ps| && |ps| == (if n <= |stale| then |stale| else n)
            && (forall i :: 0 <= i < n ==> Inside(line, ps[i]) && line[ps[i].start..ps[i].end] == Split(line)[i])
            && (forall i :: n <= i < |ps| ==> ps[i] == stale[i])
  {
    hide Split, Positions;
    PositionsSplit(line, 0);
    assert line[0..] == line;
    var n, ps := |Split(line)|, Places(line, stale);
    forall i | 0 <= i < n
      ensures Inside(line, ps[i]) && line[ps[i].start..ps[i].end] == Split(line)[i]
    {
      assert ps[i] == Positions(line, 0)[i];
      assert Texts(line, Positions(line, 0))[i] == Split(line)[i];
    }
  }

  /** Some column behind those of the line is not set and ends behind the line. */
  ghost predicate ReadsOutside(line: seq<Byte>, stale: seq<Pos>, sets: seq<(nat, RawValue)>) {
    exists i :: |Split(line)| <= i < |stale| && LastSet(sets, i).None? && stale[i].end > |line|
  }

  lemma OutsideIff(line: seq<Byte>, stale: seq<Pos>, sets: seq<(nat, RawValue)>)
    ensures var ps := Places(line, stale);
            ReadsOutside(line, stale, sets) <==> !Covered(line, ps, ApplySets(Nones(|ps|), sets))
  {
    hide Split, Positions, Places, ApplySets, LastSet;
    PlacesAre(line, stale);
    var ps := Places(line, stale);
    forall i: nat | i < |ps|
      ensures ApplySets(Nones(|ps|), sets)[i] == LastSet(sets, i)
    {
      AppliedIsLast(|ps|, sets, i);
    }
  }

  /** How one line ends: it has too many columns, is read behind its end, or is written. */
  datatype LineResult = TooMany | Outside | Written(text: seq<Byte>)

  /** One line through the row: decode it, set columns, encode it. */
  method DumpLine(row: Row, line: seq<Byte>, sets: seq<(nat, RawValue)>) returns (r: LineResult)
    requires Fresh(row)
    modifies row
    ensures r.TooMany? <==> !row.isDynamic && |Split(line)| > old(row.tupleSize)
    ensures r.Outside? <==> !r.TooMany? && ReadsOutside(line, old(row.columnPos), sets)
    ensures !r.TooMany? ==> row.Valid() && row.columnPos == Places(line, old(row.columnPos))
    ensures r.Written? ==> Fresh(row) && row.raw == line
    ensures r.Written? ==> (r.text == Render(line, sets) <==> |Split(line)| == row.tupleSize)
    ensures r.Written? ==>
              var values := ApplySets(Nones(row.tupleSize), sets);
              Covered(line, row.columnPos, values) && r.text == JoinColumns(Cells(line, row.columnPos, values))
  {
    hide Split, JoinColumns, ApplySets, Positions, LastSet, Cells, Covered, Render, Places, After, ReadsOutside;
    ghost var stale := row.columnPos;
    PlacesAre(line, stale);
    OutsideIff(line, stale, sets);
    var ok := row.Decode(line);
    if !ok {
      return TooMany;
    }
    assert row.columnPos == Places(line, stale) by { PlacesOpen(line, stale); }
    ghost var n := row.tupleSize;
    NonesJoin(old(row.tupleSize), n - old(row.tupleSize));
    SetColumns(row, sets);
    ghost var values := row.newValues;
    var text := row.Encode();
    if text.None? {
      return LineResult.Outside;
    }
    WrittenIff(line, stale, sets);
    return Written(text.value);
  }

  lemma PlacesOpen(line: seq<Byte>, stale: seq<Pos>)
    ensures Places(line, stale) == Positions(line, 0) + After(stale, |Positions(line, 0)|)
  {
  }

  lemma NonesJoin(m: nat, n: nat)
    ensures Nones(m) + Nones(n) == Nones(m + n)
  {
  }

  method SetColumns(row: Row, sets: seq<(nat, RawValue)>)
    requires Fresh(row)
    modifies row`newValues
    ensures row.Valid() && row.newValues == ApplySets(Nones(row.tupleSize), sets)
  {
    hide ApplySets;
    var n := row.tupleSize;
    ApplyNothing(Nones(n));
    assert sets[..0] == [];
    for k := 0 to |sets|
      invariant row.Valid() && row.newValues == ApplySets(Nones(n), sets[..k])
    {
      ApplyNext(Nones(n), sets, k);
      var accepted := row.SetColumn(sets[k].0, sets[k].1);
    }
    assert sets[..|sets|] == sets;
  }

  lemma ApplyNothing(values: seq<Option<RawValue>>)
    ensures ApplySets(values, []) == values
  {
  }

  lemma ApplyNext(values: seq<Option<RawValue>>, sets: seq<(nat, RawValue)>, k: nat)
    requires k < |sets|
    ensures ApplySets(values, sets[..k + 1]) == ApplySet(ApplySets(values, sets[..k]), sets[k])
  {
    assert sets[..k + 1][..k] == sets[..k];
  }

  lemma {:induction false} SplitAcross(a: seq<Byte>, b: seq<Byte>)
    ensures |Split(a + [TAB] + b)| == |Split(a)| + |Split(b)|
  {
    if a == [] {
      assert [] + [TAB] + b == [TAB] + b;
      SplitAfterTab(b);
    } else {
      assert (a + [TAB] + b)[1..] == a[1..] + [TAB] + b;
      SplitAcross(a[1..], b);
    }
  }

  /** Joined columns split into at least as many. */
  lemma {:induction false} JoinNeverMerges(cols: seq<seq<Byte>>)
    ensures |Split(JoinColumns(cols))| >= |cols|
    decreases |cols|
  {
    hide Split;
    if |cols| > 1 {
      JoinNeverMerges(cols[1..]);
      SplitAcross(cols[0], JoinColumns(cols[1..]));
    }
  }

  /** The cells of a row are those of the line, and further ones exactly when the line has fewer columns. */
  lemma WrittenIff(line: seq<Byte>, stale: seq<Pos>, sets: seq<(nat, RawValue)>)
    ensures var ps := Places(line, stale); var values := ApplySets(Nones(|ps|), sets);
            Covered(line, ps, values) ==>
              (JoinColumns(Cells(line, ps, values)) == Render(line, sets) <==> |ps| == |Split(line)|)
  {
    hide Split, JoinColumns, ApplySets, Positions, LastSet, Places, After, Cells, Render;
    PlacesAre(line, stale);
    var ps := Places(line, stale);
    var values := ApplySets(Nones(|ps|), sets);
    if Covered(line, ps, values) {
      var cells := Cells(line, ps, values);
      JoinNeverMerges(cells);
      RenderKeepsColumns(line, sets);
      if |ps| == |Split(line)| {
        CellsRendered(line, ps, sets);
      }
    }
  }

  lemma CellsRendered(line: seq<Byte>, ps: seq<Pos>, sets: seq<(nat, RawValue)>)
    requires |ps| == |Split(line)|
    requires forall i :: 0 <= i < |ps| ==> Inside(line, ps[i]) && line[ps[i].start..ps[i].end] == Split(line)[i]
    ensures var values := ApplySets(Nones(|ps|), sets);
            Covered(line, ps, values) && JoinColumns(Cells(line, ps, values)) == Render(line, sets)
  {
    hide Split, JoinColumns, ApplySets;
    var cols, values := Split(line), ApplySets(Nones(|ps|), sets);
    assert Cells(line, ps, values) == seq(|cols|, i requires 0 <= i < |cols| => Cell(cols[i], values[i]));
  }

  // ---------------------------------------------------------------- streams

  /** Line `k` has the size the row has by then, or a larger one when the row may grow. */
  ghost predicate FitsAt(size: nat, isDynamic: bool, lines: seq<seq<Byte>>, k: nat)
    requires k < |lines|
  {
    if !isDynamic then |Split(lines[k])| == size
    else |Split(lines[k])| >= if k == 0 then size else |Split(lines[k - 1])|
  }

  ghost predicate RenderedAt(lines: seq<seq<Byte>>, sets: seq<seq<(nat, RawValue)>>, outs: seq<LineResult>, k: nat)
    requires k < |lines| == |sets|
  {
    k < |outs| && outs[k] == Written(Render(lines[k], sets[k]))
  }

  /**
   * A stream, up to the first line that is not written. Each output depends on its own line and its own
   * changes only, exactly when the column counts never fall and fit a fixed row.
   */
  method DumpStream(row: Row, lines: seq<seq<Byte>>, sets: seq<seq<(nat, RawValue)>>) returns (outs: seq<LineResult>)
    requires Fresh(row) && |lines| == |sets|
    modifies row
    ensures |outs| <= |lines| && (|outs| < |lines| ==> |outs| > 0 && !outs[|outs| - 1].Written?)
    ensures (forall k: nat :: k < |lines| ==> RenderedAt(lines, sets, outs, k)) <==>
            (forall k: nat :: k < |lines| ==> FitsAt(old(row.tupleSize), row.isDynamic, lines, k))
  {
    hide Render, Split, Places, ReadsOutside, Covered, Cells, JoinColumns;
    ghost var size, good := row.tupleSize, true;
    outs := [];
    for k := 0 to |lines|
      invariant Fresh(row) && |outs| == k
      invariant forall j: nat :: j < k ==> outs[j].Written?
      invariant good ==> row.tupleSize == (if k == 0 || !row.isDynamic then size else |Split(lines[k - 1])|)
      invariant good ==> forall j: nat :: j < k ==>
                  RenderedAt(lines, sets, outs, j) && FitsAt(size, row.isDynamic, lines, j)
      invariant !good ==> exists j: nat :: j < k && !RenderedAt(lines, sets, outs, j)
      invariant !good ==> exists j: nat :: j < k && !FitsAt(size, row.isDynamic, lines, j)
    {
      ghost var before := row.columnPos;
      var r := DumpLine(row, lines[k], sets[k]);
      PlacesAre(lines[k], before);
      ghost var outs0 := outs;
      outs := outs + [r];
      EnoughColumns(lines[k], before, sets[k]);
      ghost var fits := good && FitsAt(size, row.isDynamic, lines, k);
      RenderedStay(lines, sets, outs0, r);
      if !r.Written? {
        assert !RenderedAt(lines, sets, outs, k);
        return;
      }
      good := fits;
    }
  }

  /** A line with a column for every place is never read behind its end. */
  lemma EnoughColumns(line: seq<Byte>, stale: seq<Pos>, sets: seq<(nat, RawValue)>)
    ensures ReadsOutside(line, stale, sets) ==> |Split(line)| < |stale|
  {
    hide Split, LastSet;
  }

  lemma RenderedStay(lines: seq<seq<Byte>>, sets: seq<seq<(nat, RawValue)>>, outs: seq<LineResult>, r: LineResult)
    requires |outs| < |lines| == |sets|
    ensures forall j: nat :: j < |outs| ==>
              (RenderedAt(lines, sets, outs + [r], j) <==> RenderedAt(lines, sets, outs, j))
    ensures RenderedAt(lines, sets, outs + [r], |outs|) <==> r == Written(Render(lines[|outs|], sets[|outs|]))
  {
    hide Render;
  }

  // ---------------------------------------------------------------- short lines

  lemma FirstLine()
    ensures Positions([97, TAB, 98], 0) == [Span(0, 1), Span(2, 3)] && Split([97, TAB, 98]) == [[97], [98]]
  {
    var line: seq<Byte> := [97, TAB, 98];
    assert NextTab(line, 0) == 1 && NextTab(line, 2) == 3;
    assert Positions(line, 4) == [];
    assert Positions(line, 2) == [Span(2, 3)];
    PositionsSplit(line, 0);
    assert line[0..] == line;
    assert line[0..1] == [97] && line[2..3] == [98];
    assert Texts(line, Positions(line, 0)) == [line[0..1], line[2..3]];
  }

  lemma {:induction false} OneColumn(line: seq<Byte>)
    requires TAB !in line
    ensures Split(line) == [line]
  {
    SplitColumn(line, []);
    assert line + [] == line && Split([])[1..] == [];
  }

  /**
   * In a row of two columns, after the line "a", tab, "b", the line "x" is read behind its end, and the line
   * "xyz" is written with its last byte once more as a second column.
   */
  method ShortLines() returns (outside: LineResult, wrong: LineResult)
    ensures outside == LineResult.Outside && wrong == Written([120, 121, 122, TAB, 122])
  {
    hide Split, Render, ReadsOutside, Places;
    var row := FilledRow();
    OneColumn([120]);
    ShortReads([120], row.columnPos);
    outside := DumpLine(row, [120], []);
    row := FilledRow();
    var line: seq<Byte> := [120, 121, 122];
    OneColumn(line);
    ShortReads(line, row.columnPos);
    PlacesAre(line, row.columnPos);
    wrong := DumpLine(row, line, []);
    ghost var values: seq<Option<RawValue>> := [None, None];
    assert ApplySets(Nones(2), []) == values;
    assert row.columnPos[0].start == 0 by { FirstPlace(line, [Span(0, 1), Span(2, 3)]); }
    assert line[0..3] == line;
    assert Cells(line, row.columnPos, values) == [line, [122]];
    assert JoinColumns([line, [122]]) == line + [TAB] + JoinColumns([line, [122]][1..]);
  }

  lemma FirstPlace(line: seq<Byte>, stale: seq<Pos>)
    ensures |Places(line, stale)| > 0 && Places(line, stale)[0] == Span(0, NextTab(line, 0))
  {
  }

  lemma ShortReads(line: seq<Byte>, stale: seq<Pos>)
    requires Split(line) == [line] && stale == [Span(0, 1), Span(2, 3)]
    ensures ReadsOutside(line, stale, []) <==> |line| < 3
  {
    hide Split;
    assert LastSet([], 1).None?;
    assert stale[1].end == 3;
  }

  method FilledRow() returns (row: Row)
    ensures fresh(row) && Fresh(row) && row.tupleSize == 2 && !row.isDynamic
    ensures row.columnPos == [Span(0, 1), Span(2, 3)]
  {
    hide Split, Render, ReadsOutside, Positions;
    row := new Row(2);
    FirstLine();
    EnoughColumns([97, TAB, 98], row.columnPos, []);
    var first := DumpLine(row, [97, TAB, 98], []);
  }
}
