/** Greedy transformation windows (transformation_window.go:54-82, transformation_pipeline.go:60-71). */
module TransformWindows {

  type Record = map<string, string>

  /**
   * A transformer with its when-condition. `affected` is what it declares, `outputs` and `inputs` are
   * the columns it may write and the columns it or its condition may look at.
   */
  datatype Transformer = Transformer(
    affected: seq<string>, outputs: set<string>, inputs: set<string>, when: Record -> bool, transform: Record -> Record)

  function ToSet(names: seq<string>): set<string> {
    set n | n in names
  }

  /** A transformer that declares no columns counts as affecting the whole table. */
  function Effective(columns: seq<string>, t: Transformer): set<string> {
    if t.affected == [] then ToSet(columns) else ToSet(t.affected)
  }

  /** The affected columns of the window are the union over its members, which are pairwise disjoint. */
  ghost predicate Coherent(columns: seq<string>, window: seq<Transformer>, affectedColumns: set<string>) {
    && (forall i :: 0 <= i < |window| ==> Effective(columns, window[i]) <= affectedColumns)
    && (forall c :: c in affectedColumns ==> exists i :: 0 <= i < |window| && c in Effective(columns, window[i]))
    && Disjoint(columns, window)
  }

  ghost predicate Disjoint(columns: seq<string>, window: seq<Transformer>) {
    forall i, j :: 0 <= i < j < |window| ==> Effective(columns, window[i]) !! Effective(columns, window[j])
  }

  /** tryAdd refuses a transformer without declared columns in a non-empty window, and any column clash. */
  predicate Accepts(window: seq<Transformer>, affectedColumns: set<string>, t: Transformer) {
    if t.affected == [] then window == [] else ToSet(t.affected) !! affectedColumns
  }

  class TransformationWindow {
    var affectedColumns: set<string>
    var window: seq<Transformer>

    constructor ()
      ensures affectedColumns == {} && window == []
    {
      affectedColumns, window := {}, [];
    }

    method TryAdd(columns: seq<string>, t: Transformer) returns (added: bool)
      requires Coherent(columns, window, affectedColumns)
      modifies this
      ensures added <==> Accepts(old(window), old(affectedColumns), t)
      ensures added <==>
              if t.affected == [] then old(window) == []
              else forall i :: 0 <= i < |old(window)| ==> Apart(columns, old(window)[i], t)
      ensures added ==> window == old(window) + [t] && affectedColumns == old(affectedColumns) + Effective(columns, t)
      ensures !added ==> window == old(window) && affectedColumns == old(affectedColumns)
      ensures Coherent(columns, window, affectedColumns)
    {
      if |t.affected| == 0 {
        if |window| == 0 {
          for i := 0 to |columns|
            invariant affectedColumns == old(affectedColumns) + ToSet(columns[..i]) && window == old(window)
          {
            assert columns[..i + 1] == columns[..i] + [columns[i]];
            affectedColumns := affectedColumns + {columns[i]};
          }
          assert columns[..|columns|] == columns;
        } else {
          AcceptsIff(columns, window, affectedColumns, t);
          return false;
        }
      } else {
        for i := 0 to |t.affected|
          invariant affectedColumns == old(affectedColumns) && window == old(window)
          invariant forall j :: 0 <= j < i ==> t.affected[j] !in affectedColumns
        {
          if t.affected[i] in affectedColumns {
            assert t.affected[i] in ToSet(t.affected) * affectedColumns;
            AcceptsIff(columns, window, affectedColumns, t);
            return false;
          }
        }
        for i := 0 to |t.affected|
          invariant affectedColumns == old(affectedColumns) + ToSet(t.affected[..i]) && window == old(window)
        {
          assert t.affected[..i + 1] == t.affected[..i] + [t.affected[i]];
          affectedColumns := affectedColumns + {t.affected[i]};
        }
        assert t.affected[..|t.affected|] == t.affected;
      }
      AcceptsIff(columns, old(window), old(affectedColumns), t);
      AcceptKeepsCoherent(columns, old(window), old(affectedColumns), t);
      window := window + [t];
      added := true;
    }
  }

  /**
   * The declared columns of a later transformer are none of an earlier one's declared columns, and if that one
   * declares nothing, no columns of the table.
   */
  ghost predicate Apart(columns: seq<string>, earlier: Transformer, later: Transformer) {
    forall c :: c in later.affected ==> if earlier.affected == [] then c !in columns else c !in earlier.affected
  }

  lemma EffectiveMeans(columns: seq<string>, t: Transformer, c: string)
    ensures c in Effective(columns, t) <==> if t.affected == [] then c in columns else c in t.affected
  {
  }

  lemma AcceptsIff(columns: seq<string>, window: seq<Transformer>, affectedColumns: set<string>, t: Transformer)
    requires Coherent(columns, window, affectedColumns)
    ensures Accepts(window, affectedColumns, t) <==>
            if t.affected == [] then window == [] else forall i :: 0 <= i < |window| ==> Apart(columns, window[i], t)
  {
    hide Effective;
    if t.affected != [] {
      forall c | c in t.affected
        ensures c in affectedColumns <==>
                exists i :: 0 <= i < |window| &&
                            if window[i].affected == [] then c in columns else c in window[i].affected
      {
        if i :| 0 <= i < |window| && if window[i].affected == [] then c in columns else c in window[i].affected {
          EffectiveMeans(columns, window[i], c);
        }
        if c in affectedColumns {
          var i :| 0 <= i < |window| && c in Effective(columns, window[i]);
          EffectiveMeans(columns, window[i], c);
        }
      }
    }
  }

  ghost predicate JoinsAfter(columns: seq<string>, earlier: Transformer, later: Transformer) {
    later.affected != [] && Apart(columns, earlier, later)
  }

  /** In a window a later member declares columns, and they are apart from those of every earlier member. */
  ghost predicate MembersApart(columns: seq<string>, window: seq<Transformer>) {
    forall i, j :: 0 <= i < j < |window| ==> JoinsAfter(columns, window[i], window[j])
  }

  lemma AcceptKeepsCoherent(columns: seq<string>, window: seq<Transformer>, affectedColumns: set<string>,
                            t: Transformer)
    requires Coherent(columns, window, affectedColumns) && Accepts(window, affectedColumns, t)
    ensures Coherent(columns, window + [t], affectedColumns + Effective(columns, t))
  {
    var w := window + [t];
    assert w[|window|] == t;
    forall c | c in affectedColumns
      ensures exists i :: 0 <= i < |w| && c in Effective(columns, w[i])
    {
      var i :| 0 <= i < |window| && c in Effective(columns, window[i]);
      assert w[i] == window[i];
    }
    forall i, j | 0 <= i < j < |w|
      ensures Effective(columns, w[i]) !! Effective(columns, w[j])
    {
    }
  }

  // ---------------------------------------------------------------- window construction

  function Flatten<T>(parts: seq<seq<T>>): seq<T> {
    if parts == [] then [] else Flatten(parts[..|parts| - 1]) + parts[|parts| - 1]
  }

  ghost function Contents(tws: seq<TransformationWindow>): (r: seq<seq<Transformer>>)
    reads set i | 0 <= i < |tws| :: tws[i]
    ensures |r| == |tws| && forall i :: 0 <= i < |tws| ==> r[i] == tws[i].window
  {
    seq(|tws|, i requires 0 <= i < |tws| reads set k | 0 <= k < |tws| :: tws[k] => tws[i].window)
  }

  /** The first member of a window did not fit into the window before it. */
  ghost predicate GreedyAt(columns: seq<string>, windows: seq<seq<Transformer>>, k: nat)
    requires k + 1 < |windows|
  {
    windows[k + 1] != [] &&
    var t := windows[k + 1][0];
    if t.affected == [] then windows[k] != []
    else exists i :: 0 <= i < |windows[k]| && !Apart(columns, windows[k][i], t)
  }

  /** The windows are the original list cut into consecutive pieces with pairwise disjoint columns. */
  ghost predicate Partitions(columns: seq<string>, transformers: seq<Transformer>, windows: seq<seq<Transformer>>) {
    && Flatten(windows) == transformers
    && (forall k :: 0 <= k < |windows| ==> Disjoint(columns, windows[k]) && MembersApart(columns, windows[k]))
    && (forall k: nat :: k + 1 < |windows| ==> GreedyAt(columns, windows, k))
  }

  method BuildWindows(columns: seq<string>, transformers: seq<Transformer>) returns (tws: seq<TransformationWindow>)
    ensures Partitions(columns, transformers, Contents(tws))
    ensures forall i :: 0 <= i < |tws| ==> fresh(tws[i]) && (|transformers| > 0 ==> tws[i].window != [])
  {
    hide Partitions, Coherent, Accepts;
    var tw := new TransformationWindow();
    ghost var done: seq<seq<Transformer>> := [];
    tws := [tw];
    NothingPartitioned(columns);
    for i := 0 to |transformers|
      invariant |tws| == |done| + 1 && tw == tws[|done|] && Coherent(columns, tw.window, tw.affectedColumns)
      invariant forall k :: 0 <= k < |tws| ==> fresh(tws[k])
      invariant forall j, k :: 0 <= j < k < |tws| ==> tws[j] != tws[k]
      invariant forall k :: 0 <= k < |done| ==> done[k] == tws[k].window && done[k] != []
      invariant Partitions(columns, transformers[..i], done + [tw.window])
      invariant if i > 0 then tw.window != [] else tw.window == [] && done == []
    {
      var t := transformers[i];
      assert transformers[..i + 1] == transformers[..i] + [t];
      ghost var last := tw.window;
      var added := tw.TryAdd(columns, t);
      if added {
        ExtendLast(columns, transformers[..i], done, last, t, tw.affectedColumns);
      } else {
        OpenNext(columns, transformers[..i], done, last, tw.affectedColumns, t);
        done := done + [last];
        tw := new TransformationWindow();
        NothingCoherent(columns, t);
        tws := tws + [tw];
        var again := tw.TryAdd(columns, t);
        assert tw.window == [t];
      }
    }
    assert transformers[..|transformers|] == transformers;
    assert Contents(tws) == done + [tw.window];
  }

  /** A fresh window accepts any transformer, so the second tryAdd cannot fail. */
  lemma NothingCoherent(columns: seq<string>, t: Transformer)
    ensures Coherent(columns, [], {}) && Accepts([], {}, t)
  {
  }

  lemma NothingPartitioned(columns: seq<string>)
    ensures Coherent(columns, [], {})
    ensures Partitions(columns, [], [] + [[]])
  {
    FlattenAppend<Transformer>([], []);
  }

  lemma FlattenAppend<T>(parts: seq<seq<T>>, last: seq<T>)
    ensures Flatten(parts + [last]) == Flatten(parts) + last
  {
    assert (parts + [last])[..|parts|] == parts;
  }

  lemma ExtendLast(columns: seq<string>, transformers: seq<Transformer>, done: seq<seq<Transformer>>,
                   last: seq<Transformer>, t: Transformer, affectedColumns: set<string>)
    requires Partitions(columns, transformers, done + [last]) && Coherent(columns, last + [t], affectedColumns)
    requires last == [] ==> done == []
    requires if t.affected == [] then last == [] else forall i :: 0 <= i < |last| ==> Apart(columns, last[i], t)
    ensures Partitions(columns, transformers + [t], done + [last + [t]])
  {
    var before, after := done + [last], done + [last + [t]];
    FlattenAppend(done, last);
    FlattenAppend(done, last + [t]);
    assert before[|done|] == last;
    MemberJoins(columns, last, t);
    forall k: nat | k + 1 < |after|
      ensures GreedyAt(columns, after, k)
    {
      assert GreedyAt(columns, before, k);
    }
  }

  lemma MemberJoins(columns: seq<string>, last: seq<Transformer>, t: Transformer)
    requires MembersApart(columns, last)
    requires if t.affected == [] then last == [] else forall i :: 0 <= i < |last| ==> Apart(columns, last[i], t)
    ensures MembersApart(columns, last + [t])
  {
    var w := last + [t];
    forall i, j | 0 <= i < j < |w|
      ensures JoinsAfter(columns, w[i], w[j])
    {
      assert w[i] == last[i];
      if j < |last| {
        assert JoinsAfter(columns, last[i], last[j]) && w[j] == last[j];
      } else {
        assert w[j] == t && t.affected != [];
      }
    }
  }

  lemma OpenNext(columns: seq<string>, transformers: seq<Transformer>, done: seq<seq<Transformer>>,
                 last: seq<Transformer>, affectedColumns: set<string>, t: Transformer)
    requires Partitions(columns, transformers, done + [last]) && Coherent(columns, last, affectedColumns)
    requires !Accepts(last, affectedColumns, t)
    ensures last != [] && Partitions(columns, transformers + [t], done + [last] + [[t]])
  {
    var before, after := done + [last], done + [last] + [[t]];
    FlattenAppend(before, [t]);
    if t.affected != [] {
      var c :| c in ToSet(t.affected) && c in affectedColumns;
      var i :| 0 <= i < |last| && c in Effective(columns, last[i]);
      assert c in t.affected;
    }
    forall k: nat | k + 1 < |after|
      ensures GreedyAt(columns, after, k)
    {
      if k + 1 < |before| {
        assert GreedyAt(columns, before, k);
        assert after[k] == before[k] && after[k + 1] == before[k + 1];
      } else {
        assert after[k] == last && after[k + 1] == [t];
      }
    }
  }
}
