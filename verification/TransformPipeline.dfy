/**
 * The asynchronous pipeline as a step system, and its equality with the sequential one
 * (transformation_window.go:84-141, transformation_pipeline.go:130-156).
 */
module TransformPipeline {
  import opened TransformWindows

  // ---------------------------------------------------------------- the sequential pipeline

  function ApplyOne(t: Transformer, r: Record): Record {
    if t.when(r) then r + t.transform(r) else r
  }

  function Sync(ts: seq<Transformer>, r: Record): Record {
    if ts == [] then r else ApplyOne(ts[|ts| - 1], Sync(ts[..|ts| - 1], r))
  }

  /** Each transformer whose condition holds overlays its result, and the others change nothing. */
  lemma SyncMeans(ts: seq<Transformer>, r: Record, i: nat)
    requires i < |ts|
    ensures Sync([], r) == r
    ensures var before, after := Sync(ts[..i], r), Sync(ts[..i + 1], r);
            if !ts[i].when(before) then after == before
            else forall c :: (c in after <==> c in ts[i].transform(before) || c in before) &&
                             (c in ts[i].transform(before) ==> after[c] == ts[i].transform(before)[c]) &&
                             (c in before && c !in ts[i].transform(before) ==> after[c] == before[c])
  {
    assert ts[..i + 1][..i] == ts[..i];
  }

  method TransformSync(ts: seq<Transformer>, r: Record) returns (record: Record)
    ensures record == Sync(ts, r)
  {
    record := r;
    for i := 0 to |ts|
      invariant record == Sync(ts[..i], r)
    {
      assert ts[..i + 1][..i] == ts[..i];
      if ts[i].when(record) {
        record := record + ts[i].transform(record);
      }
    }
    assert ts[..|ts|] == ts;
  }

  // ---------------------------------------------------------------- the asynchronous pipeline

  /** Transformers in order; window `k` owns the transformers from `bounds[k]` up to `bounds[k + 1]`. */
  datatype Pipeline = Pipeline(ts: seq<Transformer>, bounds: seq<nat>) {
    ghost predicate Cut() {
      && bounds != [] && bounds[0] == 0 && bounds[|bounds| - 1] == |ts|
      && forall j, k :: 0 <= j <= k < |bounds| ==> bounds[j] <= bounds[k]
    }

    predicate InWindow(k: nat, i: nat)
      requires k + 1 < |bounds|
    {
      bounds[k] <= i < bounds[k + 1]
    }

    /** A transformer writes only its outputs, and its inputs decide what it and its condition do. */
    ghost predicate WellBehaved(i: nat)
      requires i < |ts|
    {
      && (forall r :: ts[i].transform(r).Keys <= ts[i].outputs)
      && forall r, q :: AgreeOn(r, q, ts[i].inputs) ==>
           ts[i].when(r) == ts[i].when(q) && ts[i].transform(r) == ts[i].transform(q)
    }

    /** Members of one window write different columns and do not read each other's outputs. */
    ghost predicate Independent(i: nat, j: nat)
      requires i < |ts| && j < |ts|
    {
      ts[i].outputs !! ts[j].outputs && ts[i].outputs !! ts[j].inputs
    }

    ghost predicate Sound() {
      && Cut()
      && (forall i: nat :: i < |ts| ==> WellBehaved(i))
      && (forall k: nat, i: nat, j: nat ::
            k + 1 < |bounds| && InWindow(k, i) && InWindow(k, j) && i != j && bounds[k + 1] <= |ts| ==>
              Independent(i, j))
    }
  }

  predicate Same(r: Record, q: Record, c: string) {
    (c in r <==> c in q) && (c in r ==> r[c] == q[c])
  }

  ghost predicate AgreeOn(r: Record, q: Record, columns: set<string>) {
    forall c :: c in columns ==> Same(r, q, c)
  }

  /** A transformer goroutine: waiting, holding the signal in its one-slot channel, or writing its result. */
  datatype Goroutine = Parked | Signalled | Running(pending: Record)

  /**
   * `win` and `next` are the main goroutine's position; `sending` says that it has counted the current
   * transformer in the wait group and is about to signal it. `base` is the record at the start of the
   * window and `finished` the members that ran; both are history.
   */
  datatype State = State(
    win: nat, next: nat, sending: bool, record: Record, wg: nat, gs: seq<Goroutine>, base: Record, finished: set<nat>)

  datatype Step = Skip | Count | Send | Wait | Start(i: nat) | Write(i: nat, c: string) | Finish(i: nat)

  function Init(p: Pipeline, r: Record): State {
    State(0, 0, false, r, 0, seq(|p.ts|, _ => Parked), r, {})
  }

  predicate AtMember(p: Pipeline, s: State) {
    s.win + 1 < |p.bounds| && s.next < p.bounds[s.win + 1] && s.next < |p.ts|
  }

  predicate Enabled(p: Pipeline, s: State, step: Step) {
    match step
    case Skip => AtMember(p, s) && !s.sending && !p.ts[s.next].when(s.record)
    case Count => AtMember(p, s) && !s.sending && p.ts[s.next].when(s.record)
    case Send => AtMember(p, s) && s.sending && s.next < |s.gs| && s.gs[s.next].Parked?
    case Wait => s.win + 1 < |p.bounds| && s.next == p.bounds[s.win + 1] && !s.sending && s.wg == 0
    case Start(i) => i < |s.gs| && i < |p.ts| && s.gs[i].Signalled?
    case Write(i, c) => i < |s.gs| && s.gs[i].Running? && c in s.gs[i].pending
    case Finish(i) => i < |s.gs| && s.gs[i] == Running(map[]) && s.wg > 0
  }

  function Apply(p: Pipeline, s: State, step: Step): State
    requires Enabled(p, s, step)
  {
    match step
    case Skip => s.(next := s.next + 1)
    case Count => s.(sending := true, wg := s.wg + 1)
    case Send => s.(sending := false, gs := s.gs[s.next := Signalled], next := s.next + 1)
    case Wait => s.(win := s.win + 1, base := s.record, finished := {})
    case Start(i) => s.(gs := s.gs[i := Running(p.ts[i].transform(s.record))])
    case Write(i, c) => s.(record := s.record[c := s.gs[i].pending[c]], gs := s.gs[i := Running(s.gs[i].pending - {c})])
    case Finish(i) => s.(gs := s.gs[i := Parked], wg := s.wg - 1, finished := s.finished + {i})
  }

  // ---------------------------------------------------------------- the invariant

  /** Columns that member `i` has written so far. */
  ghost function Written(p: Pipeline, s: State, i: nat): set<string>
    requires i < |p.ts| == |s.gs|
  {
    if i in s.finished then p.ts[i].transform(s.base).Keys
    else if s.gs[i].Running? then p.ts[i].transform(s.base).Keys - s.gs[i].pending.Keys
    else {}
  }

  ghost predicate WrittenBySome(p: Pipeline, s: State, c: string)
    requires |p.ts| == |s.gs|
  {
    exists i: nat :: i < |p.ts| && c in Written(p, s, i)
  }

  predicate Here(p: Pipeline, s: State, i: nat) {
    s.win + 1 < |p.bounds| && p.InWindow(s.win, i)
  }

  ghost predicate Position(p: Pipeline, s: State) {
    && |s.gs| == |p.ts| && s.win < |p.bounds|
    && (s.win + 1 < |p.bounds| ==> p.bounds[s.win] <= s.next <= p.bounds[s.win + 1] <= |p.ts|)
    && (s.win + 1 == |p.bounds| ==> s.next == |p.ts| && !s.sending)
    && (s.sending ==> AtMember(p, s))
  }

  /** Barrier: outside the part of the current window that was handled, every goroutine is parked. */
  ghost predicate Quiet(p: Pipeline, s: State) {
    && (forall i: nat :: i < |s.gs| && !s.gs[i].Parked? ==> Here(p, s, i) && i < s.next && i !in s.finished)
    && (forall i :: i in s.finished ==> Here(p, s, i) && i < s.next && i < |s.gs|)
  }

  predicate IsBusy(s: State, i: nat)
    requires i < |s.gs|
  {
    !s.gs[i].Parked? || (s.sending && i == s.next)
  }

  ghost function Busy(s: State): set<nat> {
    set i: nat | i < |s.gs| && IsBusy(s, i)
  }

  /** The wait group counts exactly the transformers that were counted in and have not finished. */
  ghost predicate Counted(s: State) {
    s.wg == |Busy(s)|
  }

  /** The member's decision was the one the start-of-window record calls for. */
  ghost predicate DecidedAt(p: Pipeline, s: State, i: nat)
    requires i < |p.ts| == |s.gs|
  {
    p.ts[i].when(s.base) <==> i in s.finished || !s.gs[i].Parked?
  }

  ghost predicate Decided(p: Pipeline, s: State)
    requires |s.gs| == |p.ts|
  {
    && (forall i: nat :: i < |p.ts| && Here(p, s, i) && i < s.next ==> DecidedAt(p, s, i))
    && (s.sending ==> s.next < |p.ts| && p.ts[s.next].when(s.base))
  }

  /** What a running member has yet to write is part of its result on the start-of-window record. */
  ghost predicate PendingFrom(result: Record, g: Goroutine) {
    g.Running? ==> forall c :: c in g.pending ==> c in result && result[c] == g.pending[c]
  }

  ghost predicate Pendings(p: Pipeline, s: State)
    requires |s.gs| == |p.ts|
  {
    forall i: nat :: i < |p.ts| ==> PendingFrom(p.ts[i].transform(s.base), s.gs[i])
  }

  /** The record is the start-of-window record overlaid with what was written so far. */
  ghost predicate Overlaid(p: Pipeline, s: State)
    requires |s.gs| == |p.ts|
  {
    && (forall i: nat, c :: i < |p.ts| && c in Written(p, s, i) && c in p.ts[i].transform(s.base) ==>
                              c in s.record && s.record[c] == p.ts[i].transform(s.base)[c])
    && (forall c :: WrittenBySome(p, s, c) || Same(s.record, s.base, c))
  }

  /** The start-of-window record is what the sequential pipeline computes for the earlier windows. */
  ghost predicate Based(p: Pipeline, s: State, r: Record) {
    && s.win < |p.bounds| && p.bounds[s.win] <= |p.ts|
    && s.base == Sync(p.ts[..p.bounds[s.win]], r)
  }

  ghost predicate Inv(p: Pipeline, s: State, r: Record) {
    Position(p, s) && Quiet(p, s) && Counted(s) && Decided(p, s) && Pendings(p, s) && Overlaid(p, s) && Based(p, s, r)
  }

  lemma InitHolds(p: Pipeline, r: Record)
    requires p.Cut()
    ensures Inv(p, Init(p, r), r)
  {
    assert p.ts[..0] == [];
    assert Busy(Init(p, r)) == {};
  }

  // ---------------------------------------------------------------- preservation

  lemma OutputsOf(p: Pipeline, i: nat, r: Record)
    requires p.Sound() && i < |p.ts|
    ensures p.ts[i].transform(r).Keys <= p.ts[i].outputs
  {
    assert p.WellBehaved(i);
  }

  lemma InputsDecide(p: Pipeline, i: nat, r: Record, q: Record)
    requires p.Sound() && i < |p.ts| && AgreeOn(r, q, p.ts[i].inputs)
    ensures p.ts[i].when(r) == p.ts[i].when(q) && p.ts[i].transform(r) == p.ts[i].transform(q)
  {
    assert p.WellBehaved(i);
  }

  lemma MembersApart(p: Pipeline, s: State, i: nat, j: nat)
    requires p.Sound() && Position(p, s) && Here(p, s, i) && Here(p, s, j) && i != j
    ensures i < |p.ts| && j < |p.ts| && p.ts[i].outputs !! p.ts[j].outputs && p.ts[i].outputs !! p.ts[j].inputs
  {
    assert p.Independent(i, j);
  }

  lemma WritersAreHere(p: Pipeline, s: State, i: nat, c: string)
    requires Position(p, s) && Quiet(p, s) && i < |p.ts| && c in Written(p, s, i)
    ensures Here(p, s, i) && i < s.next && c in p.ts[i].transform(s.base)
  {
  }

  /** What a member reads is untouched, as long as it has not written anything itself. */
  lemma InputsUntouched(p: Pipeline, s: State, i: nat)
    requires p.Sound() && Position(p, s) && Quiet(p, s) && Overlaid(p, s)
    requires i < |p.ts| && Here(p, s, i) && Written(p, s, i) == {}
    ensures p.ts[i].when(s.record) == p.ts[i].when(s.base) && p.ts[i].transform(s.record) == p.ts[i].transform(s.base)
  {
    GoroutinePerTransformer(p, s);
    hide Pipeline.Sound, Position, Quiet, Here, Written;
    forall c | c in p.ts[i].inputs
      ensures Same(s.record, s.base, c)
    {
      if WrittenBySome(p, s, c) {
        var j: nat :| j < |p.ts| && c in Written(p, s, j);
        WritersAreHere(p, s, j, c);
        OutputsOf(p, j, s.base);
        MembersApart(p, s, j, i);
        assert false;
      }
    }
    InputsDecide(p, i, s.record, s.base);
  }

  /** Nothing is overlaid anew when record, base and written columns stay the same. */
  lemma SameOverlay(p: Pipeline, s: State, t: State)
    requires |s.gs| == |t.gs| == |p.ts| && Overlaid(p, s) && t.record == s.record && t.base == s.base
    requires forall i: nat :: i < |p.ts| ==> Written(p, t, i) == Written(p, s, i)
    ensures Overlaid(p, t)
  {
    hide Written;
    forall c
      ensures WrittenBySome(p, t, c) || Same(t.record, t.base, c)
    {
      if WrittenBySome(p, s, c) {
        var j: nat :| j < |p.ts| && c in Written(p, s, j);
        assert c in Written(p, t, j);
      }
    }
  }

  lemma MainPosition(p: Pipeline, s: State, step: Step)
    requires p.Sound() && Position(p, s) && Quiet(p, s) && Enabled(p, s, step) && !step.Wait?
    ensures Position(p, Apply(p, s, step)) && Quiet(p, Apply(p, s, step))
  {
    hide Pipeline.Sound, Pipeline.WellBehaved, Pipeline.Independent;
    assert forall i: nat :: Here(p, Apply(p, s, step), i) == Here(p, s, i);
  }

  lemma CountedKeeps(p: Pipeline, s: State, step: Step)
    requires Position(p, s) && Quiet(p, s) && Counted(s) && Enabled(p, s, step) && !step.Wait?
    ensures Counted(Apply(p, s, step))
  {
    hide Busy, Position, Quiet;
    BusySteps(p, s, step);
  }

  lemma BusySteps(p: Pipeline, s: State, step: Step)
    requires Position(p, s) && Quiet(p, s) && Enabled(p, s, step) && !step.Wait?
    ensures step.Count? ==> s.next !in Busy(s) && Busy(Apply(p, s, step)) == Busy(s) + {s.next}
    ensures step.Finish? ==> step.i in Busy(s) && Busy(Apply(p, s, step)) == Busy(s) - {step.i}
    ensures !step.Count? && !step.Finish? ==> Busy(Apply(p, s, step)) == Busy(s)
  {
    var t := Apply(p, s, step);
    forall i: nat | i < |s.gs|
      ensures IsBusy(t, i) <==> (IsBusy(s, i) || (step.Count? && i == s.next)) && !(step.Finish? && i == step.i)
    {
    }
  }

  /** The main goroutine evaluates a condition on a record that may already be partly overlaid. */
  lemma DecidedKeeps(p: Pipeline, s: State, step: Step)
    requires p.Sound() && Position(p, s) && Quiet(p, s) && Decided(p, s) && Overlaid(p, s) && Enabled(p, s, step) &&
             !step.Wait?
    ensures |Apply(p, s, step).gs| == |p.ts| && Decided(p, Apply(p, s, step))
  {
    hide Pipeline.Sound, Overlaid, Pipeline.WellBehaved, Pipeline.Independent;
    var t := Apply(p, s, step);
    if step.Skip? || step.Count? {
      assert Here(p, s, s.next) && Written(p, s, s.next) == {};
      InputsUntouched(p, s, s.next);
    }
    forall i: nat | i < |p.ts| && Here(p, t, i) && i < t.next
      ensures DecidedAt(p, t, i)
    {
      assert Here(p, s, i);
      assert i < s.next ==> DecidedAt(p, s, i);
    }
  }

  lemma PendingsKeep(p: Pipeline, s: State, step: Step)
    requires p.Sound() && Position(p, s) && Quiet(p, s) && Pendings(p, s) && Overlaid(p, s) && Enabled(p, s, step) &&
             !step.Wait?
    ensures |Apply(p, s, step).gs| == |p.ts| && Pendings(p, Apply(p, s, step))
  {
    hide Pipeline.Sound, Overlaid, Pipeline.WellBehaved, Pipeline.Independent;
    var t := Apply(p, s, step);
    if step.Start? {
      assert Written(p, s, step.i) == {};
      InputsUntouched(p, s, step.i);
    }
    forall i: nat | i < |p.ts|
      ensures PendingFrom(p.ts[i].transform(s.base), t.gs[i])
    {
      assert PendingFrom(p.ts[i].transform(s.base), s.gs[i]);
    }
  }

  lemma OverlaidKeeps(p: Pipeline, s: State, step: Step)
    requires p.Sound() && Position(p, s) && Quiet(p, s) && Pendings(p, s) && Overlaid(p, s) && Enabled(p, s, step) &&
             !step.Wait?
    ensures |Apply(p, s, step).gs| == |p.ts| && Overlaid(p, Apply(p, s, step))
  {
    hide Pipeline.Sound, Overlaid, Pipeline.WellBehaved, Pipeline.Independent;
    var t := Apply(p, s, step);
    if step.Write? {
      WriteOverlays(p, s, step.i, step.c);
    } else {
      if step.Start? {
        assert Written(p, s, step.i) == {};
        InputsUntouched(p, s, step.i);
      }
      if step.Finish? {
        assert step.i !in s.finished;
      }
      SameOverlay(p, s, t);
    }
  }

  lemma WriteOverlays(p: Pipeline, s: State, i: nat, c: string)
    requires |s.gs| == |p.ts|
    requires p.Sound() && Position(p, s) && Quiet(p, s) && Overlaid(p, s) && Pendings(p, s) &&
             Enabled(p, s, Write(i, c))
    ensures Overlaid(p, Apply(p, s, Write(i, c)))
  {
    hide Pipeline.Sound, Position, Pipeline.WellBehaved, Pipeline.Independent;
    var t := Apply(p, s, Write(i, c));
    assert PendingFrom(p.ts[i].transform(s.base), s.gs[i]);
    assert Written(p, t, i) == Written(p, s, i) + {c};
    forall j: nat | j < |p.ts| && j != i
      ensures Written(p, t, j) == Written(p, s, j) && c !in Written(p, s, j)
    {
      if c in Written(p, s, j) {
        WritersAreHere(p, s, j, c);
        OutputsOf(p, j, s.base);
        OutputsOf(p, i, s.base);
        MembersApart(p, s, i, j);
        assert false;
      }
    }
    OverlayGrows(p, s, t, i, c);
  }

  lemma OverlayGrows(p: Pipeline, s: State, t: State, i: nat, c: string)
    requires |s.gs| == |t.gs| == |p.ts| && i < |p.ts| && Overlaid(p, s) && t.base == s.base
    requires c in p.ts[i].transform(s.base) && t.record == s.record[c := p.ts[i].transform(s.base)[c]]
    requires Written(p, t, i) == Written(p, s, i) + {c}
    requires forall j: nat :: j < |p.ts| && j != i ==> Written(p, t, j) == Written(p, s, j) && c !in Written(p, s, j)
    ensures Overlaid(p, t)
  {
    hide Written;
    assert c in Written(p, t, i);
    forall d
      ensures WrittenBySome(p, t, d) || Same(t.record, t.base, d)
    {
      if d != c && WrittenBySome(p, s, d) {
        var j: nat :| j < |p.ts| && d in Written(p, s, j);
        assert d in Written(p, t, j);
      }
    }
  }

  lemma OtherStepsKeep(p: Pipeline, s: State, r: Record, step: Step)
    requires p.Sound() && Inv(p, s, r) && Enabled(p, s, step) && !step.Wait?
    ensures Inv(p, Apply(p, s, step), r)
  {
    hide Pipeline.Sound, Position, Quiet, Counted, Decided, Pendings, Overlaid, Sync;
    GoroutinePerTransformer(p, s);
    MainPosition(p, s, step);
    CountedKeeps(p, s, step);
    DecidedKeeps(p, s, step);
    PendingsKeep(p, s, step);
    OverlaidKeeps(p, s, step);
  }

  lemma GoroutinePerTransformer(p: Pipeline, s: State)
    requires Position(p, s)
    ensures |s.gs| == |p.ts|
  {
  }

  // ---------------------------------------------------------------- one whole window

  /** Member `i` of the handled part of the window writes column `c`. */
  ghost predicate Wants(p: Pipeline, base: Record, i: nat, c: string)
    requires i < |p.ts|
  {
    p.ts[i].when(base) && c in p.ts[i].transform(base)
  }

  /** The sequential result on the members `lo..k` of a window, described column by column. */
  ghost predicate Prefix(p: Pipeline, base: Record, lo: nat, k: nat, r: Record)
    requires lo <= k <= |p.ts|
  {
    && (forall i: nat, c :: lo <= i < k && Wants(p, base, i, c) ==> c in r && r[c] == p.ts[i].transform(base)[c])
    && (forall c :: SomeWants(p, base, lo, k, c) || Same(r, base, c))
  }

  ghost predicate SomeWants(p: Pipeline, base: Record, lo: nat, k: nat, c: string)
    requires lo <= k <= |p.ts|
  {
    exists i: nat :: lo <= i < k && Wants(p, base, i, c)
  }

  lemma {:induction false} SyncWindow(p: Pipeline, base: Record, k: nat, win: nat)
    requires p.Sound() && win + 1 < |p.bounds| && p.bounds[win] <= k <= p.bounds[win + 1] <= |p.ts|
    ensures Prefix(p, base, p.bounds[win], k, Sync(p.ts[p.bounds[win]..k], base))
    decreases k
  {
    hide Pipeline.Sound, Prefix;
    var lo := p.bounds[win];
    if k > lo {
      SyncWindow(p, base, k - 1, win);
      assert p.ts[lo..k][..k - 1 - lo] == p.ts[lo..k - 1];
      SyncStep(p, base, Sync(p.ts[lo..k - 1], base), k - 1, win);
    } else {
      NothingWanted(p, base, lo);
      assert p.ts[lo..k] == [];
    }
  }

  lemma NothingWanted(p: Pipeline, base: Record, lo: nat)
    requires lo <= |p.ts|
    ensures Prefix(p, base, lo, lo, base)
  {
  }

  lemma SyncStep(p: Pipeline, base: Record, before: Record, m: nat, win: nat)
    requires p.Sound() && win + 1 < |p.bounds| && p.bounds[win] <= m < p.bounds[win + 1] <= |p.ts|
    requires Prefix(p, base, p.bounds[win], m, before)
    ensures Prefix(p, base, p.bounds[win], m + 1, ApplyOne(p.ts[m], before))
  {
    hide Pipeline.Sound;
    var lo := p.bounds[win];
    var after := ApplyOne(p.ts[m], before);
    EarlierApart(p, base, m, win);
    assert AgreeOn(before, base, p.ts[m].inputs);
    InputsDecide(p, m, before, base);
    OutputsOf(p, m, base);
    forall c
      ensures SomeWants(p, base, lo, m + 1, c) || Same(after, base, c)
    {
      if SomeWants(p, base, lo, m, c) {
        var i: nat :| lo <= i < m && Wants(p, base, i, c);
        assert SomeWants(p, base, lo, m + 1, c);
      } else if Wants(p, base, m, c) {
        assert SomeWants(p, base, lo, m + 1, c);
      }
    }
  }

  lemma EarlierApart(p: Pipeline, base: Record, m: nat, win: nat)
    requires p.Sound() && win + 1 < |p.bounds| && p.bounds[win] <= m < p.bounds[win + 1] <= |p.ts|
    ensures forall i: nat, c :: p.bounds[win] <= i < m && Wants(p, base, i, c) ==>
              c !in p.ts[m].inputs && c !in p.ts[m].outputs
  {
    forall i: nat, c | p.bounds[win] <= i < m && Wants(p, base, i, c)
      ensures c !in p.ts[m].inputs && c !in p.ts[m].outputs
    {
      OutputsOf(p, i, base);
      assert p.InWindow(win, i) && p.InWindow(win, m);
      assert p.Independent(i, m);
    }
  }

  /** Two records described alike are equal. */
  lemma PrefixDetermines(p: Pipeline, base: Record, lo: nat, k: nat, a: Record, b: Record)
    requires lo <= k <= |p.ts| && Prefix(p, base, lo, k, a) && Prefix(p, base, lo, k, b)
    ensures a == b
  {
    forall c
      ensures Same(a, b, c)
    {
      if SomeWants(p, base, lo, k, c) {
        var i: nat :| lo <= i < k && Wants(p, base, i, c);
      }
    }
    forall c
      ensures c in a <==> c in b
      ensures c in a ==> a[c] == b[c]
    {
      assert Same(a, b, c);
    }
    assert a.Keys == b.Keys;
  }

  /** When the wait group reaches zero, the record is the sequential result of the window. */
  lemma WindowDone(p: Pipeline, s: State, r: Record)
    requires p.Sound() && Inv(p, s, r) && Enabled(p, s, Wait)
    ensures s.record == Sync(p.ts[p.bounds[s.win]..p.bounds[s.win + 1]], s.base)
    ensures forall i :: 0 <= i < |s.gs| ==> s.gs[i].Parked?
  {
    hide Pipeline.Sound, Overlaid, Decided, Pendings, Sync;
    var lo, hi := p.bounds[s.win], p.bounds[s.win + 1];
    forall i | 0 <= i < |s.gs|
      ensures s.gs[i].Parked?
    {
      assert Busy(s) == {};
      assert i !in Busy(s);
    }
    SyncWindow(p, s.base, hi, s.win);
    WrittenByAll(p, s);
    PrefixDetermines(p, s.base, lo, hi, s.record, Sync(p.ts[lo..hi], s.base));
  }

  lemma WrittenByAll(p: Pipeline, s: State)
    requires Position(p, s) && Quiet(p, s) && Decided(p, s) && Overlaid(p, s)
    requires s.win + 1 < |p.bounds| && s.next == p.bounds[s.win + 1]
    requires forall i :: 0 <= i < |s.gs| ==> s.gs[i].Parked?
    ensures Prefix(p, s.base, p.bounds[s.win], p.bounds[s.win + 1], s.record)
  {
    var lo, hi := p.bounds[s.win], p.bounds[s.win + 1];
    forall i: nat, c | i < |p.ts|
      ensures c in Written(p, s, i) <==> lo <= i < hi && Wants(p, s.base, i, c)
    {
      assert Here(p, s, i) <==> lo <= i < hi;
      assert lo <= i < hi ==> DecidedAt(p, s, i);
    }
    hide Written, Quiet, Position, Decided;
    forall c
      ensures SomeWants(p, s.base, lo, hi, c) || Same(s.record, s.base, c)
    {
      if WrittenBySome(p, s, c) {
        var i: nat :| i < |p.ts| && c in Written(p, s, i);
        assert Wants(p, s.base, i, c);
      }
    }
    forall i: nat, c | lo <= i < hi && Wants(p, s.base, i, c)
      ensures c in s.record && s.record[c] == p.ts[i].transform(s.base)[c]
    {
      assert c in Written(p, s, i);
    }
  }

  lemma {:induction false} SyncAppend(a: seq<Transformer>, b: seq<Transformer>, r: Record)
    ensures Sync(a + b, r) == Sync(b, Sync(a, r))
  {
    if b == [] {
      assert a + b == a;
    } else {
      assert (a + b)[..|a + b| - 1] == a + b[..|b| - 1];
      SyncAppend(a, b[..|b| - 1], r);
    }
  }

  lemma WaitKeeps(p: Pipeline, s: State, r: Record)
    requires p.Sound() && Inv(p, s, r) && Enabled(p, s, Wait)
    ensures Inv(p, Apply(p, s, Wait), r)
  {
    hide Sync, Overlaid, Pipeline.WellBehaved, Pipeline.Independent;
    var t := Apply(p, s, Wait);
    var lo, hi := p.bounds[s.win], p.bounds[s.win + 1];
    WindowDone(p, s, r);
    SyncAppend(p.ts[..lo], p.ts[lo..hi], r);
    assert p.ts[..lo] + p.ts[lo..hi] == p.ts[..hi];
    assert Busy(t) == {};
    NothingOverlaid(p, t);
  }

  lemma NothingOverlaid(p: Pipeline, s: State)
    requires |s.gs| == |p.ts| && s.finished == {} && s.record == s.base && forall i :: 0 <= i < |s.gs| ==>
               s.gs[i].Parked?
    ensures Overlaid(p, s)
  {
  }

  lemma StepKeeps(p: Pipeline, s: State, r: Record, step: Step)
    requires p.Sound() && Inv(p, s, r) && Enabled(p, s, step)
    ensures Inv(p, Apply(p, s, step), r)
  {
    hide Inv, Apply, Pipeline.Sound;
    if step.Wait? {
      WaitKeeps(p, s, r);
    } else {
      OtherStepsKeep(p, s, r, step);
    }
  }

  // ---------------------------------------------------------------- every schedule

  predicate Done(p: Pipeline, s: State) {
    s.win + 1 >= |p.bounds|
  }

  /** While the record is not finished, some goroutine can move: the main one, or one it waits for. */
  lemma NeverStuck(p: Pipeline, s: State, r: Record) returns (step: Step)
    requires Inv(p, s, r) && !Done(p, s)
    ensures Enabled(p, s, step)
  {
    hide Overlaid, Based, Decided, Pendings;
    if s.next < p.bounds[s.win + 1] {
      step := if s.sending then Send else if p.ts[s.next].when(s.record) then Count else Skip;
    } else if s.wg == 0 {
      step := Wait;
    } else {
      var i: nat :| i in Busy(s);
      if s.gs[i].Signalled? {
        step := Start(i);
      } else if s.gs[i].pending == map[] {
        step := Finish(i);
      } else {
        var c :| c in s.gs[i].pending;
        step := Write(i, c);
      }
    }
  }

  /** The wait group never goes negative, and no signal finds its one-slot channel full. */
  lemma NoCounterOrChannelFault(p: Pipeline, s: State, r: Record, i: nat)
    requires Inv(p, s, r) && i < |s.gs|
    ensures s.gs[i].Running? ==> s.wg > 0
    ensures s.sending && i == s.next ==> s.gs[i].Parked?
  {
    hide Overlaid, Based, Decided, Pendings;
    if s.gs[i].Running? {
      assert i in Busy(s);
    }
  }

  /** What the main goroutine still has to do. */
  function MainWork(p: Pipeline, s: State): int {
    |p.bounds| - s.win + 2 * (|p.ts| - s.next) + if s.sending then 0 else 1
  }

  function Weight(result: Record, g: Goroutine): nat {
    match g
    case Parked => 0
    case Signalled => 2 + |result|
    case Running(pending) => 1 + |pending|
  }

  /** What the first `n` transformer goroutines still have to do. */
  function GoroutineWork(p: Pipeline, s: State, n: nat): nat
    requires n <= |p.ts| && n <= |s.gs|
  {
    if n == 0 then 0 else GoroutineWork(p, s, n - 1) + Weight(p.ts[n - 1].transform(s.base), s.gs[n - 1])
  }

  lemma {:induction false} OneWeightDrops(p: Pipeline, s: State, t: State, n: nat, i: nat)
    requires n <= |p.ts| == |s.gs| && i < |p.ts| && t.base == s.base && |t.gs| == |s.gs|
    requires forall j :: 0 <= j < |s.gs| && j != i ==> t.gs[j] == s.gs[j]
    requires Weight(p.ts[i].transform(s.base), t.gs[i]) < Weight(p.ts[i].transform(s.base), s.gs[i])
    ensures if i < n then GoroutineWork(p, t, n) < GoroutineWork(p, s, n)
            else GoroutineWork(p, t, n) == GoroutineWork(p, s, n)
  {
    if n > 0 {
      OneWeightDrops(p, s, t, n - 1, i);
    }
  }

  lemma WeightDrops(p: Pipeline, s: State, r: Record, step: Step)
    requires p.Sound() && Inv(p, s, r) && Enabled(p, s, step) && (step.Start? || step.Write? || step.Finish?)
    ensures |s.gs| == |p.ts| && step.i < |p.ts|
    ensures var result := p.ts[step.i].transform(s.base);
            Weight(result, Apply(p, s, step).gs[step.i]) < Weight(result, s.gs[step.i])
  {
    hide Pipeline.Sound, Overlaid, Based, Decided, Counted;
    if step.Start? {
      InputsUntouched(p, s, step.i);
    } else if step.Write? {
      var pending := s.gs[step.i].pending;
      assert (pending - {step.c}).Keys == pending.Keys - {step.c};
      assert |pending| == |pending.Keys|;
      assert |pending - {step.c}| == |(pending - {step.c}).Keys|;
    }
  }

  /** Every step of any goroutine brings the record closer to its end. */
  lemma MeasureDrops(p: Pipeline, s: State, r: Record, step: Step)
    requires p.Sound() && Inv(p, s, r) && Enabled(p, s, step)
    ensures |s.gs| == |Apply(p, s, step).gs| == |p.ts| && 0 <= MainWork(p, Apply(p, s, step)) <= MainWork(p, s)
    ensures MainWork(p, Apply(p, s, step)) < MainWork(p, s) ||
            GoroutineWork(p, Apply(p, s, step), |p.ts|) < GoroutineWork(p, s, |p.ts|)
  {
    hide Pipeline.Sound, Overlaid, Based, Decided, Counted, Pendings, Quiet;
    if step.Start? || step.Write? || step.Finish? {
      WeightDrops(p, s, r, step);
      OneWeightDrops(p, s, Apply(p, s, step), |p.ts|, step.i);
    }
  }

  /** One record sent through the pipeline under a schedule that picks some enabled step while there is one. */
  ghost predicate Scheduled(p: Pipeline, run: nat -> State, schedule: nat -> Step) {
    forall k: nat :: Moves(p, run(k), schedule(k), run(k + 1))
  }

  ghost predicate Moves(p: Pipeline, s: State, step: Step, t: State) {
    if Done(p, s) then t == s else Enabled(p, s, step) && t == Apply(p, s, step)
  }

  lemma {:induction false} RunKeeps(p: Pipeline, r: Record, run: nat -> State, schedule: nat -> Step, n: nat)
    requires p.Sound() && run(0) == Init(p, r) && Scheduled(p, run, schedule)
    ensures Inv(p, run(n), r)
  {
    hide Inv, Pipeline.Sound;
    if n == 0 {
      assert p.Cut() by { SoundIsCut(p); }
      InitHolds(p, r);
    } else {
      RunKeeps(p, r, run, schedule, n - 1);
      assert Moves(p, run(n - 1), schedule(n - 1), run(n - 1 + 1));
      if !Done(p, run(n - 1)) {
        StepKeeps(p, run(n - 1), r, schedule(n - 1));
      }
    }
  }

  lemma SoundIsCut(p: Pipeline)
    requires p.Sound()
    ensures p.Cut()
  {
  }

  lemma {:induction false} RunEnds(p: Pipeline, r: Record, run: nat -> State, schedule: nat -> Step, n: nat)
    requires p.Sound() && run(0) == Init(p, r) && Scheduled(p, run, schedule)
    requires |run(n).gs| == |p.ts| && 0 <= MainWork(p, run(n))
    ensures exists k: nat :: Done(p, run(k))
    decreases MainWork(p, run(n)), GoroutineWork(p, run(n), |p.ts|)
  {
    hide Inv, Pipeline.Sound, Apply, MainWork, GoroutineWork;
    if !Done(p, run(n)) {
      RunKeeps(p, r, run, schedule, n);
      assert Moves(p, run(n), schedule(n), run(n + 1));
      MeasureDrops(p, run(n), r, schedule(n));
      RunEnds(p, r, run, schedule, n + 1);
    }
  }

  /** At the end nothing is left running and the next record starts from the same shape. */
  lemma DoneIsSync(p: Pipeline, s: State, r: Record)
    requires p.Sound() && Inv(p, s, r) && Done(p, s)
    ensures s.record == Sync(p.ts, r) && s.wg == 0 && forall i :: 0 <= i < |s.gs| ==> s.gs[i].Parked?
  {
    hide Sync, Pipeline.WellBehaved, Pipeline.Independent;
    assert p.ts[..p.bounds[s.win]] == p.ts;
    assert Busy(s) == {};
    forall c
      ensures Same(s.record, s.base, c)
    {
      assert !WrittenBySome(p, s, c);
    }
    forall c
      ensures c in s.record <==> c in s.base
      ensures c in s.record ==> s.record[c] == s.base[c]
    {
      assert Same(s.record, s.base, c);
    }
    assert s.record.Keys == s.base.Keys;
  }

  /** Every schedule of the goroutines ends, with the record that the sequential pipeline computes. */
  lemma AsyncEqualsSync(p: Pipeline, r: Record, run: nat -> State, schedule: nat -> Step)
    requires p.Sound() && run(0) == Init(p, r) && Scheduled(p, run, schedule)
    ensures exists k: nat :: Done(p, run(k))
    ensures forall k: nat :: Done(p, run(k)) ==> run(k).record == Sync(p.ts, r) && run(k).wg == 0
  {
    hide Inv, Pipeline.Sound, Done;
    assert 0 <= MainWork(p, run(0)) && |run(0).gs| == |p.ts| by {
      SoundIsCut(p);
    }
    RunEnds(p, r, run, schedule, 0);
    forall k: nat | Done(p, run(k))
      ensures run(k).record == Sync(p.ts, r) && run(k).wg == 0
    {
      RunKeeps(p, r, run, schedule, k);
      DoneIsSync(p, run(k), r);
    }
  }

  /**
   * Barrier: a goroutine that is signalled or running belongs to the current window, and that window
   * started from the complete sequential result of all earlier ones.
   */
  lemma Barrier(p: Pipeline, r: Record, run: nat -> State, schedule: nat -> Step, n: nat, i: nat)
    requires p.Sound() && run(0) == Init(p, r) && Scheduled(p, run, schedule)
    requires i < |run(n).gs| && !run(n).gs[i].Parked?
    ensures var s := run(n);
            s.win + 1 < |p.bounds| && p.bounds[s.win] <= i < p.bounds[s.win + 1] <= |p.ts| &&
            s.base == Sync(p.ts[..p.bounds[s.win]], r)
  {
    RunKeeps(p, r, run, schedule, n);
  }

  // ---------------------------------------------------------------- the windows the dumper builds

  function BoundsOf(windows: seq<seq<Transformer>>): (r: seq<nat>)
    ensures |r| == |windows| + 1 && r[0] == 0 && r[|windows|] == |Flatten(windows)|
  {
    if windows == [] then [0] else BoundsOf(windows[..|windows| - 1]) + [|Flatten(windows)|]
  }

  /** Window `k` occupies the positions between its bounds. */
  lemma {:induction false} BoundsLocate(windows: seq<seq<Transformer>>, k: nat)
    requires k < |windows|
    ensures var b, ts := BoundsOf(windows), Flatten(windows);
            b[k] + |windows[k]| == b[k + 1] <= |ts| && ts[b[k]..b[k + 1]] == windows[k]
  {
    var init := windows[..|windows| - 1];
    if k < |windows| - 1 {
      BoundsLocate(init, k);
      assert BoundsOf(init) == BoundsOf(windows)[..|windows|];
      var b := BoundsOf(windows);
      assert Flatten(windows)[b[k]..b[k + 1]] == Flatten(init)[b[k]..b[k + 1]];
    }
  }

  lemma {:induction false} BoundsClimb(windows: seq<seq<Transformer>>, j: nat, k: nat)
    requires j <= k <= |windows|
    ensures BoundsOf(windows)[j] <= BoundsOf(windows)[k]
    decreases k
  {
    if j < k {
      BoundsClimb(windows, j, k - 1);
      BoundsLocate(windows, k - 1);
    }
  }

  /** What the dumper needs of its transformers: they keep to their declared columns and do not peek. */
  ghost predicate Disciplined(columns: seq<string>, t: Transformer) {
    && t.outputs <= Effective(columns, t)
    && (forall r :: t.transform(r).Keys <= t.outputs)
    && forall r, q :: AgreeOn(r, q, t.inputs) ==> t.when(r) == t.when(q) && t.transform(r) == t.transform(q)
  }

  ghost predicate NoPeeking(window: seq<Transformer>) {
    forall i, j :: 0 <= i < |window| && 0 <= j < |window| && i != j ==> window[i].outputs !! window[j].inputs
  }

  lemma WindowsAreSound(columns: seq<string>, transformers: seq<Transformer>, windows: seq<seq<Transformer>>)
    requires Partitions(columns, transformers, windows)
    requires forall t :: t in transformers ==> Disciplined(columns, t)
    requires forall k :: 0 <= k < |windows| ==> NoPeeking(windows[k])
    ensures Pipeline(transformers, BoundsOf(windows)).Sound()
  {
    hide Disciplined, NoPeeking, Disjoint, GreedyAt, BoundsOf, Flatten;
    var p := Pipeline(transformers, BoundsOf(windows));
    forall j, k | 0 <= j <= k < |p.bounds|
      ensures p.bounds[j] <= p.bounds[k]
    {
      BoundsClimb(windows, j, k);
    }
    forall i: nat | i < |p.ts|
      ensures p.WellBehaved(i)
    {
      TransformerBehaves(columns, p, i);
    }
    forall k: nat, i: nat, j: nat | k + 1 < |p.bounds| && p.InWindow(k, i) && p.InWindow(k, j) && i != j &&
      p.bounds[k + 1] <= |p.ts|
      ensures p.Independent(i, j)
    {
      PairIndependent(columns, p, windows, k, i, j);
    }
  }

  lemma PairIndependent(columns: seq<string>, p: Pipeline, windows: seq<seq<Transformer>>, k: nat, i: nat, j: nat)
    requires Flatten(windows) == p.ts && BoundsOf(windows) == p.bounds && k < |windows|
    requires Disjoint(columns, windows[k]) && NoPeeking(windows[k]) && p.InWindow(k, i) && p.InWindow(k, j) && i != j
    requires forall t :: t in p.ts ==> Disciplined(columns, t)
    ensures i < |p.ts| && j < |p.ts| && p.Independent(i, j)
  {
    hide Disciplined, NoPeeking, Disjoint, BoundsOf, Flatten;
    BoundsLocate(windows, k);
    SlicePair(columns, p.ts, p.bounds[k], p.bounds[k + 1], i, j);
  }

  lemma SlicePair(columns: seq<string>, ts: seq<Transformer>, lo: nat, hi: nat, i: nat, j: nat)
    requires lo <= i < hi <= |ts| && lo <= j < hi && i != j && Disjoint(columns, ts[lo..hi]) && NoPeeking(ts[lo..hi])
    requires forall t :: t in ts ==> Disciplined(columns, t)
    ensures ts[i].outputs !! ts[j].outputs && ts[i].outputs !! ts[j].inputs
  {
    hide Disciplined, NoPeeking, Disjoint;
    var window := ts[lo..hi];
    assert window[i - lo] == ts[i] && window[j - lo] == ts[j];
    WindowMembers(columns, window, i - lo, j - lo);
  }

  lemma TransformerBehaves(columns: seq<string>, p: Pipeline, i: nat)
    requires i < |p.ts| && Disciplined(columns, p.ts[i])
    ensures p.WellBehaved(i)
  {
  }

  lemma WindowMembers(columns: seq<string>, window: seq<Transformer>, i: nat, j: nat)
    requires Disjoint(columns, window) && NoPeeking(window) && i < |window| && j < |window| && i != j
    requires Disciplined(columns, window[i]) && Disciplined(columns, window[j])
    ensures window[i].outputs !! window[j].outputs && window[i].outputs !! window[j].inputs
  {
    var a, b := if i < j then i else j, if i < j then j else i;
    assert Effective(columns, window[a]) !! Effective(columns, window[b]);
  }

  /** End to end: the greedy windows and any interleaving of their goroutines reproduce the sequential record. */
  lemma GreedyWindowsPreserveMeaning(columns: seq<string>, transformers: seq<Transformer>,
                                     windows: seq<seq<Transformer>>,
                                     r: Record, run: nat -> State, schedule: nat -> Step)
    requires Partitions(columns, transformers, windows)
    requires forall t :: t in transformers ==> Disciplined(columns, t)
    requires forall k :: 0 <= k < |windows| ==> NoPeeking(windows[k])
    requires var p := Pipeline(transformers, BoundsOf(windows)); run(0) == Init(p, r) && Scheduled(p, run, schedule)
    ensures exists k: nat :: run(k).win == |windows| && run(k).record == Sync(transformers, r)
  {
    hide Partitions, Disciplined, NoPeeking, Scheduled, Init, Pipeline.Sound, BoundsOf;
    var p := Pipeline(transformers, BoundsOf(windows));
    WindowsAreSound(columns, transformers, windows);
    AsyncEqualsSync(p, r, run, schedule);
    var k: nat :| Done(p, run(k));
    EndsAtLastWindow(p, r, run, schedule, k);
  }

  lemma EndsAtLastWindow(p: Pipeline, r: Record, run: nat -> State, schedule: nat -> Step, k: nat)
    requires p.Sound() && run(0) == Init(p, r) && Scheduled(p, run, schedule) && Done(p, run(k))
    ensures run(k).win + 1 == |p.bounds|
  {
    RunKeeps(p, r, run, schedule, k);
  }
}
