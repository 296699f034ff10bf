/** Materialised subset conditions over acyclic components and the rows they keep (materialize.go). */
module Materializer {
  import opened FkGraph
  import opened Keys

  // ---------------------------------------------------------------- rows and three-valued conditions

  datatype Cell = Null | Text(text: string)

  type Row = map<string, Cell>

  function At(row: Row, col: string): Cell {
    if col in row then row[col] else Null
  }

  function Tuple(row: Row, cols: seq<string>): (t: seq<Cell>)
    ensures |t| == |cols| && forall i :: 0 <= i < |cols| ==> t[i] == At(row, cols[i])
  {
    seq(|cols|, i requires 0 <= i < |cols| => At(row, cols[i]))
  }

  function Texts(values: seq<string>): (t: seq<Cell>)
    ensures |t| == |values| && forall i :: 0 <= i < |values| ==> t[i] == Text(values[i])
  {
    seq(|values|, i requires 0 <= i < |values| => Text(values[i]))
  }

  predicate HasNull(t: seq<Cell>) { Null in t }

  datatype Truth = True | False | Unknown {
    function Or(other: Truth): Truth {
      if True? || other.True? then True else if Unknown? || other.Unknown? then Unknown else False
    }
  }

  /** SQL row equality: false on a differing column, otherwise unknown if a null is compared. */
  function RowEquals(a: seq<Cell>, b: seq<Cell>): Truth
    requires |a| == |b|
  {
    if exists i :: 0 <= i < |a| && a[i].Text? && b[i].Text? && a[i] != b[i] then False
    else if HasNull(a) || HasNull(b) then Unknown
    else True
  }

  /** SQL membership (ISO/IEC 9075-2, section 8.4): unknown when only a null stands in the way of a match. */
  function In(t: seq<Cell>, candidates: set<seq<Cell>>): Truth {
    if exists c :: c in candidates && |c| == |t| && RowEquals(t, c).True? then True
    else if exists c :: c in candidates && |c| == |t| && RowEquals(t, c).Unknown? then Unknown
    else False
  }

  datatype Condition =
    | Own(text: string)
    | InList(refs: seq<string>, values: seq<seq<string>>, nullable: bool)
    | InSubquery(refs: seq<string>, vertex: nat, cols: seq<string>, conds: seq<Condition>, nullable: bool)

  /** A nullable reference is also satisfied by a null in one of its columns. */
  function OrAnyNull(row: Row, refs: seq<string>, nullable: bool, t: Truth): Truth {
    if nullable then (if HasNull(Tuple(row, refs)) then True else False).Or(t) else t
  }

  /** The subset problem: tables, references, component numbers, restricted components and the source rows. */
  datatype Source = Source(
    tables: seq<Table>, graph: seq<seq<Edge>>, comp: seq<nat>, count: nat, paths: set<nat>,
    rows: seq<set<Row>>, eval: (string, Row) -> Truth)
  {
    function Eval(c: Condition, row: Row): Truth
      decreases c
    {
      match c
      case Own(text) => eval(text, row)
      case InList(refs, values, nullable) =>
        OrAnyNull(row, refs, nullable, In(Tuple(row, refs), TextRows(values)))
      case InSubquery(refs, vertex, cols, conds, nullable) =>
        OrAnyNull(row, refs, nullable, In(Tuple(row, refs), Select(vertex, cols, conds)))
    }

    /** A WHERE clause keeps the rows on which every condition is true. */
    predicate Where(conds: seq<Condition>, row: Row)
      decreases conds, 0
    {
      forall c :: c in conds ==> Eval(c, row).True?
    }

    /** The distinct column values of the rows that meet the conditions. */
    function Select(vertex: nat, cols: seq<string>, conds: seq<Condition>): set<seq<Cell>>
      decreases conds, 1
    {
      if vertex < |rows| then set r | r in rows[vertex] && Where(conds, r) :: Tuple(r, cols) else {}
    }

    /** Components are single tables without self references, and the cache keys tell the referenced keys apart. */
    ghost predicate Acyclic() {
      && |tables| == |graph| == |comp| == |rows|
      && (forall v, e :: 0 <= v < |graph| && e in graph[v] ==>
                           e.from == v && e.to < |graph| && comp[v] < comp[e.to] < count)
      && (forall v, e :: 0 <= v < |graph| && e in graph[v] ==> |e.fromKeys| == |e.toKeys|)
      && KeysApart()
      && (forall v :: 0 <= v < |comp| ==> comp[v] < count)
      && (forall u, v :: 0 <= u < v < |tables| ==> tables[u].oid != tables[v].oid)
    }

    /** The column list is the referenced side of some reference to the table. */
    ghost predicate Referenced(v: nat, cols: seq<string>) {
      exists u, e :: 0 <= u < |graph| && e in graph[u] && e.to == v && e.toKeys == cols
    }

    /** Different referenced column lists of one table stay different when their names are cut at commas. */
    ghost predicate KeysApart() {
      forall v, a, b :: Referenced(v, a) && Referenced(v, b) && Pieces(a) == Pieces(b) ==> a == b
    }

    predicate IsRestricted(v: nat)
      requires v < |comp|
    {
      comp[v] in paths
    }

    // -------------------------------------------------------------- the kept rows

    ghost predicate OwnHolds(v: nat, row: Row)
      requires v < |tables|
    {
      forall text :: text in tables[v].subsetConds ==> eval(text, row).True?
    }

    /** The rows the subset keeps, by recursion over the acyclic references. */
    ghost function Kept(v: nat): set<Row>
      requires Acyclic() && v < |tables|
      decreases count - comp[v]
    {
      set r | r in rows[v] && OwnHolds(v, r) &&
              forall e :: e in graph[v] && IsRestricted(e.to) ==> ReferenceHolds(e, r, Kept(e.to))
    }
  }

  /** The row's key is complete and equals the referenced key of `target`. */
  predicate Refers(e: Edge, row: Row, target: Row) {
    !HasNull(Tuple(row, e.fromKeys)) && Tuple(row, e.fromKeys) == Tuple(target, e.toKeys)
  }

  /** The reference is satisfied inside `targets`; a nullable reference also by a null column. */
  ghost predicate ReferenceHolds(e: Edge, row: Row, targets: set<Row>) {
    (e.isNullable && HasNull(Tuple(row, e.fromKeys))) || exists t :: t in targets && Refers(e, row, t)
  }

  /**
   * A reference is satisfied when it is nullable and one of its columns is null, or when some target has the
   * same text in each of the key columns.
   */
  lemma ReferenceMeans(e: Edge, row: Row, targets: set<Row>)
    requires |e.fromKeys| == |e.toKeys|
    ensures ReferenceHolds(e, row, targets) <==>
            (e.isNullable && exists c :: c in e.fromKeys && (c !in row || row[c] == Null)) ||
            exists t :: t in targets && forall i :: 0 <= i < |e.fromKeys| ==>
              e.fromKeys[i] in row && row[e.fromKeys[i]].Text? &&
              e.toKeys[i] in t && t[e.toKeys[i]] == row[e.fromKeys[i]]
  {
    NullMeans(row, e.fromKeys);
    forall t | t in targets
      ensures Refers(e, row, t) <==>
              forall i :: 0 <= i < |e.fromKeys| ==>
                e.fromKeys[i] in row && row[e.fromKeys[i]].Text? &&
                e.toKeys[i] in t && t[e.toKeys[i]] == row[e.fromKeys[i]]
    {
      RefersMeans(e, row, t);
    }
  }

  lemma NullMeans(row: Row, cols: seq<string>)
    ensures HasNull(Tuple(row, cols)) <==> exists c :: c in cols && (c !in row || row[c] == Null)
  {
    var t := Tuple(row, cols);
    if HasNull(t) {
      var i :| 0 <= i < |t| && t[i] == Null;
      assert cols[i] in cols;
    }
    if c :| c in cols && (c !in row || row[c] == Null) {
      var i :| 0 <= i < |cols| && cols[i] == c;
      assert t[i] == Null;
    }
  }

  lemma RefersMeans(e: Edge, row: Row, t: Row)
    requires |e.fromKeys| == |e.toKeys|
    ensures Refers(e, row, t) <==>
            forall i :: 0 <= i < |e.fromKeys| ==>
              e.fromKeys[i] in row && row[e.fromKeys[i]].Text? &&
              e.toKeys[i] in t && t[e.toKeys[i]] == row[e.fromKeys[i]]
  {
    var key, found := Tuple(row, e.fromKeys), Tuple(t, e.toKeys);
    if Refers(e, row, t) {
      forall i | 0 <= i < |e.fromKeys|
        ensures e.fromKeys[i] in row && row[e.fromKeys[i]].Text?
        ensures e.toKeys[i] in t && t[e.toKeys[i]] == row[e.fromKeys[i]]
      {
        assert key[i] in key && key[i] == found[i];
      }
    }
    if forall i :: 0 <= i < |e.fromKeys| ==>
         e.fromKeys[i] in row && row[e.fromKeys[i]].Text? &&
         e.toKeys[i] in t && t[e.toKeys[i]] == row[e.fromKeys[i]] {
      assert key == found;
    }
  }

  // ---------------------------------------------------------------- both forms of edgeCond

  ghost predicate ValuesOf(values: seq<seq<string>>, targets: set<Row>, cols: seq<string>) {
    && (forall v :: v in values ==> |v| == |cols| && exists t :: t in targets && Tuple(t, cols) == Texts(v))
    && (forall t :: t in targets && !HasNull(Tuple(t, cols)) ==> exists v :: v in values && Tuple(t, cols) == Texts(v))
  }

  /** Membership is true exactly for a complete tuple that occurs among the candidates. */
  lemma InIsTrue(t: seq<Cell>, candidates: set<seq<Cell>>)
    ensures In(t, candidates).True? <==> !HasNull(t) && t in candidates
  {
    if c: seq<Cell> :| c in candidates && |c| == |t| && RowEquals(t, c).True? {
      forall i | 0 <= i < |t|
        ensures t[i] == c[i]
      {
        assert t[i] in t && c[i] in c;
        assert t[i].Text? && c[i].Text?;
      }
      assert t == c;
    }
    if !HasNull(t) && t in candidates {
      assert RowEquals(t, t).True?;
    }
  }

  function TextRows(values: seq<seq<string>>): set<seq<Cell>> {
    set v | v in values :: Texts(v)
  }

  /** The inline list accepts exactly the rows whose reference is satisfied. */
  lemma InlineListMeansReference(s: Source, e: Edge, row: Row, values: seq<seq<string>>, targets: set<Row>)
    requires ValuesOf(values, targets, e.toKeys) && |e.fromKeys| == |e.toKeys|
    ensures s.Eval(InList(e.fromKeys, values, e.isNullable), row).True? <==> ReferenceHolds(e, row, targets)
  {
    var key := Tuple(row, e.fromKeys);
    hide In, Tuple, HasNull, ValuesOf, TextRows;
    InIsTrue(key, TextRows(values));
    ListedKeys(values, targets, e.toKeys, key);
    assert (exists t :: t in targets && Refers(e, row, t)) <==>
           !HasNull(key) && exists t :: t in targets && Tuple(t, e.toKeys) == key;
  }

  lemma ListedKeys(values: seq<seq<string>>, targets: set<Row>, cols: seq<string>, key: seq<Cell>)
    requires ValuesOf(values, targets, cols) && |key| == |cols|
    ensures !HasNull(key) ==> (key in TextRows(values) <==> exists t :: t in targets && Tuple(t, cols) == key)
  {
    hide HasNull, ValuesOf, TextRows, Tuple;
    ValuesAreComplete(values, targets, cols);
  }

  /** The subquery accepts exactly the same rows, although it may produce null keys. */
  lemma SubqueryMeansReference(s: Source, e: Edge, row: Row, conds: seq<Condition>, targets: set<Row>)
    requires e.to < |s.rows| && |e.fromKeys| == |e.toKeys|
    requires forall t :: t in targets <==> t in s.rows[e.to] && s.Where(conds, t)
    ensures s.Eval(InSubquery(e.fromKeys, e.to, e.toKeys, conds, e.isNullable), row).True? <==>
              ReferenceHolds(e, row, targets)
  {
    hide In, Tuple, HasNull;
    var key := Tuple(row, e.fromKeys);
    var candidates := s.Select(e.to, e.toKeys, conds);
    InIsTrue(key, candidates);
    if t :| t in targets && Refers(e, row, t) {
      assert Tuple(t, e.toKeys) in candidates;
    }
    if !HasNull(key) && key in candidates {
      var t :| t in s.rows[e.to] && s.Where(conds, t) && Tuple(t, e.toKeys) == key;
      assert Refers(e, row, t);
    }
  }

  /** As three-valued conditions the two forms do differ: a null key makes the subquery unknown instead of false. */
  lemma FormsDifferOnNulls(s: Source, row: Row)
    requires |s.rows| == 1 && s.rows[0] == {map["id" := Null]} && At(row, "ref") == Text("x")
    ensures s.Eval(InList(["ref"], [], false), row) == False
    ensures s.Eval(InSubquery(["ref"], 0, ["id"], [], false), row) == Unknown
  {
    var t: Row := map["id" := Null];
    assert s.Where([], t);
    assert Tuple(t, ["id"]) == [Null] && Tuple(row, ["ref"]) == [Text("x")];
    assert [Null] in s.Select(0, ["id"], []);
    assert RowEquals([Text("x")], [Null]) == Unknown;
    forall c | c in s.Select(0, ["id"], [])
      ensures c == [Null]
    {
    }
  }

  // ---------------------------------------------------------------- column lists that share a cache key

  /** The tuples of a column list without a null. */
  ghost function Complete(targets: set<Row>, cols: seq<string>): set<seq<Cell>> {
    set t | t in targets && !HasNull(Tuple(t, cols)) :: Tuple(t, cols)
  }

  lemma ValuesAreComplete(values: seq<seq<string>>, targets: set<Row>, cols: seq<string>)
    ensures ValuesOf(values, targets, cols) <==> TextRows(values) == Complete(targets, cols)
  {
    hide Tuple;
    if ValuesOf(values, targets, cols) {
      forall v | v in values
        ensures Texts(v) in Complete(targets, cols)
      {
        var t :| t in targets && Tuple(t, cols) == Texts(v);
        assert !HasNull(Texts(v));
      }
    }
    if TextRows(values) == Complete(targets, cols) {
      forall v | v in values
        ensures |v| == |cols| && exists t :: t in targets && Tuple(t, cols) == Texts(v)
      {
        assert Texts(v) in TextRows(values);
        var t :| t in targets && !HasNull(Tuple(t, cols)) && Tuple(t, cols) == Texts(v);
        TupleLength(t, cols);
      }
      forall t | t in targets && !HasNull(Tuple(t, cols))
        ensures exists v :: v in values && Tuple(t, cols) == Texts(v)
      {
        assert Tuple(t, cols) in TextRows(values);
      }
    }
  }

  lemma TupleLength(row: Row, cols: seq<string>)
    ensures |Tuple(row, cols)| == |cols|
  {
  }

  /**
   * A memoised value, right for the list it was derived for, is right for another list of the same cache key
   * exactly when both have the same complete tuples.
   */
  lemma SharedKeyRightIff(values: seq<seq<string>>, targets: set<Row>, a: seq<string>, b: seq<string>)
    requires ValuesOf(values, targets, a)
    ensures ValuesOf(values, targets, b) <==> Complete(targets, a) == Complete(targets, b)
  {
    hide ValuesOf, Complete;
    ValuesAreComplete(values, targets, a);
    ValuesAreComplete(values, targets, b);
  }

  /** The values of a column named "a,b" stand under the key of the columns "a" and "b" and are wrong for them. */
  lemma SharedKeyIsWrong(row: Row)
    requires At(row, "a,b") == Text("x") && At(row, "a") == Text("y") && At(row, "b") == Text("z")
    ensures CacheKey(1, ["a,b"]) == CacheKey(1, ["a", "b"])
    ensures ValuesOf([["x"]], {row}, ["a,b"]) && !ValuesOf([["x"]], {row}, ["a", "b"])
  {
    CacheKeyCollision();
    assert Tuple(row, ["a,b"]) == [Text("x")] == Texts(["x"]);
    assert ["x"] in [["x"]] && |["x"]| != |["a", "b"]|;
    assert !HasNull([Text("x")]);
  }

  // ---------------------------------------------------------------- the materializer

  class MaterializerState {
    const s: Source
    /** Key sets up to this size are written into the query; larger ones are referenced by a subquery. */
    const inlineValuesLimit: nat
    /** Memoised conditions per vertex, key values per cache key, and the keys in the order they were derived. */
    var conds: map<nat, seq<Condition>>
    var vals: map<string, seq<seq<string>>>
    ghost var derived: seq<string>

    /** The conditions select exactly the kept rows of the table. */
    ghost predicate SelectsKept(v: nat, cs: seq<Condition>)
      requires s.Acyclic() && v < |s.tables|
    {
      forall r :: r in s.rows[v] ==> (s.Where(cs, r) <==> r in s.Kept(v))
    }

    ghost predicate Valid()
      reads this
    {
      && s.Acyclic()
      && (forall v :: v in conds ==> v < |s.tables| && SelectsKept(v, conds[v]))
      && (forall v, cols :: 0 <= v < |s.tables| && s.Referenced(v, cols) && CacheKey(s.tables[v].oid, cols) in vals ==>
                              ValuesOf(vals[CacheKey(s.tables[v].oid, cols)], s.Kept(v), cols))
      && (forall k :: k in vals <==> k in derived)
      && (forall i, j :: 0 <= i < j < |derived| ==> derived[i] != derived[j])
    }

    constructor (s: Source, inlineValuesLimit: nat)
      requires s.Acyclic()
      ensures Valid() && this.s == s && this.inlineValuesLimit == inlineValuesLimit && derived == []
    {
      this.s, this.inlineValuesLimit := s, inlineValuesLimit;
      conds, vals, derived := map[], map[], [];
    }

    /** Runs the derivation query: the distinct tuples in any order, those with a null left out. */
    method RunQuery(v: nat, cols: seq<string>, cs: seq<Condition>) returns (values: seq<seq<string>>)
      requires s.Acyclic() && v < |s.tables| && SelectsKept(v, cs)
      modifies this`derived
      ensures ValuesOf(values, s.Kept(v), cols) && derived == old(derived) + [CacheKey(s.tables[v].oid, cols)]
    {
      derived := derived + [CacheKey(s.tables[v].oid, cols)];
      values := [];
      var rest := s.Select(v, cols, cs);
      ghost var all := rest;
      while rest != {}
        invariant rest <= all
        invariant forall x :: x in values ==> |x| == |cols| && Texts(x) in all
        invariant forall t :: t in all && t !in rest && !HasNull(t) ==> exists x :: x in values && t == Texts(x)
        decreases rest
      {
        var t: seq<Cell> :| t in rest;
        rest := rest - {t};
        if !HasNull(t) {
          assert forall i :: 0 <= i < |t| ==> t[i].Text? by {
            forall i | 0 <= i < |t|
              ensures t[i].Text?
            {
              assert t[i] in t;
            }
          }
          var x := seq(|t|, i requires 0 <= i < |t| => t[i].text);
          assert Texts(x) == t;
          values := values + [x];
        }
      }
      forall t | t in s.Kept(v) && !HasNull(Tuple(t, cols))
        ensures exists x :: x in values && Tuple(t, cols) == Texts(x)
      {
        assert t in s.rows[v];
        assert Tuple(t, cols) in all;
      }
    }

    method Values(v: nat, cols: seq<string>) returns (values: seq<seq<string>>)
      requires Valid() && v < |s.tables| && s.Referenced(v, cols)
      modifies this
      ensures Valid() && ValuesOf(values, s.Kept(v), cols) && OnlyKeysAbove(s, old(vals), vals, s.comp[v])
      ensures Memoised(old(vals), vals) && old(derived) <= derived
      ensures CacheKey(s.tables[v].oid, cols) in vals && vals[CacheKey(s.tables[v].oid, cols)] == values
      ensures CacheKey(s.tables[v].oid, cols) in old(vals) ==> vals == old(vals) && derived == old(derived)
      decreases s.count - s.comp[v], 1
    {
      var key := CacheKey(s.tables[v].oid, cols);
      if key in vals {
        return vals[key];
      }
      var cs := CondsForVertex(v);
      values := RunQuery(v, cols, cs);
      KeyIsOwn(s, v, cols);
      assert key !in vals;
      vals := vals[key := values];
    }

    method EdgeCond(e: Edge) returns (c: Condition)
      requires Valid() && e.from < |s.graph| && e in s.graph[e.from]
      modifies this
      ensures Valid() && OnlyKeysAbove(s, old(vals), vals, s.comp[e.to])
      ensures Memoised(old(vals), vals) && old(derived) <= derived
      ensures forall row :: s.Eval(c, row).True? <==> ReferenceHolds(e, row, s.Kept(e.to))
      ensures Inlines(c, vals, CacheKey(s.tables[e.to].oid, e.toKeys), inlineValuesLimit)
      decreases s.count - s.comp[e.to], 2
    {
      var values := Values(e.to, e.toKeys);
      if |values| <= inlineValuesLimit {
        c := InList(e.fromKeys, values, e.isNullable);
        forall row {
          InlineListMeansReference(s, e, row, values, s.Kept(e.to));
        }
      } else {
        var cs := CondsForVertex(e.to);
        c := InSubquery(e.fromKeys, e.to, e.toKeys, cs, e.isNullable);
        forall row {
          SubqueryMeansReference(s, e, row, cs, s.Kept(e.to));
        }
      }
    }

    method CondsForVertex(v: nat) returns (cs: seq<Condition>)
      requires Valid() && v < |s.tables|
      modifies this
      ensures Valid() && SelectsKept(v, cs) && OnlyKeysAbove(s, old(vals), vals, s.comp[v] + 1)
      ensures Memoised(old(vals), vals) && old(derived) <= derived
      decreases s.count - s.comp[v], 0
    {
      hide Inlines, CacheKey, Memoised, OnlyKeysAbove, ReferenceHolds, ValuesOf, Source.Where, Source.Eval;
      NothingNew(s, vals, s.comp[v] + 1);
      if v in conds {
        return conds[v];
      }
      var own := s.tables[v].subsetConds;
      cs := seq(|own|, i requires 0 <= i < |own| => Own(own[i]));
      OwnConditions(s, v, cs);
      for k := 0 to |s.graph[v]|
        invariant Valid() && OnlyKeysAbove(s, old(vals), vals, s.comp[v] + 1)
        invariant Memoised(old(vals), vals) && old(derived) <= derived
        invariant forall r :: s.Where(cs, r) <==> HoldsUpTo(s, v, k, r)
      {
        var e := s.graph[v][k];
        HoldsStep(s, v, k);
        if s.IsRestricted(e.to) {
          ghost var vals1 := vals;
          var c := EdgeCond(e);
          WhereStep(s, cs, c);
          NewTwice(s, old(vals), vals1, vals, s.comp[e.to], s.comp[v] + 1);
          cs := cs + [c];
        }
      }
      conds := conds[v := cs];
    }
  }

  /** The condition lists the memoised values exactly when there are no more of them than the limit. */
  ghost predicate Inlines(c: Condition, vals: map<string, seq<seq<string>>>, key: string, limit: nat) {
    && key in vals && !c.Own? && (c.InList? <==> |vals[key]| <= limit)
    && (c.InList? ==> c.values == vals[key])
  }

  /** What was memoised stays as it is. */
  ghost predicate Memoised(before: map<string, seq<seq<string>>>, after: map<string, seq<seq<string>>>) {
    forall k :: k in before ==> k in after && after[k] == before[k]
  }

  lemma NothingNew(s: Source, vals: map<string, seq<seq<string>>>, level: nat)
    requires s.Acyclic()
    ensures Memoised(vals, vals) && OnlyKeysAbove(s, vals, vals, level)
  {
  }

  lemma NewTwice(s: Source, first: map<string, seq<seq<string>>>, middle: map<string, seq<seq<string>>>,
                 last: map<string, seq<seq<string>>>, high: nat, level: nat)
    requires s.Acyclic() && Memoised(first, middle) && Memoised(middle, last) && level <= high
    requires OnlyKeysAbove(s, first, middle, level) && OnlyKeysAbove(s, middle, last, high)
    ensures Memoised(first, last) && OnlyKeysAbove(s, first, last, level)
  {
    hide CacheKey;
  }

  /** New cache keys belong to tables of components numbered `level` or more. */
  ghost predicate OnlyKeysAbove(s: Source, before: map<string, seq<seq<string>>>, after: map<string, seq<seq<string>>>,
                                level: nat)
    requires s.Acyclic()
  {
    forall k :: k in after && k !in before ==> KeyAbove(s, k, level)
  }

  ghost predicate KeyAbove(s: Source, key: string, level: nat)
    requires s.Acyclic()
  {
    exists u, cols :: 0 <= u < |s.tables| && level <= s.comp[u] && s.Referenced(u, cols) &&
      key == CacheKey(s.tables[u].oid, cols)
  }

  /** The conditions of the table itself and of its first `k` references. */
  ghost predicate HoldsUpTo(s: Source, v: nat, k: nat, row: Row)
    requires s.Acyclic() && v < |s.tables| && k <= |s.graph[v]|
  {
    && s.OwnHolds(v, row)
    && forall j :: 0 <= j < k && s.IsRestricted(s.graph[v][j].to) ==>
                     ReferenceHolds(s.graph[v][j], row, s.Kept(s.graph[v][j].to))
  }

  lemma HoldsStep(s: Source, v: nat, k: nat)
    requires s.Acyclic() && v < |s.tables| && k < |s.graph[v]|
    ensures s.graph[v][k] in s.graph[v] && s.graph[v][k].to < |s.comp|
    ensures forall r :: HoldsUpTo(s, v, k + 1, r) <==>
                        HoldsUpTo(s, v, k, r) &&
                        (s.IsRestricted(s.graph[v][k].to) ==>
                            ReferenceHolds(s.graph[v][k], r, s.Kept(s.graph[v][k].to)))
  {
  }

  lemma WhereStep(s: Source, cs: seq<Condition>, c: Condition)
    ensures forall r :: s.Where(cs + [c], r) <==> s.Where(cs, r) && s.Eval(c, r).True?
  {
    assert forall d :: d in cs + [c] <==> d in cs || d == c;
  }

  lemma OwnConditions(s: Source, v: nat, cs: seq<Condition>)
    requires s.Acyclic() && v < |s.tables| && |cs| == |s.tables[v].subsetConds|
    requires forall i :: 0 <= i < |cs| ==> cs[i] == Own(s.tables[v].subsetConds[i])
    ensures forall r :: s.Where(cs, r) <==> HoldsUpTo(s, v, 0, r)
  {
    forall r
      ensures s.Where(cs, r) <==> s.OwnHolds(v, r)
    {
      if s.Where(cs, r) {
        forall text | text in s.tables[v].subsetConds
          ensures s.eval(text, r).True?
        {
          var i :| 0 <= i < |cs| && s.tables[v].subsetConds[i] == text;
          assert cs[i] in cs;
          assert s.Eval(cs[i], r).True?;
        }
      }
    }
  }

  /** The cache key of a referenced column list belongs to no other table or list. */
  lemma KeyIsOwn(s: Source, v: nat, cols: seq<string>)
    requires s.Acyclic() && v < |s.tables| && s.Referenced(v, cols)
    ensures forall u, other | 0 <= u < |s.tables| && s.Referenced(u, other) ::
              CacheKey(s.tables[u].oid, other) == CacheKey(s.tables[v].oid, cols) ==> u == v && other == cols
  {
    forall u, other | 0 <= u < |s.tables| && s.Referenced(u, other) &&
                      CacheKey(s.tables[u].oid, other) == CacheKey(s.tables[v].oid, cols)
      ensures u == v && other == cols
    {
      CacheKeyIdentifies(s.tables[u].oid, other, s.tables[v].oid, cols);
    }
  }

  // ---------------------------------------------------------------- MaterializeSubsetQueries

  /** The queries written back: for every restricted table, conditions that select exactly its kept rows. */
  method MaterializeSubsetQueries(s: Source, inlineValuesLimit: nat) returns (queries: map<nat, seq<Condition>>)
    requires s.Acyclic()
    ensures forall v: nat :: v in queries <==> v < |s.tables| && s.comp[v] in s.paths
    ensures forall v :: v in queries && v < |s.tables| ==>
                          s.Kept(v) == set r | r in s.rows[v] && s.Where(queries[v], r)
  {
    var m := new MaterializerState(s, inlineValuesLimit);
    queries := map[];
    var rest := set v: nat | v < |s.tables| && s.comp[v] in s.paths;
    while rest != {}
      invariant m.Valid() && m.s == s && fresh(m)
      invariant forall v: nat :: v in queries || v in rest <==> v < |s.tables| && s.comp[v] in s.paths
      invariant forall v :: v in queries && v < |s.tables| ==>
                              s.Kept(v) == set r | r in s.rows[v] && s.Where(queries[v], r)
      decreases rest
    {
      var v :| v in rest;
      rest := rest - {v};
      var cs := m.CondsForVertex(v);
      assert forall r :: r in s.Kept(v) ==> r in s.rows[v];
      queries := queries[v := cs];
    }
  }

  // ---------------------------------------------------------------- what is kept

  /** Every table that is not restricted has neither conditions nor references to restricted tables. */
  ghost predicate PathsClosed(s: Source)
    requires s.Acyclic()
  {
    forall v :: 0 <= v < |s.tables| && !s.IsRestricted(v) ==>
                  s.tables[v].subsetConds == [] && forall e :: e in s.graph[v] ==> !s.IsRestricted(e.to)
  }

  /** An unrestricted table is dumped whole. */
  lemma UnrestrictedKeptWhole(s: Source, v: nat)
    requires s.Acyclic() && PathsClosed(s) && v < |s.tables| && !s.IsRestricted(v)
    ensures s.Kept(v) == s.rows[v]
  {
    assert forall r :: r in s.rows[v] ==> r in s.Kept(v);
  }

  /** The referenced columns identify the rows of the referenced table. */
  ghost predicate UniqueKey(rows: set<Row>, cols: seq<string>) {
    forall a, b :: a in rows && b in rows && !HasNull(Tuple(a, cols)) && Tuple(a, cols) == Tuple(b, cols) ==> a == b
  }

  /**
   * Referential integrity of the subset: the target of every complete reference of a kept row is kept,
   * provided it existed in the source.
   */
  lemma SubsetIsIntact(s: Source, v: nat, e: Edge, row: Row, target: Row)
    requires s.Acyclic() && PathsClosed(s) && v < |s.tables| && e in s.graph[v]
    requires row in s.Kept(v) && target in s.rows[e.to] && Refers(e, row, target)
    requires UniqueKey(s.rows[e.to], e.toKeys)
    ensures target in s.Kept(e.to)
  {
    if s.IsRestricted(e.to) {
      assert ReferenceHolds(e, row, s.Kept(e.to));
      var t :| t in s.Kept(e.to) && Refers(e, row, t);
      assert t == target;
    } else {
      UnrestrictedKeptWhole(s, e.to);
    }
  }

  /** A family of row sets that meets all subset conditions and all restrictions by restricted tables. */
  ghost predicate Admissible(s: Source, family: seq<set<Row>>)
    requires s.Acyclic() && |family| == |s.tables|
  {
    forall v, r :: 0 <= v < |family| && r in family[v] ==> AdmissibleRow(s, family, v, r)
  }

  ghost predicate AdmissibleRow(s: Source, family: seq<set<Row>>, v: nat, r: Row)
    requires s.Acyclic() && |family| == |s.tables| && v < |family|
  {
    && r in s.rows[v] && s.OwnHolds(v, r)
    && forall e :: e in s.graph[v] && s.IsRestricted(e.to) ==> ReferenceHolds(e, r, family[e.to])
  }

  ghost function KeptFamily(s: Source): (f: seq<set<Row>>)
    requires s.Acyclic()
    ensures |f| == |s.tables| && forall v :: 0 <= v < |f| ==> f[v] == s.Kept(v)
  {
    seq(|s.tables|, v requires 0 <= v < |s.tables| => s.Kept(v))
  }

  /** Every admissible family lies inside the kept rows. */
  lemma {:induction false} AdmissibleIsKept(s: Source, family: seq<set<Row>>, v: nat)
    requires s.Acyclic() && |family| == |s.tables| && Admissible(s, family) && v < |s.tables|
    ensures family[v] <= s.Kept(v)
    decreases s.count - s.comp[v]
  {
    forall r | r in family[v]
      ensures r in s.Kept(v)
    {
      assert AdmissibleRow(s, family, v, r);
      forall e | e in s.graph[v] && s.IsRestricted(e.to)
        ensures ReferenceHolds(e, r, s.Kept(e.to))
      {
        AdmissibleIsKept(s, family, e.to);
        if t :| t in family[e.to] && Refers(e, r, t) {
          assert t in s.Kept(e.to);
        }
      }
    }
  }

  /** The kept rows are the largest admissible family. */
  lemma KeptIsLargest(s: Source)
    requires s.Acyclic()
    ensures Admissible(s, KeptFamily(s))
    ensures forall family :: |family| == |s.tables| && Admissible(s, family) ==>
                               forall v :: 0 <= v < |family| ==> family[v] <= KeptFamily(s)[v]
  {
    forall family | |family| == |s.tables| && Admissible(s, family)
      ensures forall v :: 0 <= v < |family| ==> family[v] <= KeptFamily(s)[v]
    {
      forall v: nat | v < |family|
        ensures family[v] <= KeptFamily(s)[v]
      {
        AdmissibleIsKept(s, family, v);
      }
    }
  }
}
