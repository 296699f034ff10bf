/** The entries handed to the restore workers, in order (restore.go:674-739, 1007-1015). */
module RestoreList {
  import opened FkGraph
  import opened TableOrder
  import opened DumpOrder

  datatype Section = PreData | Data | PostData | NoSection

  datatype Description = TableData | SequenceSet | Blobs | Acl | OtherDescription

  datatype TocEntry = TocEntry(dumpId: nat, section: Section, desc: Description)

  function IdsOf(entries: seq<TocEntry>): (ids: seq<nat>)
    ensures |ids| == |entries| && forall i :: 0 <= i < |entries| ==> ids[i] == entries[i].dumpId
  {
    seq<nat>(|entries|, i requires 0 <= i < |entries| => entries[i].dumpId)
  }

  function DataSection(entries: seq<TocEntry>): seq<TocEntry> {
    if entries == [] then []
    else
      var last := entries[|entries| - 1];
      DataSection(entries[..|entries| - 1]) + (if last.section == Data then [last] else [])
  }

  /** `a` is listed somewhere before `b`. */
  ghost predicate ListedBefore(entries: seq<TocEntry>, a: TocEntry, b: TocEntry) {
    exists p, q :: 0 <= p < q < |entries| && entries[p] == a && entries[q] == b
  }

  /** Exactly the entries of the data section, as often and in the order in which they are listed. */
  lemma {:induction false} DataSectionIs(entries: seq<TocEntry>)
    ensures forall e :: multiset(DataSection(entries))[e] == if e.section == Data then multiset(entries)[e] else 0
    ensures forall i, j :: 0 <= i < j < |DataSection(entries)| ==>
              ListedBefore(entries, DataSection(entries)[i], DataSection(entries)[j])
  {
    if entries != [] {
      var init, last := entries[..|entries| - 1], entries[|entries| - 1];
      assert entries == init + [last];
      DataSectionIs(init);
      var rest, all := DataSection(init), DataSection(entries);
      forall i, j | 0 <= i < j < |all|
        ensures ListedBefore(entries, all[i], all[j])
      {
        assert all[i] == rest[i];
        if j < |rest| {
          assert ListedBefore(init, rest[i], rest[j]);
          ListedLonger(init, last, rest[i], rest[j]);
        } else {
          assert rest[i] in multiset(rest) && rest[i] in multiset(init);
          ListedLast(init, last, rest[i]);
        }
      }
    }
  }

  lemma ListedLonger(init: seq<TocEntry>, last: TocEntry, a: TocEntry, b: TocEntry)
    requires ListedBefore(init, a, b)
    ensures ListedBefore(init + [last], a, b)
  {
    var p, q :| 0 <= p < q < |init| && init[p] == a && init[q] == b;
    var entries := init + [last];
    assert entries[p] == a && entries[q] == b;
  }

  lemma ListedLast(init: seq<TocEntry>, last: TocEntry, a: TocEntry)
    requires a in init
    ensures ListedBefore(init + [last], a, last)
  {
    var p :| 0 <= p < |init| && init[p] == a;
    var entries := init + [last];
    assert entries[p] == a && entries[|init|] == last;
  }

  /** Index of the first entry with that dump id, or -1. */
  function IndexOfId(entries: seq<TocEntry>, id: nat): (idx: int)
    ensures -1 <= idx < |entries|
    ensures idx >= 0 ==> entries[idx].dumpId == id
    ensures idx >= 0 <==> id in IdsOf(entries)
  {
    if entries == [] then -1
    else
      var init, last := entries[..|entries| - 1], entries[|entries| - 1];
      assert IdsOf(entries) == IdsOf(init) + [last.dumpId];
      if IndexOfId(init, id) >= 0 then IndexOfId(init, id)
      else if last.dumpId == id then |entries| - 1
      else -1
  }

  /** The entries named by the order; ids without an entry are dropped. */
  function Picked(entries: seq<TocEntry>, order: seq<nat>): seq<TocEntry> {
    if order == [] then []
    else
      var id := order[|order| - 1];
      Picked(entries, order[..|order| - 1]) +
      (if IndexOfId(entries, id) >= 0 then [entries[IndexOfId(entries, id)]] else [])
  }

  predicate IsOtherData(e: TocEntry) { e.desc != TableData }

  predicate IsAcl(e: TocEntry) { e.section == NoSection && e.desc == Acl }

  /** Appends the selected candidates whose dump id is not in the list yet. */
  function AppendUnseen(list: seq<TocEntry>, candidates: seq<TocEntry>, acl: bool): seq<TocEntry> {
    if candidates == [] then list
    else
      var rest := AppendUnseen(list, candidates[..|candidates| - 1], acl);
      var last := candidates[|candidates| - 1];
      if (if acl then IsAcl(last) else IsOtherData(last)) && last.dumpId !in IdsOf(rest) then rest + [last] else rest
  }

  function SortedToc(entries: seq<TocEntry>, all: seq<TocEntry>, order: seq<nat>): seq<TocEntry> {
    AppendUnseen(AppendUnseen(Picked(entries, order), entries, false), all, true)
  }

  // ---------------------------------------------------------------- sortTocEntriesInTopoOrder

  method FindDumpId(entries: seq<TocEntry>, id: nat) returns (idx: int)
    ensures idx == IndexOfId(entries, id)
  {
    for i := 0 to |entries|
      invariant IndexOfId(entries[..i], id) == -1
    {
      assert entries[..i + 1][..i] == entries[..i];
      if entries[i].dumpId == id {
        FirstIndexStays(entries, id, i + 1);
        return i;
      }
    }
    assert entries[..|entries|] == entries;
    return -1;
  }

  lemma {:induction false} FirstIndexStays(entries: seq<TocEntry>, id: nat, k: nat)
    requires k <= |entries| && IndexOfId(entries[..k], id) >= 0
    ensures IndexOfId(entries, id) == IndexOfId(entries[..k], id)
  {
    if k < |entries| {
      FirstIndexStays(entries[..|entries| - 1], id, k);
      assert entries[..|entries| - 1][..k] == entries[..k];
    } else {
      assert entries[..k] == entries;
    }
  }

  method AddUnseen(list: seq<TocEntry>, candidates: seq<TocEntry>, acl: bool, seen: set<nat>)
    returns (result: seq<TocEntry>, seenAfter: set<nat>)
    requires forall id :: id in seen <==> id in IdsOf(list)
    ensures result == AppendUnseen(list, candidates, acl)
    ensures forall id :: id in seenAfter <==> id in IdsOf(result)
  {
    result, seenAfter := list, seen;
    for i := 0 to |candidates|
      invariant result == AppendUnseen(list, candidates[..i], acl)
      invariant forall id :: id in seenAfter <==> id in IdsOf(result)
    {
      var entry := candidates[i];
      assert candidates[..i + 1][..i] == candidates[..i];
      if if acl then IsAcl(entry) else IsOtherData(entry) {
        if entry.dumpId !in seenAfter {
          assert IdsOf(result + [entry]) == IdsOf(result) + [entry.dumpId];
          result, seenAfter := result + [entry], seenAfter + {entry.dumpId};
        }
      }
    }
    assert candidates[..|candidates|] == candidates;
  }

  /**
   * `resolvable` are the dump ids whose table is known to the metadata; an id of the order with
   * neither an entry nor a known table makes the original panic.
   */
  method SortTocEntriesInTopoOrder(entries: seq<TocEntry>, all: seq<TocEntry>, order: seq<nat>, resolvable: set<nat>)
    returns (result: Outcome<seq<TocEntry>>)
    ensures result.Panicked? <==> exists id :: id in order && id !in IdsOf(entries) && id !in resolvable
    ensures result.Returned? ==> result.value == SortedToc(entries, all, order)
  {
    var sorted: seq<TocEntry> := [];
    for i := 0 to |order|
      invariant sorted == Picked(entries, order[..i])
      invariant forall id :: id in order[..i] ==> id in IdsOf(entries) || id in resolvable
    {
      assert order[..i + 1][..i] == order[..i];
      var idx := FindDumpId(entries, order[i]);
      if idx == -1 {
        if order[i] !in resolvable {
          assert order[i] in order;
          return Panicked;
        }
      } else {
        sorted := sorted + [entries[idx]];
      }
    }
    assert order[..|order|] == order;
    var seen := set e | e in sorted :: e.dumpId;
    assert forall id :: id in seen <==> id in IdsOf(sorted) by {
      forall id
        ensures id in seen <==> id in IdsOf(sorted)
      {
        if id in seen {
          var e :| e in sorted && e.dumpId == id;
          var i :| 0 <= i < |sorted| && sorted[i] == e;
          assert IdsOf(sorted)[i] == id;
        }
      }
    }
    sorted, seen := AddUnseen(sorted, entries, false, seen);
    sorted, seen := AddUnseen(sorted, all, true, seen);
    result := Returned(sorted);
  }

  // ---------------------------------------------------------------- what the list keeps

  lemma IdsAppend(a: seq<TocEntry>, b: seq<TocEntry>)
    ensures IdsOf(a + b) == IdsOf(a) + IdsOf(b)
  {
  }

  lemma {:induction false} PickedKeepsOrder(entries: seq<TocEntry>, order: seq<nat>)
    requires Distinct(order)
    ensures Distinct(IdsOf(Picked(entries, order)))
    ensures forall id :: id in IdsOf(Picked(entries, order)) <==> id in order && id in IdsOf(entries)
    ensures forall a, b :: Before(order, a, b) && a in IdsOf(entries) && b in IdsOf(entries) ==>
                             Before(IdsOf(Picked(entries, order)), a, b)
  {
    if order != [] {
      var init, id := order[..|order| - 1], order[|order| - 1];
      assert order == init + [id];
      PickedKeepsOrder(entries, init);
      var rest, all := Picked(entries, init), Picked(entries, order);
      var idx := IndexOfId(entries, id);
      if idx >= 0 {
        IdsAppend(rest, [entries[idx]]);
        assert IdsOf(all) == IdsOf(rest) + [id];
        assert id !in init;
      } else {
        assert IdsOf(all) == IdsOf(rest);
      }
      assert forall x :: x in order <==> x in init || x == id;
      assert forall x :: x in IdsOf(all) <==> x in IdsOf(rest) || (x == id && idx >= 0);
      forall a, b | Before(order, a, b) && a in IdsOf(entries) && b in IdsOf(entries)
        ensures Before(IdsOf(all), a, b)
      {
        var i, j :| 0 <= i < j < |order| && order[i] == a && order[j] == b;
        if j < |init| {
          assert init[i] == a && init[j] == b;
          assert Before(init, a, b);
          BeforeExtends(IdsOf(rest), IdsOf(all), a, b);
        } else {
          assert a in init;
          var p :| 0 <= p < |IdsOf(rest)| && IdsOf(rest)[p] == a;
          assert IdsOf(all)[p] == a && IdsOf(all)[|rest|] == b;
        }
      }
    }
  }

  lemma BeforeExtends(s: seq<nat>, longer: seq<nat>, a: nat, b: nat)
    requires s <= longer && Before(s, a, b)
    ensures Before(longer, a, b)
  {
    var i, j :| 0 <= i < j < |s| && s[i] == a && s[j] == b;
    assert longer[i] == a && longer[j] == b;
  }

  lemma {:induction false} AppendUnseenKeeps(list: seq<TocEntry>, candidates: seq<TocEntry>, acl: bool)
    ensures list <= AppendUnseen(list, candidates, acl)
    ensures Distinct(IdsOf(list)) ==> Distinct(IdsOf(AppendUnseen(list, candidates, acl)))
    ensures forall e :: e in candidates && (if acl then IsAcl(e) else IsOtherData(e)) ==>
                          e.dumpId in IdsOf(AppendUnseen(list, candidates, acl))
    ensures forall e :: e in AppendUnseen(list, candidates, acl) ==>
                          e in list || (e in candidates && if acl then IsAcl(e) else IsOtherData(e))
  {
    if candidates != [] {
      var init, last := candidates[..|candidates| - 1], candidates[|candidates| - 1];
      assert candidates == init + [last];
      AppendUnseenKeeps(list, init, acl);
      var rest := AppendUnseen(list, init, acl);
      IdsAppend(rest, [last]);
      assert IdsOf(rest + [last])[|rest|] == last.dumpId;
    }
  }

  /** Every dump id at most once, ids of the order in their order, and nothing but table data can be missing. */
  lemma SortedTocKeeps(entries: seq<TocEntry>, all: seq<TocEntry>, order: seq<nat>)
    requires Distinct(order)
    ensures var ids := IdsOf(SortedToc(entries, all, order));
            && Distinct(ids)
            && (forall a, b :: Before(order, a, b) && a in IdsOf(entries) && b in IdsOf(entries) ==> Before(ids, a, b))
            && (forall e :: e in entries && (e.desc != TableData || e.dumpId in order) ==> e.dumpId in ids)
            && (forall e :: e in all && e.section == NoSection && e.desc == Acl ==> e.dumpId in ids)
  {
    PickedKeepsOrder(entries, order);
    var picked := Picked(entries, order);
    var withOthers := AppendUnseen(picked, entries, false);
    AppendUnseenKeeps(picked, entries, false);
    AppendUnseenKeeps(withOthers, all, true);
    var result := SortedToc(entries, all, order);
    IdsPrefix(picked, withOthers);
    IdsPrefix(withOthers, result);
    forall a, b | Before(order, a, b) && a in IdsOf(entries) && b in IdsOf(entries)
      ensures Before(IdsOf(result), a, b)
    {
      BeforeExtends(IdsOf(picked), IdsOf(result), a, b);
    }
    forall e | e in entries && (e.desc != TableData || e.dumpId in order)
      ensures e.dumpId in IdsOf(result)
    {
      EntryIdListed(entries, e);
      assert e.dumpId in IdsOf(withOthers);
    }
  }

  /** All entries from the data section come first, then only access rights from outside of it. */
  lemma AccessRightsComeLast(entries: seq<TocEntry>, all: seq<TocEntry>, order: seq<nat>) returns (cut: nat)
    ensures var result := SortedToc(entries, all, order);
            && cut <= |result|
            && (forall i :: 0 <= i < cut ==> result[i] in entries)
            && (forall i :: cut <= i < |result| ==>
                  result[i] in all && result[i].section == NoSection && result[i].desc == Acl)
  {
    var picked := Picked(entries, order);
    var withOthers := AppendUnseen(picked, entries, false);
    PickedFromEntries(entries, order);
    AppendUnseenKeeps(picked, entries, false);
    AppendedAre(withOthers, all, true);
    cut := |withOthers|;
    forall i | 0 <= i < cut
      ensures SortedToc(entries, all, order)[i] in entries
    {
      assert SortedToc(entries, all, order)[i] == withOthers[i];
      assert withOthers[i] in withOthers;
    }
  }

  lemma {:induction false} PickedFromEntries(entries: seq<TocEntry>, order: seq<nat>)
    ensures forall e :: e in Picked(entries, order) ==> e in entries && e.dumpId in order
  {
    if order != [] {
      PickedFromEntries(entries, order[..|order| - 1]);
    }
  }

  lemma {:induction false} AppendedAre(list: seq<TocEntry>, candidates: seq<TocEntry>, acl: bool)
    ensures var result := AppendUnseen(list, candidates, acl);
            list <= result && forall i :: |list| <= i < |result| ==>
              result[i] in candidates && if acl then IsAcl(result[i]) else IsOtherData(result[i])
  {
    if candidates != [] {
      var init, last := candidates[..|candidates| - 1], candidates[|candidates| - 1];
      assert candidates == init + [last];
      AppendedAre(list, init, acl);
    }
  }

  lemma EntryIdListed(entries: seq<TocEntry>, e: TocEntry)
    requires e in entries
    ensures e.dumpId in IdsOf(entries)
  {
    var i :| 0 <= i < |entries| && entries[i] == e;
    assert IdsOf(entries)[i] == e.dumpId;
  }

  lemma IdsPrefix(a: seq<TocEntry>, b: seq<TocEntry>)
    requires a <= b
    ensures IdsOf(a) <= IdsOf(b) && forall id :: id in IdsOf(a) ==> id in IdsOf(b)
  {
    assert IdsOf(b)[..|a|] == IdsOf(a);
  }

  /**
   * The sort loses no data entry exactly when the order names every table-data entry; any other
   * table-data entry is dropped silently.
   */
  lemma NothingLostIff(entries: seq<TocEntry>, all: seq<TocEntry>, order: seq<nat>)
    requires Distinct(order) && Distinct(IdsOf(entries))
    requires forall e, f :: e in entries && f in all && IsAcl(f) ==> e.dumpId != f.dumpId
    ensures (forall e :: e in entries ==> e.dumpId in IdsOf(SortedToc(entries, all, order))) <==>
            (forall e :: e in entries && e.desc == TableData ==> e.dumpId in order)
  {
    SortedTocKeeps(entries, all, order);
    if e :| e in entries && e.desc == TableData && e.dumpId !in order {
      PickedKeepsOrder(entries, order);
      var picked := Picked(entries, order);
      var withOthers := AppendUnseen(picked, entries, false);
      AppendUnseenKeeps(picked, entries, false);
      AppendUnseenKeeps(withOthers, all, true);
      var result := SortedToc(entries, all, order);
      forall f | f in result
        ensures f.dumpId != e.dumpId
      {
        if f in picked {
          EntryIdListed(picked, f);
        } else if f.dumpId == e.dumpId && f in entries {
          SameIdSameEntry(entries, e, f);
        }
      }
      assert e.dumpId !in IdsOf(result);
    }
  }

  lemma SameIdSameEntry(entries: seq<TocEntry>, e: TocEntry, f: TocEntry)
    requires Distinct(IdsOf(entries)) && e in entries && f in entries && e.dumpId == f.dumpId
    ensures e == f
  {
    var p :| 0 <= p < |entries| && entries[p] == e;
    var q :| 0 <= q < |entries| && entries[q] == f;
    assert IdsOf(entries)[p] == IdsOf(entries)[q];
  }

  /** A table that the order does not name is not restored. */
  lemma UnnamedIsDropped()
    ensures SortedToc([TocEntry(1, Data, TableData)], [TocEntry(1, Data, TableData)], []) == []
  {
    var entries := [TocEntry(1, Data, TableData)];
    assert entries[..0] == [];
    assert AppendUnseen([], [], false) == [] && AppendUnseen([], [], true) == [];
  }
}
