/**
 * Comparing two datasets: for every id present in both, the names that
 * appeared (`plus`), the names that disappeared (`minus`) and the breakdown
 * entries whose type changed. Names come from both the `oracles` list and
 * the names of the `oraclesBreakdown` entries. Ids are visited in ascending
 * order, so the report is deterministic.
 */
module Diff {
  import opened Wrappers
  import opened Text
  import opened Normalize
  import opened Extract

  /** A breakdown name present on both sides whose type differs. */
  datatype TypeChange = TypeChange(name: string, oldType: string, newType: string)

  /** What changed for one id. */
  datatype Change = Change(
    id: string,
    name: string,
    file: string,
    plus: seq<string>,
    minus: seq<string>,
    types: seq<TypeChange>)

  /**
   * `breakdown_name_to_type`: stripped name to stripped type, skipping
   * entries whose stripped name is empty; a later entry overwrites an earlier
   * one with the same name.
   */
  function NameToType(items: seq<BreakdownItem>): (r: map<string, string>)
    ensures "" !in r
  {
    if items == [] then map[]
    else
      var before := NameToType(items[..|items| - 1]);
      var last := items[|items| - 1];
      var n := Strip(last.name);
      if n == "" then before else before[n := Strip(last.oracleType)]
  }

  /** A name is a key exactly when it is the non-empty stripped name of some entry. */
  lemma {:induction false} NameToTypeKeys(items: seq<BreakdownItem>, k: string)
    ensures k in NameToType(items) <==> k != "" && exists i :: 0 <= i < |items| && Strip(items[i].name) == k
  {
    if items != [] {
      var init, last := items[..|items| - 1], items[|items| - 1];
      var before, n := NameToType(init), Strip(last.name);
      assert NameToType(items) == if n == "" then before else before[n := Strip(last.oracleType)];
      NameToTypeKeys(init, k);
      if k != "" && k == n {
        assert Strip(items[|items| - 1].name) == k;
      } else if k != "" {
        if exists i :: 0 <= i < |items| && Strip(items[i].name) == k {
          var i :| 0 <= i < |items| && Strip(items[i].name) == k;
          assert i < |init| && Strip(init[i].name) == k;
        }
        if exists i :: 0 <= i < |init| && Strip(init[i].name) == k {
          var i :| 0 <= i < |init| && Strip(init[i].name) == k;
          assert Strip(items[i].name) == k;
        }
      }
    }
  }

  /** The type kept for a name is the stripped type of the last entry with that name. */
  lemma {:induction false} NameToTypeLastWins(items: seq<BreakdownItem>, i: nat, k: string)
    requires i < |items| && k != "" && Strip(items[i].name) == k
    requires forall j :: i < j < |items| ==> Strip(items[j].name) != k
    ensures k in NameToType(items) && NameToType(items)[k] == Strip(items[i].oracleType)
  {
    if i < |items| - 1 {
      assert Strip(items[|items| - 1].name) != k;
      NameToTypeLastWins(items[..|items| - 1], i, k);
    }
  }

  /** The breakdown names of a record, as `breakdown_name_to_type` keys them. */
  function BreakdownNames(r: Record): set<string>
  {
    NameToType(r.breakdown).Keys
  }

  /** The names that appear in `b` but not in `a`, by breakdown name or by oracle. */
  function Added(a: Record, b: Record): set<string>
  {
    (BreakdownNames(b) - BreakdownNames(a)) + (Elems(b.oracles) - Elems(a.oracles))
  }

  /** The names both records key their breakdown by. */
  function Common(a: Record, b: Record): set<string>
  {
    BreakdownNames(a) * BreakdownNames(b)
  }

  /** The type-change tuples for `names`, in their order, keeping those present on both sides whose types differ. */
  function TypeChanges(names: seq<string>, before: map<string, string>, after: map<string, string>): (r: seq<TypeChange>)
    ensures forall t :: t in r ==> t.name in names && t.name in before && t.name in after
    ensures forall t :: t in r ==> t.oldType == before[t.name] && t.newType == after[t.name] && t.oldType != t.newType
  {
    if names == [] then []
    else
      var n := names[0];
      (if n in before && n in after && before[n] != after[n] then [TypeChange(n, before[n], after[n])] else [])
      + TypeChanges(names[1..], before, after)
  }

  /** Every listed name whose types differ has its tuple. */
  lemma {:induction false} TypeChangesComplete(names: seq<string>, before: map<string, string>, after: map<string, string>, n: string)
    requires n in names && n in before && n in after && before[n] != after[n]
    ensures TypeChange(n, before[n], after[n]) in TypeChanges(names, before, after)
  {
    if names[0] != n {
      TypeChangesComplete(names[1..], before, after, n);
    }
  }

  /** No tuple at all exactly when every listed name keeps its type. */
  lemma {:induction false} TypeChangesEmpty(names: seq<string>, before: map<string, string>, after: map<string, string>)
    ensures TypeChanges(names, before, after) == []
            <==> forall m :: m in names && m in before && m in after ==> before[m] == after[m]
  {
    if names != [] {
      TypeChangesEmpty(names[1..], before, after);
      forall m | m in names && m != names[0] ensures m in names[1..] {
        var i :| 0 <= i < |names| && names[i] == m;
      }
    }
  }

  /** Type-change tuples in strictly ascending name order. */
  predicate NamesAscending(ts: seq<TypeChange>)
  {
    forall i, j :: 0 <= i < j < |ts| ==> Less(ts[i].name, ts[j].name)
  }

  lemma PrependAscending(t: TypeChange, rest: seq<TypeChange>)
    requires NamesAscending(rest)
    requires forall u :: u in rest ==> Less(t.name, u.name)
    ensures NamesAscending([t] + rest)
  {
    var r := [t] + rest;
    forall i, j | 0 <= i < j < |r| ensures Less(r[i].name, r[j].name) {
      assert r[j] == rest[j - 1];
      if i > 0 {
        assert r[i] == rest[i - 1];
      }
    }
  }

  /** Tuples follow the order of the names, so ascending names give ascending tuples. */
  lemma {:induction false} TypeChangesAscending(names: seq<string>, before: map<string, string>, after: map<string, string>)
    requires StrictlyAscending(names)
    ensures NamesAscending(TypeChanges(names, before, after))
  {
    if names != [] {
      var n, tail := names[0], names[1..];
      assert StrictlyAscending(tail);
      TypeChangesAscending(tail, before, after);
      var rest := TypeChanges(tail, before, after);
      if n in before && n in after && before[n] != after[n] {
        var t := TypeChange(n, before[n], after[n]);
        forall u | u in rest ensures Less(t.name, u.name) {
          var k :| 0 <= k < |tail| && tail[k] == u.name;
          assert names[k + 1] == u.name;
        }
        PrependAscending(t, rest);
      } else {
        assert TypeChanges(names, before, after) == rest;
      }
    }
  }

  /** The change to report, or none when `plus`, `minus` and `types` are all empty. */
  function ChangeIfAny(pid: string, a: Record, b: Record, plus: seq<string>, minus: seq<string>, types: seq<TypeChange>)
    : (r: Option<Change>)
    ensures r.Some? ==> r.value.id == pid && r.value.plus == plus && r.value.minus == minus && r.value.types == types
    ensures r.None? <==> plus == [] && minus == [] && types == []
  {
    if plus == [] && minus == [] && types == [] then None
    else Some(Change(pid, if b.name != "" then b.name else a.name, b.file, plus, minus, types))
  }

  /**
   * The change `diff_states` reports for an id present on both sides, or
   * none when nothing differs: the sorted union of added breakdown names and
   * added oracles, the same for removed ones, and the type changes of the
   * shared breakdown names in ascending order.
   */
  ghost function ChangeFor(pid: string, a: Record, b: Record): Option<Change>
  {
    var types := TypeChanges(SortedSeq(Common(a, b)), NameToType(a.breakdown), NameToType(b.breakdown));
    ChangeIfAny(pid, a, b, SortedSeq(Added(a, b)), SortedSeq(Added(b, a)), types)
  }

  /**
   * A reported change carries the id, the new file, the new name or else
   * the old one, and `plus`/`minus` as the sorted, duplicate-free added and
   * removed names; at least one of its lists is non-empty.
   */
  lemma ChangeForShape(pid: string, a: Record, b: Record)
    requires ChangeFor(pid, a, b).Some?
    ensures var c := ChangeFor(pid, a, b).value;
            && c.id == pid && c.file == b.file
            && c.name == (if b.name != "" then b.name else a.name)
            && StrictlyAscending(c.plus) && Elems(c.plus) == Added(a, b)
            && StrictlyAscending(c.minus) && Elems(c.minus) == Added(b, a)
            && (c.plus != [] || c.minus != [] || c.types != [])
  {
    SortedSeqSpec(Added(a, b));
    SortedSeqSpec(Added(b, a));
  }

  /**
   * The type changes of a reported change are exactly the shared breakdown
   * names whose types differ, with the old and the new type, in ascending
   * name order.
   */
  lemma ChangeForTypes(pid: string, a: Record, b: Record, n: string)
    requires ChangeFor(pid, a, b).Some?
    ensures NamesAscending(ChangeFor(pid, a, b).value.types)
    ensures var before, after := NameToType(a.breakdown), NameToType(b.breakdown);
            var ts := ChangeFor(pid, a, b).value.types;
            (exists t :: t in ts && t.name == n)
            <==> n in before && n in after && before[n] != after[n]
    ensures var before, after := NameToType(a.breakdown), NameToType(b.breakdown);
            forall t :: t in ChangeFor(pid, a, b).value.types ==>
              t.oldType == before[t.name] && t.newType == after[t.name]
  {
    var before, after := NameToType(a.breakdown), NameToType(b.breakdown);
    var common := SortedSeq(Common(a, b));
    SortedSeqSpec(Common(a, b));
    TypeChangesAscending(common, before, after);
    if n in before && n in after && before[n] != after[n] {
      assert n in Elems(common);
      TypeChangesComplete(common, before, after, n);
    }
  }

  /**
   * Nothing is reported for an id exactly when both sides have the same
   * oracle set and the same name-to-type map.
   */
  lemma ChangeForNone(pid: string, a: Record, b: Record)
    ensures ChangeFor(pid, a, b).None?
            <==> Elems(a.oracles) == Elems(b.oracles) && NameToType(a.breakdown) == NameToType(b.breakdown)
  {
    var before, after := NameToType(a.breakdown), NameToType(b.breakdown);
    var common := SortedSeq(Common(a, b));
    SortedSeqSpec(Common(a, b));
    SortedSeqSpec(Added(a, b));
    SortedSeqSpec(Added(b, a));
    TypeChangesEmpty(common, before, after);
    if ChangeFor(pid, a, b).None? {
      assert Added(a, b) == {} && Added(b, a) == {};
      assert before.Keys == after.Keys;
      forall m | m in before ensures before[m] == after[m] {
        assert m in Elems(common);
      }
      assert before == after;
    }
    if Elems(a.oracles) == Elems(b.oracles) && before == after {
      assert Added(a, b) == {} && Added(b, a) == {};
      assert SortedSeq({}) == [];
    }
  }

  /**
   * `plus` and `minus` can share a name: an entry that moves from the
   * breakdown of the old record into the oracles of the new one is an added
   * oracle and a removed breakdown name at once.
   */
  lemma PlusMinusMayOverlap()
    ensures var a := Record("p", "P", "data.ts", [], [BreakdownItem("X", "T")]);
            var b := Record("p", "P", "data.ts", ["X"], []);
            var c := ChangeFor("p", a, b);
            c.Some? && "X" in c.value.plus && "X" in c.value.minus
  {
    var a := Record("p", "P", "data.ts", [], [BreakdownItem("X", "T")]);
    var b := Record("p", "P", "data.ts", ["X"], []);
    assert Strip("X") == "X" by {
      assert !IsSpace('X');
    }
    assert NameToType(a.breakdown) == map["X" := Strip("T")];
    assert "X" in Elems(b.oracles);
    assert "X" in Added(a, b) && "X" in Added(b, a);
  }

  /** What `diff_states` reports for one id: nothing unless the id is on both sides. */
  ghost function Outcome(pid: string, prev: Dataset, nxt: Dataset): Option<Change>
  {
    if pid in prev && pid in nxt then ChangeFor(pid, prev[pid], nxt[pid]) else None
  }

  /** The outcomes of `ids`, position by position. */
  ghost function Outcomes(ids: seq<string>, prev: Dataset, nxt: Dataset): (r: seq<Option<Change>>)
    ensures |r| == |ids|
  {
    if ids == [] then []
    else Outcomes(ids[..|ids| - 1], prev, nxt) + [Outcome(ids[|ids| - 1], prev, nxt)]
  }

  lemma {:induction false} OutcomesAt(ids: seq<string>, prev: Dataset, nxt: Dataset, i: nat)
    requires i < |ids|
    ensures Outcomes(ids, prev, nxt)[i] == Outcome(ids[i], prev, nxt)
  {
    if i < |ids| - 1 {
      OutcomesAt(ids[..|ids| - 1], prev, nxt, i);
    }
  }

  /** Every change among the outcomes carries the id of its position. */
  lemma OutcomesIds(ids: seq<string>, prev: Dataset, nxt: Dataset)
    ensures var os := Outcomes(ids, prev, nxt);
            forall k :: 0 <= k < |ids| && os[k].Some? ==> os[k].value.id == ids[k]
  {
    forall k | 0 <= k < |ids|
      ensures Outcomes(ids, prev, nxt)[k] == Outcome(ids[k], prev, nxt)
    {
      OutcomesAt(ids, prev, nxt, k);
    }
  }

  /** The reported changes, in order: the outcomes that are changes. */
  function Collect(outcomes: seq<Option<Change>>): (r: seq<Change>)
    ensures |r| <= |outcomes|
  {
    if outcomes == [] then []
    else
      var before := Collect(outcomes[..|outcomes| - 1]);
      match outcomes[|outcomes| - 1]
      case None => before
      case Some(c) => before + [c]
  }

  /** Changes in strictly ascending id order. */
  predicate IdsAscending(cs: seq<Change>)
  {
    forall i, j :: 0 <= i < j < |cs| ==> Less(cs[i].id, cs[j].id)
  }

  /** Every collected change is one of the outcomes. */
  lemma {:induction false} CollectFrom(outcomes: seq<Option<Change>>, c: Change) returns (k: nat)
    requires c in Collect(outcomes)
    ensures k < |outcomes| && outcomes[k] == Some(c)
  {
    var init := outcomes[..|outcomes| - 1];
    if c in Collect(init) {
      k := CollectFrom(init, c);
    } else {
      k := |outcomes| - 1;
    }
  }

  /** Every outcome that is a change is collected. */
  lemma {:induction false} CollectHas(outcomes: seq<Option<Change>>, k: nat)
    requires k < |outcomes| && outcomes[k].Some?
    ensures outcomes[k].value in Collect(outcomes)
  {
    if k < |outcomes| - 1 {
      var init := outcomes[..|outcomes| - 1];
      assert init[k] == outcomes[k];
      CollectHas(init, k);
    }
  }

  /** No outcome is a change: nothing is collected. */
  lemma {:induction false} CollectNone(outcomes: seq<Option<Change>>)
    requires forall k :: 0 <= k < |outcomes| ==> outcomes[k].None?
    ensures Collect(outcomes) == []
  {
    if outcomes != [] {
      CollectNone(outcomes[..|outcomes| - 1]);
    }
  }

  /** Changes that carry the id of their position, over ascending ids, are collected in ascending id order. */
  lemma {:induction false} CollectAscending(outcomes: seq<Option<Change>>, ids: seq<string>)
    requires |outcomes| == |ids| && StrictlyAscending(ids)
    requires forall k :: 0 <= k < |ids| && outcomes[k].Some? ==> outcomes[k].value.id == ids[k]
    ensures IdsAscending(Collect(outcomes))
  {
    if outcomes != [] {
      var init := outcomes[..|outcomes| - 1];
      var initIds := ids[..|ids| - 1];
      assert StrictlyAscending(initIds);
      CollectAscending(init, initIds);
      var before := Collect(init);
      var cs := Collect(outcomes);
      if outcomes[|outcomes| - 1].Some? {
        var last := outcomes[|outcomes| - 1].value;
        assert cs == before + [last];
        forall i | 0 <= i < |before| ensures Less(before[i].id, last.id) {
          var k := CollectFrom(init, before[i]);
          assert before[i].id == ids[k];
        }
        forall i, j | 0 <= i < j < |cs| ensures Less(cs[i].id, cs[j].id) {
          if j < |before| {
            assert cs[i] == before[i] && cs[j] == before[j];
          } else {
            assert cs[i] == before[i];
          }
        }
      }
    }
  }

  /** One more id appends its change, if it has one. */
  lemma CollectStep(ids: seq<string>, prev: Dataset, nxt: Dataset, i: nat)
    requires i < |ids|
    ensures var o := Outcome(ids[i], prev, nxt);
            Collect(Outcomes(ids[..i + 1], prev, nxt))
            == Collect(Outcomes(ids[..i], prev, nxt)) + (if o.Some? then [o.value] else [])
  {
    assert ids[..i + 1][..i] == ids[..i];
  }

  /** `diff_states`: the changes over the union of both id sets, in ascending id order. */
  ghost function DiffSpec(prev: Dataset, nxt: Dataset): seq<Change>
  {
    Collect(Outcomes(SortedSeq(prev.Keys + nxt.Keys), prev, nxt))
  }

  /** Comparing a dataset with itself reports nothing. */
  lemma DiffSelf(d: Dataset)
    ensures DiffSpec(d, d) == []
  {
    var ids := SortedSeq(d.Keys + d.Keys);
    var outcomes := Outcomes(ids, d, d);
    forall k | 0 <= k < |outcomes| ensures outcomes[k].None? {
      OutcomesAt(ids, d, d, k);
      var pid := ids[k];
      if pid in d {
        ChangeForNone(pid, d[pid], d[pid]);
      }
    }
    CollectNone(outcomes);
  }

  /** Reported ids are strictly ascending. */
  lemma DiffAscending(prev: Dataset, nxt: Dataset)
    ensures IdsAscending(DiffSpec(prev, nxt))
  {
    var ids := SortedSeq(prev.Keys + nxt.Keys);
    var outcomes := Outcomes(ids, prev, nxt);
    SortedSeqSpec(prev.Keys + nxt.Keys);
    OutcomesIds(ids, prev, nxt);
    CollectAscending(outcomes, ids);
  }

  /** Every reported change is the change of an id present in both datasets. */
  lemma DiffSound(prev: Dataset, nxt: Dataset, c: Change)
    requires c in DiffSpec(prev, nxt)
    ensures c.id in prev && c.id in nxt
    ensures ChangeFor(c.id, prev[c.id], nxt[c.id]) == Some(c)
  {
    var ids := SortedSeq(prev.Keys + nxt.Keys);
    var outcomes := Outcomes(ids, prev, nxt);
    var k := CollectFrom(outcomes, c);
    OutcomesAt(ids, prev, nxt, k);
  }

  /** An id present in both datasets whose records differ is reported. */
  lemma DiffComplete(prev: Dataset, nxt: Dataset, pid: string)
    requires pid in prev && pid in nxt && ChangeFor(pid, prev[pid], nxt[pid]).Some?
    ensures ChangeFor(pid, prev[pid], nxt[pid]).value in DiffSpec(prev, nxt)
  {
    var ids := SortedSeq(prev.Keys + nxt.Keys);
    var outcomes := Outcomes(ids, prev, nxt);
    SortedSeqSpec(prev.Keys + nxt.Keys);
    assert pid in Elems(ids);
    var k :| 0 <= k < |ids| && ids[k] == pid;
    OutcomesAt(ids, prev, nxt, k);
    CollectHas(outcomes, k);
  }

  /** An id missing on either side, a brand-new or a deleted protocol, is never reported. */
  lemma OnlySharedIdsReported(prev: Dataset, nxt: Dataset, pid: string)
    requires pid !in prev || pid !in nxt
    ensures forall c :: c in DiffSpec(prev, nxt) ==> c.id != pid
  {
    forall c | c in DiffSpec(prev, nxt) ensures c.id != pid {
      DiffSound(prev, nxt, c);
    }
  }

  /** Oracles `[a, b]` becoming `[b, c]`: `c` is added and `a` removed, nothing else. */
  lemma OracleSwapReported()
    ensures ChangeFor("p1", Record("p1", "P", "data.ts", ["a", "b"], []), Record("p1", "P", "data.ts", ["b", "c"], []))
            == Some(Change("p1", "P", "data.ts", ["c"], ["a"], []))
  {
    var a := Record("p1", "P", "data.ts", ["a", "b"], []);
    var b := Record("p1", "P", "data.ts", ["b", "c"], []);
    assert NameToType([]) == map[];
    assert Elems(b.oracles) - Elems(a.oracles) == {"c"};
    assert Elems(a.oracles) - Elems(b.oracles) == {"a"};
    assert Added(a, b) == {"c"} && Added(b, a) == {"a"} && Common(a, b) == {};
    SortedSingleton("c");
    SortedSingleton("a");
    SortedEmpty();
  }

  /** A breakdown entry whose type changes gives one type-change tuple and no added or removed name. */
  lemma TypeChangeReported()
    ensures ChangeFor("p1", Record("p1", "P", "data.ts", [], [BreakdownItem("Chainlink", "primary")]),
                      Record("p1", "P", "data.ts", [], [BreakdownItem("Chainlink", "secondary")]))
            == Some(Change("p1", "P", "data.ts", [], [], [TypeChange("Chainlink", "primary", "secondary")]))
  {
    var a := Record("p1", "P", "data.ts", [], [BreakdownItem("Chainlink", "primary")]);
    var b := Record("p1", "P", "data.ts", [], [BreakdownItem("Chainlink", "secondary")]);
    StripUnchanged("Chainlink");
    StripUnchanged("primary");
    StripUnchanged("secondary");
    assert [BreakdownItem("Chainlink", "primary")][..0] == [];
    assert [BreakdownItem("Chainlink", "secondary")][..0] == [];
    var before, after := NameToType(a.breakdown), NameToType(b.breakdown);
    assert before == map["Chainlink" := "primary"];
    assert after == map["Chainlink" := "secondary"];
    assert Added(a, b) == {} && Added(b, a) == {} && Common(a, b) == {"Chainlink"};
    SortedSingleton("Chainlink");
    SortedEmpty();
    assert TypeChanges(["Chainlink"], before, after) == [TypeChange("Chainlink", "primary", "secondary")] by {
      assert ["Chainlink"][1..] == [];
    }
  }

  /** The comparison of one record pair: sets, name-to-type maps, sorted lists, and the emptiness test. */
  method CompareRecords(pid: string, a: Record, b: Record) returns (c: Option<Change>)
    ensures c == ChangeFor(pid, a, b)
  {
    var before, after := NameToType(a.breakdown), NameToType(b.breakdown);
    var common := SortSet(before.Keys * after.Keys);
    var types := TypeChanges(common, before, after);
    var plus := SortSet((after.Keys - before.Keys) + (Elems(b.oracles) - Elems(a.oracles)));
    var minus := SortSet((before.Keys - after.Keys) + (Elems(a.oracles) - Elems(b.oracles)));
    c := ChangeIfAny(pid, a, b, plus, minus, types);
  }

  /** `diff_states`: walks the sorted union of ids and appends the change of every id present on both sides. */
  method DiffStates(prev: Dataset, nxt: Dataset) returns (changes: seq<Change>)
    ensures changes == DiffSpec(prev, nxt)
  {
    var ids := SortSet(prev.Keys + nxt.Keys);
    changes := [];
    for i := 0 to |ids|
      invariant changes == Collect(Outcomes(ids[..i], prev, nxt))
    {
      var pid := ids[i];
      CollectStep(ids, prev, nxt, i);
      if pid !in prev || pid !in nxt {
        continue;
      }
      var c := CompareRecords(pid, prev[pid], nxt[pid]);
      if c.Some? {
        changes := changes + [c.value];
      }
    }
    assert ids[..|ids|] == ids;
  }
}
