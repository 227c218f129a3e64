/**
 * Steps 2.1 and 2.3 of the algorithm: relations are bucketed by their left
 * operand x, and within a bucket ordered by priority p. Buckets appear in
 * the order their x is first seen; the order in which they are later
 * processed is chosen by the caller (`Arrange`).
 */
module Grouping {
  import opened Operands
  import opened Normalisation
  import opened Collation

  /** One `(p, y)` of a relation group. */
  datatype Entry = Entry(p: nat, y: PluginRef)

  /**
   * A relation group: x and the set of `(p, y)` of the relations `x <<p y`,
   * held as a sequence without repeats.
   */
  datatype RelationGroup = RelationGroup(x: PluginRef, entries: seq<Entry>)

  predicate SortedByPriority(es: seq<Entry>)
  {
    forall i, j :: 0 <= i < j < |es| ==> es[i].p <= es[j].p
  }

  /** No `(p, y)` occurs twice. */
  predicate DistinctEntries(es: seq<Entry>)
  {
    forall i, j :: 0 <= i < j < |es| ==> es[i] != es[j]
  }

  /** `e` placed after every entry whose priority is not above its own. */
  function InsertByPriority(es: seq<Entry>, e: Entry): (r: seq<Entry>)
    ensures multiset(r) == multiset(es) + multiset{e}
  {
    if es == [] || e.p < es[0].p then [e] + es
    else
      assert es == [es[0]] + es[1..];
      [es[0]] + InsertByPriority(es[1..], e)
  }

  /** An entry whose priority is not above any of a sorted run can go in front of it. */
  lemma SortedCons(h: Entry, rest: seq<Entry>)
    requires SortedByPriority(rest) && forall z :: z in rest ==> h.p <= z.p
    ensures SortedByPriority([h] + rest)
  {
    var r := [h] + rest;
    forall i, j | 0 <= i < j < |r| ensures r[i].p <= r[j].p {
      assert r[j] == rest[j - 1];
      if i > 0 { assert r[i] == rest[i - 1]; }
    }
  }

  lemma SortedTail(es: seq<Entry>)
    requires es != [] && SortedByPriority(es)
    ensures SortedByPriority(es[1..])
    ensures forall z :: z in es[1..] ==> es[0].p <= z.p
  {
    var tail := es[1..];
    forall i, j | 0 <= i < j < |tail| ensures tail[i].p <= tail[j].p {
      assert tail[i] == es[i + 1] && tail[j] == es[j + 1];
    }
    forall z | z in tail ensures es[0].p <= z.p {
      var j :| 0 <= j < |tail| && tail[j] == z;
      assert es[j + 1] == z;
    }
  }

  /**
   * `r` is `es` with `e` put in at position `k`: after every entry whose
   * priority is not above its own and before every entry of a higher one.
   */
  predicate PlacedAt(es: seq<Entry>, e: Entry, r: seq<Entry>, k: int)
  {
    && 0 <= k <= |es|
    && r == es[..k] + [e] + es[k..]
    && (forall j :: 0 <= j < k ==> es[j].p <= e.p)
    && (forall j :: k <= j < |es| ==> e.p < es[j].p)
  }

  /** Insertion puts `e` after the entries of its priority: equal priorities keep the order they were added in. */
  lemma {:induction false} InsertPosition(es: seq<Entry>, e: Entry)
    requires SortedByPriority(es)
    ensures exists k :: PlacedAt(es, e, InsertByPriority(es, e), k)
  {
    if es == [] || e.p < es[0].p {
      PlacedFirst(es, e);
    } else {
      var tail := es[1..];
      SortedTail(es);
      InsertPosition(tail, e);
      var k :| PlacedAt(tail, e, InsertByPriority(tail, e), k);
      PlacedLater(es, e, InsertByPriority(tail, e), k);
      assert InsertByPriority(es, e) == [es[0]] + InsertByPriority(tail, e);
      assert PlacedAt(es, e, InsertByPriority(es, e), k + 1);
    }
  }

  lemma PlacedFirst(es: seq<Entry>, e: Entry)
    requires SortedByPriority(es) && (es == [] || e.p < es[0].p)
    ensures PlacedAt(es, e, InsertByPriority(es, e), 0)
  {
    assert es[..0] == [] && es[0..] == es;
  }

  lemma PlacedLater(es: seq<Entry>, e: Entry, rest: seq<Entry>, k: int)
    requires es != [] && es[0].p <= e.p && PlacedAt(es[1..], e, rest, k)
    ensures PlacedAt(es, e, [es[0]] + rest, k + 1)
  {
    var tail := es[1..];
    assert es[..k + 1] == [es[0]] + tail[..k];
    assert es[k + 1..] == tail[k..];
    forall j | 0 <= j < k + 1 ensures es[j].p <= e.p {
      if j > 0 { assert es[j] == tail[j - 1]; }
    }
    forall j | k + 1 <= j < |es| ensures e.p < es[j].p {
      assert es[j] == tail[j - 1];
    }
  }

  lemma ConsDistinctEntries(h: Entry, rest: seq<Entry>)
    requires DistinctEntries(rest) && h !in rest
    ensures DistinctEntries([h] + rest)
  {
    var r := [h] + rest;
    forall i, j | 0 <= i < j < |r| ensures r[i] != r[j] {
      assert r[j] == rest[j - 1];
      if i > 0 { assert r[i] == rest[i - 1]; }
    }
  }

  /** Inserting an entry not yet present keeps the entries free of repeats. */
  lemma {:induction false} InsertKeepsDistinct(es: seq<Entry>, e: Entry)
    requires DistinctEntries(es) && e !in es
    ensures DistinctEntries(InsertByPriority(es, e))
  {
    if es == [] || e.p < es[0].p {
      ConsDistinctEntries(e, es);
    } else {
      var tail := es[1..];
      assert es == [es[0]] + tail;
      assert DistinctEntries(tail) by {
        forall i, j | 0 <= i < j < |tail| ensures tail[i] != tail[j] {
          assert tail[i] == es[i + 1] && tail[j] == es[j + 1];
        }
      }
      assert es[0] !in tail by {
        forall j | 0 <= j < |tail| ensures tail[j] != es[0] {
          assert tail[j] == es[j + 1];
        }
      }
      InsertKeepsDistinct(tail, e);
      var rest := InsertByPriority(tail, e);
      assert es[0] !in rest by {
        assert es[0] !in multiset(tail) + multiset{e};
      }
      ConsDistinctEntries(es[0], rest);
    }
  }

  /** Insertion keeps a group sorted by priority. */
  lemma {:induction false} InsertKeepsSorted(es: seq<Entry>, e: Entry)
    requires SortedByPriority(es)
    ensures SortedByPriority(InsertByPriority(es, e))
  {
    if es != [] && e.p >= es[0].p {
      var tail := es[1..];
      SortedTail(es);
      InsertKeepsSorted(tail, e);
      var rest := InsertByPriority(tail, e);
      forall z | z in rest ensures es[0].p <= z.p {
        assert z in multiset(tail) + multiset{e};
      }
      SortedCons(es[0], rest);
    }
  }

  function Ys(es: seq<Entry>): seq<PluginRef>
  {
    seq(|es|, k requires 0 <= k < |es| => es[k].y)
  }

  /** The relations a group stands for, in entry order. */
  function Expand(x: PluginRef, es: seq<Entry>): seq<Relation>
  {
    if es == [] then [] else [Relation(x, es[0].p, es[0].y)] + Expand(x, es[1..])
  }

  lemma {:induction false} ExpandInsert(x: PluginRef, es: seq<Entry>, e: Entry)
    ensures multiset(Expand(x, InsertByPriority(es, e))) == multiset(Expand(x, es)) + multiset{Relation(x, e.p, e.y)}
  {
    if es == [] || e.p < es[0].p {
      assert ([e] + es)[1..] == es;
    } else {
      ExpandInsert(x, es[1..], e);
      assert ([es[0]] + InsertByPriority(es[1..], e))[1..] == InsertByPriority(es[1..], e);
    }
  }

  lemma {:induction false} InExpand(x: PluginRef, es: seq<Entry>, r: Relation)
    ensures r in Expand(x, es) <==> r.x == x && Entry(r.p, r.y) in es
  {
    if es != [] {
      InExpand(x, es[1..], r);
      assert es == [es[0]] + es[1..];
    }
  }

  /** Every relation of every group, group after group. */
  function Flatten(gs: seq<RelationGroup>): seq<Relation>
  {
    if gs == [] then [] else Expand(gs[0].x, gs[0].entries) + Flatten(gs[1..])
  }

  lemma {:induction false} InFlatten(gs: seq<RelationGroup>, r: Relation)
    ensures r in Flatten(gs) <==> exists i :: 0 <= i < |gs| && gs[i].x == r.x && Entry(r.p, r.y) in gs[i].entries
  {
    if gs != [] {
      InFlatten(gs[1..], r);
      InExpand(gs[0].x, gs[0].entries, r);
      if r in Flatten(gs[1..]) {
        var i :| 0 <= i < |gs[1..]| && gs[1..][i].x == r.x && Entry(r.p, r.y) in gs[1..][i].entries;
        assert gs[i + 1] == gs[1..][i];
      }
      if exists i :: 0 <= i < |gs| && gs[i].x == r.x && Entry(r.p, r.y) in gs[i].entries {
        var i :| 0 <= i < |gs| && gs[i].x == r.x && Entry(r.p, r.y) in gs[i].entries;
        if i > 0 {
          assert gs[1..][i - 1] == gs[i];
        }
      }
    }
  }

  function Keys(gs: seq<RelationGroup>): set<PluginRef>
  {
    set g | g in gs :: g.x
  }

  /** No two groups share a key. */
  predicate KeysDistinct(gs: seq<RelationGroup>)
  {
    NoDuplicates(KeySeq(gs))
  }

  /** The entries of a well-formed group: at least one, none twice, in priority order. */
  predicate GoodEntries(es: seq<Entry>)
  {
    es != [] && SortedByPriority(es) && DistinctEntries(es)
  }

  /** Distinct keys, and each group non-empty, sorted by priority and free of repeats. */
  predicate WellGrouped(gs: seq<RelationGroup>)
  {
    && KeysDistinct(gs)
    && forall i :: 0 <= i < |gs| ==> GoodEntries(gs[i].entries)
  }

  /** Distinct keys, group by group. */
  lemma KeysDistinctMeans(gs: seq<RelationGroup>)
    ensures KeysDistinct(gs) <==> forall i, j :: 0 <= i < j < |gs| ==> gs[i].x != gs[j].x
  {
    assert forall i :: 0 <= i < |gs| ==> KeySeq(gs)[i] == gs[i].x;
  }

  /** The first group's key does not occur again. */
  lemma HeadKeyUnique(gs: seq<RelationGroup>)
    requires gs != [] && KeysDistinct(gs)
    ensures gs[0].x !in Keys(gs[1..])
    ensures KeysDistinct(gs[1..])
  {
    KeysDistinctMeans(gs);
    KeysDistinctMeans(gs[1..]);
    forall g | g in gs[1..] ensures g.x != gs[0].x {
      var j :| 0 <= j < |gs[1..]| && gs[1..][j] == g;
      assert gs[j + 1] == g;
    }
  }

  lemma KeysOfAppend(a: seq<RelationGroup>, b: seq<RelationGroup>)
    ensures Keys(a + b) == Keys(a) + Keys(b)
  {
    assert forall h :: h in a + b <==> h in a || h in b;
  }

  /** Two runs of groups with distinct keys and no key in common form one. */
  lemma AppendDistinct(a: seq<RelationGroup>, b: seq<RelationGroup>)
    requires KeysDistinct(a) && KeysDistinct(b) && Keys(a) !! Keys(b)
    ensures KeysDistinct(a + b)
  {
    var r := a + b;
    KeysDistinctMeans(a);
    KeysDistinctMeans(b);
    KeysDistinctMeans(r);
    forall i, j | 0 <= i < j < |r| ensures r[i].x != r[j].x {
      if j >= |a| {
        assert r[j] == b[j - |a|];
        if i >= |a| {
          assert r[i] == b[i - |a|];
        } else {
          assert r[i] == a[i] && a[i].x in Keys(a) && b[j - |a|].x in Keys(b);
        }
      }
    }
  }

  lemma KeysOfCons(g: RelationGroup, gs: seq<RelationGroup>)
    ensures Keys([g] + gs) == {g.x} + Keys(gs)
  {
    assert forall h :: h in [g] + gs <==> h == g || h in gs;
  }

  /** Prepending a group whose key is new keeps the keys distinct. */
  lemma ConsDistinct(g: RelationGroup, gs: seq<RelationGroup>)
    requires KeysDistinct(gs) && g.x !in Keys(gs)
    ensures KeysDistinct([g] + gs)
  {
    var r := [g] + gs;
    KeysDistinctMeans(gs);
    KeysDistinctMeans(r);
    forall i, j | 0 <= i < j < |r| ensures r[i].x != r[j].x {
      assert r[j] == gs[j - 1];
      if i > 0 { assert r[i] == gs[i - 1]; } else { assert gs[j - 1] in gs; }
    }
  }

  lemma {:induction false} ConsWellGrouped(g: RelationGroup, gs: seq<RelationGroup>)
    requires WellGrouped(gs) && g.x !in Keys(gs)
    requires GoodEntries(g.entries)
    ensures WellGrouped([g] + gs)
  {
    ConsDistinct(g, gs);
    var r := [g] + gs;
    forall i | 0 <= i < |r| ensures GoodEntries(r[i].entries) {
      if i > 0 { assert r[i] == gs[i - 1]; }
    }
  }

  /**
   * `r` added to the group of its x, or to a new group at the end when x has
   * none; a group is a set, so a `(p, y)` it already holds is not added again.
   */
  function AddRelation(gs: seq<RelationGroup>, r: Relation): seq<RelationGroup>
  {
    var e := Entry(r.p, r.y);
    if gs == [] then [RelationGroup(r.x, [e])]
    else if gs[0].x == r.x then
      if e in gs[0].entries then gs
      else [RelationGroup(r.x, InsertByPriority(gs[0].entries, e))] + gs[1..]
    else [gs[0]] + AddRelation(gs[1..], r)
  }

  lemma FlattenCons(g: RelationGroup, gs: seq<RelationGroup>)
    ensures Flatten([g] + gs) == Expand(g.x, g.entries) + Flatten(gs)
  {
    assert ([g] + gs)[1..] == gs;
  }

  /** Adding a relation adds its x to the keys, and no other key. */
  lemma {:induction false} AddRelationKeys(gs: seq<RelationGroup>, r: Relation)
    ensures Keys(AddRelation(gs, r)) == Keys(gs) + {r.x}
  {
    if gs != [] {
      KeysOfCons(gs[0], gs[1..]);
      assert gs == [gs[0]] + gs[1..];
      var e := Entry(r.p, r.y);
      if gs[0].x == r.x {
        if e !in gs[0].entries {
          KeysOfCons(RelationGroup(r.x, InsertByPriority(gs[0].entries, e)), gs[1..]);
        }
      } else {
        AddRelationKeys(gs[1..], r);
        KeysOfCons(gs[0], AddRelation(gs[1..], r));
      }
    }
  }

  /** Adding a relation keeps keys distinct and every group non-empty, sorted and free of repeats. */
  lemma {:induction false} AddRelationWellGrouped(gs: seq<RelationGroup>, r: Relation)
    requires WellGrouped(gs)
    ensures WellGrouped(AddRelation(gs, r))
  {
    if gs != [] {
      HeadKeyUnique(gs);
      assert WellGrouped(gs[1..]) by {
        forall i | 0 <= i < |gs[1..]| ensures GoodEntries(gs[1..][i].entries) {
          assert gs[1..][i] == gs[i + 1];
        }
      }
      var e := Entry(r.p, r.y);
      if gs[0].x == r.x {
        if e !in gs[0].entries {
          var inserted := InsertByPriority(gs[0].entries, e);
          InsertKeepsSorted(gs[0].entries, e);
          InsertKeepsDistinct(gs[0].entries, e);
          assert inserted != [] by {
            assert e in multiset(inserted);
          }
          ConsWellGrouped(RelationGroup(r.x, inserted), gs[1..]);
        }
      } else {
        AddRelationWellGrouped(gs[1..], r);
        AddRelationKeys(gs[1..], r);
        ConsWellGrouped(gs[0], AddRelation(gs[1..], r));
      }
    }
  }

  /** What adding `r` adds to the flattened groups: `r` itself, unless it is there already. */
  function Added(rs: seq<Relation>, r: Relation): multiset<Relation>
  {
    if r in rs then multiset{} else multiset{r}
  }

  /** Adding a relation adds it to the flattened groups once, and not again when it is there. */
  lemma {:induction false} AddRelationFlatten(gs: seq<RelationGroup>, r: Relation)
    requires KeysDistinct(gs)
    ensures multiset(Flatten(AddRelation(gs, r))) == multiset(Flatten(gs)) + Added(Flatten(gs), r)
  {
    var e := Entry(r.p, r.y);
    if gs == [] {
      var g := RelationGroup(r.x, [e]);
      FlattenCons(g, []);
      assert Expand(r.x, [e]) == [r];
    } else if gs[0].x == r.x {
      InFlatten(gs, r);
      if e in gs[0].entries {
        assert r in Flatten(gs);
      } else {
        assert r !in Flatten(gs) by {
          KeysDistinctMeans(gs);
          forall i | 0 <= i < |gs| && gs[i].x == r.x ensures e !in gs[i].entries {
            assert i == 0;
          }
        }
        AddToFirstGroup(gs, r);
      }
    } else {
      HeadKeyUnique(gs);
      AddRelationFlatten(gs[1..], r);
      AddPastFirstGroup(gs, r);
    }
  }

  lemma AddToFirstGroup(gs: seq<RelationGroup>, r: Relation)
    requires gs != [] && gs[0].x == r.x && Entry(r.p, r.y) !in gs[0].entries
    ensures multiset(Flatten(AddRelation(gs, r))) == multiset(Flatten(gs)) + multiset{r}
  {
    var e := Entry(r.p, r.y);
    var inserted := InsertByPriority(gs[0].entries, e);
    assert AddRelation(gs, r) == [RelationGroup(r.x, inserted)] + gs[1..];
    assert gs == [gs[0]] + gs[1..];
    ExpandInsert(r.x, gs[0].entries, e);
    FlattenCons(RelationGroup(r.x, inserted), gs[1..]);
    FlattenCons(gs[0], gs[1..]);
  }

  lemma AddPastFirstGroup(gs: seq<RelationGroup>, r: Relation)
    requires gs != [] && gs[0].x != r.x
    requires multiset(Flatten(AddRelation(gs[1..], r))) == multiset(Flatten(gs[1..])) + Added(Flatten(gs[1..]), r)
    ensures multiset(Flatten(AddRelation(gs, r))) == multiset(Flatten(gs)) + Added(Flatten(gs), r)
  {
    assert AddRelation(gs, r) == [gs[0]] + AddRelation(gs[1..], r);
    FlattenCons(gs[0], AddRelation(gs[1..], r));
    FlattenPastFirst(gs, r);
  }

  lemma FlattenPastFirst(gs: seq<RelationGroup>, r: Relation)
    requires gs != [] && gs[0].x != r.x
    ensures Flatten(gs) == Expand(gs[0].x, gs[0].entries) + Flatten(gs[1..])
    ensures Added(Flatten(gs), r) == Added(Flatten(gs[1..]), r)
  {
    assert gs == [gs[0]] + gs[1..];
    FlattenCons(gs[0], gs[1..]);
    InExpand(gs[0].x, gs[0].entries, r);
  }

  /** Adding a relation the groups already hold changes nothing. */
  lemma {:induction false} AddPresentUnchanged(gs: seq<RelationGroup>, r: Relation)
    requires KeysDistinct(gs) && r in Flatten(gs)
    ensures AddRelation(gs, r) == gs
  {
    InFlatten(gs, r);
    var i :| 0 <= i < |gs| && gs[i].x == r.x && Entry(r.p, r.y) in gs[i].entries;
    if gs[0].x != r.x {
      HeadKeyUnique(gs);
      InExpand(gs[0].x, gs[0].entries, r);
      FlattenCons(gs[0], gs[1..]);
      assert gs == [gs[0]] + gs[1..];
      AddPresentUnchanged(gs[1..], r);
    } else {
      KeysDistinctMeans(gs);
      assert i == 0;
    }
  }

  /** Each relation once: the set of the relations, counted as a multiset. */
  lemma AddOnce(rels: seq<Relation>, r: Relation)
    ensures multiset(set q | q in rels + [r]) == multiset(set q | q in rels) + Added(rels, r)
  {
    var before := set q | q in rels;
    var after := set q | q in rels + [r];
    assert after == before + {r};
    if r !in rels {
      assert r !in before;
      assert multiset(after) == multiset(before) + multiset{r} by {
        forall q ensures multiset(after)[q] == (multiset(before) + multiset{r})[q] {
          if q == r { assert q !in before; }
        }
      }
    } else {
      assert after == before;
    }
  }

  /**
   * Step 2.1: the relation groups of a component's relations, keys in
   * first-seen order; each relation is held once, however often it is written.
   */
  function GroupRelations(rels: seq<Relation>): (gs: seq<RelationGroup>)
    ensures WellGrouped(gs)
    ensures Keys(gs) == set r | r in rels :: r.x
    ensures multiset(Flatten(gs)) == multiset(set r | r in rels)
  {
    if rels == [] then []
    else
      var front := rels[..|rels| - 1];
      var last := rels[|rels| - 1];
      assert rels == front + [last];
      assert (set r | r in rels :: r.x) == (set r | r in front :: r.x) + {last.x};
      var before := GroupRelations(front);
      AddRelationWellGrouped(before, last);
      AddRelationKeys(before, last);
      AddRelationFlatten(before, last);
      assert last in Flatten(before) <==> last in front by {
        assert last in Flatten(before) <==> last in multiset(set r | r in front);
      }
      assert Added(Flatten(before), last) == Added(front, last);
      AddOnce(front, last);
      AddRelation(before, last)
  }

  /**
   * Grouping is a partition: each relation written is in the one group keyed
   * by its x, once however often it is written, and nothing else is in any group.
   */
  lemma {:induction false} GroupingIsPartition(rels: seq<Relation>, r: Relation)
    ensures var gs := GroupRelations(rels);
      && multiset(Flatten(gs))[r] == (if r in rels then 1 else 0)
      && (r in rels <==> exists i :: 0 <= i < |gs| && gs[i].x == r.x && Entry(r.p, r.y) in gs[i].entries)
      && forall i, j :: 0 <= i < |gs| && 0 <= j < |gs| && gs[i].x == r.x && gs[j].x == r.x ==> i == j
  {
    var gs := GroupRelations(rels);
    KeysDistinctMeans(gs);
    InFlatten(gs, r);
    assert r in rels <==> r in (set q | q in rels);
    assert r in Flatten(gs) <==> r in multiset(Flatten(gs));
  }

  /** A relation written again adds nothing to the groups. */
  lemma RepeatedRelationIgnored(rels: seq<Relation>, r: Relation)
    requires r in rels
    ensures GroupRelations(rels + [r]) == GroupRelations(rels)
  {
    var gs := GroupRelations(rels);
    assert (rels + [r])[..|rels|] == rels;
    assert r in Flatten(gs) by {
      assert r in multiset(set q | q in rels);
    }
    AddPresentUnchanged(gs, r);
  }

  // ----- the order of equal priorities -----

  /** The entries of priority `p`, in order. */
  function AtPriority(es: seq<Entry>, p: nat): seq<Entry>
  {
    if es == [] then [] else (if es[0].p == p then [es[0]] else []) + AtPriority(es[1..], p)
  }

  /** The entries of the group keyed `x`, none when there is no such group. */
  function GroupOf(gs: seq<RelationGroup>, x: PluginRef): seq<Entry>
  {
    if gs == [] then [] else if gs[0].x == x then gs[0].entries else GroupOf(gs[1..], x)
  }

  /** The successors of `x` written with priority `p`, each once, in the order first written. */
  function FirstWritten(rels: seq<Relation>, x: PluginRef, p: nat): seq<Entry>
  {
    if rels == [] then []
    else
      var earlier := FirstWritten(rels[..|rels| - 1], x, p);
      var r := rels[|rels| - 1];
      if r.x == x && r.p == p && Entry(p, r.y) !in earlier then earlier + [Entry(p, r.y)] else earlier
  }

  lemma {:induction false} InAtPriority(es: seq<Entry>, e: Entry)
    ensures e in AtPriority(es, e.p) <==> e in es
  {
    if es != [] {
      InAtPriority(es[1..], e);
      assert es == [es[0]] + es[1..];
    }
  }

  lemma {:induction false} AtPriorityAbove(es: seq<Entry>, p: nat)
    requires SortedByPriority(es) && (es == [] || p < es[0].p)
    ensures AtPriority(es, p) == []
  {
    if es != [] {
      SortedTail(es);
      if es[1..] != [] {
        assert es[1..][0] in es[1..];
      }
      AtPriorityAbove(es[1..], p);
    }
  }

  /** Inserting into a sorted group puts the new entry last among those of its priority. */
  lemma {:induction false} AtPriorityInsert(es: seq<Entry>, e: Entry, p: nat)
    requires SortedByPriority(es)
    ensures AtPriority(InsertByPriority(es, e), p) == AtPriority(es, p) + (if e.p == p then [e] else [])
  {
    if es == [] || e.p < es[0].p {
      var r := [e] + es;
      assert r[1..] == es;
      if e.p == p {
        AtPriorityAbove(es, p);
      }
    } else {
      SortedTail(es);
      AtPriorityInsert(es[1..], e, p);
      var r := [es[0]] + InsertByPriority(es[1..], e);
      assert r[1..] == InsertByPriority(es[1..], e);
    }
  }

  /** How adding a relation changes the group of a key. */
  lemma {:induction false} GroupOfAdd(gs: seq<RelationGroup>, r: Relation, x: PluginRef)
    ensures var e := Entry(r.p, r.y);
      GroupOf(AddRelation(gs, r), x) ==
        if r.x != x || e in GroupOf(gs, x) then GroupOf(gs, x) else InsertByPriority(GroupOf(gs, x), e)
  {
    if gs != [] && gs[0].x != r.x {
      GroupOfAdd(gs[1..], r, x);
      assert AddRelation(gs, r)[1..] == AddRelation(gs[1..], r);
    }
  }

  lemma {:induction false} GroupOfSorted(gs: seq<RelationGroup>, x: PluginRef)
    requires WellGrouped(gs)
    ensures SortedByPriority(GroupOf(gs, x))
  {
    if gs != [] && gs[0].x != x {
      HeadKeyUnique(gs);
      assert WellGrouped(gs[1..]) by {
        forall i | 0 <= i < |gs[1..]| ensures GoodEntries(gs[1..][i].entries) {
          assert gs[1..][i] == gs[i + 1];
        }
      }
      GroupOfSorted(gs[1..], x);
    }
  }

  /** With distinct keys, the group of a key is the one group with that key. */
  lemma {:induction false} GroupOfKey(gs: seq<RelationGroup>, i: nat)
    requires KeysDistinct(gs) && i < |gs|
    ensures GroupOf(gs, gs[i].x) == gs[i].entries
  {
    if i > 0 {
      HeadKeyUnique(gs);
      assert gs[i] == gs[1..][i - 1];
      assert gs[0].x != gs[i].x;
      GroupOfKey(gs[1..], i - 1);
    }
  }

  /** Step 2.1's tie order: the entries of priority p are the successors first written with p, in written order. */
  lemma {:induction false} TiesInWrittenOrder(rels: seq<Relation>, x: PluginRef, p: nat)
    ensures AtPriority(GroupOf(GroupRelations(rels), x), p) == FirstWritten(rels, x, p)
  {
    if rels != [] {
      var front := rels[..|rels| - 1];
      var last := rels[|rels| - 1];
      var gs := GroupRelations(front);
      var g := GroupOf(gs, x);
      var e := Entry(last.p, last.y);
      TiesInWrittenOrder(front, x, p);
      assert GroupRelations(rels) == AddRelation(gs, last);
      GroupOfAdd(gs, last, x);
      GroupOfSorted(gs, x);
      InAtPriority(g, e);
      if last.x == x && e !in g {
        AtPriorityInsert(g, e, p);
      }
    }
  }

  /** The same, for the group of a key of the groups. */
  lemma TiesInGroup(rels: seq<Relation>, i: nat, p: nat)
    requires i < |GroupRelations(rels)|
    ensures var g := GroupRelations(rels)[i];
      AtPriority(g.entries, p) == FirstWritten(rels, g.x, p)
  {
    GroupOfKey(GroupRelations(rels), i);
    TiesInWrittenOrder(rels, GroupRelations(rels)[i].x, p);
  }

  // ----- the processing order of groups -----

  function Select(gs: seq<RelationGroup>, k: PluginRef): seq<RelationGroup>
  {
    if gs == [] then [] else (if gs[0].x == k then [gs[0]] else []) + Select(gs[1..], k)
  }

  function Without(gs: seq<RelationGroup>, k: PluginRef): seq<RelationGroup>
  {
    if gs == [] then [] else (if gs[0].x != k then [gs[0]] else []) + Without(gs[1..], k)
  }

  lemma {:induction false} SelectWithoutSplit(gs: seq<RelationGroup>, k: PluginRef)
    ensures multiset(Select(gs, k)) + multiset(Without(gs, k)) == multiset(gs)
  {
    if gs != [] {
      SelectWithoutSplit(gs[1..], k);
      assert gs == [gs[0]] + gs[1..];
    }
  }

  lemma {:induction false} SelectKeys(gs: seq<RelationGroup>, k: PluginRef)
    ensures forall g :: g in Select(gs, k) ==> g.x == k
    ensures k !in Keys(gs) ==> Select(gs, k) == []
    ensures KeysDistinct(gs) ==> |Select(gs, k)| <= 1
    ensures KeysDistinct(gs) && k in Keys(gs) ==> |Select(gs, k)| == 1
  {
    if gs != [] {
      SelectKeys(gs[1..], k);
      KeysOfCons(gs[0], gs[1..]);
      assert gs == [gs[0]] + gs[1..];
      if KeysDistinct(gs) {
        HeadKeyUnique(gs);
      }
    }
  }

  lemma {:induction false} WithoutKeys(gs: seq<RelationGroup>, k: PluginRef)
    ensures Keys(Without(gs, k)) == Keys(gs) - {k}
    ensures KeysDistinct(gs) ==> KeysDistinct(Without(gs, k))
  {
    WithoutKeySet(gs, k);
    if KeysDistinct(gs) {
      WithoutDistinct(gs, k);
    }
  }

  lemma {:induction false} WithoutKeySet(gs: seq<RelationGroup>, k: PluginRef)
    ensures Keys(Without(gs, k)) == Keys(gs) - {k}
  {
    if gs != [] {
      WithoutKeySet(gs[1..], k);
      KeysOfCons(gs[0], gs[1..]);
      assert gs == [gs[0]] + gs[1..];
      var rest := Without(gs[1..], k);
      assert Keys(gs) - {k} == ({gs[0].x} - {k}) + (Keys(gs[1..]) - {k});
      if gs[0].x != k {
        assert Without(gs, k) == [gs[0]] + rest;
        KeysOfCons(gs[0], rest);
      } else {
        assert {gs[0].x} - {k} == {};
        assert Without(gs, k) == [] + rest;
        assert [] + rest == rest;
      }
    }
  }

  lemma {:induction false} WithoutDistinct(gs: seq<RelationGroup>, k: PluginRef)
    requires KeysDistinct(gs)
    ensures KeysDistinct(Without(gs, k))
  {
    if gs != [] {
      HeadKeyUnique(gs);
      WithoutDistinct(gs[1..], k);
      if gs[0].x != k {
        WithoutKeySet(gs[1..], k);
        ConsDistinct(gs[0], Without(gs[1..], k));
      } else {
        assert Without(gs, k) == [] + Without(gs[1..], k);
        assert [] + Without(gs[1..], k) == Without(gs[1..], k);
      }
    }
  }

  function KeySeq(gs: seq<RelationGroup>): seq<PluginRef>
  {
    seq(|gs|, i requires 0 <= i < |gs| => gs[i].x)
  }

  /**
   * The groups rearranged: the groups of the keys listed in `order` first,
   * in that order, then the others in their first-seen order.
   */
  function Arrange(gs: seq<RelationGroup>, order: seq<PluginRef>): (r: seq<RelationGroup>)
    ensures multiset(r) == multiset(gs)
    decreases |order|
  {
    if order == [] then gs
    else
      SelectWithoutSplit(gs, order[0]);
      Select(gs, order[0]) + Arrange(Without(gs, order[0]), order[1..])
  }

  /** Arranging keeps the keys, and keeps them distinct. */
  lemma ArrangeKeys(gs: seq<RelationGroup>, order: seq<PluginRef>)
    ensures Keys(Arrange(gs, order)) == Keys(gs)
    ensures KeysDistinct(gs) ==> KeysDistinct(Arrange(gs, order))
  {
    ArrangeKeySet(gs, order);
    if KeysDistinct(gs) {
      ArrangeDistinct(gs, order);
    }
  }

  /** The groups taken out for key `k` are those with key `k`. */
  lemma {:induction false} SelectKeySet(gs: seq<RelationGroup>, k: PluginRef)
    ensures Keys(Select(gs, k)) == Keys(gs) * {k}
  {
    if gs != [] {
      SelectKeySet(gs[1..], k);
      KeysOfCons(gs[0], gs[1..]);
      assert gs == [gs[0]] + gs[1..];
      var rest := Select(gs[1..], k);
      assert Keys(gs) * {k} == ({gs[0].x} * {k}) + (Keys(gs[1..]) * {k});
      if gs[0].x == k {
        assert Select(gs, k) == [gs[0]] + rest;
        KeysOfCons(gs[0], rest);
      } else {
        assert {gs[0].x} * {k} == {};
        assert Select(gs, k) == [] + rest;
        assert [] + rest == rest;
      }
    }
  }

  lemma {:induction false} ArrangeKeySet(gs: seq<RelationGroup>, order: seq<PluginRef>)
    ensures Keys(Arrange(gs, order)) == Keys(gs)
    decreases |order|
  {
    if order != [] {
      var k := order[0];
      var w := Without(gs, k);
      ArrangeKeySet(w, order[1..]);
      SelectKeySet(gs, k);
      WithoutKeySet(gs, k);
      KeysOfAppend(Select(gs, k), Arrange(w, order[1..]));
    }
  }

  lemma {:induction false} ArrangeDistinct(gs: seq<RelationGroup>, order: seq<PluginRef>)
    requires KeysDistinct(gs)
    ensures KeysDistinct(Arrange(gs, order))
    decreases |order|
  {
    if order != [] {
      var k := order[0];
      var here := Select(gs, k);
      var w := Without(gs, k);
      WithoutDistinct(gs, k);
      ArrangeDistinct(w, order[1..]);
      ArrangeKeySet(w, order[1..]);
      SelectKeys(gs, k);
      SelectKeySet(gs, k);
      WithoutKeySet(gs, k);
      AppendDistinct(here, Arrange(w, order[1..]));
    }
  }

  lemma OrderTail(order: seq<PluginRef>)
    requires order != [] && NoDuplicates(order)
    ensures NoDuplicates(order[1..])
    ensures (set z | z in order[1..]) == (set z | z in order) - {order[0]}
  {
    forall z | z in order[1..] ensures z != order[0] {
      var j :| 0 <= j < |order[1..]| && order[1..][j] == z;
      assert order[j + 1] == z;
    }
    assert forall z :: z in order <==> z == order[0] || z in order[1..] by {
      assert order == [order[0]] + order[1..];
    }
  }

  lemma NoKeysNoGroups(gs: seq<RelationGroup>)
    ensures Keys(gs) == {} ==> gs == []
  {
    if gs != [] {
      assert gs[0].x in Keys(gs);
    }
  }

  lemma KeySeqOfSingleAppend(g: RelationGroup, rest: seq<RelationGroup>)
    ensures KeySeq([g] + rest) == [g.x] + KeySeq(rest)
  {
  }

  /** When `order` lists every key once, the groups are processed exactly in that order. */
  lemma {:induction false} ArrangeFollowsOrder(gs: seq<RelationGroup>, order: seq<PluginRef>)
    requires KeysDistinct(gs) && NoDuplicates(order)
    requires (set k | k in order) == Keys(gs)
    ensures KeySeq(Arrange(gs, order)) == order
    decreases |order|
  {
    if order == [] {
      NoKeysNoGroups(gs);
    } else {
      var k := order[0];
      var w := Without(gs, k);
      assert k in Keys(gs) by { assert k in order; }
      SelectSingle(gs, k);
      WithoutKeySet(gs, k);
      WithoutDistinct(gs, k);
      OrderTail(order);
      ArrangeFollowsOrder(w, order[1..]);
      KeySeqOfSingleAppend(Select(gs, k)[0], Arrange(w, order[1..]));
      assert order == [k] + order[1..];
    }
  }

  /** With distinct keys, a present key selects exactly one group. */
  lemma SelectSingle(gs: seq<RelationGroup>, k: PluginRef)
    requires KeysDistinct(gs) && k in Keys(gs)
    ensures |Select(gs, k)| == 1 && Select(gs, k)[0].x == k
  {
    SelectKeys(gs, k);
    assert Select(gs, k)[0] in Select(gs, k);
  }

  /** The key sequence lists exactly the keys of the groups. */
  lemma KeySeqIsKeys(gs: seq<RelationGroup>)
    ensures forall z :: z in KeySeq(gs) <==> z in Keys(gs)
  {
    forall g | g in gs ensures g.x in KeySeq(gs) {
      var i :| 0 <= i < |gs| && gs[i] == g;
      assert KeySeq(gs)[i] == g.x;
    }
    forall k | k in KeySeq(gs) ensures k in Keys(gs) {
      var i :| 0 <= i < |gs| && KeySeq(gs)[i] == k;
      assert gs[i] in gs;
    }
  }

  /**
   * The groups sorted by their key, as steps 2.1 and 2.3 order them; each
   * group is carried over whole, with its entries.
   */
  function SortGroups(gs: seq<RelationGroup>): (r: seq<RelationGroup>)
    requires KeysDistinct(gs)
    ensures multiset(r) == multiset(gs)
    ensures KeysDistinct(r) && Keys(r) == Keys(gs)
    ensures Ascending(KeySeq(r))
  {
    KeySeqIsKeys(gs);
    var order := SortKeys(KeySeq(gs));
    AscendingHasNoDuplicates(order);
    assert (set k | k in order) == Keys(gs) by {
      assert forall k :: k in order <==> k in multiset(KeySeq(gs));
    }
    ArrangeKeys(gs, order);
    ArrangeFollowsOrder(gs, order);
    Arrange(gs, order)
  }

  /** Sorting keeps every group as it is, so well-formed groups stay well-formed. */
  lemma SortKeepsWellGrouped(gs: seq<RelationGroup>)
    requires WellGrouped(gs)
    ensures WellGrouped(SortGroups(gs))
    ensures forall g :: g in SortGroups(gs) <==> g in gs
  {
    var r := SortGroups(gs);
    assert forall g :: g in r <==> g in multiset(gs);
    forall i | 0 <= i < |r| ensures GoodEntries(r[i].entries) {
      assert r[i] in r;
      var j :| 0 <= j < |gs| && gs[j] == r[i];
    }
  }
}
