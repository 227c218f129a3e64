/**
 * The order in which relation groups are sorted by their left operand
 * (steps 2.1 and 2.3): (theme, plugin) pairs compare theme first, then
 * plugin, each by character code; HEAD sorts before every plugin and TAIL
 * after every plugin.
 */
module Collation {
  import opened Operands

  /** Lexicographic order on strings, by character code; a proper prefix comes first. */
  predicate StrLess(a: string, b: string)
  {
    if a == [] then b != []
    else b != [] && (a[0] < b[0] || (a[0] == b[0] && StrLess(a[1..], b[1..])))
  }

  lemma {:induction false} StrLessIrreflexive(a: string)
    ensures !StrLess(a, a)
  {
    if a != [] {
      StrLessIrreflexive(a[1..]);
    }
  }

  lemma {:induction false} StrLessTransitive(a: string, b: string, c: string)
    requires StrLess(a, b) && StrLess(b, c)
    ensures StrLess(a, c)
  {
    if a != [] && a[0] == b[0] && b[0] == c[0] {
      StrLessTransitive(a[1..], b[1..], c[1..]);
    }
  }

  lemma {:induction false} StrLessTotal(a: string, b: string)
    requires a != b
    ensures StrLess(a, b) || StrLess(b, a)
  {
    if a != [] && b != [] && a[0] == b[0] {
      assert a == [a[0]] + a[1..] && b == [b[0]] + b[1..];
      StrLessTotal(a[1..], b[1..]);
    }
  }

  /** The order of group keys. */
  predicate RefLess(a: PluginRef, b: PluginRef)
  {
    match (a, b)
    case (Head, _) => b != Head
    case (_, Tail) => a != Tail
    case (Plugin(t1, n1), Plugin(t2, n2)) => StrLess(t1, t2) || (t1 == t2 && StrLess(n1, n2))
    case _ => false
  }

  /** `RefLess` is a strict total order. */
  lemma RefLessIrreflexive(a: PluginRef)
    ensures !RefLess(a, a)
  {
    if a.Plugin? {
      StrLessIrreflexive(a.theme);
      StrLessIrreflexive(a.name);
    }
  }

  lemma RefLessTransitive(a: PluginRef, b: PluginRef, c: PluginRef)
    requires RefLess(a, b) && RefLess(b, c)
    ensures RefLess(a, c)
  {
    if a.Plugin? && b.Plugin? && c.Plugin? {
      if StrLess(a.theme, b.theme) && StrLess(b.theme, c.theme) {
        StrLessTransitive(a.theme, b.theme, c.theme);
      } else if a.theme == b.theme == c.theme {
        StrLessTransitive(a.name, b.name, c.name);
      }
    }
  }

  lemma RefLessTotal(a: PluginRef, b: PluginRef)
    requires a != b
    ensures RefLess(a, b) || RefLess(b, a)
  {
    if a.Plugin? && b.Plugin? {
      if a.theme != b.theme {
        StrLessTotal(a.theme, b.theme);
      } else {
        StrLessTotal(a.name, b.name);
      }
    }
  }

  predicate NoDuplicates(ks: seq<PluginRef>)
  {
    forall i, j :: 0 <= i < j < |ks| ==> ks[i] != ks[j]
  }

  /** Strictly increasing in the key order. */
  predicate Ascending(ks: seq<PluginRef>)
  {
    forall i, j :: 0 <= i < j < |ks| ==> RefLess(ks[i], ks[j])
  }

  lemma AscendingHasNoDuplicates(ks: seq<PluginRef>)
    requires Ascending(ks)
    ensures NoDuplicates(ks)
  {
    forall i, j | 0 <= i < j < |ks| ensures ks[i] != ks[j] {
      RefLessIrreflexive(ks[i]);
    }
  }

  /** `k` placed before the first key that sorts after it. */
  function InsertKey(ks: seq<PluginRef>, k: PluginRef): (r: seq<PluginRef>)
    ensures multiset(r) == multiset(ks) + multiset{k}
  {
    if ks == [] || RefLess(k, ks[0]) then [k] + ks
    else
      assert ks == [ks[0]] + ks[1..];
      [ks[0]] + InsertKey(ks[1..], k)
  }

  /** A key below every key of an ascending run can be put in front of it. */
  lemma AscendingCons(h: PluginRef, rest: seq<PluginRef>)
    requires Ascending(rest) && forall z :: z in rest ==> RefLess(h, z)
    ensures Ascending([h] + rest)
  {
    var r := [h] + rest;
    forall i, j | 0 <= i < j < |r| ensures RefLess(r[i], r[j]) {
      assert r[j] == rest[j - 1];
      if i > 0 { assert r[i] == rest[i - 1]; }
    }
  }

  lemma AscendingTail(ks: seq<PluginRef>)
    requires ks != [] && Ascending(ks)
    ensures Ascending(ks[1..])
    ensures forall z :: z in ks[1..] ==> RefLess(ks[0], z)
  {
    var tail := ks[1..];
    forall i, j | 0 <= i < j < |tail| ensures RefLess(tail[i], tail[j]) {
      assert tail[i] == ks[i + 1] && tail[j] == ks[j + 1];
    }
    forall z | z in tail ensures RefLess(ks[0], z) {
      var j :| 0 <= j < |tail| && tail[j] == z;
      assert ks[j + 1] == z;
    }
  }

  lemma {:induction false} InsertKeepsAscending(ks: seq<PluginRef>, k: PluginRef)
    requires Ascending(ks) && k !in ks
    ensures Ascending(InsertKey(ks, k))
  {
    if ks == [] {
    } else if RefLess(k, ks[0]) {
      AscendingTail(ks);
      forall z | z in ks ensures RefLess(k, z) {
        if z != ks[0] {
          assert z in ks[1..] by { assert ks == [ks[0]] + ks[1..]; }
          RefLessTransitive(k, ks[0], z);
        }
      }
      AscendingCons(k, ks);
    } else {
      RefLessTotal(ks[0], k);
      var tail := ks[1..];
      assert ks == [ks[0]] + tail;
      AscendingTail(ks);
      InsertKeepsAscending(tail, k);
      var rest := InsertKey(tail, k);
      forall z | z in rest ensures RefLess(ks[0], z) {
        assert z in multiset(tail) + multiset{k};
      }
      AscendingCons(ks[0], rest);
    }
  }

  /** The keys in ascending order (an insertion sort). */
  function SortKeys(ks: seq<PluginRef>): (r: seq<PluginRef>)
    requires NoDuplicates(ks)
    ensures multiset(r) == multiset(ks)
    ensures Ascending(r)
  {
    if ks == [] then []
    else
      var front := ks[..|ks| - 1];
      var last := ks[|ks| - 1];
      assert ks == front + [last];
      var sorted := SortKeys(front);
      assert last !in sorted by {
        assert last !in front;
        assert forall z :: z in sorted <==> z in multiset(front);
      }
      InsertKeepsAscending(sorted, last);
      InsertKey(sorted, last)
  }
}
