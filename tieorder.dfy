/**
 * The quicksort is not stable: entries with equal keys from different modules
 * may come out in any order. The conflict groups do not depend on that order:
 * every sorted arrangement of the same collection has the same key at every
 * position, and the scan looks only at keys. So two scans of an unchanged set
 * of modules report the same groups, up to the order of modules within a group.
 */
module TieOrder {
  import opened Elf
  import opened Entries
  import opened Conflicts
  import opened Sort

  /** An entry with its source module forgotten: only the sort key is left. */
  function Erase(e: Entry): (k: Entry)
    ensures k.src == [] && SameKey(k, e)
  {
    e.(src := [])
  }

  /** The keys of a sequence of entries, position by position. */
  function Keys(s: seq<Entry>): (r: seq<Entry>)
    ensures |r| == |s| && forall i :: 0 <= i < |s| ==> r[i] == Erase(s[i])
  {
    seq(|s|, i requires 0 <= i < |s| => Erase(s[i]))
  }

  /** The keys of a concatenation are the concatenated keys. */
  lemma KeysConcat(a: seq<Entry>, b: seq<Entry>)
    ensures Keys(a + b) == Keys(a) + Keys(b)
  {
    assert forall i :: 0 <= i < |a| ==> (a + b)[i] == a[i];
    assert forall i :: |a| <= i < |a| + |b| ==> (a + b)[i] == b[i - |a|];
  }

  /** Taking the first entry of `s` out of both of two rearrangements leaves rearrangements. */
  lemma RemoveFirst(s: seq<Entry>, t: seq<Entry>, j: nat)
    requires multiset(s) == multiset(t) && s != [] && j < |t| && t[j] == s[0]
    ensures multiset(s[1..]) == multiset(t[..j] + t[j + 1..])
  {
    var x := s[0];
    assert t == t[..j] + [x] + t[j + 1..];
    assert s == [x] + s[1..];
    assert multiset(s) == multiset{} + multiset(s[1..]) + multiset{x};
    assert multiset(t) == multiset{} + multiset(t[..j] + t[j + 1..]) + multiset{x};
    MultisetCancel(multiset{}, multiset(s[1..]), multiset(t[..j] + t[j + 1..]), multiset{x});
  }

  /** Rearranging entries rearranges their keys. */
  lemma {:induction false} KeysPermuted(s: seq<Entry>, t: seq<Entry>)
    requires multiset(s) == multiset(t)
    ensures multiset(Keys(s)) == multiset(Keys(t))
    decreases |s|
  {
    if s != [] {
      var x := s[0];
      assert x in multiset(t);
      var j :| 0 <= j < |t| && t[j] == x;
      var a, b, rest := t[..j], t[j + 1..], s[1..];
      RemoveFirst(s, t, j);
      KeysPermuted(rest, a + b);
      assert s == [x] + rest;
      assert t == a + ([x] + b);
      KeysInsert(x, a, b, rest);
    }
  }

  /** Putting the same entry back into two rearrangements keeps their keys rearranged. */
  lemma KeysInsert(x: Entry, a: seq<Entry>, b: seq<Entry>, rest: seq<Entry>)
    requires multiset(Keys(rest)) == multiset(Keys(a + b))
    ensures multiset(Keys([x] + rest)) == multiset(Keys(a + ([x] + b)))
  {
    KeysConcat([x], rest);
    KeysConcat(a, [x] + b);
    KeysConcat([x], b);
    KeysConcat(a, b);
    assert Keys([x]) == [Erase(x)];
  }

  /** Two sorted sequences of bare keys with the same multiset start with the same key. */
  lemma SortedKeysSameHead(a: seq<Entry>, b: seq<Entry>)
    requires Sorted(a) && Sorted(b) && multiset(a) == multiset(b) && a != []
    requires a[0].src == [] && b != [] && b[0].src == []
    ensures a[0] == b[0]
  {
    assert a[0] in multiset(b);
    var j :| 0 <= j < |b| && b[j] == a[0];
    assert b[0] in multiset(a);
    var i :| 0 <= i < |a| && a[i] == b[0];
    assert Cmp(b[0], a[0]) <= 0;
    assert Cmp(a[0], b[0]) <= 0;
    CmpAntisymmetric(a[0], b[0]);
  }

  /** Two sorted sequences of bare keys with the same multiset are equal. */
  lemma {:induction false} SortedKeysUnique(a: seq<Entry>, b: seq<Entry>)
    requires Sorted(a) && Sorted(b) && multiset(a) == multiset(b)
    requires forall i :: 0 <= i < |a| ==> a[i].src == []
    requires forall i :: 0 <= i < |b| ==> b[i].src == []
    ensures a == b
    decreases |a|
  {
    assert |a| == |multiset(a)| == |multiset(b)| == |b|;
    if a != [] {
      SortedKeysSameHead(a, b);
      assert a == [a[0]] + a[1..] && b == [b[0]] + b[1..];
      assert multiset(a) == multiset{} + multiset(a[1..]) + multiset{a[0]};
      assert multiset(b) == multiset{} + multiset(b[1..]) + multiset{a[0]};
      MultisetCancel(multiset{}, multiset(a[1..]), multiset(b[1..]), multiset{a[0]});
      SortedKeysUnique(a[1..], b[1..]);
    }
  }

  /**
   * Two sorted arrangements of the same collection have the same length and
   * the same key at every position: entries can differ only in their source
   * module, and only among entries with equal keys.
   */
  lemma SortedPermutationsAgreeOnKeys(s: seq<Entry>, t: seq<Entry>)
    requires Sorted(s) && Sorted(t) && multiset(s) == multiset(t)
    ensures |s| == |t|
    ensures forall i :: 0 <= i < |s| ==> SameKey(s[i], t[i])
  {
    assert |s| == |multiset(s)| == |multiset(t)| == |t|;
    KeysPermuted(s, t);
    assert Sorted(Keys(s)) && Sorted(Keys(t));
    SortedKeysUnique(Keys(s), Keys(t));
    forall i | 0 <= i < |s|
      ensures SameKey(s[i], t[i])
    {
      assert Keys(s)[i] == Keys(t)[i];
    }
  }

  /** Runs of conflicting pairs depend only on the keys. */
  lemma {:induction false} RunFromKeys(s: seq<Entry>, t: seq<Entry>, k: nat)
    requires |s| == |t| && forall i :: 0 <= i < |s| ==> SameKey(s[i], t[i])
    ensures RunFrom(s, k) == RunFrom(t, k)
    decreases |s| - k
  {
    if PairConflicts(s, k) || PairConflicts(t, k) {
      ConditionByKeys(s[k], s[k + 1], t[k], t[k + 1]);
      RunFromKeys(s, t, k + 1);
    }
  }

  /** The corrected scan depends only on the keys. */
  lemma {:induction false} ScanFromKeys(s: seq<Entry>, t: seq<Entry>, i: nat)
    requires |s| == |t| && forall j :: 0 <= j < |s| ==> SameKey(s[j], t[j])
    ensures ScanFrom(s, i) == ScanFrom(t, i)
    decreases |s| - i
  {
    if i + 1 < |s| {
      ConditionByKeys(s[i], s[i + 1], t[i], t[i + 1]);
      RunFromKeys(s, t, i);
      var next := if ConflictCondition(s[i], s[i + 1]) then i + 1 + RunFrom(s, i) else i + 1;
      ScanFromKeys(s, t, next);
    }
  }

  /** Whether two neighbours conflict depends only on their keys. */
  lemma ConditionByKeys(a: Entry, b: Entry, a': Entry, b': Entry)
    requires SameKey(a, a') && SameKey(b, b')
    ensures ConflictCondition(a, b) == ConflictCondition(a', b')
  {
  }

  /**
   * Any two sorted arrangements of the same collection report the same
   * conflict groups, and each group covers the same keys in both.
   */
  lemma GroupsIgnoreTieOrder(s: seq<Entry>, t: seq<Entry>)
    requires Sorted(s) && Sorted(t) && multiset(s) == multiset(t)
    ensures Groups(s) == Groups(t)
    ensures |s| == |t| && forall i :: 0 <= i < |s| ==> SameKey(s[i], t[i])
  {
    SortedPermutationsAgreeOnKeys(s, t);
    ScanFromKeys(s, t, 0);
  }

  /**
   * Three modules: "alloc_init" defined globally in A and B, "helper" only in
   * A, and "log" local in A but global in C.
   */
  function Scenario(): seq<Entry> {
    [GlobalDef("alloc_init", "A"), GlobalDef("alloc_init", "B"), GlobalDef("helper", "A"),
     Entry("A", "log", STT_FUNC, STB_LOCAL, 1), GlobalDef("log", "C")]
  }

  /** The scenario's entries, as listed, are in `cmp_entry` order. */
  lemma ScenarioSorted()
    ensures Sorted(Scenario())
  {
    var s := Scenario();
    assert StrCmp("alloc_init", "helper") < 0 && StrCmp("alloc_init", "log") < 0 && StrCmp("helper", "log") < 0;
    forall i, j | 0 <= i < j < |s|
      ensures Cmp(s[i], s[j]) <= 0
    {
    }
  }

  /** In that order the scan reports the two "alloc_init" definitions and nothing else. */
  lemma ScenarioGroups()
    ensures Groups(Scenario()) == [Group(0, 2)]
  {
    var s := Scenario();
    assert StrCmp("alloc_init", "helper") != 0 && StrCmp("helper", "log") != 0;
    assert !ConflictCondition(s[1], s[2]) && !ConflictCondition(s[2], s[3]) && !ConflictCondition(s[3], s[4]);
    assert RunFrom(s, 0) == 1;
    assert ScanFrom(s, 2) == [];
  }

  /**
   * However the sort orders the scenario's entries, the scan reports exactly
   * one group, the two definitions of "alloc_init": none for "helper", none for "log".
   */
  lemma ScenarioReportsOneGroup(t: seq<Entry>)
    requires Sorted(t) && multiset(t) == multiset(Scenario())
    ensures Groups(t) == [Group(0, 2)]
    ensures |t| == 5 && t[0].name == t[1].name == "alloc_init"
  {
    var s := Scenario();
    ScenarioSorted();
    ScenarioGroups();
    ScenarioHead();
    GroupsIgnoreTieOrder(s, t);
    assert SameKey(s[0], t[0]) && SameKey(s[1], t[1]);
  }

  /** The scenario, as listed, has five entries and opens with the two "alloc_init" definitions. */
  lemma ScenarioHead()
    ensures |Scenario()| == 5 && Scenario()[0].name == Scenario()[1].name == "alloc_init"
  {
  }
}
