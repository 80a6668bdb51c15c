/**
 * The conflict scan over the sorted collection (`entry_vec_stats`): a group
 * starts at a neighbouring pair that satisfies the conflict condition and
 * extends while the following pairs satisfy it too. Groups are returned as
 * (start, count) over the sorted entries instead of being printed.
 *
 * Two scans are modelled: the cursor arithmetic as the source writes it,
 * which resumes one entry past the end of a group, and the corrected scan,
 * which resumes right at the end of a group.
 */
module Conflicts {
  import opened Elf
  import opened Entries

  /** The neighbours `s[j]` and `s[j + 1]` satisfy the conflict condition. */
  predicate PairConflicts(s: seq<Entry>, j: int) {
    0 <= j && j + 1 < |s| && ConflictCondition(s[j], s[j + 1])
  }

  /** The entries `s[start .. start + count)` form one reported conflict. */
  datatype Group = Group(start: nat, count: nat)

  /**
   * The number of consecutive neighbouring pairs from `k` on that satisfy the
   * conflict condition: the inner loop's count, less one.
   */
  function RunFrom(s: seq<Entry>, k: nat): (r: nat)
    ensures k + 1 < |s| ==> k + r < |s|
    ensures k + 1 >= |s| ==> r == 0
    ensures forall j :: k <= j < k + r ==> PairConflicts(s, j)
    ensures !PairConflicts(s, k + r)
    decreases |s| - k
  {
    if PairConflicts(s, k) then 1 + RunFrom(s, k + 1) else 0
  }

  /** The groups the source reports from cursor `i` on: after a group of `count` it resumes at `i + count + 1`. */
  function ScanAsWritten(s: seq<Entry>, i: nat): seq<Group>
    decreases |s| - i
  {
    if i + 1 >= |s| then []
    else if ConflictCondition(s[i], s[i + 1]) then
      var count := 1 + RunFrom(s, i);
      [Group(i, count)] + ScanAsWritten(s, i + count + 1)
    else ScanAsWritten(s, i + 1)
  }

  /** The groups found from cursor `i` on when the scan resumes right after each group, at `i + count`. */
  function ScanFrom(s: seq<Entry>, i: nat): seq<Group>
    decreases |s| - i
  {
    if i + 1 >= |s| then []
    else if ConflictCondition(s[i], s[i + 1]) then
      var count := 1 + RunFrom(s, i);
      [Group(i, count)] + ScanFrom(s, i + count)
    else ScanFrom(s, i + 1)
  }

  /** The conflict groups of a collection. */
  function Groups(s: seq<Entry>): seq<Group> {
    ScanFrom(s, 0)
  }

  /**
   * `entry_vec_stats` with its cursor arithmetic as written: after a group the
   * cursor moves by `count` and then by the loop's own increment.
   */
  method ConflictScanAsWritten(s: seq<Entry>) returns (groups: seq<Group>)
    ensures groups == ScanAsWritten(s, 0)
  {
    groups := [];
    var n := |s|;
    var i := 0;
    while i < n - 1
      invariant 0 <= i
      invariant groups + ScanAsWritten(s, i) == ScanAsWritten(s, 0)
    {
      if ConflictCondition(s[i], s[i + 1]) {
        var count := 1;
        var k := i;
        while k < n - 1 && ConflictCondition(s[k], s[k + 1])
          invariant i <= k <= i + RunFrom(s, i)
          invariant count == 1 + k - i
        {
          count := count + 1;
          k := k + 1;
        }
        assert k < i + RunFrom(s, i) ==> PairConflicts(s, k);
        groups := groups + [Group(i, count)];
        i := i + count;
      }
      i := i + 1;
    }
  }

  /** The conflict scan with the cursor resuming at the first entry after a group. */
  method ConflictScan(s: seq<Entry>) returns (groups: seq<Group>)
    ensures groups == Groups(s)
  {
    groups := [];
    var n := |s|;
    var i := 0;
    while i < n - 1
      invariant 0 <= i
      invariant groups + ScanFrom(s, i) == Groups(s)
    {
      if ConflictCondition(s[i], s[i + 1]) {
        var count := 1;
        var k := i;
        while k < n - 1 && ConflictCondition(s[k], s[k + 1])
          invariant i <= k <= i + RunFrom(s, i)
          invariant count == 1 + k - i
        {
          count := count + 1;
          k := k + 1;
        }
        assert k < i + RunFrom(s, i) ==> PairConflicts(s, k);
        groups := groups + [Group(i, count)];
        i := i + count - 1;
      }
      i := i + 1;
    }
  }

  /**
   * A reported group: at least two entries inside the collection, every
   * neighbouring pair in it satisfies the conflict condition, and the pair
   * that straddles its end does not.
   */
  predicate GroupShape(s: seq<Entry>, g: Group) {
    g.count >= 2 && g.start + g.count <= |s| &&
    (forall j :: g.start <= j < g.start + g.count - 1 ==> PairConflicts(s, j)) &&
    !PairConflicts(s, g.start + g.count - 1)
  }

  /** Groups appear in increasing order and do not overlap. */
  predicate Ordered(gs: seq<Group>) {
    forall x, y :: 0 <= x < y < |gs| ==> gs[x].start + gs[x].count <= gs[y].start
  }

  /** Every group the source reports has the shape of a group, and they come in order from `i` on. */
  lemma {:induction false} ScanAsWrittenShape(s: seq<Entry>, i: nat)
    ensures forall g :: g in ScanAsWritten(s, i) ==> GroupShape(s, g) && i <= g.start
    ensures Ordered(ScanAsWritten(s, i))
    decreases |s| - i
  {
    if i + 1 < |s| {
      if ConflictCondition(s[i], s[i + 1]) {
        ScanAsWrittenShape(s, i + 1 + RunFrom(s, i) + 1);
      } else {
        ScanAsWrittenShape(s, i + 1);
      }
    }
  }

  /** Every corrected group has the shape of a group, and they come in order from `i` on. */
  lemma {:induction false} ScanFromShape(s: seq<Entry>, i: nat)
    ensures forall g :: g in ScanFrom(s, i) ==> GroupShape(s, g) && i <= g.start
    ensures Ordered(ScanFrom(s, i))
    decreases |s| - i
  {
    if i + 1 < |s| {
      if ConflictCondition(s[i], s[i + 1]) {
        ScanFromShape(s, i + 1 + RunFrom(s, i));
      } else {
        ScanFromShape(s, i + 1);
      }
    }
  }

  /**
   * A corrected group also cannot be extended backwards: the pair that
   * straddles its start does not satisfy the conflict condition.
   */
  lemma {:induction false} ScanFromStartsMaximal(s: seq<Entry>, i: nat)
    requires !PairConflicts(s, i - 1)
    ensures forall g :: g in ScanFrom(s, i) ==> !PairConflicts(s, g.start - 1)
    decreases |s| - i
  {
    if i + 1 < |s| {
      if ConflictCondition(s[i], s[i + 1]) {
        ScanFromStartsMaximal(s, i + 1 + RunFrom(s, i));
      } else {
        ScanFromStartsMaximal(s, i + 1);
      }
    }
  }

  /** Every pair from `i` on that satisfies the conflict condition lies inside one corrected group. */
  lemma {:induction false} ScanFromComplete(s: seq<Entry>, i: nat, j: nat)
    requires i <= j && PairConflicts(s, j)
    ensures exists g :: g in ScanFrom(s, i) && g.start <= j && j + 1 < g.start + g.count
    decreases |s| - i
  {
    if ConflictCondition(s[i], s[i + 1]) {
      var count := 1 + RunFrom(s, i);
      if j + 1 < i + count {
        assert Group(i, count) in ScanFrom(s, i);
      } else {
        ScanFromComplete(s, i + count, j);
        var g :| g in ScanFrom(s, i + count) && g.start <= j && j + 1 < g.start + g.count;
        assert g in ScanFrom(s, i);
      }
    } else {
      ScanFromComplete(s, i + 1, j);
      var g :| g in ScanFrom(s, i + 1) && g.start <= j && j + 1 < g.start + g.count;
      assert g in ScanFrom(s, i);
    }
  }

  /**
   * The corrected groups are exactly the maximal runs of qualifying pairs:
   * each has the shape of a group, cannot be extended at either end, and every
   * qualifying pair lies inside one of them.
   */
  lemma GroupsAreMaximalRuns(s: seq<Entry>)
    ensures Ordered(Groups(s))
    ensures forall g :: g in Groups(s) ==> GroupShape(s, g)
    ensures forall g :: g in Groups(s) ==> !PairConflicts(s, g.start - 1)
    ensures forall j :: PairConflicts(s, j) ==>
              exists g :: g in Groups(s) && g.start <= j && j + 1 < g.start + g.count
  {
    ScanFromShape(s, 0);
    ScanFromStartsMaximal(s, 0);
    forall j | PairConflicts(s, j)
      ensures exists g :: g in Groups(s) && g.start <= j && j + 1 < g.start + g.count
    {
      ScanFromComplete(s, 0, j);
    }
  }

  /** In a sorted collection, every member of a group has the group's name and is global and defined. */
  lemma {:induction false} GroupMembers(s: seq<Entry>, g: Group, m: nat)
    requires Sorted(s) && GroupShape(s, g) && g.start <= m < g.start + g.count
    ensures s[m].name == s[g.start].name && GlobalDefined(s[m])
    decreases m - g.start
  {
    if m > g.start {
      GroupMembers(s, g, m - 1);
      assert PairConflicts(s, m - 1);
      ConflictPartnerDefined(s[m - 1], s[m]);
    } else {
      assert PairConflicts(s, m);
      ConflictPartnerDefined(s[m], s[m + 1]);
    }
  }

  /**
   * In a sorted collection, a corrected group holds every global, defined
   * entry of its name: a symbol defined globally in several modules is
   * reported once, with all of them.
   */
  lemma GroupHoldsAllDefinitions(s: seq<Entry>, g: Group, j: nat)
    requires Sorted(s) && g in Groups(s) && j < |s| && GlobalDefined(s[j])
    ensures g.start < |s|
    ensures s[j].name == s[g.start].name ==> g.start <= j < g.start + g.count
  {
    GroupsAreMaximalRuns(s);
    GroupMembers(s, g, g.start);
    var last := g.start + g.count - 1;
    if s[j].name != s[g.start].name {
    } else if j > last {
      ConflictRunBetween(s, g.start, last, j);
    } else if j < g.start {
      ConflictRunBetween(s, j, g.start - 1, g.start);
    }
  }

  // Concrete collections used below: each entry is global and defined unless stated.
  function GlobalDef(name: string, src: string): Entry { Entry(src, name, STT_FUNC, STB_GLOBAL, 1) }

  /**
   * As written, two back-to-back conflicts lose the second one: the cursor
   * skips "goo" in module A, so the pair of "goo" definitions is never examined.
   */
  lemma BackToBackConflictMissed()
    ensures var s := [GlobalDef("foo", "A"), GlobalDef("foo", "B"), GlobalDef("goo", "A"), GlobalDef("goo", "B")];
            ConflictCondition(s[2], s[3]) &&
            ScanAsWritten(s, 0) == [Group(0, 2)] &&
            Groups(s) == [Group(0, 2), Group(2, 2)]
  {
    var s := [GlobalDef("foo", "A"), GlobalDef("foo", "B"), GlobalDef("goo", "A"), GlobalDef("goo", "B")];
    assert StrCmp("foo", "goo") != 0;
    assert RunFrom(s, 3) == 0;
    assert RunFrom(s, 2) == 1;
    assert RunFrom(s, 1) == 0;
    assert RunFrom(s, 0) == 1;
    assert ScanAsWritten(s, 3) == [];
    assert ScanFrom(s, 2) == [Group(2, 2)];
  }

  /** One symbol defined globally in three modules is one group of three. */
  lemma ThreeDefinitionsOneGroup()
    ensures Groups([GlobalDef("foo", "A"), GlobalDef("foo", "B"), GlobalDef("foo", "C")]) == [Group(0, 3)]
  {
    var s := [GlobalDef("foo", "A"), GlobalDef("foo", "B"), GlobalDef("foo", "C")];
    assert RunFrom(s, 2) == 0;
    assert RunFrom(s, 1) == 1;
    assert RunFrom(s, 0) == 2;
  }

  /**
   * A global definition next to a local definition, or next to an undefined
   * reference, of the same name is no conflict.
   */
  lemma LocalOrUndefinedPartnerIsNoConflict()
    ensures Groups([Entry("A", "log", STT_FUNC, STB_LOCAL, 1), GlobalDef("log", "C")]) == []
    ensures Groups([Entry("B", "foo", STT_FUNC, STB_GLOBAL, 0), GlobalDef("foo", "A")]) == []
  {
    var s := [Entry("A", "log", STT_FUNC, STB_LOCAL, 1), GlobalDef("log", "C")];
    assert !ConflictCondition(s[0], s[1]);
    assert ScanFrom(s, 1) == [];
    var t := [Entry("B", "foo", STT_FUNC, STB_GLOBAL, 0), GlobalDef("foo", "A")];
    assert !ConflictCondition(t[0], t[1]);
    assert ScanFrom(t, 1) == [];
  }
}
