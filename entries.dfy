/**
 * The symbol record collected from every module, the order the conflict
 * detector sorts by (name as `strcmp`, then binding, defined flag and type),
 * and the condition under which two neighbouring records conflict.
 */
module Entries {
  import opened Elf

  /**
   * `struct entry`: the owning module's name, the symbol's name, its type,
   * its binding and its defined flag. Names are copied out of the module's
   * string table and hold no NUL character.
   */
  datatype Entry = Entry(src: string, name: string, typ: u8, bind: u8, isDefined: u8)

  /**
   * `strcmp` on NUL-free names. C fixes only the sign of the result, and only
   * the sign is ever used, so the model returns -1, 0 or 1; a proper prefix
   * sorts first because its terminating NUL is below every character.
   */
  function StrCmp(a: string, b: string): (r: int)
    ensures -1 <= r <= 1
    ensures r == 0 <==> a == b
  {
    if a == [] then (if b == [] then 0 else -1)
    else if b == [] then 1
    else if a[0] < b[0] then -1
    else if a[0] > b[0] then 1
    else
      assert a == [a[0]] + a[1..] && b == [b[0]] + b[1..];
      StrCmp(a[1..], b[1..])
  }

  /**
   * Byte-wise lexicographic order on NUL-free names: `a` is a proper prefix of
   * `b`, or the two first differ at a position where `a` has the smaller
   * character.
   */
  predicate Below(a: string, b: string) {
    (|a| < |b| && a == b[..|a|]) ||
    exists k :: 0 <= k < |a| && k < |b| && a[..k] == b[..k] && a[k] < b[k]
  }

  /** Names that start with the same character compare as their tails do. */
  lemma BelowTail(a: string, b: string)
    requires a != [] && b != [] && a[0] == b[0]
    ensures Below(a, b) <==> Below(a[1..], b[1..])
  {
    if Below(a, b) && !(|a| < |b| && a == b[..|a|]) {
      var k :| 0 <= k < |a| && k < |b| && a[..k] == b[..k] && a[k] < b[k];
      assert k > 0;
      assert a[1..][..k - 1] == a[1..k] && b[1..][..k - 1] == b[1..k];
      assert a[1..][k - 1] < b[1..][k - 1];
    }
    if Below(a[1..], b[1..]) {
      if |a[1..]| < |b[1..]| && a[1..] == b[1..][..|a[1..]|] {
        assert a == [a[0]] + a[1..] && b[..|a|] == [b[0]] + b[1..][..|a[1..]|];
      } else {
        var k :| 0 <= k < |a[1..]| && k < |b[1..]| && a[1..][..k] == b[1..][..k] && a[1..][k] < b[1..][k];
        assert a[..k + 1] == [a[0]] + a[1..][..k] && b[..k + 1] == [b[0]] + b[1..][..k];
        assert a[k + 1] < b[k + 1];
      }
    }
  }

  /** `strcmp` is negative exactly when the first name is lexicographically below the second. */
  lemma {:induction false} StrCmpIsLexicographic(a: string, b: string)
    ensures StrCmp(a, b) < 0 <==> Below(a, b)
  {
    if a == [] {
      if b != [] {
        assert a == b[..0];
      }
    } else if b == [] {
    } else if a[0] < b[0] {
      assert a[..0] == b[..0];
    } else if a[0] > b[0] {
      if |a| < |b| && a == b[..|a|] {
        assert a[0] == b[..|a|][0];
      }
    } else {
      StrCmpIsLexicographic(a[1..], b[1..]);
      BelowTail(a, b);
    }
  }

  /** Swapping the arguments of `strcmp` flips the sign. */
  lemma {:induction false} StrCmpAntisymmetric(a: string, b: string)
    ensures StrCmp(a, b) == -StrCmp(b, a)
  {
    if a != [] && b != [] && a[0] == b[0] {
      StrCmpAntisymmetric(a[1..], b[1..]);
    }
  }

  /** `strcmp` is transitive. */
  lemma {:induction false} StrCmpTransitive(a: string, b: string, c: string)
    requires StrCmp(a, b) <= 0 && StrCmp(b, c) <= 0
    ensures StrCmp(a, c) <= 0
  {
    if a != [] && b != [] && c != [] && a[0] == b[0] == c[0] {
      StrCmpTransitive(a[1..], b[1..], c[1..]);
    }
  }

  /**
   * `cmp_entry`: the first non-zero of the name, binding, defined-flag and
   * type comparisons. The differences of byte-wide fields cannot overflow an
   * `int`; the result is 0 exactly on equal keys, and the fields decide in
   * the order name, binding, defined flag, type.
   */
  function Cmp(l: Entry, r: Entry): (c: int)
    ensures -255 <= c <= 255
    ensures c == 0 <==> SameKey(l, r)
    ensures l.name != r.name ==> (c < 0 <==> StrCmp(l.name, r.name) < 0)
    ensures l.name == r.name && l.bind != r.bind ==> (c < 0 <==> l.bind < r.bind)
    ensures l.name == r.name && l.bind == r.bind && l.isDefined != r.isDefined ==>
      (c < 0 <==> l.isDefined < r.isDefined)
    ensures l.name == r.name && l.bind == r.bind && l.isDefined == r.isDefined ==>
      (c < 0 <==> l.typ < r.typ)
  {
    var a := StrCmp(l.name, r.name);
    var b := l.bind - r.bind;
    var c := l.isDefined - r.isDefined;
    var d := l.typ - r.typ;
    if a != 0 then a
    else if b != 0 then b
    else if c != 0 then c
    else d
  }

  /** The four fields `cmp_entry` looks at agree. */
  predicate SameKey(l: Entry, r: Entry) {
    l.name == r.name && l.bind == r.bind && l.isDefined == r.isDefined && l.typ == r.typ
  }

  /** Swapping the arguments of `cmp_entry` flips the sign. */
  lemma CmpAntisymmetric(l: Entry, r: Entry)
    ensures Cmp(l, r) == -Cmp(r, l)
  {
    StrCmpAntisymmetric(l.name, r.name);
  }

  /** `cmp_entry` is transitive, as non-strict and as strict comparison: a total preorder. */
  lemma CmpTransitive(x: Entry, y: Entry, z: Entry)
    requires Cmp(x, y) <= 0 && Cmp(y, z) <= 0
    ensures Cmp(x, z) <= 0
    ensures Cmp(x, y) < 0 || Cmp(y, z) < 0 ==> Cmp(x, z) < 0
  {
    StrCmpTransitive(x.name, y.name, z.name);
    if StrCmp(x.name, z.name) == 0 {
      assert x.name == z.name;
      StrCmpAntisymmetric(x.name, y.name);
    }
  }

  /** The entries of `s` are in non-decreasing `cmp_entry` order. */
  ghost predicate Sorted(s: seq<Entry>) {
    forall i, j :: 0 <= i < j < |s| ==> Cmp(s[i], s[j]) <= 0
  }

  /**
   * In a sorted sequence, entries with the same key are adjacent: everything
   * between two of them has that key too.
   */
  lemma SameKeyAdjacent(s: seq<Entry>, i: nat, j: nat, k: nat)
    requires Sorted(s) && i <= j <= k < |s| && SameKey(s[i], s[k])
    ensures SameKey(s[i], s[j])
  {
    if i < j < k {
      CmpAntisymmetric(s[i], s[k]);
      CmpTransitive(s[j], s[k], s[i]);
      CmpAntisymmetric(s[i], s[j]);
    }
  }

  /**
   * In a sorted sequence, entries with the same name are contiguous: every
   * entry between two of them has that name.
   */
  lemma SameNameContiguous(s: seq<Entry>, i: nat, j: nat, k: nat)
    requires Sorted(s) && i <= j <= k < |s| && s[i].name == s[k].name
    ensures s[j].name == s[i].name
  {
    if i < j < k {
      assert Cmp(s[i], s[j]) <= 0 && Cmp(s[j], s[k]) <= 0;
      if StrCmp(s[i].name, s[j].name) != 0 {
        StrCmpTransitive(s[j].name, s[k].name, s[i].name);
        StrCmpAntisymmetric(s[i].name, s[j].name);
      }
    }
  }

  /**
   * `conflict_condition`: the names are equal, the bindings are equal and
   * global, and the FIRST entry is defined.
   */
  function ConflictCondition(a: Entry, b: Entry): (c: bool)
    ensures c <==> a.name == b.name && a.bind == STB_GLOBAL && b.bind == STB_GLOBAL && a.isDefined != 0
  {
    StrCmp(a.name, b.name) == 0 && a.bind == b.bind && a.bind == STB_GLOBAL && a.isDefined != 0
  }

  /** A global, defined symbol: the kind of entry that can take part in a conflict. */
  predicate GlobalDefined(e: Entry) {
    e.bind == STB_GLOBAL && e.isDefined != 0
  }

  /**
   * The condition checks only the first entry's defined flag; when the pair
   * is in `cmp_entry` order, it holds exactly when both entries share a name
   * and are global and defined.
   */
  lemma ConflictPartnerDefined(a: Entry, b: Entry)
    requires Cmp(a, b) <= 0
    ensures ConflictCondition(a, b) <==> a.name == b.name && GlobalDefined(a) && GlobalDefined(b)
  {
  }

  /**
   * Between two global, defined entries of the same name in a sorted sequence,
   * every neighbouring pair satisfies the conflict condition.
   */
  lemma ConflictRunBetween(s: seq<Entry>, i: nat, m: nat, k: nat)
    requires Sorted(s) && i <= m < k < |s|
    requires GlobalDefined(s[i]) && GlobalDefined(s[k]) && s[i].name == s[k].name
    ensures ConflictCondition(s[m], s[m + 1])
  {
    SameNameContiguous(s, i, m, k);
    SameNameContiguous(s, i, m + 1, k);
    assert Cmp(s[i], s[m]) <= 0 && Cmp(s[m], s[k]) <= 0 && Cmp(s[m + 1], s[k]) <= 0;
  }

  /**
   * As written, `is_defined` is `st_shndx` stored into an `unsigned char`,
   * which keeps only its low eight bits.
   */
  function TruncatedDefinedFlag(shndx: u16): (f: u8)
    ensures f == 0 <==> exists k :: 0 <= k < 256 && shndx == 256 * k
  {
    assert shndx == 256 * (shndx / 256) + shndx % 256;
    shndx % 0x100
  }

  /** A symbol defined in section 256 is recorded as undefined by the truncation. */
  lemma SectionIndex256ReadsUndefined()
    ensures 256 != SHN_UNDEF as int && TruncatedDefinedFlag(256) == 0
  {
  }

  /** The defined flag as intended: 1 when the section index is not SHN_UNDEF, else 0. */
  function DefinedFlag(shndx: u16): (f: u8)
    ensures f != 0 <==> shndx != SHN_UNDEF
    ensures f <= 1
  {
    if shndx != SHN_UNDEF then 1 else 0
  }

  /** The two flags agree on defined-ness for every section index below 256. */
  lemma DefinedFlagAgreesBelow256(shndx: u16)
    requires shndx < 256
    ensures (TruncatedDefinedFlag(shndx) != 0) == (DefinedFlag(shndx) != 0)
  {
  }
}
