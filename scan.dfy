/**
 * The per-module scan (`callback`) and the whole analysis pass.
 *
 * A loaded module is given by its name, load base, program headers and a
 * typed view of its mapped memory: the dynamic arrays, 32-bit word tables,
 * symbol tables and string tables found at given addresses. Every address
 * taken from the dynamic section or from a symbol goes through the segment
 * validator before it is used.
 */
module Scan {
  import opened Elf
  import opened Segments
  import opened HashTab
  import opened Entries
  import opened EntryVector
  import opened Sort
  import opened Conflicts

  /** The module's mapped memory, as typed regions keyed by their start address. */
  datatype Memory = Memory(
    dynamic: map<u64, seq<Dyn>>,
    words: map<u64, seq<u32>>,
    symbols: map<u64, seq<Sym>>,
    strings: map<u64, seq<char>>)

  /** One loaded module: `dlpi_name`, `dlpi_addr`, `dlpi_phdr` and its memory. */
  datatype Module = Module(name: string, base: u64, headers: seq<Phdr>, mem: Memory)

  /** What the walk of one dynamic array found: the validated tables and the symbol count. */
  datatype Tables = Tables(symtab: Option<u64>, strtab: Option<u64>, count: u32)

  const NO_TABLES: Tables := Tables(None, None, 0)

  // ---------------------------------------------------------------------------
  // The dynamic-entry walk

  /** Index of the first DT_NULL entry at or after `i`, or `|dyn|` when there is none. */
  function FirstNull(dyn: seq<Dyn>, i: nat): (r: nat)
    requires i <= |dyn|
    ensures i <= r <= |dyn|
    ensures r < |dyn| ==> dyn[r].tag == DT_NULL
    ensures forall k :: i <= k < r ==> dyn[k].tag != DT_NULL
    decreases |dyn| - i
  {
    if i == |dyn| || dyn[i].tag == DT_NULL then i else FirstNull(dyn, i + 1)
  }

  /** Index of the terminating DT_NULL entry. */
  function End(dyn: seq<Dyn>): nat {
    FirstNull(dyn, 0)
  }

  /** The table an entry's address would resolve to, through the segment validator. */
  function Target(m: Module, e: Dyn): Option<u64> {
    Resolve(e.val, m.base, m.headers)
  }

  /** A resolvable hash-table entry points at a table that can be read. */
  predicate EntryReadable(m: Module, e: Dyn) {
    var p := Target(m, e);
    (e.tag == DT_HASH && p.Some? ==> p.value in m.mem.words && |m.mem.words[p.value]| >= 2) &&
    (e.tag == DT_GNU_HASH && p.Some? ==> p.value in m.mem.words && WellFormedGnu(m.mem.words[p.value]))
  }

  /** The array is terminated and every entry before the terminator can be read. */
  predicate DynReadable(m: Module, dyn: seq<Dyn>) {
    End(dyn) < |dyn| && forall k :: 0 <= k < End(dyn) ==> EntryReadable(m, dyn[k])
  }

  /** The symbol count an entry offers: its table's count for a resolvable hash entry, otherwise 0. */
  function EntryCount(m: Module, e: Dyn): u32
    requires EntryReadable(m, e)
  {
    var p := Target(m, e);
    if e.tag == DT_HASH && p.Some? then HashSymbolCount(m.mem.words[p.value])
    else if e.tag == DT_GNU_HASH && p.Some? then GnuCount(m.mem.words[p.value])
    else 0
  }

  /** The effect of one dynamic entry on what the walk has found so far. */
  function Step(m: Module, t: Tables, e: Dyn): Tables
    requires EntryReadable(m, e)
  {
    if e.tag == DT_HASH || e.tag == DT_GNU_HASH then
      var c := EntryCount(m, e);
      t.(count := if c > t.count then c else t.count)
    else if e.tag == DT_STRTAB then t.(strtab := Target(m, e))
    else if e.tag == DT_SYMTAB then t.(symtab := Target(m, e))
    else t
  }

  /** The walk from entry `i` up to the terminator, starting from `t`. */
  function WalkFrom(m: Module, dyn: seq<Dyn>, i: nat, t: Tables): Tables
    requires DynReadable(m, dyn) && i <= End(dyn)
    decreases End(dyn) - i
  {
    if i == End(dyn) then t else WalkFrom(m, dyn, i + 1, Step(m, t, dyn[i]))
  }

  /** What the whole walk of a dynamic array finds. */
  function Walk(m: Module, dyn: seq<Dyn>): Tables
    requires DynReadable(m, dyn)
  {
    WalkFrom(m, dyn, 0, NO_TABLES)
  }

  /**
   * The loop of `callback` over the dynamic entries: stops at DT_NULL, keeps
   * the largest count any resolvable hash table yields, and the last string
   * and symbol table pointers after validation.
   */
  method WalkDynamic(m: Module, dyn: seq<Dyn>) returns (t: Tables)
    requires DynReadable(m, dyn)
    ensures t == Walk(m, dyn)
  {
    var symtab: Option<u64> := None;
    var strtab: Option<u64> := None;
    var symbolCount: u32 := 0;
    var k := 0;
    while dyn[k].tag != DT_NULL
      invariant 0 <= k <= End(dyn)
      invariant WalkFrom(m, dyn, k, Tables(symtab, strtab, symbolCount)) == Walk(m, dyn)
      decreases End(dyn) - k
    {
      var e := dyn[k];
      assert EntryReadable(m, e);
      if e.tag == DT_HASH {
        var hashtab := DynamicPointer(e.val, m.base, m.headers);
        if hashtab.Some? {
          var count := m.mem.words[hashtab.value][1];
          symbolCount := if count > symbolCount then count else symbolCount;
        }
      } else if e.tag == DT_GNU_HASH {
        var hashtab := DynamicPointer(e.val, m.base, m.headers);
        if hashtab.Some? {
          var count := GnuHashSymbolCount(m.mem.words[hashtab.value]);
          if count > symbolCount {
            symbolCount := count;
          }
        }
      } else if e.tag == DT_STRTAB {
        strtab := DynamicPointer(e.val, m.base, m.headers);
      } else if e.tag == DT_SYMTAB {
        symtab := DynamicPointer(e.val, m.base, m.headers);
      }
      k := k + 1;
    }
    t := Tables(symtab, strtab, symbolCount);
  }

  /** Entry `k` is the last one before DT_NULL that carries `tag`. */
  predicate LastWithTag(dyn: seq<Dyn>, tag: i64, k: int) {
    0 <= k < End(dyn) && dyn[k].tag == tag &&
    forall k' :: k < k' < End(dyn) ==> dyn[k'].tag != tag
  }

  /**
   * From entry `i` on, the walk's count is the largest of the starting count
   * and the count of every entry up to the terminator.
   */
  lemma {:induction false} WalkFromCount(m: Module, dyn: seq<Dyn>, i: nat, t: Tables)
    requires DynReadable(m, dyn) && i <= End(dyn)
    ensures t.count <= WalkFrom(m, dyn, i, t).count
    ensures forall k :: i <= k < End(dyn) ==> EntryCount(m, dyn[k]) <= WalkFrom(m, dyn, i, t).count
    ensures WalkFrom(m, dyn, i, t).count == t.count ||
            exists k :: i <= k < End(dyn) && WalkFrom(m, dyn, i, t).count == EntryCount(m, dyn[k])
    decreases End(dyn) - i
  {
    if i < End(dyn) {
      var t' := Step(m, t, dyn[i]);
      WalkFromCount(m, dyn, i + 1, t');
      var r := WalkFrom(m, dyn, i, t);
      assert r == WalkFrom(m, dyn, i + 1, t');
      if r.count != t.count && r.count != t'.count {
        var k :| i + 1 <= k < End(dyn) && r.count == EntryCount(m, dyn[k]);
      }
    }
  }

  /**
   * From entry `i` on, the walk's symbol table is the validated value of the
   * last DT_SYMTAB entry, or the starting one when no entry has that tag.
   */
  lemma {:induction false} WalkFromSymtab(m: Module, dyn: seq<Dyn>, i: nat, t: Tables)
    requires DynReadable(m, dyn) && i <= End(dyn)
    ensures (forall k :: i <= k < End(dyn) ==> dyn[k].tag != DT_SYMTAB) ==> WalkFrom(m, dyn, i, t).symtab == t.symtab
    ensures forall k :: i <= k && LastWithTag(dyn, DT_SYMTAB, k) ==>
              WalkFrom(m, dyn, i, t).symtab == Target(m, dyn[k])
    decreases End(dyn) - i
  {
    if i < End(dyn) {
      WalkFromSymtab(m, dyn, i + 1, Step(m, t, dyn[i]));
    }
  }

  /**
   * From entry `i` on, the walk's string table is the validated value of the
   * last DT_STRTAB entry, or the starting one when no entry has that tag.
   */
  lemma {:induction false} WalkFromStrtab(m: Module, dyn: seq<Dyn>, i: nat, t: Tables)
    requires DynReadable(m, dyn) && i <= End(dyn)
    ensures (forall k :: i <= k < End(dyn) ==> dyn[k].tag != DT_STRTAB) ==> WalkFrom(m, dyn, i, t).strtab == t.strtab
    ensures forall k :: i <= k && LastWithTag(dyn, DT_STRTAB, k) ==>
              WalkFrom(m, dyn, i, t).strtab == Target(m, dyn[k])
    decreases End(dyn) - i
  {
    if i < End(dyn) {
      WalkFromStrtab(m, dyn, i + 1, Step(m, t, dyn[i]));
    }
  }

  /**
   * The walk's symbol count is 0 or the count of some entry before DT_NULL,
   * and at least every such entry's count: when both hash encodings are
   * present, the larger count wins.
   */
  lemma WalkCount(m: Module, dyn: seq<Dyn>)
    requires DynReadable(m, dyn)
    ensures forall k :: 0 <= k < End(dyn) ==> EntryCount(m, dyn[k]) <= Walk(m, dyn).count
    ensures Walk(m, dyn).count == 0 || exists k :: 0 <= k < End(dyn) && Walk(m, dyn).count == EntryCount(m, dyn[k])
  {
    WalkFromCount(m, dyn, 0, NO_TABLES);
  }

  /**
   * Each table pointer the walk finds is absent when no entry before DT_NULL
   * carries its tag, and otherwise the validated value of the last one.
   */
  lemma WalkTables(m: Module, dyn: seq<Dyn>)
    requires DynReadable(m, dyn)
    ensures (forall k :: 0 <= k < End(dyn) ==> dyn[k].tag != DT_SYMTAB) ==> Walk(m, dyn).symtab == None
    ensures forall k :: LastWithTag(dyn, DT_SYMTAB, k) ==> Walk(m, dyn).symtab == Target(m, dyn[k])
    ensures (forall k :: 0 <= k < End(dyn) ==> dyn[k].tag != DT_STRTAB) ==> Walk(m, dyn).strtab == None
    ensures forall k :: LastWithTag(dyn, DT_STRTAB, k) ==> Walk(m, dyn).strtab == Target(m, dyn[k])
  {
    WalkFromSymtab(m, dyn, 0, NO_TABLES);
    WalkFromStrtab(m, dyn, 0, NO_TABLES);
  }

  /**
   * A dynamic array whose only hash table is one resolvable DT_HASH table
   * yields that table's `nchain` word, its second word, as the symbol count.
   */
  lemma HashCountIsNchain(m: Module, dyn: seq<Dyn>, k: nat)
    requires DynReadable(m, dyn) && LastWithTag(dyn, DT_HASH, k) && Target(m, dyn[k]).Some?
    requires forall j :: 0 <= j < End(dyn) && j != k ==> dyn[j].tag != DT_HASH && dyn[j].tag != DT_GNU_HASH
    ensures Walk(m, dyn).count == m.mem.words[Target(m, dyn[k]).value][1]
  {
    WalkCount(m, dyn);
    assert EntryCount(m, dyn[k]) == m.mem.words[Target(m, dyn[k]).value][1];
    if Walk(m, dyn).count != 0 {
      var j :| 0 <= j < End(dyn) && Walk(m, dyn).count == EntryCount(m, dyn[j]);
      assert j == k;
    }
  }

  /**
   * As written, a DT_HASH table's `nchain`, the number of symbol-table
   * entries, becomes the last index the extraction loop visits: with a symbol
   * table of exactly `nchain` entries, the loop reads the record one past its
   * end, so such a module cannot be scanned within its table.
   */
  lemma HashCountReadsPastTable(m: Module, dyn: seq<Dyn>, k: nat)
    requires DynReadable(m, dyn) && LastWithTag(dyn, DT_HASH, k) && Target(m, dyn[k]).Some?
    requires forall j :: 0 <= j < End(dyn) && j != k ==> dyn[j].tag != DT_HASH && dyn[j].tag != DT_GNU_HASH
    requires Walk(m, dyn).symtab.Some? && Walk(m, dyn).strtab.Some?
    requires Walk(m, dyn).symtab.value in m.mem.symbols
    requires |m.mem.symbols[Walk(m, dyn).symtab.value]| == m.mem.words[Target(m, dyn[k]).value][1] > 0
    ensures Walk(m, dyn).count == |m.mem.symbols[Walk(m, dyn).symtab.value]|
    ensures !SectionReadable(m, dyn)
  {
    HashCountIsNchain(m, dyn, k);
  }

  // ---------------------------------------------------------------------------
  // Symbol extraction

  /** Index of the first NUL at or after `off`, or `|strs|` when there is none. */
  function NulFrom(strs: seq<char>, off: nat): (r: nat)
    requires off <= |strs|
    ensures off <= r <= |strs|
    ensures r < |strs| ==> strs[r] == '\0'
    ensures forall k :: off <= k < r ==> strs[k] != '\0'
    decreases |strs| - off
  {
    if off == |strs| || strs[off] == '\0' then off else NulFrom(strs, off + 1)
  }

  /** A NUL-terminated name starts at `off` inside the string table. */
  predicate NameReadable(strs: seq<char>, off: int) {
    0 <= off <= |strs| && NulFrom(strs, off) < |strs|
  }

  /** The NUL-terminated name at `strtab + off`. */
  function CStringAt(strs: seq<char>, off: int): (name: string)
    requires NameReadable(strs, off)
    ensures '\0' !in name
    ensures off + |name| < |strs| && strs[off + |name|] == '\0'
    ensures strs[off..off + |name|] == name
  {
    strs[off..NulFrom(strs, off)]
  }

  /** Symbol `s` is collected: `base + st_value` resolves to a loaded segment. */
  predicate Emitted(m: Module, syms: seq<Sym>, s: nat)
    requires s < |syms|
  {
    Resolvable(AddrAdd(m.base, syms[s].value), m.base, m.headers)
  }

  /** Symbols `0 ..= count` exist, and every one that is collected has a readable name. */
  predicate ExtractReadable(m: Module, syms: seq<Sym>, strs: seq<char>, count: nat) {
    count < |syms| &&
    forall s :: 0 <= s <= count && Emitted(m, syms, s) ==> NameReadable(strs, syms[s].name)
  }

  /**
   * The record collected for symbol `s`: the module's name, the binding and
   * type that `st_info` packs, `st_shndx` as stored in the record's byte-wide
   * defined flag, and the NUL-free name that starts at `st_name` in the
   * string table and ends at its NUL.
   */
  function SymbolEntry(m: Module, syms: seq<Sym>, strs: seq<char>, s: nat): (e: Entry)
    requires s < |syms| && NameReadable(strs, syms[s].name)
    ensures e.src == m.name
    ensures e.bind < 16 && e.typ < 16 && e.bind * 16 + e.typ == syms[s].info
    ensures e.isDefined == syms[s].shndx % 256
    ensures '\0' !in e.name && syms[s].name + |e.name| < |strs|
    ensures strs[syms[s].name..syms[s].name + |e.name|] == e.name && strs[syms[s].name + |e.name|] == '\0'
  {
    var info := syms[s].info;
    Entry(m.name, CStringAt(strs, syms[s].name), StType(info), StBind(info), TruncatedDefinedFlag(syms[s].shndx))
  }

  /** The records collected from symbols `0 .. k`, in symbol order. */
  function ExtractUpTo(m: Module, syms: seq<Sym>, strs: seq<char>, k: nat): seq<Entry>
    requires k <= |syms|
    requires forall s :: 0 <= s < k && Emitted(m, syms, s) ==> NameReadable(strs, syms[s].name)
  {
    if k == 0 then []
    else
      ExtractUpTo(m, syms, strs, k - 1) +
      (if Emitted(m, syms, k - 1) then [SymbolEntry(m, syms, strs, k - 1)] else [])
  }

  /** The indices below `k` of the symbols that are collected. */
  ghost function EmittedBelow(m: Module, syms: seq<Sym>, k: nat): set<nat>
    requires k <= |syms|
  {
    set s: nat | s < k && Emitted(m, syms, s)
  }

  /** Raising the bound by one adds index `k - 1` exactly when that symbol is collected. */
  lemma EmittedBelowStep(m: Module, syms: seq<Sym>, k: nat)
    requires 0 < k <= |syms|
    ensures |EmittedBelow(m, syms, k)| ==
            |EmittedBelow(m, syms, k - 1)| + (if Emitted(m, syms, k - 1) then 1 else 0)
  {
    var prev, next := EmittedBelow(m, syms, k - 1), EmittedBelow(m, syms, k);
    var last: set<nat> := if Emitted(m, syms, k - 1) then {k - 1} else {};
    assert next == prev + last by {
      forall x | x in next
        ensures x in prev + last
      {
        if x < k - 1 {
          assert x in prev;
        }
      }
    }
    assert prev !! last;
  }

  /** One record per collected symbol below `k`, so no more records than symbols. */
  lemma {:induction false} ExtractUpToCount(m: Module, syms: seq<Sym>, strs: seq<char>, k: nat)
    requires k <= |syms|
    requires forall s :: 0 <= s < k && Emitted(m, syms, s) ==> NameReadable(strs, syms[s].name)
    ensures |ExtractUpTo(m, syms, strs, k)| == |EmittedBelow(m, syms, k)| <= k
  {
    if k > 0 {
      ExtractUpToCount(m, syms, strs, k - 1);
      EmittedBelowStep(m, syms, k);
    }
  }

  /** Every record below `k` is the record of a collected symbol, and every collected symbol's record is there. */
  lemma {:induction false} ExtractUpToMembers(m: Module, syms: seq<Sym>, strs: seq<char>, k: nat)
    requires k <= |syms|
    requires forall s :: 0 <= s < k && Emitted(m, syms, s) ==> NameReadable(strs, syms[s].name)
    ensures forall e :: e in ExtractUpTo(m, syms, strs, k) ==>
              exists s :: 0 <= s < k && Emitted(m, syms, s) && e == SymbolEntry(m, syms, strs, s)
    ensures forall s :: 0 <= s < k && Emitted(m, syms, s) ==> SymbolEntry(m, syms, strs, s) in ExtractUpTo(m, syms, strs, k)
  {
    if k > 0 {
      ExtractUpToMembers(m, syms, strs, k - 1);
      var prev := ExtractUpTo(m, syms, strs, k - 1);
      var all := ExtractUpTo(m, syms, strs, k);
      forall e | e in all
        ensures exists s :: 0 <= s < k && Emitted(m, syms, s) && e == SymbolEntry(m, syms, strs, s)
      {
        if e !in prev {
          assert Emitted(m, syms, k - 1) && e == SymbolEntry(m, syms, strs, k - 1);
        }
      }
    }
  }

  /**
   * Extraction collects exactly the symbols that resolve: every record is the
   * record of some resolving symbol below `k`, every resolving symbol below `k`
   * has its record collected, and there is one record per resolving symbol.
   */
  lemma ExtractUpToExactly(m: Module, syms: seq<Sym>, strs: seq<char>, k: nat)
    requires k <= |syms|
    requires forall s :: 0 <= s < k && Emitted(m, syms, s) ==> NameReadable(strs, syms[s].name)
    ensures |ExtractUpTo(m, syms, strs, k)| == |EmittedBelow(m, syms, k)| <= k
    ensures forall e :: e in ExtractUpTo(m, syms, strs, k) ==>
              exists s :: 0 <= s < k && Emitted(m, syms, s) && e == SymbolEntry(m, syms, strs, s)
    ensures forall s :: 0 <= s < k && Emitted(m, syms, s) ==> SymbolEntry(m, syms, strs, s) in ExtractUpTo(m, syms, strs, k)
  {
    ExtractUpToCount(m, syms, strs, k);
    ExtractUpToMembers(m, syms, strs, k);
  }

  /** The symbol index of `callback`'s extraction loop after `k` increments: an `ElfW(Word)`, 32 bits wide. */
  function WordCounter(k: nat): u32 {
    Wrap32(k)
  }

  /**
   * With `symbol_count == 0xFFFFFFFF` the guard `s <= symbol_count` holds
   * after every increment, and the increment after symbol 0xFFFFFFFF brings
   * the index back to 0, so the loop as written never ends. The model's loop
   * counts with an unbounded index instead and stops after `count + 1` symbols.
   */
  lemma MaxCountLoopNeverExits(symbolCount: u32, k: nat)
    requires symbolCount == 0xFFFF_FFFF
    ensures WordCounter(k) <= symbolCount
    ensures WordCounter(symbolCount) == symbolCount && WordCounter(symbolCount + 1) == 0
    ensures WordCounter(symbolCount + 1 + k) == WordCounter(k)
  {
  }

  /**
   * The symbol loop of `callback`: for `s` in `0 ..= count`, validates
   * `base + st_value` and appends the symbol's record when it resolves.
   */
  method ExtractSymbols(m: Module, syms: seq<Sym>, strs: seq<char>, count: nat, v: EntryVec)
    requires v.Valid() && ExtractReadable(m, syms, strs, count)
    modifies v, v.data
    ensures v.Valid() && (v.data == old(v.data) || fresh(v.data))
    ensures v.Contents() == old(v.Contents()) + ExtractUpTo(m, syms, strs, count + 1)
  {
    var s := 0;
    while s <= count
      invariant 0 <= s <= count + 1
      invariant v.Valid() && (v.data == old(v.data) || fresh(v.data))
      invariant v.Contents() == old(v.Contents()) + ExtractUpTo(m, syms, strs, s)
    {
      var ptr := DynamicPointer(AddrAdd(m.base, syms[s].value), m.base, m.headers);
      if ptr.Some? {
        var info := syms[s].info;
        var name := CStringAt(strs, syms[s].name);
        v.Push(Entry(m.name, name, StType(info), StBind(info), TruncatedDefinedFlag(syms[s].shndx)));
      }
      s := s + 1;
    }
  }

  // ---------------------------------------------------------------------------
  // One module

  /** After the walk the dynamic array's module contributes nothing. */
  predicate Skipped(t: Tables) {
    t.symtab.None? || t.strtab.None? || t.count == 0
  }

  /** A dynamic array can be scanned: it can be walked, and the tables it names can be read. */
  predicate SectionReadable(m: Module, dyn: seq<Dyn>) {
    DynReadable(m, dyn) &&
    var t := Walk(m, dyn);
    !Skipped(t) ==>
      t.symtab.value in m.mem.symbols && t.strtab.value in m.mem.strings &&
      ExtractReadable(m, m.mem.symbols[t.symtab.value], m.mem.strings[t.strtab.value], t.count)
  }

  /** The records one dynamic array contributes. */
  function SectionEntries(m: Module, dyn: seq<Dyn>): seq<Entry>
    requires SectionReadable(m, dyn)
  {
    var t := Walk(m, dyn);
    if Skipped(t) then []
    else ExtractUpTo(m, m.mem.symbols[t.symtab.value], m.mem.strings[t.strtab.value], t.count + 1)
  }

  /**
   * Skip rule and emission range: a dynamic array without a validated symbol
   * table, a validated string table or a non-zero count contributes nothing;
   * otherwise it contributes exactly the resolving symbols among `0 ..= count`.
   */
  lemma SectionEntriesExactly(m: Module, dyn: seq<Dyn>)
    requires SectionReadable(m, dyn)
    ensures Skipped(Walk(m, dyn)) ==> SectionEntries(m, dyn) == []
    ensures !Skipped(Walk(m, dyn)) ==>
              var t := Walk(m, dyn);
              var syms := m.mem.symbols[t.symtab.value];
              var strs := m.mem.strings[t.strtab.value];
              (forall e :: e in SectionEntries(m, dyn) ==>
                 exists s :: 0 <= s <= t.count && Emitted(m, syms, s) && e == SymbolEntry(m, syms, strs, s)) &&
              (forall s :: 0 <= s <= t.count && Emitted(m, syms, s) ==>
                 SymbolEntry(m, syms, strs, s) in SectionEntries(m, dyn))
  {
    var t := Walk(m, dyn);
    if !Skipped(t) {
      ExtractUpToExactly(m, m.mem.symbols[t.symtab.value], m.mem.strings[t.strtab.value], t.count + 1);
    }
  }

  /** Address of the dynamic array a PT_DYNAMIC header describes. */
  function DynAddr(m: Module, h: nat): u64
    requires h < |m.headers|
  {
    AddrAdd(m.base, m.headers[h].vaddr)
  }

  /** Every PT_DYNAMIC header of the module describes a dynamic array that can be scanned. */
  predicate ModuleReadable(m: Module) {
    forall h :: 0 <= h < |m.headers| && m.headers[h].pType == PT_DYNAMIC ==>
      DynAddr(m, h) in m.mem.dynamic && SectionReadable(m, m.mem.dynamic[DynAddr(m, h)])
  }

  /** The records the module's first `h` program headers contribute, in header order. */
  function ModuleEntries(m: Module, h: nat): seq<Entry>
    requires ModuleReadable(m) && h <= |m.headers|
  {
    if h == 0 then []
    else
      ModuleEntries(m, h - 1) +
      (if m.headers[h - 1].pType == PT_DYNAMIC then SectionEntries(m, m.mem.dynamic[DynAddr(m, h - 1)]) else [])
  }

  /**
   * The body of `callback` for one PT_DYNAMIC header: walks its dynamic array
   * and, unless the walk found no symbol table, no string table or a zero
   * count, appends the records of its symbols.
   */
  method ScanDynamic(m: Module, dyn: seq<Dyn>, v: EntryVec)
    requires v.Valid() && SectionReadable(m, dyn)
    modifies v, v.data
    ensures v.Valid() && (v.data == old(v.data) || fresh(v.data))
    ensures v.Contents() == old(v.Contents()) + SectionEntries(m, dyn)
  {
    var t := WalkDynamic(m, dyn);
    if t.symtab.None? || t.strtab.None? || t.count == 0 {
      return;
    }
    ExtractSymbols(m, m.mem.symbols[t.symtab.value], m.mem.strings[t.strtab.value], t.count, v);
  }

  /** One iteration of `callback`'s header loop: scans header `h` when it is PT_DYNAMIC. */
  method ScanHeader(m: Module, h: nat, v: EntryVec, ghost prefix: seq<Entry>)
    requires v.Valid() && ModuleReadable(m) && h < |m.headers|
    requires v.Contents() == prefix + ModuleEntries(m, h)
    modifies v, v.data
    ensures v.Valid() && (v.data == old(v.data) || fresh(v.data))
    ensures v.Contents() == prefix + ModuleEntries(m, h + 1)
  {
    if m.headers[h].pType == PT_DYNAMIC {
      ScanDynamic(m, m.mem.dynamic[AddrAdd(m.base, m.headers[h].vaddr)], v);
    }
  }

  /** `callback`: scans the dynamic array of every PT_DYNAMIC program header, in header order. */
  method Callback(m: Module, v: EntryVec)
    requires v.Valid() && ModuleReadable(m)
    modifies v, v.data
    ensures v.Valid() && (v.data == old(v.data) || fresh(v.data))
    ensures v.Contents() == old(v.Contents()) + ModuleEntries(m, |m.headers|)
  {
    ghost var prefix := v.Contents();
    for h := 0 to |m.headers|
      invariant v.Valid() && (v.data == old(v.data) || fresh(v.data))
      invariant v.Contents() == prefix + ModuleEntries(m, h)
    {
      ScanHeader(m, h, v, prefix);
    }
  }

  // ---------------------------------------------------------------------------
  // The whole pass

  /** The records of all modules, in enumeration order. */
  function AllEntries(modules: seq<Module>): seq<Entry>
    requires forall i :: 0 <= i < |modules| ==> ModuleReadable(modules[i])
  {
    if modules == [] then []
    else
      var last := modules[|modules| - 1];
      AllEntries(modules[..|modules| - 1]) + ModuleEntries(last, |last.headers|)
  }

  /**
   * The enumeration of loaded modules: a fresh vector, then `callback` on
   * every module in turn.
   */
  method Collect(modules: seq<Module>) returns (v: EntryVec)
    requires forall i :: 0 <= i < |modules| ==> ModuleReadable(modules[i])
    ensures fresh(v) && fresh(v.data) && v.Valid()
    ensures v.Contents() == AllEntries(modules)
  {
    v := new EntryVec();
    for i := 0 to |modules|
      invariant fresh(v) && fresh(v.data) && v.Valid()
      invariant v.Contents() == AllEntries(modules[..i])
    {
      assert modules[..i + 1][..i] == modules[..i];
      Callback(modules[i], v);
    }
    assert modules[..|modules|] == modules;
  }

  /**
   * The analysis pass: collects every module's records, sorts them with the
   * quicksort, and scans the sorted collection for conflict groups.
   */
  method RunScan(modules: seq<Module>) returns (sorted: seq<Entry>, groups: seq<Group>)
    requires forall i :: 0 <= i < |modules| ==> ModuleReadable(modules[i])
    ensures multiset(sorted) == multiset(AllEntries(modules))
    ensures Sorted(sorted)
    ensures groups == Groups(sorted)
  {
    var v := Collect(modules);
    SortPrefix(v.data, v.n);
    sorted := v.data[..v.n];
    groups := ConflictScan(sorted);
  }
}
