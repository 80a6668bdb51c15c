/**
 * The ELF vocabulary the analysis needs: fixed-width integer types, the
 * program-header, dynamic-entry and symbol records of the 64-bit layout,
 * the tag and class constants, and the names printed for binding and type
 * classes.
 */
module Elf {

  const U8_MOD: int := 0x100
  const U16_MOD: int := 0x1_0000
  const U32_MOD: int := 0x1_0000_0000
  const U64_MOD: int := 0x1_0000_0000_0000_0000

  type u8 = x: int | 0 <= x < 0x100
  type u16 = x: int | 0 <= x < 0x1_0000
  type u32 = x: int | 0 <= x < 0x1_0000_0000
  type u64 = x: int | 0 <= x < 0x1_0000_0000_0000_0000
  type i64 = x: int | -0x8000_0000_0000_0000 <= x < 0x8000_0000_0000_0000

  /** Unsigned 32-bit arithmetic keeps the low 32 bits. */
  function Wrap32(x: nat): (r: u32)
  {
    x % 0x1_0000_0000
  }

  /**
   * `(int)(a - b)` for unsigned 32-bit `a` and `b`: the difference modulo 2^32
   * read back as a two's-complement 32-bit `int`, the one value in
   * [-2^31, 2^31) that differs from `a - b` by a multiple of 2^32.
   */
  function Int32Diff(a: u32, b: u32): (r: int)
    ensures -0x8000_0000 <= r < 0x8000_0000
    ensures r == a - b || r == a - b - 0x1_0000_0000 || r == a - b + 0x1_0000_0000
    ensures -0x8000_0000 <= a - b < 0x8000_0000 ==> r == a - b
  {
    var d := a - b;
    if d >= 0x8000_0000 then d - 0x1_0000_0000
    else if d < -0x8000_0000 then d + 0x1_0000_0000
    else d
  }

  /** Unsigned 64-bit addition, wrapping like the C `ElfW(Addr)` arithmetic. */
  function AddrAdd(a: u64, b: u64): (r: u64)
    ensures a + b < U64_MOD ==> r == a + b
    ensures a + b >= U64_MOD ==> r == a + b - U64_MOD
  {
    (a + b) % 0x1_0000_0000_0000_0000
  }

  // Program header types
  const PT_NULL: u32 := 0
  const PT_LOAD: u32 := 1
  const PT_DYNAMIC: u32 := 2

  // Dynamic entry tags
  const DT_NULL: i64 := 0
  const DT_HASH: i64 := 4
  const DT_STRTAB: i64 := 5
  const DT_SYMTAB: i64 := 6
  const DT_GNU_HASH: i64 := 0x6fff_fef5

  // Symbol binding classes
  const STB_LOCAL: u8 := 0
  const STB_GLOBAL: u8 := 1
  const STB_WEAK: u8 := 2
  const STB_NUM: u8 := 3
  const STB_LOOS: u8 := 10
  const STB_HIOS: u8 := 12
  const STB_LOPROC: u8 := 13
  const STB_HIPROC: u8 := 15

  // Symbol types
  const STT_NOTYPE: u8 := 0
  const STT_OBJECT: u8 := 1
  const STT_FUNC: u8 := 2
  const STT_SECTION: u8 := 3
  const STT_FILE: u8 := 4
  const STT_COMMON: u8 := 5
  const STT_TLS: u8 := 6
  const STT_NUM: u8 := 7
  const STT_LOOS: u8 := 10
  const STT_HIOS: u8 := 12
  const STT_LOPROC: u8 := 13
  const STT_HIPROC: u8 := 15

  /** The undefined section index. */
  const SHN_UNDEF: u16 := 0

  /** `p_type`, `p_vaddr`, `p_memsz` of an `Elf64_Phdr`; the other fields are never read. */
  datatype Phdr = Phdr(pType: u32, vaddr: u64, memsz: u64)

  /** An `Elf64_Dyn`: a tag and its value, read as an address (`d_ptr`). */
  datatype Dyn = Dyn(tag: i64, val: u64)

  /** An `Elf64_Sym`. */
  datatype Sym = Sym(name: u32, info: u8, other: u8, shndx: u16, value: u64, size: u64)

  /** `ELF64_ST_BIND`: the high four bits of `st_info`. */
  function StBind(info: u8): (b: u8)
    ensures b < 16
    ensures b * 16 + StType(info) == info
  {
    info / 16
  }

  /** `ELF64_ST_TYPE`: the low four bits of `st_info`. */
  function StType(info: u8): (t: u8)
    ensures t < 16
  {
    info % 16
  }

  // Selectors for ConstantToStr
  const STT_TYPE: int := 1
  const STB_BIND: int := 2

  /**
   * The name printed for a binding (kind STB_BIND) or a type (kind STT_TYPE)
   * constant: a binding never prints as a type name nor the reverse, and an
   * unknown kind prints "UNKNOWN".
   */
  function ConstantToStr(kind: int, constant: int): (name: string)
    ensures kind != STB_BIND && kind != STT_TYPE ==> name == "UNKNOWN"
    ensures kind == STB_BIND ==> name == "UNKNOWN" || (|name| > 4 && name[..4] == "STB_")
    ensures kind == STT_TYPE ==> name == "UNKNOWN" || (|name| > 4 && name[..4] == "STT_")
  {
    if kind == STB_BIND then
      if constant == STB_LOCAL as int then "STB_LOCAL"
      else if constant == STB_GLOBAL as int then "STB_GLOBAL"
      else if constant == STB_WEAK as int then "STB_WEAK"
      else if constant == STB_NUM as int then "STB_NUM"
      else if constant == STB_LOOS as int then "STB_LOOS"
      else if constant == STB_HIOS as int then "STB_HIOS"
      else if constant == STB_LOPROC as int then "STB_LOPROC"
      else if constant == STB_HIPROC as int then "STB_HIPROC"
      else "UNKNOWN"
    else if kind == STT_TYPE then
      if constant == STT_NOTYPE as int then "STT_NOTYPE"
      else if constant == STT_OBJECT as int then "STT_OBJECT"
      else if constant == STT_FUNC as int then "STT_FUNC"
      else if constant == STT_SECTION as int then "STT_SECTION"
      else if constant == STT_FILE as int then "STT_FILE"
      else if constant == STT_COMMON as int then "STT_COMMON"
      else if constant == STT_TLS as int then "STT_TLS"
      else if constant == STT_NUM as int then "STT_NUM"
      else if constant == STT_LOOS as int then "STT_LOOS"
      else if constant == STT_HIOS as int then "STT_HIOS"
      else if STT_LOPROC as int < constant <= STT_HIPROC as int then "STT_LOPROC - STT_HIPROC"
      else "UNKNOWN"
    else "UNKNOWN"
  }

  /** The binding constants that have a name of their own. */
  predicate NamedBinding(c: int) {
    c in {0, 1, 2, 3, 10, 12, 13, 15}
  }

  /** The type constants that have a name of their own (the processor range aside). */
  predicate NamedType(c: int) {
    c in {0, 1, 2, 3, 4, 5, 6, 7, 10, 12}
  }

  /**
   * A binding constant is printed by name exactly when it is one of the eight
   * named classes, and two named classes never share a name.
   */
  lemma BindingNames(c: int, d: int)
    ensures ConstantToStr(STB_BIND, c) != "UNKNOWN" <==> NamedBinding(c)
    ensures NamedBinding(c) && NamedBinding(d) && c != d ==>
              ConstantToStr(STB_BIND, c) != ConstantToStr(STB_BIND, d)
  {
  }

  /**
   * A type constant is printed by name exactly when it is named or lies in
   * (STT_LOPROC, STT_HIPROC]; STT_LOPROC itself prints as "UNKNOWN" because
   * the range test is strict at its lower end. Named types never share a name.
   */
  lemma TypeNames(c: int, d: int)
    ensures ConstantToStr(STT_TYPE, c) != "UNKNOWN" <==> NamedType(c) || 13 < c <= 15
    ensures ConstantToStr(STT_TYPE, STT_LOPROC as int) == "UNKNOWN"
    ensures NamedType(c) && NamedType(d) && c != d ==>
              ConstantToStr(STT_TYPE, c) != ConstantToStr(STT_TYPE, d)
  {
  }
}
