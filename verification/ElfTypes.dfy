/**
 The 32-bit ELF structures (System V gABI, chapter 4 "Object Files") and the library's data types.
 */
module ElfTypes {
  import opened Basics

  const HALF: nat := 0x1_0000
  const WORD: nat := 0x1_0000_0000

  type Half = n: nat | n < 0x1_0000
  type Word = n: nat | n < 0x1_0000_0000

  /** Storing in a 32-bit field. */
  function ToWord(n: nat): (w: Word)
    ensures n < WORD ==> w == n
  {
    n % WORD
  }

  const SHN_UNDEF: nat := 0
  const SHN_LORESERVE: nat := 0xff00
  const SHN_XINDEX: nat := 0xffff
  const PN_XNUM: nat := 0xffff

  const SHT_NULL: nat := 0
  const SHT_SYMTAB: nat := 2
  const SHT_STRTAB: nat := 3
  const SHT_RELA: nat := 4
  const SHT_HASH: nat := 5
  const SHT_DYNAMIC: nat := 6
  const SHT_NOBITS: nat := 8
  const SHT_REL: nat := 9
  const SHT_DYNSYM: nat := 11
  const SHT_SYMTAB_SHNDX: nat := 18
  const SHT_SUNW_VERDEF: nat := 0x6fff_fffd
  const SHT_SUNW_VERNEED: nat := 0x6fff_fffe
  const SHT_SUNW_VERSYM: nat := 0x6fff_ffff

  const EI_NIDENT := 16
  const EI_CLASS := 4
  const EI_DATA := 5
  const EI_VERSION := 6
  const ELFCLASS32: nat := 1
  const ELFDATA2LSB: nat := 1
  const ELFDATA2MSB: nat := 2
  const EV_CURRENT: nat := 1

  const EHDR_SIZE: nat := 52
  const PHDR_SIZE: nat := 32
  const SHDR_SIZE: nat := 40
  const ADDR_SIZE: nat := 4

  function PhdrBytes(n: nat): nat { n * 32 }

  function ShdrBytes(n: nat): nat { n * 40 }

  type Ident = s: seq<byte> | |s| == 16 witness seq(16, _ => 0)

  datatype Ehdr = Ehdr(
    ident: Ident, etype: Half, machine: Half, version: Word, entry: Word, phoff: Word, shoff: Word, flags: Word,
    ehsize: Half, phentsize: Half, phnum: Half, shentsize: Half, shnum: Half, shstrndx: Half)

  datatype Phdr = Phdr(
    ptype: Word, offset: Word, vaddr: Word, paddr: Word, filesz: Word, memsz: Word, flags: Word, align: Word)

  datatype Shdr = Shdr(
    name: Word, stype: Word, flags: Word, addr: Word, offset: Word,
    size: Word, link: Word, info: Word, addralign: Word, entsize: Word)

  const ZERO_SHDR := Shdr(0, 0, 0, 0, 0, 0, 0, 0, 0, 0)

  /** What a file is opened or updated for. */
  datatype Command = NullCommand | ReadCommand | WriteCommand | ReadWriteCommand | OtherCommand

  // ----- Data types of section contents -----

  const ELF_T_NUM: nat := 17

  datatype ElfType =
    | TByte | TAddr | TDyn | TEhdr | THalf | TOff | TPhdr | TRela | TRel | TShdr | TSword | TSym | TWord
    | TSxword | TXword | TVdef | TVneed | TInvalid

  /** The widths of the fields of one element, in file and memory alike; no fields means single bytes. */
  function Fields(t: ElfType): seq<nat> {
    match t
    case TAddr | TOff | TSword | TWord => [4]
    case THalf => [2]
    case TDyn | TRel => [4, 4]
    case TRela => [4, 4, 4]
    case TSym => [4, 4, 4, 1, 1, 2]
    case TEhdr => [1, 1, 1, 1, 1, 1, 1, 1] + [1, 1, 1, 1, 1, 1, 1, 1] + [2, 2, 4, 4, 4, 4, 4] + [2, 2, 2, 2, 2, 2]
    case TPhdr => [4, 4, 4, 4, 4, 4, 4, 4]
    case TShdr => [4, 4, 4, 4, 4, 4, 4, 4, 4, 4]
    case _ => []
  }

  /** The element size in files of class 32; zero where there is no fixed size. */
  function FileSize(t: ElfType): nat {
    match t
    case TByte => 1
    case TAddr | TOff | TSword | TWord => 4
    case THalf => 2
    case TDyn | TRel => 8
    case TRela => 12
    case TSym => 16
    case TEhdr => 52
    case TPhdr => 32
    case TShdr => 40
    case _ => 0
  }

  function SectionType(stype: nat): ElfType {
    if stype == SHT_DYNAMIC then TDyn
    else if stype == SHT_DYNSYM || stype == SHT_SYMTAB then TSym
    else if stype == SHT_HASH || stype == SHT_SYMTAB_SHNDX then TWord
    else if stype == SHT_REL then TRel
    else if stype == SHT_RELA then TRela
    else if stype == SHT_SUNW_VERDEF then TVdef
    else if stype == SHT_SUNW_VERNEED then TVneed
    else if stype == SHT_SUNW_VERSYM then THalf
    else TByte
  }
}
