/**
 Opening a file: its headers are read, and its sections become a list of descriptors.
 */
module ElfOpen {
  import opened Basics
  import opened ElfTypes
  import opened ElfReader
  import SectionList

  lemma TableCounted(image: seq<byte>, h: Ehdr, encoding: nat)
    requires Shdrs(image, h, encoding).Cooked? && h.shoff != 0
    ensures var shdrs := Shdrs(image, h, encoding).value;
            shdrs != [] && |shdrs| == SectionList.DecodeCount(h.shnum, shdrs[0].size)
  {
    var num := SectionCount(image, h, encoding).value;
    assert h.shoff + ShdrBytes(0) == h.shoff;
    assert ShdrTable(image, h.shoff, num, encoding)[0] == ShdrAt(image, h.shoff, encoding);
  }

  /** The number of section headers read is the one that header and first section header encode. */
  lemma CookedCount(image: seq<byte>)
    requires CookFile(image).Cooked?
    ensures var hs := CookFile(image).value;
            hs.shdrs != [] ==> |hs.shdrs| == SectionList.DecodeCount(hs.ehdr.shnum, hs.shdrs[0].size)
  {
    var hs := CookFile(image).value;
    if hs.shdrs != [] {
      TableCounted(image, hs.ehdr, image[EI_DATA]);
    }
  }

  /** What the section list will be, as the reader finds it. */
  function FileOf(r: Cooked<Headers>): SectionList.Unread {
    if r.Spoiled? then SectionList.BadFile
    else SectionList.GoodFile(r.value.ehdr.shnum, r.value.ehdr.shstrndx, r.value.shdrs)
  }

  /** A file that can be read gets a list whose order, indices and count are those of the section header table. */
  method Open(image: seq<byte>) returns (r: Cooked<Headers>, list: SectionList.Elf)
    ensures r == CookFile(image)
    ensures fresh(list) && list.Valid() && list.hasEhdr == r.Cooked?
    ensures r.Cooked? ==>
      && |list.scns| == |r.value.shdrs| && list.shstrndx == r.value.ehdr.shstrndx
      && (r.value.shdrs != [] || r.value.ehdr.shnum == 0 ==> list.Counted())
      && forall i :: 0 <= i < |list.scns| ==> list.scns[i].index == i && list.scns[i].shdr == r.value.shdrs[i]
  {
    r := Cook(image);
    if r.Cooked? {
      CookedCount(image);
    }
    list := new SectionList.Elf.Begin(true, FileOf(r));
    var ok := list.NeedHeaders();
    assert forall i {:trigger list.scns[i]} :: 0 <= i < |list.scns| ==> list.scns[i].index == i;
  }
}
