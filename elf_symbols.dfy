/**
 * Reading the symbol table of one ELF-64 relocatable object (System V
 * generic ABI, chapter 4: "ELF Header", "Sections", "Symbol Table") and
 * sorting its symbols into defined-global, defined-weak and undefined names.
 */
module ElfSymbols {
  import opened BinaryReader

  /** A symbol name: the raw bytes of its string-table entry. */
  type SymName = Bytes

  const ShnUndef := 0
  const StbGlobal := 1
  const StbWeak := 2
  const SizeofSym := 24

  /** The section names ".strtab" and ".symtab" as bytes. */
  const StrtabName: Bytes := [0x2e, 0x73, 0x74, 0x72, 0x74, 0x61, 0x62]
  const SymtabName: Bytes := [0x2e, 0x73, 0x79, 0x6d, 0x74, 0x61, 0x62]

  /** The three name sets one object contributes. */
  datatype Symtab = Symtab(globals: set<SymName>, weaks: set<SymName>, undefs: set<SymName>)

  /** The four ELF header fields the reader uses. */
  datatype ElfHeader = ElfHeader(shoff: nat, shentsize: nat, shnum: nat, shstrndx: nat)

  /** `e_shoff` (8 bytes at 40), `e_shentsize`, `e_shnum`, `e_shstrndx` (2 bytes each at 58, 60, 62). */
  function ReadHeader(data: Bytes): (h: ElfHeader)
    ensures h.shoff < Pow256(8) && h.shentsize < 0x1_0000 && h.shnum < 0x1_0000 && h.shstrndx < 0x1_0000
    ensures 64 <= |data| ==>
              h.shoff == LittleEndian(data[40..48]) && h.shentsize == LittleEndian(data[58..60]) &&
              h.shnum == LittleEndian(data[60..62]) && h.shstrndx == LittleEndian(data[62..64])
  {
    assert Pow256(2) == 0x1_0000;
    ElfHeader(ReadInt(data, 40, 8), ReadInt(data, 58, 2), ReadInt(data, 60, 2), ReadInt(data, 62, 2))
  }

  /** A header whose fields are encoded at their offsets reads back as those fields. */
  lemma ReadHeaderOfEncoding(data: Bytes, h: ElfHeader)
    requires 64 <= |data|
    requires h.shoff < Pow256(8) && h.shentsize < Pow256(2) && h.shnum < Pow256(2) && h.shstrndx < Pow256(2)
    requires data[40..48] == ToLittleEndian(h.shoff, 8)
    requires data[58..60] == ToLittleEndian(h.shentsize, 2)
    requires data[60..62] == ToLittleEndian(h.shnum, 2)
    requires data[62..64] == ToLittleEndian(h.shstrndx, 2)
    ensures ReadHeader(data) == h
  {
    LittleEndianOfEncoding(h.shoff, 8);
    LittleEndianOfEncoding(h.shentsize, 2);
    LittleEndianOfEncoding(h.shnum, 2);
    LittleEndianOfEncoding(h.shstrndx, 2);
  }

  /** File offset of section header `sh`. */
  function SectionHeaderAt(h: ElfHeader, sh: nat): nat
  {
    h.shoff + sh * h.shentsize
  }

  /**
   * `read_section`: the payload of the section whose header starts at `hdr`,
   * located by `sh_offset` (8 bytes at hdr+24) and `sh_size` (8 bytes at hdr+32).
   */
  function ReadSection(data: Bytes, hdr: nat): (r: Bytes)
    ensures |r| <= ReadInt(data, hdr + 32, 8)
    ensures ReadInt(data, hdr + 24, 8) + ReadInt(data, hdr + 32, 8) <= |data| ==>
              r == data[ReadInt(data, hdr + 24, 8)..ReadInt(data, hdr + 24, 8) + ReadInt(data, hdr + 32, 8)]
  {
    ReadAt(data, ReadInt(data, hdr + 24, 8), ReadInt(data, hdr + 32, 8))
  }

  /** The name of section `sh`, looked up in the section-name string table. */
  function SectionName(data: Bytes, h: ElfHeader, shstrtab: Bytes, sh: nat): Bytes
  {
    ReadName(data, SectionHeaderAt(h, sh), shstrtab)
  }

  /** The names of sections 0 .. shnum-1, in header order. */
  function SectionNames(data: Bytes, h: ElfHeader, shstrtab: Bytes): (names: seq<Bytes>)
    ensures |names| == h.shnum
    ensures forall sh :: 0 <= sh < h.shnum ==> names[sh] == SectionName(data, h, shstrtab, sh)
  {
    seq(h.shnum, sh requires 0 <= sh < h.shnum => SectionName(data, h, shstrtab, sh))
  }

  datatype Option<T> = None | Some(value: T)

  /** The last of the positions 0 .. k-1 of `names` holding `name`, if one does. */
  function LastIndex(names: seq<Bytes>, name: Bytes, k: nat): (r: Option<nat>)
    requires k <= |names|
    ensures r.Some? ==> r.value < k && names[r.value] == name &&
                        forall j :: r.value < j < k ==> names[j] != name
    ensures r.None? ==> forall j :: 0 <= j < k ==> names[j] != name
  {
    if k == 0 then None
    else if names[k - 1] == name then Some(k - 1)
    else LastIndex(names, name, k - 1)
  }

  /**
   * The table the section loop holds after visiting sections 0 .. k-1:
   * the payload of the last one called `name`, or empty when none is.
   */
  function TableNamed(data: Bytes, h: ElfHeader, shstrtab: Bytes, name: Bytes, k: nat): Bytes
    requires k <= h.shnum
  {
    match LastIndex(SectionNames(data, h, shstrtab), name, k)
    case None => []
    case Some(j) => ReadSection(data, SectionHeaderAt(h, j))
  }

  /** Visiting section k replaces the table exactly when section k has the name. */
  lemma TableNamedStep(data: Bytes, h: ElfHeader, shstrtab: Bytes, name: Bytes, k: nat)
    requires k < h.shnum
    ensures TableNamed(data, h, shstrtab, name, k + 1) ==
              if SectionName(data, h, shstrtab, k) == name then ReadSection(data, SectionHeaderAt(h, k))
              else TableNamed(data, h, shstrtab, name, k)
  {
  }

  /** One decoded `Elf64_Sym` record (the fields the reader looks at). */
  datatype SymEntry = SymEntry(name: SymName, info: Byte, other: Byte, shndx: nat)

  /** `ELF64_ST_BIND(st_info)`. */
  function Bind(info: Byte): nat
  {
    info / 16
  }

  /** Symbol `ns` of `symtab`: the 24-byte record at `ns * 24`. */
  function DecodeSym(symtab: Bytes, strtab: Bytes, ns: nat): SymEntry
    requires (ns + 1) * SizeofSym <= |symtab|
  {
    var rec := symtab[ns * SizeofSym..(ns + 1) * SizeofSym];
    SymEntry(ReadName(rec, 0, strtab), ReadInt(rec, 4, 1), ReadInt(rec, 5, 1), ReadInt(rec, 6, 2))
  }

  /**
   * The `Elf64_Sym` layout: `st_name` is 4 bytes at 0, `st_info` 1 byte at 4,
   * `st_other` 1 byte at 5 and `st_shndx` 2 bytes at 6, all little-endian.
   */
  lemma DecodeSymLayout(symtab: Bytes, strtab: Bytes, ns: nat)
    requires (ns + 1) * SizeofSym <= |symtab|
    ensures var e, o := DecodeSym(symtab, strtab, ns), ns * SizeofSym;
            && e.name == NameAt(strtab, symtab[o] as int + 0x100 * symtab[o + 1] as int
                                        + 0x1_0000 * symtab[o + 2] as int + 0x100_0000 * symtab[o + 3] as int)
            && e.info == symtab[o + 4] && e.other == symtab[o + 5]
            && e.shndx == symtab[o + 6] as int + 0x100 * symtab[o + 7] as int
  {
    assert (ns + 1) * SizeofSym == ns * SizeofSym + SizeofSym;
    var rec := symtab[ns * SizeofSym..(ns + 1) * SizeofSym];
    LittleEndianFour(rec[0..4]);
    LittleEndianTwo(rec[6..8]);
    LittleEndianOne(rec[4..5]);
    LittleEndianOne(rec[5..6]);
  }

  lemma LittleEndianOne(bs: Bytes)
    requires |bs| == 1
    ensures LittleEndian(bs) == bs[0]
  {
    assert bs[1..] == [];
  }

  lemma LittleEndianTwo(bs: Bytes)
    requires |bs| == 2
    ensures LittleEndian(bs) == bs[0] as int + 0x100 * bs[1] as int
  {
    assert bs[1..][1..] == [];
  }

  lemma LittleEndianFour(bs: Bytes)
    requires |bs| == 4
    ensures LittleEndian(bs) == bs[0] as int + 0x100 * bs[1] as int + 0x1_0000 * bs[2] as int + 0x100_0000 * bs[3] as int
  {
    var b1 := bs[1..];
    var b2 := b1[1..];
    var b3 := b2[1..];
    assert b3[1..] == [];
    assert LittleEndian(b3) == bs[3] as int;
    assert LittleEndian(b2) == bs[2] as int + 0x100 * bs[3] as int;
    assert LittleEndian(b1) == bs[1] as int + 0x100 * bs[2] as int + 0x1_0000 * bs[3] as int;
  }

  /** Number of whole records in `symtab`. */
  function RecordCount(symtab: Bytes): nat
  {
    |symtab| / SizeofSym
  }

  /** The records the reader classifies: 1 .. n-1 of the n whole records. */
  function SymbolEntries(symtab: Bytes, strtab: Bytes): (es: seq<SymEntry>)
    ensures |es| == if RecordCount(symtab) == 0 then 0 else RecordCount(symtab) - 1
  {
    var n := RecordCount(symtab);
    if n == 0 then []
    else seq(n - 1, i requires 0 <= i < n - 1 => DecodeSym(symtab, strtab, i + 1))
  }

  /** Entry i of SymbolEntries is record i+1: record 0 is skipped, a trailing partial record is ignored. */
  lemma SymbolEntriesAt(symtab: Bytes, strtab: Bytes, i: nat)
    requires i < |SymbolEntries(symtab, strtab)|
    ensures (i + 2) * SizeofSym <= |symtab|
    ensures SymbolEntries(symtab, strtab)[i] == DecodeSym(symtab, strtab, i + 1)
  {
  }

  datatype SymClass = GlobalDef | WeakDef | Undefined | Ignored

  /** Which set a symbol goes to. */
  function ClassOf(e: SymEntry): SymClass
  {
    if e.shndx != ShnUndef then
      if Bind(e.info) == StbGlobal then GlobalDef
      else if Bind(e.info) == StbWeak then WeakDef
      else Ignored
    else Undefined
  }

  /** The sets built from `es`. */
  function Classify(es: seq<SymEntry>): Symtab
  {
    Symtab(ClassNames(es, GlobalDef), ClassNames(es, WeakDef), ClassNames(es, Undefined))
  }

  /** The names of the entries of class `c`. */
  function ClassNames(es: seq<SymEntry>, c: SymClass): set<SymName>
  {
    set e | e in es && ClassOf(e) == c :: e.name
  }

  /** The classification rule, name by name. */
  lemma ClassifyMembership(es: seq<SymEntry>, n: SymName)
    ensures n in Classify(es).undefs <==>
              exists i :: 0 <= i < |es| && es[i].name == n && es[i].shndx == ShnUndef
    ensures n in Classify(es).globals <==>
              exists i :: 0 <= i < |es| && es[i].name == n && es[i].shndx != ShnUndef && es[i].info / 16 == StbGlobal
    ensures n in Classify(es).weaks <==>
              exists i :: 0 <= i < |es| && es[i].name == n && es[i].shndx != ShnUndef && es[i].info / 16 == StbWeak
  {
    if n in Classify(es).undefs {
      var e :| e in es && ClassOf(e) == Undefined && e.name == n;
      var i :| 0 <= i < |es| && es[i] == e;
    }
    if n in Classify(es).globals {
      var e :| e in es && ClassOf(e) == GlobalDef && e.name == n;
      var i :| 0 <= i < |es| && es[i] == e;
    }
    if n in Classify(es).weaks {
      var e :| e in es && ClassOf(e) == WeakDef && e.name == n;
      var i :| 0 <= i < |es| && es[i] == e;
    }
  }

  /** The symbol type (low nibble of `st_info`) and `st_other` never change the result. */
  lemma ClassifyIgnoresTypeAndOther(es: seq<SymEntry>, es': seq<SymEntry>)
    requires |es| == |es'|
    requires forall i :: 0 <= i < |es| ==>
               es[i].name == es'[i].name && es[i].shndx == es'[i].shndx && Bind(es[i].info) == Bind(es'[i].info)
    ensures Classify(es) == Classify(es')
  {
    ClassNamesAgree(es, es', GlobalDef);
    ClassNamesAgree(es', es, GlobalDef);
    ClassNamesAgree(es, es', WeakDef);
    ClassNamesAgree(es', es, WeakDef);
    ClassNamesAgree(es, es', Undefined);
    ClassNamesAgree(es', es, Undefined);
  }

  /** Entries that agree on name, section and binding put their names in the same sets. */
  lemma ClassNamesAgree(es: seq<SymEntry>, es': seq<SymEntry>, c: SymClass)
    requires |es| == |es'|
    requires forall i :: 0 <= i < |es| ==>
               es[i].name == es'[i].name && es[i].shndx == es'[i].shndx && Bind(es[i].info) == Bind(es'[i].info)
    ensures ClassNames(es, c) <= ClassNames(es', c)
  {
    forall n | n in ClassNames(es, c)
      ensures n in ClassNames(es', c)
    {
      var e :| e in es && ClassOf(e) == c && e.name == n;
      var i :| 0 <= i < |es| && es[i] == e;
      ClassNameAt(es', i, e, c);
    }
  }

  /** An entry of class `c` at index `i` contributes its name, whatever its type and `st_other`. */
  lemma ClassNameAt(es: seq<SymEntry>, i: nat, e: SymEntry, c: SymClass)
    requires i < |es| && es[i].name == e.name && es[i].shndx == e.shndx && Bind(es[i].info) == Bind(e.info)
    requires ClassOf(e) == c
    ensures e.name in ClassNames(es, c)
  {
    assert es[i] in es && ClassOf(es[i]) == c;
  }

  /** The sets after one more entry: its name joins the one set its class selects. */
  function AddSymbol(t: Symtab, e: SymEntry): Symtab
  {
    match ClassOf(e)
    case GlobalDef => t.(globals := t.globals + {e.name})
    case WeakDef => t.(weaks := t.weaks + {e.name})
    case Undefined => t.(undefs := t.undefs + {e.name})
    case Ignored => t
  }

  /** Classifying a prefix one entry longer adds that entry. */
  lemma ClassifyPrefix(es: seq<SymEntry>, k: nat)
    requires k < |es|
    ensures Classify(es[..k + 1]) == AddSymbol(Classify(es[..k]), es[k])
  {
    var t, t' := Classify(es[..k]), Classify(es[..k + 1]);
    assert es[..k + 1] == es[..k] + [es[k]];
    assert forall x :: x in es[..k + 1] <==> x in es[..k] || x == es[k];
    var e := es[k];
    if ClassOf(e) == GlobalDef {
      assert t'.globals == t.globals + {e.name};
    } else if ClassOf(e) == WeakDef {
      assert t'.weaks == t.weaks + {e.name};
    } else if ClassOf(e) == Undefined {
      assert t'.undefs == t.undefs + {e.name};
    }
  }

  /** The sets after classifying entries 0 .. k-1 one at a time, as the symbol loop does. */
  function ClassifyFirst(es: seq<SymEntry>, k: nat): Symtab
    requires k <= |es|
  {
    if k == 0 then Symtab({}, {}, {}) else AddSymbol(ClassifyFirst(es, k - 1), es[k - 1])
  }

  /** Adding entries one at a time builds the same sets as Classify. */
  lemma {:induction false} ClassifyFirstIsClassify(es: seq<SymEntry>, k: nat)
    requires k <= |es|
    ensures ClassifyFirst(es, k) == Classify(es[..k])
  {
    if k > 0 {
      ClassifyFirstIsClassify(es, k - 1);
      ClassifyPrefix(es, k - 1);
    }
  }

  /** The section-name string table: the payload of section `e_shstrndx`. */
  function SectionNameTable(data: Bytes): Bytes
  {
    var h := ReadHeader(data);
    ReadSection(data, SectionHeaderAt(h, h.shstrndx))
  }

  /** The payload of the last section called `name`, or empty when there is none. */
  function LastTable(data: Bytes, name: Bytes): Bytes
  {
    var h := ReadHeader(data);
    TableNamed(data, h, SectionNameTable(data), name, h.shnum)
  }

  /** What `read_syms` returns for an object file holding `data`. */
  function ObjectSymtab(data: Bytes): Symtab
  {
    Classify(SymbolEntries(LastTable(data, SymtabName), LastTable(data, StrtabName)))
  }

  /**
   * The section loop of `read_syms`: every section header in turn, keeping
   * the payload of each section called ".strtab" or ".symtab".
   */
  method ScanSections(data: Bytes, h: ElfHeader, shstrtab: Bytes) returns (strtab: Bytes, symtab: Bytes)
    ensures strtab == TableNamed(data, h, shstrtab, StrtabName, h.shnum)
    ensures symtab == TableNamed(data, h, shstrtab, SymtabName, h.shnum)
  {
    strtab, symtab := [], [];
    for sh := 0 to h.shnum
      invariant strtab == TableNamed(data, h, shstrtab, StrtabName, sh)
      invariant symtab == TableNamed(data, h, shstrtab, SymtabName, sh)
    {
      var hdr := SectionHeaderAt(h, sh);
      TableNamedStep(data, h, shstrtab, StrtabName, sh);
      TableNamedStep(data, h, shstrtab, SymtabName, sh);
      var name := ReadName(data, hdr, shstrtab);
      if name == StrtabName {
        strtab := ReadSection(data, hdr);
      } else if name == SymtabName {
        symtab := ReadSection(data, hdr);
      }
    }
  }

  /**
   * The file-reading half of `read_syms`: the header fields, the
   * section-name string table, then the section loop.
   */
  method ReadTables(data: Bytes) returns (strtab: Bytes, symtab: Bytes)
    ensures strtab == LastTable(data, StrtabName)
    ensures symtab == LastTable(data, SymtabName)
  {
    var shoff := ReadInt(data, 40, 8);
    var shentsize := ReadInt(data, 58, 2);
    var shnum := ReadInt(data, 60, 2);
    var shstrndx := ReadInt(data, 62, 2);
    var h := ElfHeader(shoff, shentsize, shnum, shstrndx);
    assert h == ReadHeader(data);
    var shstrtab := ReadSection(data, SectionHeaderAt(h, shstrndx));
    strtab, symtab := ScanSections(data, h, shstrtab);
  }

  /** The fields `read_syms` reads from record `ns` are those of entry ns-1 of SymbolEntries. */
  lemma RecordFields(symtab: Bytes, strtab: Bytes, ns: nat)
    requires 1 <= ns < RecordCount(symtab)
    ensures (ns + 1) * SizeofSym <= |symtab|
    ensures var rec := symtab[ns * SizeofSym..(ns + 1) * SizeofSym];
            var e := SymbolEntries(symtab, strtab)[ns - 1];
            ReadName(rec, 0, strtab) == e.name && ReadInt(rec, 4, 1) / 16 == Bind(e.info) &&
            ReadInt(rec, 6, 2) == e.shndx
  {
    SymbolEntriesAt(symtab, strtab, ns - 1);
  }

  /**
   * The symbol loop of `read_syms`: records 1 .. n-1 of `symtab`, each
   * name added to the set its section index and binding select.
   */
  method ClassifySymbols(symtab: Bytes, strtab: Bytes) returns (out: Symtab)
    ensures out == Classify(SymbolEntries(symtab, strtab))
  {
    ghost var es := SymbolEntries(symtab, strtab);
    out := Symtab({}, {}, {});
    var numSyms := |symtab| / SizeofSym;
    assert |es| == if numSyms == 0 then 0 else numSyms - 1;
    var ns := 1;
    while ns < numSyms
      invariant 1 <= ns && ns - 1 <= |es|
      invariant ns < numSyms ==> ns - 1 < |es|
      invariant out == ClassifyFirst(es, ns - 1)
    {
      RecordFields(symtab, strtab, ns);
      var rec := symtab[ns * SizeofSym..(ns + 1) * SizeofSym];
      var stName := ReadName(rec, 0, strtab);
      var stInfo := ReadInt(rec, 4, 1);
      var stBind := stInfo / 16;
      var stShndx := ReadInt(rec, 6, 2);
      ghost var e, prev := es[ns - 1], out;
      assert ClassifyFirst(es, ns) == AddSymbol(prev, e);
      if stShndx != ShnUndef {
        if stBind == StbGlobal {
          assert ClassOf(e) == GlobalDef;
          out := out.(globals := out.globals + {stName});
        } else if stBind == StbWeak {
          assert ClassOf(e) == WeakDef;
          out := out.(weaks := out.weaks + {stName});
        } else {
          assert ClassOf(e) == Ignored;
        }
      } else {
        assert ClassOf(e) == Undefined;
        out := out.(undefs := out.undefs + {stName});
      }
      ns := ns + 1;
    }
    assert ns - 1 == |es|;
    ClassifyFirstIsClassify(es, |es|);
    assert es[..|es|] == es;
  }

  /** `read_syms`: find the string and symbol tables, then classify the symbols. */
  method ReadSyms(data: Bytes) returns (out: Symtab)
    ensures out == ObjectSymtab(data)
  {
    var strtab, symtab := ReadTables(data);
    out := ClassifySymbols(symtab, strtab);
  }
}
