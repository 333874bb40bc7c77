/**
 ELF images by the values of their fields (kernel/elfload.c:21-47), and exactly which of them the loader of
 kernel/elfload.c:78-153 accepts.
 */
module ElfImage {
  import opened Base
  import opened Loader

  // ---------------------------------------------------------------- little-endian fields

  /** An unsigned number of `size` bytes. */
  datatype Field = Field(value: nat, size: nat)

  function Pow256(n: nat): nat {
    if n == 0 then 1 else 256 * Pow256(n - 1)
  }

  function Encode(v: nat, n: nat): (r: seq<byte>)
    ensures |r| == n
  {
    if n == 0 then [] else [(v % 256) as byte] + Encode(v / 256, n - 1)
  }

  /** Reading back an encoded number. */
  lemma {:induction false} LeEncode(image: seq<byte>, off: nat, v: nat, n: nat)
    requires off + n <= |image| && image[off..off + n] == Encode(v, n) && v < Pow256(n)
    ensures Le(image, off, n) == v
    decreases n
  {
    if n > 0 {
      assert image[off] == image[off..off + n][0];
      assert image[off + 1..off + n] == image[off..off + n][1..];
      LeEncode(image, off + 1, v / 256, n - 1);
    }
  }

  /** The fields one after the other. */
  function Bytes(fields: seq<Field>): seq<byte> {
    if fields == [] then [] else Encode(fields[0].value, fields[0].size) + Bytes(fields[1..])
  }

  function Size(fields: seq<Field>): nat {
    if fields == [] then 0 else fields[0].size + Size(fields[1..])
  }

  predicate HoldsFields(image: seq<byte>, off: nat, fields: seq<Field>) {
    && (forall i | 0 <= i < |fields| :: fields[i].value < Pow256(fields[i].size))
    && off + |Bytes(fields)| <= |image|
    && image[off..off + |Bytes(fields)|] == Bytes(fields)
  }

  /** Every field reads back at the sum of the sizes before it. */
  lemma {:induction false} FieldsReadBack(image: seq<byte>, off: nat, fields: seq<Field>, i: nat)
    requires HoldsFields(image, off, fields) && i < |fields|
    ensures var at := off + Size(fields[..i]);
            at + fields[i].size <= |image| && Le(image, at, fields[i].size) == fields[i].value
    decreases |fields|
  {
    var first, rest := fields[0], fields[1..];
    var all := image[off..off + |Bytes(fields)|];
    assert all[..first.size] == image[off..off + first.size];
    assert all[first.size..] == image[off + first.size..off + first.size + |Bytes(rest)|];
    if i == 0 {
      LeEncode(image, off, first.value, first.size);
    } else {
      assert forall j | 0 <= j < |rest| :: rest[j] == fields[j + 1];
      FieldsReadBack(image, off + first.size, rest, i - 1);
      assert fields[..i][1..] == rest[..i - 1];
    }
  }

  // ---------------------------------------------------------------- the two headers

  datatype Ehdr = Ehdr(ident: seq<byte>, kind: nat, machine: nat, version: nat, entry: nat, phoff: nat, shoff: nat,
                       flags: nat, ehsize: nat, phentsize: nat, phnum: nat, shentsize: nat, shnum: nat, shstrndx: nat)

  datatype Segment = Segment(kind: nat, flags: nat, offset: nat, vaddr: nat, paddr: nat, filesz: nat, memsz: nat,
                             align: nat)

  /** What follows the sixteen bytes of `e_ident`. */
  function EhdrFields(h: Ehdr): seq<Field> {
    [Field(h.kind, 2), Field(h.machine, 2), Field(h.version, 4), Field(h.entry, 8), Field(h.phoff, 8),
     Field(h.shoff, 8), Field(h.flags, 4), Field(h.ehsize, 2), Field(h.phentsize, 2), Field(h.phnum, 2),
     Field(h.shentsize, 2), Field(h.shnum, 2), Field(h.shstrndx, 2)]
  }

  function SegmentFields(p: Segment): seq<Field> {
    [Field(p.kind, 4), Field(p.flags, 4), Field(p.offset, 8), Field(p.vaddr, 8), Field(p.paddr, 8),
     Field(p.filesz, 8), Field(p.memsz, 8), Field(p.align, 8)]
  }

  function PhdrOf(p: Segment): Phdr {
    Phdr(p.kind, p.flags, p.offset, p.vaddr, p.filesz, p.memsz)
  }

  /** A program header holds its eight fields in the order of the format. */
  lemma PhdrReadsBack(image: seq<byte>, off: nat, p: Segment)
    requires HoldsFields(image, off, SegmentFields(p))
    ensures off + PHDR_SIZE <= |image| && PhdrAt(image, off) == PhdrOf(p)
  {
    hide Le, HoldsFields;
    var fs := SegmentFields(p);
    SegmentOffsets(p);
    FieldsReadBack(image, off, fs, 0);
    FieldsReadBack(image, off, fs, 1);
    FieldsReadBack(image, off, fs, 2);
    FieldsReadBack(image, off, fs, 3);
    FieldsReadBack(image, off, fs, 5);
    FieldsReadBack(image, off, fs, 6);
    FieldsReadBack(image, off, fs, 7);
  }

  lemma {:induction false} SizeOfMore(fields: seq<Field>, i: nat)
    requires i < |fields|
    ensures Size(fields[..i + 1]) == Size(fields[..i]) + fields[i].size
    decreases |fields|
  {
    if i == 0 {
      assert fields[..1][1..] == [];
    } else {
      SizeOfMore(fields[1..], i - 1);
      assert fields[..i + 1][1..] == fields[1..][..i] && fields[..i][1..] == fields[1..][..i - 1];
    }
  }

  lemma SegmentOffsets(p: Segment)
    ensures var fs := SegmentFields(p);
            && Size(fs[..0]) == 0 && Size(fs[..1]) == 4 && Size(fs[..2]) == 8 && Size(fs[..3]) == 16
            && Size(fs[..5]) == 32 && Size(fs[..6]) == 40 && Size(fs[..7]) == 48
  {
    hide Size;
    var fs := SegmentFields(p);
    assert fs[..0] == [] && Size([]) == 0 by { SizeOfNone(); }
    SizeOfMore(fs, 0);
    SizeOfMore(fs, 1);
    SizeOfMore(fs, 2);
    SizeOfMore(fs, 3);
    SizeOfMore(fs, 4);
    SizeOfMore(fs, 5);
    SizeOfMore(fs, 6);
  }

  lemma SizeOfNone()
    ensures Size([]) == 0
  {
  }

  lemma EhdrOffsets(h: Ehdr)
    ensures var fs := EhdrFields(h);
            && Size(fs[..1]) == 2 && Size(fs[..3]) == 8 && Size(fs[..4]) == 16
            && Size(fs[..8]) == 38 && Size(fs[..9]) == 40 && Size(fs[..12]) == 46
  {
    hide Size;
    var fs := EhdrFields(h);
    assert fs[..0] == [] && Size([]) == 0 by { SizeOfNone(); }
    SizeOfMore(fs, 0);
    SizeOfMore(fs, 1);
    SizeOfMore(fs, 2);
    SizeOfMore(fs, 3);
    SizeOfMore(fs, 4);
    SizeOfMore(fs, 5);
    SizeOfMore(fs, 6);
    SizeOfMore(fs, 7);
    SizeOfMore(fs, 8);
    SizeOfMore(fs, 9);
    SizeOfMore(fs, 10);
    SizeOfMore(fs, 11);
  }

  /** The identification the loader asks for: the magic number, 64-bit, little-endian. */
  predicate GoodIdent(ident: seq<byte>) {
    |ident| == 16 && ident[..6] == [0x7f, 0x45, 0x4c, 0x46, 2, 1]
  }

  predicate HoldsEhdr(image: seq<byte>, h: Ehdr) {
    |image| >= 16 && image[..16] == h.ident && HoldsFields(image, 16, EhdrFields(h))
  }

  lemma FirstFour(image: seq<byte>)
    requires |image| >= 4
    ensures Le(image, 0, 4) ==
            image[0] as nat + 256 * (image[1] as nat + 256 * (image[2] as nat + 256 * (image[3] as nat)))
  {
    assert Le(image, 4, 0) == 0;
    assert Le(image, 2, 2) == image[2] as nat + 256 * (image[3] as nat);
  }

  lemma FourDigits(a: byte, b: byte, c: byte, d: byte)
    ensures a as nat + 256 * (b as nat + 256 * (c as nat + 256 * (d as nat))) == ELF_MAGIC <==>
            a == 0x7f && b == 0x45 && c == 0x4c && d == 0x46
  {
  }

  lemma MagicBytes(image: seq<byte>)
    requires |image| >= 16
    ensures Le(image, 0, 4) == ELF_MAGIC && image[4] == 2 && image[5] == 1 <==> GoodIdent(image[..16])
  {
    hide Le;
    FirstFour(image);
    FourDigits(image[0], image[1], image[2], image[3]);
    assert image[..16][..6] == [image[0], image[1], image[2], image[3], image[4], image[5]];
  }

  /** The ELF header is accepted exactly for its identification, machine and header size; its fields are read right. */
  lemma EhdrReadsBack(image: seq<byte>, h: Ehdr)
    requires HoldsEhdr(image, h)
    ensures |image| >= EHDR_SIZE
    ensures HeaderOk(image) <==> GoodIdent(h.ident) && h.machine == 243 && h.phentsize == 56
    ensures EntryPoint(image) == h.entry && PhOff(image) == h.phoff && PhNum(image) == h.phnum
  {
    hide Le, HoldsFields, GoodIdent;
    var fs := EhdrFields(h);
    EhdrOffsets(h);
    FieldsReadBack(image, 16, fs, 1);
    FieldsReadBack(image, 16, fs, 3);
    FieldsReadBack(image, 16, fs, 4);
    FieldsReadBack(image, 16, fs, 8);
    FieldsReadBack(image, 16, fs, 9);
    FieldsReadBack(image, 16, fs, 12);
    MagicBytes(image);
  }
}
