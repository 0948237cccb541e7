/** Loading a DOL executable (dol.c): copying its sections over memory that also holds the image being read. */
module Dol {
  import opened CStrings

  type byte = i: int | 0 <= i < 256

  const TEXT_SECTIONS: nat := 7
  const DATA_SECTIONS: nat := 11
  /** Bytes of the image taken by the header: 7 + 11 positions, starts and sizes, then bss and the entry point. */
  const HEADER_SIZE: nat := 228

  /** The big-endian 32-bit word at `at`. */
  function Word(m: seq<byte>, at: nat): nat
    requires at + 4 <= |m|
  {
    FromBytes(m[at], m[at + 1], m[at + 2], m[at + 3])
  }

  function FromBytes(a: int, b: int, c: int, d: int): (w: int)
    ensures w == 0x100_0000 * a + 0x1_0000 * b + 0x100 * c + d
  {
    ((a * 256 + b) * 256 + c) * 256 + d
  }

  datatype Section = Section(pos: nat, start: nat, size: nat)

  predicate Loaded(s: Section) {
    s.size != 0 && s.start >= 0x100
  }

  /** The header at the front of `image`: seven text sections, then eleven data sections. Each of its three tables
      (positions, starts, sizes) lists the text entries and then, right behind them, the data entries. */
  function Sections(image: seq<byte>): (r: seq<Section>)
    requires |image| >= HEADER_SIZE
    ensures |r| == TEXT_SECTIONS + DATA_SECTIONS
    ensures forall n | 0 <= n < |r| :: r[n] == SectionAt(image, 4 * n, 72 + 4 * n, 144 + 4 * n)
  {
    seq(TEXT_SECTIONS + DATA_SECTIONS,
        n requires 0 <= n < TEXT_SECTIONS + DATA_SECTIONS => SectionAt(image, 4 * n, 72 + 4 * n, 144 + 4 * n))
  }

  function SectionAt(image: seq<byte>, posAt: nat, startAt: nat, sizeAt: nat): Section
    requires posAt + 4 <= |image| && startAt + 4 <= |image| && sizeAt + 4 <= |image|
  {
    Section(Word(image, posAt), Word(image, startAt), Word(image, sizeAt))
  }

  function EntryPoint(image: seq<byte>): nat
    requires |image| >= HEADER_SIZE
  {
    Word(image, 224)
  }

  predicate Disjoint(a: nat, n: nat, b: nat, m: nat) {
    a + n <= b || b + m <= a
  }

  /** Section `s` of an image of `length` bytes held at `dol` reads inside the image and writes outside it. */
  predicate Placeable(s: Section, dol: nat, length: nat, memory: nat) {
    Loaded(s) ==> s.pos + s.size <= length && s.start + s.size <= memory && Disjoint(s.start, s.size, dol, length)
  }

  function Overwrite(m: seq<byte>, at: nat, bytes: seq<byte>): (r: seq<byte>)
    requires at + |bytes| <= |m|
    ensures |r| == |m|
    ensures forall a | 0 <= a < |m| :: r[a] == if at <= a < at + |bytes| then bytes[a - at] else m[a]
  {
    m[..at] + bytes + m[at + |bytes|..]
  }

  ghost predicate AllPlaceable(sections: seq<Section>, dol: nat, length: nat, memory: nat) {
    forall i | 0 <= i < |sections| :: Placeable(sections[i], dol, length, memory)
  }

  /** Memory after the sections of `image` were copied over `m`, in order. */
  function AfterSections(m: seq<byte>, image: seq<byte>, dol: nat, sections: seq<Section>): (r: seq<byte>)
    requires AllPlaceable(sections, dol, |image|, |m|)
    ensures |r| == |m|
  {
    if sections == [] then m
    else
      var init, s := sections[..|sections| - 1], sections[|sections| - 1];
      CopySection(AfterSections(m, image, dol, init), image, dol, s)
  }

  function CopySection(m: seq<byte>, image: seq<byte>, dol: nat, s: Section): (r: seq<byte>)
    requires Placeable(s, dol, |image|, |m|)
    ensures |r| == |m|
    ensures forall a | 0 <= a < |m| && (a < dol + |image|) && dol <= a :: r[a] == m[a]
  {
    if Loaded(s) then Overwrite(m, s.start, image[s.pos..s.pos + s.size]) else m
  }

  /** Copying sections never touches the image, so the header read last is the header read first. */
  lemma {:induction false} ImageSurvives(m: seq<byte>, image: seq<byte>, dol: nat, sections: seq<Section>)
    requires AllPlaceable(sections, dol, |image|, |m|)
    ensures forall a | dol <= a < dol + |image| && a < |m| :: AfterSections(m, image, dol, sections)[a] == m[a]
  {
    if sections != [] {
      ImageSurvives(m, image, dol, sections[..|sections| - 1]);
    }
  }

  /** What loading one section does, outright: nothing if it is empty or starts below 0x100, else its bytes of the image go
      where it starts, and nothing else changes. */
  lemma SectionMeans(m: seq<byte>, image: seq<byte>, dol: nat, s: Section)
    requires Placeable(s, dol, |image|, |m|)
    ensures s.size == 0 || s.start < 0x100 ==> CopySection(m, image, dol, s) == m
    ensures s.size != 0 && s.start >= 0x100 ==>
      && s.pos + s.size <= |image| && s.start + s.size <= |m|
      && CopySection(m, image, dol, s)[s.start..s.start + s.size] == image[s.pos..s.pos + s.size]
      && CopySection(m, image, dol, s)[..s.start] == m[..s.start]
      && CopySection(m, image, dol, s)[s.start + s.size..] == m[s.start + s.size..]
  {
  }

  predicate Covers(s: Section, a: nat) {
    Loaded(s) && s.start <= a < s.start + s.size
  }

  /** What one section does to one address. */
  lemma CopiedByte(m: seq<byte>, image: seq<byte>, dol: nat, s: Section, a: nat)
    requires Placeable(s, dol, |image|, |m|) && a < |m|
    ensures Covers(s, a) ==> s.pos + (a - s.start) < |image|
    ensures CopySection(m, image, dol, s)[a] == if Covers(s, a) then image[s.pos + (a - s.start)] else m[a]
  {
  }

  lemma AfterLast(m: seq<byte>, image: seq<byte>, dol: nat, sections: seq<Section>)
    requires AllPlaceable(sections, dol, |image|, |m|) && sections != []
    ensures var n := |sections| - 1;
      && Placeable(sections[n], dol, |image|, |m|)
      && AfterSections(m, image, dol, sections)
         == CopySection(AfterSections(m, image, dol, sections[..n]), image, dol, sections[n])
  {
  }

  /** What each address holds after loading: the byte of the last section that covers it, or what was there. */
  lemma {:induction false} LastSectionWins(m: seq<byte>, image: seq<byte>, dol: nat, sections: seq<Section>, a: nat)
    returns (i: int)
    requires AllPlaceable(sections, dol, |image|, |m|) && a < |m|
    ensures -1 <= i < |sections|
    ensures forall j | i < j < |sections| :: !Covers(sections[j], a)
    ensures if i < 0 then AfterSections(m, image, dol, sections)[a] == m[a]
            else var s := sections[i];
              && Covers(s, a) && s.pos + (a - s.start) < |image|
              && AfterSections(m, image, dol, sections)[a] == image[s.pos + (a - s.start)]
  {
    if sections == [] {
      return -1;
    }
    var init, s := sections[..|sections| - 1], sections[|sections| - 1];
    AfterLast(m, image, dol, sections);
    CopiedByte(AfterSections(m, image, dol, init), image, dol, s, a);
    if Covers(s, a) {
      return |sections| - 1;
    }
    i := LastSectionWins(m, image, dol, init, a);
  }

  method MemMove(mem: array<byte>, dst: nat, src: nat, n: nat, ghost bytes: seq<byte>)
    requires dst + n <= mem.Length && src + n <= mem.Length && mem[src..src + n] == bytes
    modifies mem
    ensures mem[..] == Overwrite(old(mem[..]), dst, bytes)
  {
    var copy := mem[src..src + n];
    forall i | 0 <= i < n {
      mem[dst + i] := copy[i];
    }
  }

  /** The memory block at `dol` is `image`. */
  ghost predicate ImageAt(m: seq<byte>, dol: nat, image: seq<byte>) {
    dol + |image| <= |m| && forall a | dol <= a < dol + |image| :: m[a] == image[a - dol]
  }

  lemma WordOfImage(m: seq<byte>, dol: nat, image: seq<byte>, at: nat)
    requires ImageAt(m, dol, image) && at + 4 <= |image|
    ensures Word(m, dol + at) == Word(image, at)
  {
  }

  method ReadWord(mem: array<byte>, dol: nat, at: nat, ghost image: seq<byte>) returns (w: nat)
    requires ImageAt(mem[..], dol, image) && at + 4 <= |image|
    ensures w == Word(image, at)
  {
    WordOfImage(mem[..], dol, image, at);
    var a := dol + at;
    w := FromBytes(mem[a], mem[a + 1], mem[a + 2], mem[a + 3]);
  }

  /** load_dol_image. The image lies in memory at `dol`; `argv`, when there is one, is a block of bytes whose first
      word says whether it is to be installed behind the entry point. */
  method LoadDolImage(mem: array<byte>, dol: nat, ghost image: seq<byte>, argv: Option<seq<byte>>, argvMagic: nat)
    returns (entry: nat)
    requires |image| >= HEADER_SIZE && ImageAt(mem[..], dol, image)
    requires AllPlaceable(Sections(image), dol, |image|, mem.Length)
    requires argv.Some? ==> |argv.value| >= 4
    requires argv.Some? && Word(argv.value, 0) == argvMagic ==>
      EntryPoint(image) + 8 + |argv.value| <= mem.Length && Disjoint(EntryPoint(image) + 8, |argv.value|, dol, |image|)
    modifies mem
    ensures entry == EntryPoint(image)
    ensures var loaded := AfterSections(old(mem[..]), image, dol, Sections(image));
      mem[..] == if argv.Some? && Word(argv.value, 0) == argvMagic
                 then Overwrite(loaded, EntryPoint(image) + 8, argv.value) else loaded
  {
    ghost var m := mem[..];
    LoadSections(mem, dol, image, Sections(image));
    ImageSurvives(m, image, dol, Sections(image));
    entry := ReadWord(mem, dol, 224, image);
    InstallArgv(mem, entry + 8, argv, argvMagic);
  }

  /** The two loops over the header. */
  method LoadSections(mem: array<byte>, dol: nat, ghost image: seq<byte>, ghost sections: seq<Section>)
    requires |image| >= HEADER_SIZE && ImageAt(mem[..], dol, image)
    requires |sections| == TEXT_SECTIONS + DATA_SECTIONS && AllPlaceable(sections, dol, |image|, mem.Length)
    requires forall n | 0 <= n < |sections| :: sections[n] == SectionAt(image, 4 * n, 72 + 4 * n, 144 + 4 * n)
    modifies mem
    ensures mem[..] == AfterSections(old(mem[..]), image, dol, sections)
  {
    ghost var m := mem[..];
    for i := 0 to TEXT_SECTIONS
      invariant mem[..] == AfterSections(m, image, dol, sections[..i])
    {
      LoadNext(mem, dol, 4 * i, 72 + 4 * i, 144 + 4 * i, image, m, sections, i);
    }
    for i := 0 to DATA_SECTIONS
      invariant mem[..] == AfterSections(m, image, dol, sections[..TEXT_SECTIONS + i])
    {
      LoadNext(mem, dol, 28 + 4 * i, 100 + 4 * i, 172 + 4 * i, image, m, sections, TEXT_SECTIONS + i);
    }
    assert sections[..TEXT_SECTIONS + DATA_SECTIONS] == sections;
  }

  method InstallArgv(mem: array<byte>, at: nat, argv: Option<seq<byte>>, argvMagic: nat)
    requires argv.Some? ==> |argv.value| >= 4
    requires argv.Some? && Word(argv.value, 0) == argvMagic ==> at + |argv.value| <= mem.Length
    modifies mem
    ensures mem[..] == if argv.Some? && Word(argv.value, 0) == argvMagic then Overwrite(old(mem[..]), at, argv.value)
                       else old(mem[..])
  {
    if argv.Some? && Word(argv.value, 0) == argvMagic {
      forall k | 0 <= k < |argv.value| {
        mem[at + k] := argv.value[k];
      }
    }
  }

  method LoadNext(mem: array<byte>, dol: nat, posAt: nat, startAt: nat, sizeAt: nat,
                  ghost image: seq<byte>, ghost m: seq<byte>, ghost sections: seq<Section>, ghost n: nat)
    requires n < |sections| && |m| == mem.Length && ImageAt(m, dol, image)
    requires AllPlaceable(sections, dol, |image|, |m|)
    requires posAt + 4 <= |image| && startAt + 4 <= |image| && sizeAt + 4 <= |image|
    requires sections[n] == SectionAt(image, posAt, startAt, sizeAt)
    requires mem[..] == AfterSections(m, image, dol, sections[..n])
    modifies mem
    ensures mem[..] == AfterSections(m, image, dol, sections[..n + 1])
  {
    ImageSurvives(m, image, dol, sections[..n]);
    AfterOneMore(m, image, dol, sections, n);
    LoadSection(mem, dol, posAt, startAt, sizeAt, image);
  }

  lemma AfterOneMore(m: seq<byte>, image: seq<byte>, dol: nat, sections: seq<Section>, n: nat)
    requires n < |sections| && AllPlaceable(sections, dol, |image|, |m|)
    ensures Placeable(sections[n], dol, |image|, |m|)
    ensures AfterSections(m, image, dol, sections[..n + 1])
         == CopySection(AfterSections(m, image, dol, sections[..n]), image, dol, sections[n])
  {
    assert sections[..n + 1][..n] == sections[..n];
  }

  /** One turn of either loop: the section whose three header fields lie at the given offsets of the image. */
  method LoadSection(mem: array<byte>, dol: nat, posAt: nat, startAt: nat, sizeAt: nat, ghost image: seq<byte>)
    requires ImageAt(mem[..], dol, image)
    requires posAt + 4 <= |image| && startAt + 4 <= |image| && sizeAt + 4 <= |image|
    requires Placeable(SectionAt(image, posAt, startAt, sizeAt), dol, |image|, mem.Length)
    modifies mem
    ensures mem[..] == CopySection(old(mem[..]), image, dol, SectionAt(image, posAt, startAt, sizeAt))
  {
    var size := ReadWord(mem, dol, sizeAt, image);
    var start := ReadWord(mem, dol, startAt, image);
    if size == 0 || start < 0x100 {
      return;
    }
    var pos := ReadWord(mem, dol, posAt, image);
    PlaceSection(mem, dol, Section(pos, start, size), image);
  }

  /** A section that is loaded goes where it starts. */
  method PlaceSection(mem: array<byte>, dol: nat, s: Section, ghost image: seq<byte>)
    requires ImageAt(mem[..], dol, image) && Loaded(s) && Placeable(s, dol, |image|, mem.Length)
    modifies mem
    ensures mem[..] == CopySection(old(mem[..]), image, dol, s)
  {
    SliceOfImage(mem, dol, image, s.pos, s.size);
    MemMove(mem, s.start, dol + s.pos, s.size, image[s.pos..s.pos + s.size]);
  }

  lemma SliceOfImage(mem: array<byte>, dol: nat, image: seq<byte>, pos: nat, size: nat)
    requires ImageAt(mem[..], dol, image) && pos + size <= |image|
    ensures mem[dol + pos..dol + pos + size] == image[pos..pos + size]
  {
  }
}
