/** `load_kernel` of kardos-loader and of the older kardos-bootloader, which share the
    same arithmetic and copy loop: the span of the `PT_LOAD` segments, its page count,
    the allocation at the span's first address, and the copy of each segment with its
    zero-filled tail.

    The ELF parse is not part of this model: the program headers and the entry address
    are inputs. Physical memory is a byte map keyed by address, and the firmware's
    `allocate_pages` is the parameter `allocate`, which answers whether the pages at the
    requested address were granted. Integer arithmetic follows a build with overflow
    checks: an overflowing `+` or `-` on `usize` panics. */
module ElfLoader {
  import opened Words
  import opened Results

  const PT_LOAD: u32 := 1
  const EFI_PAGE_SIZE: nat := 0x1000

  /** The fields of an ELF64 program header that the loader reads. */
  datatype ProgramHeader = ProgramHeader(pType: u32, offset: u64, vaddr: u64, filesz: u64, memsz: u64)

  /** What the loader takes from the parsed ELF file. */
  datatype Elf = Elf(entry: u64, headers: seq<ProgramHeader>)

  /** kardos-loader dumps the first 16 bytes of the image before parsing it,
      kardos-bootloader the first 20. */
  datatype Variant = Loader | Bootloader

  datatype LoadError =
    | ImageTooShort
    | Overflow
    | AllocationFailed(start: nat, pages: nat)
    | FileSizeExceedsMemSize
    | SegmentOutsideImage

  type PhysicalMemory = map<nat, byte>

  /** The loaded memory and the entry address `load_kernel` hands on. */
  datatype Loaded = Loaded(mem: PhysicalMemory, entry: u64)

  /** `[start, end)`: from the lowest `p_vaddr` to the highest `p_vaddr + p_memsz`. */
  datatype Span = Span(start: nat, end: nat)

  predicate IsLoad(ph: ProgramHeader) {
    ph.pType == PT_LOAD
  }

  function SegmentEnd(ph: ProgramHeader): nat {
    ph.vaddr + ph.memsz
  }

  /** Address `a` lies in the memory image `[p_vaddr, p_vaddr + p_memsz)` of `ph`. */
  predicate InSegment(ph: ProgramHeader, a: nat) {
    ph.vaddr <= a < SegmentEnd(ph)
  }

  function Min(a: nat, b: nat): nat {
    if a <= b then a else b
  }

  function Max(a: nat, b: nat): nat {
    if a <= b then b else a
  }

  /** The headers `load_kernel` acts on, in file order. */
  function Loadable(hs: seq<ProgramHeader>): (r: seq<ProgramHeader>)
    ensures forall ph :: ph in r <==> ph in hs && IsLoad(ph)
  {
    if |hs| == 0 then [] else (if IsLoad(hs[0]) then [hs[0]] else []) + Loadable(hs[1..])
  }

  // ---------------------------------------------------------------------------
  // The span and its page count.

  /** The first loop: `dest_start = dest_start.min(p_vaddr)` and
      `dest_end = dest_end.max(p_vaddr + p_memsz)` over the `PT_LOAD` headers. */
  function SpanFrom(acc: Span, hs: seq<ProgramHeader>): Result<Span, LoadError>
    decreases |hs|
  {
    if |hs| == 0 then Ok(acc)
    else if !IsLoad(hs[0]) then SpanFrom(acc, hs[1..])
    else if SegmentEnd(hs[0]) > USIZE_MAX then Err(Overflow)
    else SpanFrom(Span(Min(acc.start, hs[0].vaddr), Max(acc.end, SegmentEnd(hs[0]))), hs[1..])
  }

  /** The loop starts from `dest_start = usize::MAX` and `dest_end = 0`. */
  function ComputeSpan(hs: seq<ProgramHeader>): Result<Span, LoadError> {
    SpanFrom(Span(USIZE_MAX, 0), hs)
  }

  /** `(dest_end - dest_start + EFI_PAGE_SIZE - 1) / EFI_PAGE_SIZE`; the subtraction
      underflows when `dest_end < dest_start`. */
  function PageCount(span: Span): (r: Result<nat, LoadError>)
    ensures r.Err? <==> span.end < span.start || span.end - span.start + EFI_PAGE_SIZE > USIZE_MAX
    ensures r.Ok? ==> r.value * EFI_PAGE_SIZE >= span.end - span.start
    ensures r.Ok? && r.value > 0 ==> (r.value - 1) * EFI_PAGE_SIZE < span.end - span.start
  {
    if span.end < span.start then Err(Overflow)
    else if span.end - span.start + EFI_PAGE_SIZE > USIZE_MAX then Err(Overflow)
    else
      var size := span.end - span.start;
      var pages := (size + EFI_PAGE_SIZE - 1) / EFI_PAGE_SIZE;
      DivModUnique(size + EFI_PAGE_SIZE - 1, EFI_PAGE_SIZE, pages, (size + EFI_PAGE_SIZE - 1) % EFI_PAGE_SIZE);
      Ok(pages)
  }

  // ---------------------------------------------------------------------------
  // Copying a segment.

  function Zeros(n: nat): (z: seq<byte>)
    ensures |z| == n && forall i :: 0 <= i < n ==> z[i] == 0
  {
    seq(n, i => 0)
  }

  /** The addresses `[lo, lo + n)`. */
  function Addresses(lo: nat, n: nat): (s: set<nat>)
    ensures forall a :: a in s <==> lo <= a < lo + n
  {
    if n == 0 then {} else Addresses(lo, n - 1) + {lo + n - 1}
  }

  /** `data` written at `addr`, everything else kept. */
  function Store(mem: PhysicalMemory, addr: nat, data: seq<byte>): (r: PhysicalMemory)
    ensures forall a :: a in r <==> a in mem || addr <= a < addr + |data|
    ensures forall a :: addr <= a < addr + |data| ==> r[a] == data[a - addr]
    ensures forall a :: a in mem && !(addr <= a < addr + |data|) ==> r[a] == mem[a]
  {
    map a | a in mem.Keys + Addresses(addr, |data|) :: if addr <= a < addr + |data| then data[a - addr] else mem[a]
  }

  /** One turn of the copy loop: `dest[..fsize].copy_from_slice(&buf[ofs..ofs + fsize])`
      then `dest[fsize..].fill(0)`, where `dest` is `p_memsz` bytes at `p_vaddr`. The
      slicing panics, before anything is written, when `p_filesz > p_memsz`, when
      `ofs + fsize` overflows or when it passes the end of the image. */
  function CopySegment(mem: PhysicalMemory, buf: seq<byte>, ph: ProgramHeader): Result<PhysicalMemory, LoadError> {
    if ph.filesz > ph.memsz then Err(FileSizeExceedsMemSize)
    else if ph.offset + ph.filesz > USIZE_MAX then Err(Overflow)
    else if ph.offset + ph.filesz > |buf| then Err(SegmentOutsideImage)
    else
      var copied := Store(mem, ph.vaddr, buf[ph.offset..ph.offset + ph.filesz]);
      Ok(Store(copied, ph.vaddr + ph.filesz, Zeros(ph.memsz - ph.filesz)))
  }

  /** The second loop: every `PT_LOAD` segment in file order. */
  function LoadSegments(mem: PhysicalMemory, buf: seq<byte>, hs: seq<ProgramHeader>): Result<PhysicalMemory, LoadError>
    decreases |hs|
  {
    if |hs| == 0 then Ok(mem)
    else if !IsLoad(hs[0]) then LoadSegments(mem, buf, hs[1..])
    else
      var next :- CopySegment(mem, buf, hs[0]);
      LoadSegments(next, buf, hs[1..])
  }

  function HeaderDumpLength(v: Variant): nat {
    match v
    case Loader => 16
    case Bootloader => 20
  }

  /** `load_kernel`: the header dump `&buf[0..16]` (or `0..20`), the span, the page
      count, `allocate_pages(AllocateType::Address(dest_start), .., pages)` (failure
      panics through `expect_success`), the copy loop, and `elf.entry`. */
  function LoadKernel(v: Variant, buf: seq<byte>, elf: Elf, mem: PhysicalMemory, allocate: (nat, nat) -> bool): Result<Loaded, LoadError> {
    if |buf| < HeaderDumpLength(v) then Err(ImageTooShort)
    else
      var span :- ComputeSpan(elf.headers);
      var pages :- PageCount(span);
      if !allocate(span.start, pages) then Err(AllocationFailed(span.start, pages))
      else
        var loaded :- LoadSegments(mem, buf, elf.headers);
        Ok(Loaded(loaded, elf.entry))
  }

  // ---------------------------------------------------------------------------
  // Only `PT_LOAD` headers matter.

  /** The span loop skips every header that is not `PT_LOAD`. */
  lemma {:induction false} SpanIgnoresOthers(acc: Span, hs: seq<ProgramHeader>)
    ensures SpanFrom(acc, hs) == SpanFrom(acc, Loadable(hs))
    decreases |hs|
  {
    if |hs| > 0 {
      var rest := Loadable(hs[1..]);
      SpanIgnoresOthers(acc, hs[1..]);
      if IsLoad(hs[0]) {
        var l := Loadable(hs);
        assert l == [hs[0]] + rest && l[0] == hs[0] && l[1..] == rest;
        if SegmentEnd(hs[0]) <= USIZE_MAX {
          SpanIgnoresOthers(Span(Min(acc.start, hs[0].vaddr), Max(acc.end, SegmentEnd(hs[0]))), hs[1..]);
        }
      } else {
        assert Loadable(hs) == rest;
      }
    }
  }

  /** The copy loop skips every header that is not `PT_LOAD`. */
  lemma {:induction false} LoadIgnoresOthers(mem: PhysicalMemory, buf: seq<byte>, hs: seq<ProgramHeader>)
    ensures LoadSegments(mem, buf, hs) == LoadSegments(mem, buf, Loadable(hs))
    decreases |hs|
  {
    if |hs| > 0 {
      var rest := Loadable(hs[1..]);
      if IsLoad(hs[0]) {
        var l := Loadable(hs);
        assert l == [hs[0]] + rest && l[0] == hs[0] && l[1..] == rest;
        var first := CopySegment(mem, buf, hs[0]);
        if first.Ok? {
          LoadIgnoresOthers(first.value, buf, hs[1..]);
        }
      } else {
        assert Loadable(hs) == rest;
        LoadIgnoresOthers(mem, buf, hs[1..]);
      }
    }
  }

  // ---------------------------------------------------------------------------
  // The span is the least interval holding every loadable segment.

  /** The span loop fails exactly when some loadable segment ends past `usize::MAX`;
      otherwise it widens `acc` just enough to hold every loadable segment: both bounds
      hold every segment and each is `acc`'s or some segment's. */
  lemma {:induction false} SpanFromBounds(acc: Span, hs: seq<ProgramHeader>)
    ensures SpanFrom(acc, hs).Err? <==> exists i :: 0 <= i < |hs| && IsLoad(hs[i]) && SegmentEnd(hs[i]) > USIZE_MAX
    ensures SpanFrom(acc, hs).Ok? ==>
      var r := SpanFrom(acc, hs).value;
      && r.start <= acc.start && acc.end <= r.end
      && (forall i :: 0 <= i < |hs| && IsLoad(hs[i]) ==> r.start <= hs[i].vaddr && SegmentEnd(hs[i]) <= r.end)
      && (r.start == acc.start || exists i :: 0 <= i < |hs| && IsLoad(hs[i]) && hs[i].vaddr == r.start)
      && (r.end == acc.end || exists i :: 0 <= i < |hs| && IsLoad(hs[i]) && SegmentEnd(hs[i]) == r.end)
    decreases |hs|
  {
    if |hs| > 0 {
      var ph, rest := hs[0], hs[1..];
      var next := if IsLoad(ph) && SegmentEnd(ph) <= USIZE_MAX then Span(Min(acc.start, ph.vaddr), Max(acc.end, SegmentEnd(ph))) else acc;
      SpanFromBounds(next, rest);
      forall i | 0 <= i < |rest| ensures hs[i + 1] == rest[i] { }
      if SpanFrom(acc, hs).Ok? {
        var r := SpanFrom(acc, hs).value;
        if r.start != acc.start && r.start != next.start {
          var i :| 0 <= i < |rest| && IsLoad(rest[i]) && rest[i].vaddr == r.start;
          assert IsLoad(hs[i + 1]) && hs[i + 1].vaddr == r.start;
        }
        if r.end != acc.end && r.end != next.end {
          var i :| 0 <= i < |rest| && IsLoad(rest[i]) && SegmentEnd(rest[i]) == r.end;
          assert IsLoad(hs[i + 1]) && SegmentEnd(hs[i + 1]) == r.end;
        }
      } else if !(IsLoad(ph) && SegmentEnd(ph) > USIZE_MAX) {
        var i :| 0 <= i < |rest| && IsLoad(rest[i]) && SegmentEnd(rest[i]) > USIZE_MAX;
        assert IsLoad(hs[i + 1]) && SegmentEnd(hs[i + 1]) > USIZE_MAX;
      }
    }
  }

  /** `dest_start` is the lowest `p_vaddr` and `dest_end` the highest end of the loadable
      segments, so every loadable segment lies in `[dest_start, dest_end)`. */
  lemma SpanIsLeast(hs: seq<ProgramHeader>, k: nat)
    requires ComputeSpan(hs).Ok? && k < |hs| && IsLoad(hs[k])
    ensures var r := ComputeSpan(hs).value;
      && r.start <= hs[k].vaddr && SegmentEnd(hs[k]) <= r.end
      && (exists i :: 0 <= i < |hs| && IsLoad(hs[i]) && hs[i].vaddr == r.start)
      && (exists i :: 0 <= i < |hs| && IsLoad(hs[i]) && SegmentEnd(hs[i]) == r.end)
  {
    SpanFromBounds(Span(USIZE_MAX, 0), hs);
    var r := ComputeSpan(hs).value;
    if r.end == 0 {
      assert SegmentEnd(hs[k]) == 0;
    }
  }

  /** With no `PT_LOAD` header the loop leaves `dest_start = usize::MAX` and
      `dest_end = 0`, and `dest_end - dest_start` underflows: loading fails. */
  lemma NoLoadableSegmentUnderflows(v: Variant, buf: seq<byte>, elf: Elf, mem: PhysicalMemory, allocate: (nat, nat) -> bool)
    requires forall i :: 0 <= i < |elf.headers| ==> !IsLoad(elf.headers[i])
    ensures ComputeSpan(elf.headers) == Ok(Span(USIZE_MAX, 0))
    ensures PageCount(Span(USIZE_MAX, 0)).Err?
    ensures LoadKernel(v, buf, elf, mem, allocate).Err?
  {
    SpanIgnoresOthers(Span(USIZE_MAX, 0), elf.headers);
    assert Loadable(elf.headers) == [];
  }

  /** The example of two segments `(0x1000, filesz 4, memsz 8)` and `(0x2000, 2, 2)`:
      span `[0x1000, 0x2002)`, two pages. */
  lemma PageCountExample()
    ensures ComputeSpan([ProgramHeader(PT_LOAD, 0, 0x1000, 4, 8), ProgramHeader(PT_LOAD, 8, 0x2000, 2, 2)])
         == Ok(Span(0x1000, 0x2002))
    ensures PageCount(Span(0x1000, 0x2002)) == Ok(2)
  {
    var hs := [ProgramHeader(PT_LOAD, 0, 0x1000, 4, 8), ProgramHeader(PT_LOAD, 8, 0x2000, 2, 2)];
    assert hs[1..] == [hs[1]] && hs[1..][1..] == [];
    assert SpanFrom(Span(0x1000, 0x2002), []) == Ok(Span(0x1000, 0x2002));
    assert SpanFrom(Span(0x1000, 0x1008), hs[1..]) == Ok(Span(0x1000, 0x2002));
  }

  // ---------------------------------------------------------------------------
  // What the copy loop leaves in memory.

  /** Address `a` of segment `ph` holds the segment's image: the file byte at the same
      distance from `p_offset` below `p_filesz`, zero above. */
  predicate HoldsImage(m: PhysicalMemory, buf: seq<byte>, ph: ProgramHeader, a: nat)
    requires InSegment(ph, a)
  {
    a in m
    && if a - ph.vaddr < ph.filesz then ph.offset + (a - ph.vaddr) < |buf| && m[a] == buf[ph.offset + (a - ph.vaddr)]
       else m[a] == 0
  }

  /** A segment step fails exactly on the three panics; otherwise it writes the
      segment's image over `[p_vaddr, p_vaddr + p_memsz)` and nothing else. */
  lemma CopySegmentAt(mem: PhysicalMemory, buf: seq<byte>, ph: ProgramHeader, a: nat)
    ensures CopySegment(mem, buf, ph).Err? <==>
      ph.filesz > ph.memsz || ph.offset + ph.filesz > USIZE_MAX || ph.offset + ph.filesz > |buf|
    ensures CopySegment(mem, buf, ph).Ok? ==>
      var m := CopySegment(mem, buf, ph).value;
      && (a in m <==> a in mem || InSegment(ph, a))
      && (InSegment(ph, a) ==> HoldsImage(m, buf, ph, a))
      && (!InSegment(ph, a) && a in mem ==> m[a] == mem[a])
  {
  }

  /** An address no loadable segment covers keeps its contents through the copy loop. */
  lemma {:induction false} LoadKeeps(mem: PhysicalMemory, buf: seq<byte>, hs: seq<ProgramHeader>, a: nat)
    requires LoadSegments(mem, buf, hs).Ok?
    requires forall i :: 0 <= i < |hs| && IsLoad(hs[i]) ==> !InSegment(hs[i], a)
    ensures var m := LoadSegments(mem, buf, hs).value; (a in m <==> a in mem) && (a in mem ==> m[a] == mem[a])
    decreases |hs|
  {
    if |hs| > 0 {
      var rest := hs[1..];
      forall i | 0 <= i < |rest| ensures rest[i] == hs[i + 1] { }
      if IsLoad(hs[0]) {
        CopySegmentAt(mem, buf, hs[0], a);
        LoadKeeps(CopySegment(mem, buf, hs[0]).value, buf, rest, a);
      } else {
        LoadKeeps(mem, buf, rest, a);
      }
    }
  }

  /** The first segment's image survives the rest of the loop where no later segment
      covers it. */
  lemma LoadPlacesFirst(mem: PhysicalMemory, buf: seq<byte>, hs: seq<ProgramHeader>, a: nat)
    requires LoadSegments(mem, buf, hs).Ok?
    requires |hs| > 0 && IsLoad(hs[0]) && InSegment(hs[0], a)
    requires forall j :: 0 < j < |hs| && IsLoad(hs[j]) ==> !InSegment(hs[j], a)
    ensures HoldsImage(LoadSegments(mem, buf, hs).value, buf, hs[0], a)
  {
    var rest := hs[1..];
    forall i | 0 <= i < |rest| && IsLoad(rest[i]) ensures !InSegment(rest[i], a) {
      assert rest[i] == hs[i + 1];
    }
    CopySegmentAt(mem, buf, hs[0], a);
    var m1 := CopySegment(mem, buf, hs[0]).value;
    LoadKeeps(m1, buf, rest, a);
  }

  /** After the copy loop, an address holds the image of the last loadable segment
      that covers it; with non-overlapping segments, of the one segment covering it. */
  lemma {:induction false} LoadPlaces(mem: PhysicalMemory, buf: seq<byte>, hs: seq<ProgramHeader>, k: nat, a: nat)
    requires LoadSegments(mem, buf, hs).Ok?
    requires k < |hs| && IsLoad(hs[k]) && InSegment(hs[k], a)
    requires forall j :: k < j < |hs| && IsLoad(hs[j]) ==> !InSegment(hs[j], a)
    ensures HoldsImage(LoadSegments(mem, buf, hs).value, buf, hs[k], a)
    decreases |hs|
  {
    var rest := hs[1..];
    forall i | 0 <= i < |rest| ensures rest[i] == hs[i + 1] { }
    if k == 0 {
      LoadPlacesFirst(mem, buf, hs, a);
    } else if IsLoad(hs[0]) {
      LoadPlaces(CopySegment(mem, buf, hs[0]).value, buf, rest, k - 1, a);
    } else {
      LoadPlaces(mem, buf, rest, k - 1, a);
    }
  }

  /** The two-segment example carried on to memory: it loads exactly when the image
      holds the ten file bytes the segments read. The first segment's four file bytes
      land at `0x1000`, `[0x1004, 0x1008)` is zero-filled, the second segment's two bytes
      land at `0x2000`, and every other address is left alone. */
  lemma LoadExample(mem: PhysicalMemory, buf: seq<byte>, a: nat)
    ensures var hs := [ProgramHeader(PT_LOAD, 0, 0x1000, 4, 8), ProgramHeader(PT_LOAD, 8, 0x2000, 2, 2)];
      && (LoadSegments(mem, buf, hs).Ok? <==> |buf| >= 10)
      && (LoadSegments(mem, buf, hs).Ok? ==>
            var m := LoadSegments(mem, buf, hs).value;
            && (0x1000 <= a < 0x1004 ==> a in m && m[a] == buf[a - 0x1000])
            && (0x1004 <= a < 0x1008 ==> a in m && m[a] == 0)
            && (0x2000 <= a < 0x2002 ==> a in m && m[a] == buf[8 + (a - 0x2000)])
            && (!(0x1000 <= a < 0x1008 || 0x2000 <= a < 0x2002) ==> (a in m <==> a in mem) && (a in mem ==> m[a] == mem[a])))
  {
    var hs := [ProgramHeader(PT_LOAD, 0, 0x1000, 4, 8), ProgramHeader(PT_LOAD, 8, 0x2000, 2, 2)];
    assert hs[1..] == [hs[1]] && hs[1..][1..] == [];
    CopySegmentAt(mem, buf, hs[0], a);
    if CopySegment(mem, buf, hs[0]).Ok? {
      var m1 := CopySegment(mem, buf, hs[0]).value;
      CopySegmentAt(m1, buf, hs[1], a);
      assert LoadSegments(mem, buf, hs) == LoadSegments(m1, buf, hs[1..]);
      assert LoadSegments(m1, buf, hs[1..]) == CopySegment(m1, buf, hs[1]);
    }
  }

  // ---------------------------------------------------------------------------
  // `load_kernel` as a whole.

  /** Loading succeeds only after the firmware granted exactly the span's pages at
      `dest_start`; the result is the copy loop's memory and the unchanged entry. */
  lemma LoadKernelSucceeds(v: Variant, buf: seq<byte>, elf: Elf, mem: PhysicalMemory, allocate: (nat, nat) -> bool)
    requires LoadKernel(v, buf, elf, mem, allocate).Ok?
    ensures |buf| >= HeaderDumpLength(v)
    ensures ComputeSpan(elf.headers).Ok? && PageCount(ComputeSpan(elf.headers).value).Ok?
    ensures allocate(ComputeSpan(elf.headers).value.start, PageCount(ComputeSpan(elf.headers).value).value)
    ensures LoadSegments(mem, buf, elf.headers) == Ok(LoadKernel(v, buf, elf, mem, allocate).value.mem)
    ensures LoadKernel(v, buf, elf, mem, allocate).value.entry == elf.entry
  {
  }

  /** A refused allocation aborts the load before any segment is copied. */
  lemma AllocationFailureAborts(v: Variant, buf: seq<byte>, elf: Elf, mem: PhysicalMemory, allocate: (nat, nat) -> bool)
    requires |buf| >= HeaderDumpLength(v)
    requires ComputeSpan(elf.headers).Ok? && PageCount(ComputeSpan(elf.headers).value).Ok?
    requires !allocate(ComputeSpan(elf.headers).value.start, PageCount(ComputeSpan(elf.headers).value).value)
    ensures LoadKernel(v, buf, elf, mem, allocate)
         == Err(AllocationFailed(ComputeSpan(elf.headers).value.start, PageCount(ComputeSpan(elf.headers).value).value))
  {
  }

  /** An image shorter than the header dump panics before anything else. */
  lemma ShortImageFails(v: Variant, buf: seq<byte>, elf: Elf, mem: PhysicalMemory, allocate: (nat, nat) -> bool)
    requires |buf| < HeaderDumpLength(v)
    ensures LoadKernel(v, buf, elf, mem, allocate) == Err(ImageTooShort)
  {
  }

  /** Nothing outside `[dest_start, dest_end)` is written. */
  lemma LoadKernelStaysInSpan(v: Variant, buf: seq<byte>, elf: Elf, mem: PhysicalMemory, allocate: (nat, nat) -> bool, a: nat)
    requires LoadKernel(v, buf, elf, mem, allocate).Ok?
    requires a < ComputeSpan(elf.headers).value.start || ComputeSpan(elf.headers).value.end <= a
    ensures var m := LoadKernel(v, buf, elf, mem, allocate).value.mem; (a in m <==> a in mem) && (a in mem ==> m[a] == mem[a])
  {
    LoadKernelSucceeds(v, buf, elf, mem, allocate);
    forall i | 0 <= i < |elf.headers| && IsLoad(elf.headers[i]) ensures !InSegment(elf.headers[i], a) {
      SpanIsLeast(elf.headers, i);
    }
    LoadKeeps(mem, buf, elf.headers, a);
  }
}
