/** The hand-off from the UEFI loaders to the kernel: the `FrameBuffer` record built
    from the current graphics mode, and the order of the boot steps. kardos-loader's
    `efi_main` and kardos-bootloader's `load_kernel` both load the kernel first and then
    describe the frame buffer; the jump to the entry address and everything around it
    that talks to the firmware are not part of this model. */
module Handoff {
  import opened Words
  import opened Results
  import opened Framebuffer
  import ElfLoader

  /** uefi's `PixelFormat` of a graphics output mode. */
  datatype GopPixelFormat = GopRgb | GopBgr | Bitmask | BltOnly

  /** What the loaders read from `current_mode_info()` and `frame_buffer()`: the base
      address, the stride and resolution as `usize`, and the pixel format. */
  datatype ModeInfo = ModeInfo(base: nat, stride: nat, hres: nat, vres: nat, format: GopPixelFormat)

  datatype BootError =
    | LoadFailed(cause: ElfLoader.LoadError)
    | UnsupportedPixelFormat(format: GopPixelFormat)

  /** What the kernel's entry receives: its address, the frame buffer record and the
      memory the kernel image was copied into. */
  datatype Kernel = Kernel(entry: u64, fb: FrameBuffer, mem: ElfLoader.PhysicalMemory)

  /** `match pixel_format() { Rgb => Rgb, Bgr => Bgr, f => panic!(..) }`. */
  function MapPixelFormat(f: GopPixelFormat): Result<PixelFormat, BootError> {
    match f
    case GopRgb => Ok(Rgb)
    case GopBgr => Ok(Bgr)
    case _ => Err(UnsupportedPixelFormat(f))
  }

  /** The firmware format a kernel pixel format stands for. */
  function GopFormatOf(p: PixelFormat): GopPixelFormat {
    match p
    case Rgb => GopRgb
    case Bgr => GopBgr
  }

  /** `as u32`: keeps the low 32 bits. */
  function AsU32(n: nat): (r: u32)
    ensures r <= n && (r == n <==> n < U32_LIMIT)
  {
    n % U32_LIMIT
  }

  /** The `FrameBuffer { .. }` literal: the stride and the resolution are cut to `u32`. */
  function MakeFrameBuffer(mode: ModeInfo): Result<FrameBuffer, BootError> {
    var format :- MapPixelFormat(mode.format);
    Ok(FrameBuffer(mode.base, AsU32(mode.stride), AsU32(mode.hres), AsU32(mode.vres), format))
  }

  /** The kernel is loaded, then the frame buffer is described; a failure in either
      stops the boot. */
  function Boot(v: ElfLoader.Variant, buf: seq<byte>, elf: ElfLoader.Elf, mem: ElfLoader.PhysicalMemory,
                allocate: (nat, nat) -> bool, mode: ModeInfo): Result<Kernel, BootError>
  {
    match ElfLoader.LoadKernel(v, buf, elf, mem, allocate)
    case Err(e) => Err(LoadFailed(e))
    case Ok(loaded) =>
      var fb :- MakeFrameBuffer(mode);
      Ok(Kernel(loaded.entry, fb, loaded.mem))
  }

  /** Only `Rgb` and `Bgr` are accepted, each mapped to the writer of the same layout,
      and the mapping can be undone. */
  lemma MapPixelFormatRoundTrip(f: GopPixelFormat, p: PixelFormat)
    ensures MapPixelFormat(f).Ok? <==> f == GopRgb || f == GopBgr
    ensures MapPixelFormat(f).Ok? ==> GopFormatOf(MapPixelFormat(f).value) == f
    ensures MapPixelFormat(f).Err? ==> MapPixelFormat(f) == Err(UnsupportedPixelFormat(f))
    ensures MapPixelFormat(GopFormatOf(p)) == Ok(p)
  {
  }

  /** The record describes the mode: base and format as reported, stride and resolution
      modulo 2^32, and exactly as reported when they fit in 32 bits. */
  lemma MakeFrameBufferDescribes(mode: ModeInfo)
    ensures MakeFrameBuffer(mode).Ok? <==> MapPixelFormat(mode.format).Ok?
    ensures MakeFrameBuffer(mode).Ok? ==>
      var fb := MakeFrameBuffer(mode).value;
      && fb.base == mode.base
      && GopFormatOf(fb.format) == mode.format
      && fb.stride == mode.stride % U32_LIMIT && fb.width == mode.hres % U32_LIMIT && fb.height == mode.vres % U32_LIMIT
      && (mode.stride < U32_LIMIT ==> fb.stride == mode.stride)
      && (mode.hres < U32_LIMIT && mode.vres < U32_LIMIT ==> fb.width == mode.hres && fb.height == mode.vres)
  {
    MapPixelFormatRoundTrip(mode.format, Rgb);
  }

  /** What the kernel's drawing assumes of a mode, stated on the firmware's `usize`
      values: the stride and resolution fit in `u32`, a row is at least as wide as the
      visible width (UEFI's `PixelsPerScanLine >= HorizontalResolution`), and the byte
      offset of the far corner fits in `u32`. */
  predicate UsableMode(mode: ModeInfo) {
    && mode.hres <= mode.stride < U32_LIMIT && mode.vres < U32_LIMIT
    && (mode.hres > 0 && mode.vres > 0 ==> 4 * (mode.stride * (mode.vres - 1) + (mode.hres - 1)) < U32_LIMIT)
  }

  /** The record the loader builds meets the kernel's `ValidFrameBuffer` exactly when
      the mode is usable, for every mode whose values survive the `as u32` casts. */
  lemma MakeFrameBufferValid(mode: ModeInfo)
    ensures MakeFrameBuffer(mode).Ok? && UsableMode(mode) ==> ValidFrameBuffer(MakeFrameBuffer(mode).value)
    ensures MakeFrameBuffer(mode).Ok? && mode.stride < U32_LIMIT && mode.hres < U32_LIMIT && mode.vres < U32_LIMIT ==>
              (ValidFrameBuffer(MakeFrameBuffer(mode).value) <==> UsableMode(mode))
  {
    if MakeFrameBuffer(mode).Ok? && mode.stride < U32_LIMIT && mode.hres < U32_LIMIT && mode.vres < U32_LIMIT {
      MakeFrameBufferDescribes(mode);
    }
  }

  /** A successful boot hands the kernel the loader's entry address unchanged, the
      loaded memory, and a frame buffer of the mode's pixel layout; an unsupported
      format is only noticed after the kernel has been loaded. */
  lemma BootHandsOver(v: ElfLoader.Variant, buf: seq<byte>, elf: ElfLoader.Elf, mem: ElfLoader.PhysicalMemory,
                      allocate: (nat, nat) -> bool, mode: ModeInfo)
    ensures Boot(v, buf, elf, mem, allocate, mode).Ok? <==>
      ElfLoader.LoadKernel(v, buf, elf, mem, allocate).Ok? && (mode.format == GopRgb || mode.format == GopBgr)
    ensures Boot(v, buf, elf, mem, allocate, mode).Ok? ==>
      var k := Boot(v, buf, elf, mem, allocate, mode).value;
      && k.entry == elf.entry
      && ElfLoader.LoadSegments(mem, buf, elf.headers) == Ok(k.mem)
      && GopFormatOf(k.fb.format) == mode.format
    ensures ElfLoader.LoadKernel(v, buf, elf, mem, allocate).Ok? && (mode.format == Bitmask || mode.format == BltOnly) ==>
      Boot(v, buf, elf, mem, allocate, mode) == Err(UnsupportedPixelFormat(mode.format))
  {
    MapPixelFormatRoundTrip(mode.format, Rgb);
    if ElfLoader.LoadKernel(v, buf, elf, mem, allocate).Ok? {
      ElfLoader.LoadKernelSucceeds(v, buf, elf, mem, allocate);
    }
  }
}
