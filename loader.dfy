/** `LdrLoadModule` of main.cpp: load an XEX2 image held in a byte buffer into
    guest memory and return its entry point.

    The buffer is `file` (what `LoadFile` returned). Guest memory is the array
    `guest`, indexed by `KernelMemory.Translate`. `getOptHeaderPtr` is an
    abstract lookup, `OptHeaders`, from optional-header key to buffer offset.
    The field offsets of the `Xex2*` structures are the constants below; every
    `be<uint32_t>` field is read big-endian. */
module Loader {
  import opened Wrappers
  import KernelMemory

  /** `Xex2Header::headerSize` and `Xex2Header::securityOffset`. */
  const HEADER_SIZE_FIELD: nat := 8
  const SECURITY_OFFSET_FIELD: nat := 16
  /** `Xex2SecurityInfo::imageSize` and `Xex2SecurityInfo::loadAddress`. */
  const IMAGE_SIZE_FIELD: nat := 4
  const LOAD_ADDRESS_FIELD: nat := 0x110
  /** `Xex2OptFileFormatInfo::infoSize` and `::compressionType` (a `be<uint16_t>`). */
  const INFO_SIZE_FIELD: nat := 0
  const COMPRESSION_TYPE_FIELD: nat := 6
  /** `sizeof(Xex2FileBasicCompressionInfo)`: the file format info itself and
      each (dataSize, zeroSize) block that follows it. */
  const BASIC_INFO_SIZE: nat := 8
  /** `Xex2ResourceInfo::offset` and `::sizeOfData`. */
  const RESOURCE_OFFSET_FIELD: nat := 12
  const RESOURCE_SIZE_FIELD: nat := 16

  const XEX_COMPRESSION_NONE: nat := 0
  const XEX_COMPRESSION_BASIC: nat := 1

  /** `getOptHeaderPtr(data, key)` for the three keys the loader asks for, as
      offsets into the buffer. */
  datatype OptHeaders = OptHeaders(fileFormatInfo: nat, entryPoint: nat, resourceInfo: nat)

  /** One `Xex2FileBasicCompressionBlock`. */
  datatype Block = Block(dataSize: nat, zeroSize: nat)

  /** The `XDBFWrapper` assigned to `g_xdbfWrapper`: a view of the resource
      region of guest memory. */
  datatype XdbfWrapper = XdbfWrapper(hostAddress: nat, size: nat)

  /** A `be<uint16_t>` field. */
  function ReadBE16(b: seq<bv8>, at: nat): (v: nat)
    requires at + 2 <= |b|
    ensures v < 0x1_0000
  {
    b[at] as nat * 0x100 + b[at + 1] as nat
  }

  /** A `be<uint32_t>` field. */
  function ReadBE32(b: seq<bv8>, at: nat): (v: KernelMemory.u32)
    requires at + 4 <= |b|
  {
    b[at] as nat * 0x100_0000 + b[at + 1] as nat * 0x1_0000 + b[at + 2] as nat * 0x100 + b[at + 3] as nat
  }

  /** A `be<uint32_t>` field's four base-256 digits, most significant first,
      are the four stored bytes. */
  lemma ReadBE32Digits(b: seq<bv8>, at: nat)
    requires at + 4 <= |b|
    ensures ReadBE32(b, at) / 0x100_0000 == b[at] as nat
    ensures (ReadBE32(b, at) / 0x1_0000) % 0x100 == b[at + 1] as nat
    ensures (ReadBE32(b, at) / 0x100) % 0x100 == b[at + 2] as nat
    ensures ReadBE32(b, at) % 0x100 == b[at + 3] as nat
  {
    BigEndianDigits(ReadBE32(b, at), b[at] as nat, b[at + 1] as nat, b[at + 2] as nat, b[at + 3] as nat);
  }

  lemma DivOf8(q: nat, r: nat)
    requires r < 0x100
    ensures (q * 0x100 + r) / 0x100 == q && (q * 0x100 + r) % 0x100 == r
  {
  }

  lemma DivOf16(q: nat, r: nat)
    requires r < 0x1_0000
    ensures (q * 0x1_0000 + r) / 0x1_0000 == q && (q * 0x1_0000 + r) % 0x1_0000 == r
  {
  }

  lemma DivOf24(q: nat, r: nat)
    requires r < 0x100_0000
    ensures (q * 0x100_0000 + r) / 0x100_0000 == q && (q * 0x100_0000 + r) % 0x100_0000 == r
  {
  }

  /** Four bytes read most significant first are the base-256 digits of the
      resulting 32-bit value. */
  lemma BigEndianDigits(v: nat, a: nat, b: nat, c: nat, d: nat)
    requires a < 0x100 && b < 0x100 && c < 0x100 && d < 0x100
    requires v == a * 0x100_0000 + b * 0x1_0000 + c * 0x100 + d
    ensures v < 0x1_0000_0000
    ensures v / 0x100_0000 == a && (v / 0x1_0000) % 0x100 == b
    ensures (v / 0x100) % 0x100 == c && v % 0x100 == d
  {
    assert v == a * 0x100_0000 + (b * 0x1_0000 + c * 0x100 + d);
    DivOf24(a, b * 0x1_0000 + c * 0x100 + d);
    assert v == (a * 0x100 + b) * 0x1_0000 + (c * 0x100 + d);
    DivOf16(a * 0x100 + b, c * 0x100 + d);
    DivOf8(a, b);
    assert v == ((a * 0x100 + b) * 0x100 + c) * 0x100 + d;
    DivOf8((a * 0x100 + b) * 0x100 + c, d);
    DivOf8(a * 0x100 + b, c);
  }

  /** `*reinterpret_cast<const uint32_t*>(p)` on a little-endian host. */
  function LoadLE32(b: seq<bv8>, at: nat): (w: bv32)
    requires at + 4 <= |b|
    ensures w & 0xFF == b[at] as bv32 && (w >> 8) & 0xFF == b[at + 1] as bv32
    ensures (w >> 16) & 0xFF == b[at + 2] as bv32 && w >> 24 == b[at + 3] as bv32
  {
    (b[at] as bv32) | (b[at + 1] as bv32 << 8) | (b[at + 2] as bv32 << 16) | (b[at + 3] as bv32 << 24)
  }

  /** `ByteSwapInplace` on a `uint32_t`. */
  function ByteSwap32(x: bv32): (y: bv32)
    ensures y & 0xFF == x >> 24 && (y >> 8) & 0xFF == (x >> 16) & 0xFF
    ensures (y >> 16) & 0xFF == (x >> 8) & 0xFF && y >> 24 == x & 0xFF
  {
    (x >> 24) | ((x >> 8) & 0xFF00) | ((x << 8) & 0xFF_0000) | (x << 24)
  }

  /** Swapping the host's little-endian reading yields the big-endian value:
      the first byte is the most significant. */
  lemma EntryIsBigEndian(b: seq<bv8>, at: nat)
    requires at + 4 <= |b|
    ensures ByteSwap32(LoadLE32(b, at))
         == (b[at] as bv32 << 24) | (b[at + 1] as bv32 << 16) | (b[at + 2] as bv32 << 8) | (b[at + 3] as bv32)
  {
  }

  /** The stored bytes `00 01 86 A0` give entry point 100000. */
  lemma EntryExample()
    ensures ByteSwap32(LoadLE32([0x00, 0x01, 0x86, 0xA0], 0)) == 100000
  {
  }

  function HeaderSize(file: seq<bv8>): KernelMemory.u32
    requires HEADER_SIZE_FIELD + 4 <= |file|
  {
    ReadBE32(file, HEADER_SIZE_FIELD)
  }

  /** The security info lies `securityOffset` bytes from the start of the buffer. */
  function SecurityInfo(file: seq<bv8>): (off: nat)
    requires SECURITY_OFFSET_FIELD + 4 <= |file|
    ensures off < 0x1_0000_0000
    ensures off / 0x100_0000 == file[SECURITY_OFFSET_FIELD] as nat
    ensures (off / 0x1_0000) % 0x100 == file[SECURITY_OFFSET_FIELD + 1] as nat
    ensures (off / 0x100) % 0x100 == file[SECURITY_OFFSET_FIELD + 2] as nat
    ensures off % 0x100 == file[SECURITY_OFFSET_FIELD + 3] as nat
  {
    ReadBE32Digits(file, SECURITY_OFFSET_FIELD);
    ReadBE32(file, SECURITY_OFFSET_FIELD)
  }

  /** The fixed header and the security info can be read. */
  predicate HeaderReadable(file: seq<bv8>) {
    && SECURITY_OFFSET_FIELD + 4 <= |file|
    && SecurityInfo(file) + LOAD_ADDRESS_FIELD + 4 <= |file|
    && HeaderSize(file) <= |file|
  }

  function ImageSize(file: seq<bv8>): nat
    requires HeaderReadable(file)
  {
    ReadBE32(file, SecurityInfo(file) + IMAGE_SIZE_FIELD)
  }

  function LoadAddress(file: seq<bv8>): KernelMemory.u32
    requires HeaderReadable(file)
  {
    ReadBE32(file, SecurityInfo(file) + LOAD_ADDRESS_FIELD)
  }

  /** The three optional headers can be read. */
  predicate OptReadable(file: seq<bv8>, opt: OptHeaders) {
    && opt.fileFormatInfo + BASIC_INFO_SIZE <= |file|
    && opt.entryPoint + 4 <= |file|
    && opt.resourceInfo + RESOURCE_SIZE_FIELD + 4 <= |file|
  }

  function CompressionType(file: seq<bv8>, opt: OptHeaders): nat
    requires OptReadable(file, opt)
  {
    ReadBE16(file, opt.fileFormatInfo + COMPRESSION_TYPE_FIELD)
  }

  function InfoSize(file: seq<bv8>, opt: OptHeaders): nat
    requires OptReadable(file, opt)
  {
    ReadBE32(file, opt.fileFormatInfo + INFO_SIZE_FIELD)
  }

  /** `numBlocks = infoSize / sizeof(Xex2FileBasicCompressionInfo) - 1`. */
  function NumBlocks(file: seq<bv8>, opt: OptHeaders): (n: nat)
    requires OptReadable(file, opt) && InfoSize(file, opt) >= BASIC_INFO_SIZE
    ensures BASIC_INFO_SIZE * (n + 1) <= InfoSize(file, opt) < BASIC_INFO_SIZE * (n + 2)
  {
    InfoSize(file, opt) / BASIC_INFO_SIZE - 1
  }

  /** The block list that follows the file format info (`fileFormatInfo + 1`). */
  function Blocks(file: seq<bv8>, at: nat, n: nat): (bs: seq<Block>)
    requires at + BASIC_INFO_SIZE * (n + 1) <= |file|
    ensures |bs| == n
  {
    seq(n, i requires 0 <= i < n =>
      Block(ReadBE32(file, at + BASIC_INFO_SIZE * (i + 1)), ReadBE32(file, at + BASIC_INFO_SIZE * (i + 1) + 4)))
  }

  /** Bytes copied from the source by the first `n` blocks of `bs`. */
  function SumData(bs: seq<Block>, n: nat): nat
    requires n <= |bs|
  {
    if n == 0 then 0 else SumData(bs, n - 1) + bs[n - 1].dataSize
  }

  /** Bytes written to the destination by the first `n` blocks of `bs`. */
  function SumTotal(bs: seq<Block>, n: nat): nat
    requires n <= |bs|
  {
    if n == 0 then 0 else SumTotal(bs, n - 1) + bs[n - 1].dataSize + bs[n - 1].zeroSize
  }

  function Zeros(n: nat): (z: seq<bv8>)
    ensures |z| == n
  {
    seq(n, _ => 0)
  }

  /** The image BASIC decompression builds from `src` with the first `n`
      blocks of `bs`: for each block in order, `dataSize` bytes of the source,
      then `zeroSize` zero bytes. */
  function BasicDecode(src: seq<bv8>, bs: seq<Block>, n: nat): (image: seq<bv8>)
    requires n <= |bs| && SumData(bs, n) <= |src|
    ensures |image| == SumTotal(bs, n)
  {
    if n == 0 then []
    else
      var b := bs[n - 1];
      BasicDecode(src, bs, n - 1) + src[SumData(bs, n - 1)..SumData(bs, n - 1) + b.dataSize] + Zeros(b.zeroSize)
  }

  /** Where the image goes in guest memory. */
  function Destination(file: seq<bv8>): (d: nat)
    requires HeaderReadable(file)
    ensures d == LoadAddress(file) && d < KernelMemory.PPC_MEMORY_SIZE
  {
    KernelMemory.Translate(LoadAddress(file))
  }

  /** An uncompressed image of `imageSize` bytes follows the headers and fits
      guest memory. */
  predicate NoneFits(file: seq<bv8>)
    requires HeaderReadable(file)
  {
    HeaderSize(file) + ImageSize(file) <= |file| && Destination(file) + ImageSize(file) <= KernelMemory.PPC_MEMORY_SIZE
  }

  /** There is at least the file format info itself (`infoSize >= 8`, so that
      `numBlocks` does not wrap around) and the block list can be read. */
  predicate BlocksReadable(file: seq<bv8>, opt: OptHeaders)
    requires OptReadable(file, opt)
  {
    InfoSize(file, opt) >= BASIC_INFO_SIZE
    && opt.fileFormatInfo + BASIC_INFO_SIZE * (NumBlocks(file, opt) + 1) <= |file|
  }

  function BasicBlocks(file: seq<bv8>, opt: OptHeaders): seq<Block>
    requires OptReadable(file, opt) && BlocksReadable(file, opt)
  {
    Blocks(file, opt.fileFormatInfo, NumBlocks(file, opt))
  }

  /** The blocks read no further than the buffer and write no further than
      guest memory. */
  predicate BasicFits(file: seq<bv8>, opt: OptHeaders)
    requires HeaderReadable(file) && OptReadable(file, opt)
  {
    && BlocksReadable(file, opt)
    && HeaderSize(file) + SumData(BasicBlocks(file, opt), NumBlocks(file, opt)) <= |file|
    && Destination(file) + SumTotal(BasicBlocks(file, opt), NumBlocks(file, opt)) <= KernelMemory.PPC_MEMORY_SIZE
  }

  /** The buffer satisfies what `LdrLoadModule` takes for granted for a
      non-empty file: every field it reads lies inside the buffer and what it
      copies fits both the source and guest memory. */
  predicate WellFormed(file: seq<bv8>, opt: OptHeaders) {
    && HeaderReadable(file)
    && OptReadable(file, opt)
    && (CompressionType(file, opt) == XEX_COMPRESSION_NONE ==> NoneFits(file))
    && (CompressionType(file, opt) == XEX_COMPRESSION_BASIC ==> BasicFits(file, opt))
  }

  /** The bytes the loader places at `Translate(loadAddress)`: the raw image
      for NONE, the decompressed blocks for BASIC, nothing for any other
      compression type. */
  function Image(file: seq<bv8>, opt: OptHeaders): (image: seq<bv8>)
    requires WellFormed(file, opt)
    ensures Destination(file) + |image| <= KernelMemory.PPC_MEMORY_SIZE
  {
    var c := CompressionType(file, opt);
    if c == XEX_COMPRESSION_NONE then file[HeaderSize(file)..HeaderSize(file) + ImageSize(file)]
    else if c == XEX_COMPRESSION_BASIC then BasicDecode(file[HeaderSize(file)..], BasicBlocks(file, opt), NumBlocks(file, opt))
    else []
  }

  /** `mem` with `bytes` written from position `at` on. */
  function Overwrite(mem: seq<bv8>, at: nat, bytes: seq<bv8>): (r: seq<bv8>)
    requires at + |bytes| <= |mem|
    ensures |r| == |mem|
  {
    seq(|mem|, k requires 0 <= k < |mem| => if at <= k < at + |bytes| then bytes[k - at] else mem[k])
  }

  /** Inside the written span `Overwrite` holds the new bytes, elsewhere the
      old ones. */
  lemma OverwriteAt(mem: seq<bv8>, at: nat, bytes: seq<bv8>)
    requires at + |bytes| <= |mem|
    ensures forall k :: 0 <= k < |mem| ==>
      Overwrite(mem, at, bytes)[k] == if at <= k < at + |bytes| then bytes[k - at] else mem[k]
  {
  }

  /** `memcpy(guest + dest, src + from, n)`. */
  method CopyBytes(guest: array<bv8>, dest: nat, src: seq<bv8>, from: nat, n: nat)
    requires from + n <= |src| && dest + n <= guest.Length
    modifies guest
    ensures guest[..] == Overwrite(old(guest[..]), dest, src[from..from + n])
  {
    var k := 0;
    while k < n
      invariant 0 <= k <= n
      invariant forall j :: 0 <= j < guest.Length ==>
        guest[j] == if dest <= j < dest + k then src[from + j - dest] else old(guest[j])
    {
      guest[dest + k] := src[from + k];
      k := k + 1;
    }
    OverwriteAt(old(guest[..]), dest, src[from..from + n]);
  }

  /** `memset(guest + dest, 0, n)`. */
  method ZeroFill(guest: array<bv8>, dest: nat, n: nat)
    requires dest + n <= guest.Length
    modifies guest
    ensures guest[..] == Overwrite(old(guest[..]), dest, Zeros(n))
  {
    var k := 0;
    while k < n
      invariant 0 <= k <= n
      invariant forall j :: 0 <= j < guest.Length ==>
        guest[j] == if dest <= j < dest + k then 0 else old(guest[j])
    {
      guest[dest + k] := 0;
      k := k + 1;
    }
    OverwriteAt(old(guest[..]), dest, Zeros(n));
  }

  /** Two adjacent writes are one write of the concatenation. */
  lemma OverwriteAdjacent(mem: seq<bv8>, at: nat, x: seq<bv8>, y: seq<bv8>)
    requires at + |x| + |y| <= |mem|
    ensures Overwrite(Overwrite(mem, at, x), at + |x|, y) == Overwrite(mem, at, x + y)
  {
    var lhs, rhs := Overwrite(Overwrite(mem, at, x), at + |x|, y), Overwrite(mem, at, x + y);
    OverwriteAt(mem, at, x);
    OverwriteAt(Overwrite(mem, at, x), at + |x|, y);
    OverwriteAt(mem, at, x + y);
    forall k | 0 <= k < |mem| ensures lhs[k] == rhs[k] {
      if at + |x| <= k < at + |x| + |y| {
        assert (x + y)[k - at] == y[k - at - |x|];
      }
    }
  }

  /** Writing nothing changes nothing. */
  lemma OverwriteEmpty(mem: seq<bv8>, at: nat)
    requires at <= |mem|
    ensures Overwrite(mem, at, []) == mem
  {
  }

  /** Copied and written byte counts only grow along the block list. */
  lemma {:induction false} SumMonotone(bs: seq<Block>, m: nat, n: nat)
    requires m <= n <= |bs|
    ensures SumData(bs, m) <= SumData(bs, n) && SumTotal(bs, m) <= SumTotal(bs, n)
  {
    if m < n {
      SumMonotone(bs, m, n - 1);
    }
  }

  /** Decoding the first `m` blocks yields a prefix of decoding the first `n`. */
  lemma {:induction false} BasicDecodePrefix(src: seq<bv8>, bs: seq<Block>, m: nat, n: nat)
    requires m <= n <= |bs| && SumData(bs, n) <= |src|
    ensures SumData(bs, m) <= |src|
    ensures BasicDecode(src, bs, m) <= BasicDecode(src, bs, n)
  {
    SumMonotone(bs, m, n);
    if m < n {
      SumMonotone(bs, n - 1, n);
      BasicDecodePrefix(src, bs, m, n - 1);
      BasicDecodeStep(src, bs, n);
      PrefixExtend(BasicDecode(src, bs, m), BasicDecode(src, bs, n - 1), BasicDecode(src, bs, n),
                   src[SumData(bs, n - 1)..SumData(bs, n - 1) + bs[n - 1].dataSize], Zeros(bs[n - 1].zeroSize));
    }
  }

  lemma PrefixExtend(a: seq<bv8>, b: seq<bv8>, c: seq<bv8>, x: seq<bv8>, y: seq<bv8>)
    requires a <= b && c == b + x + y
    ensures a <= c
  {
  }

  /** One step of `BasicDecode`: the last of the first `n` blocks appends its
      data and then its zeros. */
  lemma BasicDecodeStep(src: seq<bv8>, bs: seq<Block>, n: nat)
    requires 0 < n <= |bs| && SumData(bs, n) <= |src|
    ensures SumData(bs, n - 1) + bs[n - 1].dataSize <= |src|
    ensures BasicDecode(src, bs, n)
         == BasicDecode(src, bs, n - 1) + src[SumData(bs, n - 1)..SumData(bs, n - 1) + bs[n - 1].dataSize] + Zeros(bs[n - 1].zeroSize)
  {
  }

  /** Block `k` of `bs` sits in `image`: the `dataSize` bytes at its
      destination offset are the source bytes at its source offset, and the
      `zeroSize` bytes after them are zeros. */
  predicate BlockAt(image: seq<bv8>, src: seq<bv8>, bs: seq<Block>, k: nat)
    requires k < |bs|
  {
    var d, s, b := SumTotal(bs, k), SumData(bs, k), bs[k];
    && s + b.dataSize <= |src|
    && d + b.dataSize + b.zeroSize <= |image|
    && image[d..d + b.dataSize] == src[s..s + b.dataSize]
    && forall j :: d + b.dataSize <= j < d + b.dataSize + b.zeroSize ==> image[j] == 0
  }

  /** Block `k` appended to the image of the blocks before it sits there. */
  lemma BlockSpan(image: seq<bv8>, done: seq<bv8>, src: seq<bv8>, bs: seq<Block>, k: nat)
    requires k < |bs| && |done| == SumTotal(bs, k) && SumData(bs, k) + bs[k].dataSize <= |src|
    requires image == done + src[SumData(bs, k)..SumData(bs, k) + bs[k].dataSize] + Zeros(bs[k].zeroSize)
    ensures BlockAt(image, src, bs, k)
  {
    var d, b := SumTotal(bs, k), bs[k];
    forall j | d + b.dataSize <= j < d + b.dataSize + b.zeroSize
      ensures image[j] == 0
    {
      assert image[j] == Zeros(b.zeroSize)[j - d - b.dataSize];
    }
  }

  /** A block that sits in `part` still sits in any extension of it. */
  lemma ExtendBlock(image: seq<bv8>, part: seq<bv8>, x: seq<bv8>, y: seq<bv8>, src: seq<bv8>, bs: seq<Block>, k: nat)
    requires k < |bs| && image == part + x + y && BlockAt(part, src, bs, k)
    ensures BlockAt(image, src, bs, k)
  {
    var d, b := SumTotal(bs, k), bs[k];
    assert image[d..d + b.dataSize] == part[d..d + b.dataSize];
    forall j | d + b.dataSize <= j < d + b.dataSize + b.zeroSize
      ensures image[j] == 0
    {
      assert image[j] == part[j];
    }
  }

  /** Every block of the first `n` sits in the image decoded from them: its
      `dataSize` span holds the next unread source bytes and the `zeroSize`
      span after it is all zeros. */
  lemma {:induction false} BasicDecodeBlock(src: seq<bv8>, bs: seq<Block>, k: nat, n: nat)
    requires k < n <= |bs| && SumData(bs, n) <= |src|
    decreases n
    ensures BlockAt(BasicDecode(src, bs, n), src, bs, k)
  {
    BasicDecodeStep(src, bs, n);
    if n == k + 1 {
      BlockSpan(BasicDecode(src, bs, n), BasicDecode(src, bs, n - 1), src, bs, n - 1);
    } else {
      SumMonotone(bs, n - 1, n);
      BasicDecodeBlock(src, bs, k, n - 1);
      ExtendBlock(BasicDecode(src, bs, n), BasicDecode(src, bs, n - 1),
                  src[SumData(bs, n - 1)..SumData(bs, n - 1) + bs[n - 1].dataSize], Zeros(bs[n - 1].zeroSize),
                  src, bs, k);
    }
  }

  /** Blocks [(4,4), (4,0)] over `AA BB CC DD EE FF 00 11` decompress to
      `AA BB CC DD 00 00 00 00 EE FF 00 11`. */
  lemma BasicDecodeExample()
    ensures BasicDecode([0xAA, 0xBB, 0xCC, 0xDD, 0xEE, 0xFF, 0x00, 0x11], [Block(4, 4), Block(4, 0)], 2)
         == [0xAA, 0xBB, 0xCC, 0xDD, 0x00, 0x00, 0x00, 0x00, 0xEE, 0xFF, 0x00, 0x11]
  {
    var src: seq<bv8> := [0xAA, 0xBB, 0xCC, 0xDD, 0xEE, 0xFF, 0x00, 0x11];
    var bs := [Block(4, 4), Block(4, 0)];
    assert Zeros(4) == [0, 0, 0, 0] && Zeros(0) == [];
    assert BasicDecode(src, bs, 0) == [];
    assert BasicDecode(src, bs, 1) == [0xAA, 0xBB, 0xCC, 0xDD, 0x00, 0x00, 0x00, 0x00];
    assert BasicDecode(src, bs, 2) == BasicDecode(src, bs, 1) + [0xEE, 0xFF, 0x00, 0x11];
  }

  /** Three adjacent writes are one write of the concatenation. */
  lemma OverwriteThree(mem: seq<bv8>, at: nat, x: seq<bv8>, p: nat, y: seq<bv8>, q: nat, z: seq<bv8>)
    requires p == at + |x| && q == p + |y| && q + |z| <= |mem|
    ensures Overwrite(Overwrite(Overwrite(mem, at, x), p, y), q, z) == Overwrite(mem, at, x + y + z)
  {
    OverwriteAdjacent(mem, at, x, y);
    OverwriteAdjacent(mem, at, x + y, z);
  }

  /** One iteration of the BASIC loop: a `memcpy` of the block's data, then a
      `memset` of its zero span right after it. */
  method DecodeBlock(guest: array<bv8>, destData: nat, src: seq<bv8>, srcData: nat, b: Block)
    requires srcData + b.dataSize <= |src| && destData + b.dataSize + b.zeroSize <= guest.Length
    modifies guest
    ensures guest[..] == Overwrite(Overwrite(old(guest[..]), destData, src[srcData..srcData + b.dataSize]),
                                   destData + b.dataSize, Zeros(b.zeroSize))
  {
    CopyBytes(guest, destData, src, srcData, b.dataSize);
    ZeroFill(guest, destData + b.dataSize, b.zeroSize);
  }

  /** The BASIC decoding loop of `LdrLoadModule`, writing from `dest` on and
      reading from `src`, the bytes after the headers. */
  method DecodeBasic(guest: array<bv8>, dest: nat, src: seq<bv8>, bs: seq<Block>)
    requires SumData(bs, |bs|) <= |src| && dest + SumTotal(bs, |bs|) <= guest.Length
    modifies guest
    ensures guest[..] == Overwrite(old(guest[..]), dest, BasicDecode(src, bs, |bs|))
  {
    ghost var initial := guest[..];
    var srcData, destData := 0, dest;
    var i := 0;
    OverwriteEmpty(initial, dest);
    while i < |bs|
      invariant 0 <= i <= |bs|
      invariant SumData(bs, i) <= SumData(bs, |bs|) && SumTotal(bs, i) <= SumTotal(bs, |bs|)
      invariant srcData == SumData(bs, i) && destData == dest + SumTotal(bs, i)
      invariant guest[..] == Overwrite(initial, dest, BasicDecode(src, bs, i))
    {
      var b := bs[i];
      SumMonotone(bs, i + 1, |bs|);
      ghost var image := BasicDecode(src, bs, i);
      ghost var data := src[srcData..srcData + b.dataSize];
      ghost var zeros := Zeros(b.zeroSize);
      assert BasicDecode(src, bs, i + 1) == image + data + zeros;
      OverwriteThree(initial, dest, image, destData, data, destData + b.dataSize, zeros);
      DecodeBlock(guest, destData, src, srcData, b);
      srcData := srcData + b.dataSize;
      destData := destData + b.dataSize + b.zeroSize;
      i := i + 1;
    }
  }

  /** With NONE, guest bytes `[loadAddress, loadAddress + imageSize)` become
      the `imageSize` buffer bytes after the headers. */
  lemma NoneCopiesImage(file: seq<bv8>, opt: OptHeaders, mem: seq<bv8>, j: nat)
    requires |mem| == KernelMemory.PPC_MEMORY_SIZE && WellFormed(file, opt)
    requires CompressionType(file, opt) == XEX_COMPRESSION_NONE && j < ImageSize(file)
    ensures Destination(file) + j < |mem| && HeaderSize(file) + j < |file|
    ensures Overwrite(mem, Destination(file), Image(file, opt))[Destination(file) + j] == file[HeaderSize(file) + j]
  {
    OverwriteAt(mem, Destination(file), Image(file, opt));
  }

  /** With BASIC, the image is as long as all blocks' data and zeros together,
      and every block sits in it at its offset. */
  lemma BasicPlacesBlocks(file: seq<bv8>, opt: OptHeaders, k: nat)
    requires WellFormed(file, opt) && CompressionType(file, opt) == XEX_COMPRESSION_BASIC
    requires k < NumBlocks(file, opt)
    ensures |Image(file, opt)| == SumTotal(BasicBlocks(file, opt), NumBlocks(file, opt))
    ensures BlockAt(Image(file, opt), file[HeaderSize(file)..], BasicBlocks(file, opt), k)
  {
    BasicDecodeBlock(file[HeaderSize(file)..], BasicBlocks(file, opt), k, NumBlocks(file, opt));
  }

  /** An unknown compression type writes no image byte. */
  lemma UnknownWritesNothing(file: seq<bv8>, opt: OptHeaders, mem: seq<bv8>)
    requires |mem| == KernelMemory.PPC_MEMORY_SIZE && WellFormed(file, opt)
    requires CompressionType(file, opt) != XEX_COMPRESSION_NONE && CompressionType(file, opt) != XEX_COMPRESSION_BASIC
    ensures Overwrite(mem, Destination(file), Image(file, opt)) == mem
  {
    OverwriteEmpty(mem, Destination(file));
  }

  /** Loading leaves every guest byte outside `[loadAddress, loadAddress + |image|)` alone. */
  lemma LoadKeepsOutside(file: seq<bv8>, opt: OptHeaders, mem: seq<bv8>, a: nat)
    requires |mem| == KernelMemory.PPC_MEMORY_SIZE && WellFormed(file, opt) && a < |mem|
    requires a < Destination(file) || Destination(file) + |Image(file, opt)| <= a
    ensures Overwrite(mem, Destination(file), Image(file, opt))[a] == mem[a]
  {
    OverwriteAt(mem, Destination(file), Image(file, opt));
  }

  /** Placing the image: the switch on the compression type of `LdrLoadModule`. */
  method LoadImage(file: seq<bv8>, opt: OptHeaders, guest: array<bv8>)
    requires guest.Length == KernelMemory.PPC_MEMORY_SIZE && WellFormed(file, opt)
    modifies guest
    ensures guest[..] == Overwrite(old(guest[..]), Destination(file), Image(file, opt))
  {
    var compression := CompressionType(file, opt);
    var srcData: nat := HeaderSize(file);
    var destData := Destination(file);

    if compression == XEX_COMPRESSION_NONE {
      CopyBytes(guest, destData, file, srcData, ImageSize(file));
    } else if compression == XEX_COMPRESSION_BASIC {
      DecodeBasic(guest, destData, file[srcData..], BasicBlocks(file, opt));
    } else {
      OverwriteEmpty(guest[..], destData);
    }
  }

  /** `LdrLoadModule(path)` on the bytes `file` that `LoadFile(path)` returned.
      An empty buffer yields entry point 0 and touches nothing. Otherwise the
      image is placed at `Translate(loadAddress)` (nothing is written for an
      unknown compression type), `g_xdbfWrapper` becomes a view of the
      resource region, and the byte-swapped entry point is returned. */
  method LdrLoadModule(file: seq<bv8>, opt: OptHeaders, guest: array<bv8>)
    returns (entry: bv32, xdbf: Option<XdbfWrapper>)
    requires guest.Length == KernelMemory.PPC_MEMORY_SIZE
    requires |file| == 0 || WellFormed(file, opt)
    modifies guest
    ensures |file| == 0 ==> entry == 0 && xdbf == None && guest[..] == old(guest[..])
    ensures |file| > 0 ==>
      && entry == ByteSwap32(LoadLE32(file, opt.entryPoint))
      && xdbf == Some(XdbfWrapper(
           KernelMemory.Translate(ReadBE32(file, opt.resourceInfo + RESOURCE_OFFSET_FIELD)),
           ReadBE32(file, opt.resourceInfo + RESOURCE_SIZE_FIELD)))
      && guest[..] == Overwrite(old(guest[..]), Destination(file), Image(file, opt))
  {
    if |file| == 0 {
      return 0, None;
    }
    entry := LoadLE32(file, opt.entryPoint);
    entry := ByteSwap32(entry);
    LoadImage(file, opt, guest);
    var res := opt.resourceInfo;
    xdbf := Some(XdbfWrapper(KernelMemory.Translate(ReadBE32(file, res + RESOURCE_OFFSET_FIELD)),
                             ReadBE32(file, res + RESOURCE_SIZE_FIELD)));
  }
}
