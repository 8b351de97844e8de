/**
 * The hand-written DDS codec of the converter (class `DDSConverter`).
 *
 * A DDS file is the four-byte magic `"DDS "`, a 124-byte little-endian
 * DDS_HEADER (which embeds a 32-byte DDS_PIXELFORMAT at offset 72 of the
 * header), then the raw pixels. The reader handles only uncompressed 24- and
 * 32-bit RGB surfaces; the writer always emits a 32-bit surface with
 * B,G,R,A bytes per pixel.
 *
 * Offsets named "body offsets" are relative to the 124 bytes after the
 * magic, as the reader uses them; "file offsets" count the magic, as the
 * writer uses them (file offset = body offset + 4).
 */
module DdsCodec {
  import opened Bytes
  import opened Text
  import opened Results

  const DDS_MAGIC: seq<byte> := [0x44, 0x44, 0x53, 0x20]  // "DDS "

  const DDSD_CAPS: u32 := 0x1
  const DDSD_HEIGHT: u32 := 0x2
  const DDSD_WIDTH: u32 := 0x4
  const DDSD_PITCH: u32 := 0x8
  const DDSD_PIXELFORMAT: u32 := 0x1000

  const DDPF_ALPHAPIXELS: u32 := 0x1
  const DDPF_FOURCC: u32 := 0x4
  const DDPF_RGB: u32 := 0x40

  const DDSCAPS_TEXTURE: u32 := 0x1000

  /** The flags field the writer emits: CAPS | HEIGHT | WIDTH | PIXELFORMAT | PITCH. */
  const WRITTEN_FLAGS: u32 := 0x100F
  /** The pixel-format flags the writer emits: RGB | ALPHAPIXELS. */
  const WRITTEN_PF_FLAGS: u32 := 0x41

  /** The channel masks the writer emits: bytes stored B,G,R,A. */
  const R_MASK: u32 := 0x00FF0000
  const G_MASK: u32 := 0x0000FF00
  const B_MASK: u32 := 0x000000FF
  const A_MASK: u32 := 0xFF000000

  /** Size of the header after the magic, and of magic plus header. */
  const HEADER_SIZE: nat := 124
  const FILE_HEADER_SIZE: nat := 128

  /** Body offsets of the fields the reader unpacks, in the order it unpacks them. */
  const FIELD_OFFSETS: seq<nat> := [8, 12, 76, 84, 88, 92, 96, 100]

  /** `flags & flag` is non-zero, for a single-bit `flag`. */
  predicate HasFlag(flags: u32, flag: u32)
    requires flag in {DDPF_ALPHAPIXELS, DDPF_FOURCC, DDPF_RGB}
  {
    (flags / flag) % 2 == 1
  }

  /** The flag's bit is set: below the next bit up, `flags` reaches at least `flag`. */
  lemma HasFlagBit(flags: u32, flag: u32)
    requires flag in {DDPF_ALPHAPIXELS, DDPF_FOURCC, DDPF_RGB}
    ensures HasFlag(flags, flag) <==> flags % (2 * flag) >= flag
  {
  }

  function Min(a: int, b: int): int { if a < b then a else b }

  // ---------------------------------------------------------------- images

  /** The PIL image modes the codec meets: grey, grey+alpha, RGB and RGBA. */
  datatype PixelMode = L | LA | RGB | RGBA

  function Channels(mode: PixelMode): (n: nat)
    ensures 1 <= n <= 4
  {
    match mode
    case L => 1
    case LA => 2
    case RGB => 3
    case RGBA => 4
  }

  /** An image: its mode, size and row-major interleaved channel bytes. */
  datatype Image = Image(mode: PixelMode, width: nat, height: nat, data: seq<byte>)
  {
    predicate Valid()
    {
      |data| == width * height * Channels(mode)
    }
  }

  /** `n * c` bytes split evenly into `n` pixels of `c` channels. */
  lemma PixelsOf(n: nat, c: nat)
    requires 1 <= c <= 4
    ensures (n * c) % c == 0 && (n * c) / c == n
  {
    if c == 1 {
    } else if c == 2 {
    } else if c == 3 {
    } else {
    }
  }

  /** One pixel as PIL's `convert('RGBA')` makes it. */
  function PixelToRGBA(mode: PixelMode, p: seq<byte>): (r: seq<byte>)
    requires |p| == Channels(mode)
    ensures |r| == 4
  {
    match mode
    case L => [p[0], p[0], p[0], 0xFF]
    case LA => [p[0], p[0], p[0], p[1]]
    case RGB => [p[0], p[1], p[2], 0xFF]
    case RGBA => p
  }

  /**
   * What conversion does to one pixel: grey is copied into R, G and B,
   * colour is kept, and alpha is kept or made opaque.
   */
  lemma PixelToRGBAChannels(mode: PixelMode, p: seq<byte>)
    requires |p| == Channels(mode)
    ensures var r := PixelToRGBA(mode, p);
            (mode in {L, LA} ==> r[0] == r[1] == r[2] == p[0])
            && (mode in {RGB, RGBA} ==> r[..3] == p[..3])
            && r[3] == match mode case LA => p[1] case RGBA => p[3] case _ => 0xFF
  {
  }

  /** Channel bytes of a whole image converted to RGBA, pixel by pixel. */
  function ToRGBAData(mode: PixelMode, d: seq<byte>): (r: seq<byte>)
    requires |d| % Channels(mode) == 0
    ensures |r| == |d| / Channels(mode) * 4
    ensures mode == RGBA ==> r == d
    decreases |d|
  {
    var c := Channels(mode);
    if |d| == 0 then []
    else
      assert (|d| - c) % c == 0 && (|d| - c) / c == |d| / c - 1 by {
        PixelsOf(|d| / c - 1, c);
        PixelsOf(|d| / c, c);
      }
      PixelToRGBA(mode, d[..c]) + ToRGBAData(mode, d[c..])
  }

  /** Where pixel `k` of `c`-byte pixels sits in a buffer of `len` bytes. */
  lemma PixelSlot(len: nat, c: nat, k: nat)
    requires 1 <= c <= 4 && len % c == 0 && k < len / c
    ensures c * k + c <= len
    ensures (len - c) % c == 0 && (len - c) / c == len / c - 1
    ensures k > 0 ==> c + c * (k - 1) == c * k
  {
    if c == 1 {
    } else if c == 2 {
    } else if c == 3 {
    } else {
    }
  }

  /** Pixel `k` of the converted data is pixel `k` of the source, converted. */
  lemma {:induction false} ToRGBADataPixel(mode: PixelMode, d: seq<byte>, k: nat)
    requires |d| % Channels(mode) == 0 && k < |d| / Channels(mode)
    ensures 4 * k + 4 <= |ToRGBAData(mode, d)|
    ensures var c := Channels(mode);
            c * k + c <= |d|
            && ToRGBAData(mode, d)[4 * k..4 * k + 4] == PixelToRGBA(mode, d[c * k..c * k + c])
    decreases k
  {
    var c := Channels(mode);
    PixelSlot(|d|, c, k);
    ToRGBADataFirst(mode, d);
    var r := ToRGBAData(mode, d);
    if k == 0 {
      assert c * k == 0;
      assert r[0..4] == r[..4];
    } else {
      var rest, tail := ToRGBAData(mode, d[c..]), d[c..];
      ToRGBADataPixel(mode, tail, k - 1);
      NextSlot(r, rest, d, c, k);
      assert r[4 * k..4 * k + 4] == PixelToRGBA(mode, tail[c * (k - 1)..c * (k - 1) + c]);
    }
  }

  /**
   * Slot `k` of `r` is slot `k - 1` of `r` without its first four bytes,
   * and pixel `k` of `d` is pixel `k - 1` of `d` without its first pixel.
   */
  lemma NextSlot<T, U>(r: seq<T>, rest: seq<T>, d: seq<U>, c: nat, k: nat)
    requires 0 < k && 4 * k + 4 <= |r| && r[4..] == rest
    requires 1 <= c <= 4 && c * k + c <= |d|
    ensures 4 * (k - 1) + 4 <= |rest| && c * (k - 1) + c <= |d[c..]|
    ensures r[4 * k..4 * k + 4] == rest[4 * (k - 1)..4 * (k - 1) + 4]
    ensures d[c..][c * (k - 1)..c * (k - 1) + c] == d[c * k..c * k + c]
  {
    var j := k - 1;
    assert c + c * j == c * k;
    SliceOfSuffix(r, 4, 4 * j, 4 * j + 4);
    SliceOfSuffix(d, c, c * j, c * j + c);
  }

  lemma SliceOfSuffix<T>(s: seq<T>, off: nat, lo: nat, hi: nat)
    requires lo <= hi && off + hi <= |s|
    ensures s[off..][lo..hi] == s[off + lo..off + hi]
  {
  }

  /** The converted data starts with the first pixel, converted, then the rest. */
  lemma ToRGBADataFirst(mode: PixelMode, d: seq<byte>)
    requires |d| % Channels(mode) == 0 && |d| > 0
    ensures var c := Channels(mode);
            c <= |d| && (|d| - c) % c == 0
            && ToRGBAData(mode, d)[..4] == PixelToRGBA(mode, d[..c])
            && ToRGBAData(mode, d)[4..] == ToRGBAData(mode, d[c..])
  {
    var c := Channels(mode);
    PixelSlot(|d|, c, 0);
  }

  /** `image.convert('RGBA')` when `image.mode != 'RGBA'`. */
  function ToRGBA(img: Image): (r: Image)
    requires img.Valid()
    ensures r.Valid() && r.mode == RGBA
    ensures r.width == img.width && r.height == img.height
    ensures img.mode == RGBA ==> r == img
  {
    var c := Channels(img.mode);
    PixelsOf(img.width * img.height, c);
    PixelsOf(img.width * img.height, 4);
    Image(RGBA, img.width, img.height, ToRGBAData(img.mode, img.data))
  }

  // --------------------------------------------------------- channel swap

  /** Output channel `c` of a pixel comes from channel `SourceChannel(c)`: numpy's `[:, :, [2, 1, 0, 3]]`. */
  function SourceChannel(c: nat): (s: nat)
    ensures c < 3 ==> s == 2 - c
    ensures c >= 3 ==> s == c
  {
    if c == 0 then 2 else if c == 2 then 0 else c
  }

  /** Byte `i` of a swapped buffer comes from this byte of the original: same pixel, channel `SourceChannel`. */
  function SwappedIndex(i: nat, ch: nat): (j: nat)
    requires ch == 3 || ch == 4
  {
    i - i % ch + SourceChannel(i % ch)
  }

  /**
   * In a buffer of whole `ch`-byte pixels, a swapped index stays inside the
   * buffer, lands on the source channel, and swapping it again comes back.
   */
  lemma SwappedIndexInPixel(n: nat, ch: nat, i: nat)
    requires ch == 3 || ch == 4
    requires n % ch == 0 && i < n
    ensures SwappedIndex(i, ch) < n
    ensures SwappedIndex(i, ch) % ch == SourceChannel(i % ch)
    ensures SwappedIndex(SwappedIndex(i, ch), ch) == i
  {
    var base := i - i % ch;
    if ch == 3 {
      assert base == 3 * (i / 3) && n == 3 * (n / 3) && i / 3 < n / 3;
      assert (base + SourceChannel(i % 3)) % 3 == SourceChannel(i % 3);
    } else {
      assert base == 4 * (i / 4) && n == 4 * (n / 4) && i / 4 < n / 4;
      assert (base + SourceChannel(i % 4)) % 4 == SourceChannel(i % 4);
    }
  }

  /** The swapped byte at index `i`, which lies inside the buffer. */
  function SwappedByte(d: seq<byte>, ch: nat, i: nat): byte
    requires ch == 3 || ch == 4
    requires |d| % ch == 0 && i < |d|
  {
    SwappedIndexInPixel(|d|, ch, i);
    d[SwappedIndex(i, ch)]
  }

  /**
   * Exchanges channels 0 and 2 of every `ch`-byte pixel (R,G,B[,A] <-> B,G,R[,A]),
   * as numpy's `[:, :, [2, 1, 0]]` and `[:, :, [2, 1, 0, 3]]` index each pixel.
   */
  function SwapRB(d: seq<byte>, ch: nat): (r: seq<byte>)
    requires ch == 3 || ch == 4
    requires |d| % ch == 0
    ensures |r| == |d|
  {
    seq(|d|, i requires 0 <= i < |d| => SwappedByte(d, ch, i))
  }

  /** Where each swapped byte comes from. */
  lemma SwapRBAt(d: seq<byte>, ch: nat, i: nat)
    requires ch == 3 || ch == 4
    requires |d| % ch == 0
    requires i < |d|
    ensures SwappedIndex(i, ch) < |d|
    ensures SwapRB(d, ch)[i] == d[SwappedIndex(i, ch)]
  {
    SwappedIndexInPixel(|d|, ch, i);
  }

  /** Channels 1 (green) and 3 (alpha) never move. */
  lemma SwapRBKeepsChannels(d: seq<byte>, ch: nat, i: nat)
    requires ch == 3 || ch == 4
    requires |d| % ch == 0
    requires i < |d| && (i % ch == 1 || i % ch == 3)
    ensures SwapRB(d, ch)[i] == d[i]
  {
    SwapRBAt(d, ch, i);
  }

  /** Swapping twice restores the buffer. */
  lemma SwapRBInvolution(d: seq<byte>, ch: nat)
    requires ch == 3 || ch == 4
    requires |d| % ch == 0
    ensures SwapRB(SwapRB(d, ch), ch) == d
  {
    var s := SwapRB(d, ch);
    forall i | 0 <= i < |d|
      ensures SwapRB(s, ch)[i] == d[i]
    {
      SwapRBAt(s, ch, i);
      SwapRBAt(d, ch, SwappedIndex(i, ch));
      SwappedIndexInPixel(|d|, ch, i);
    }
  }

  // ---------------------------------------------------------------- header

  /** DDS_PIXELFORMAT as the reader sees it. */
  datatype PixelFormat = PixelFormat(
    flags: u32,
    fourCC: seq<byte>,
    rgbBitCount: u32,
    rMask: u32,
    gMask: u32,
    bMask: u32,
    aMask: u32)

  /** The DDS_HEADER fields the reader extracts. */
  datatype Header = Header(height: u32, width: u32, pixelFormat: PixelFormat)

  /** The errors raised while reading or writing a DDS file. */
  datatype DdsError =
    | NotDds                                   // bad magic
    | TruncatedHeader(offset: nat, size: nat)  // `struct.unpack_from` past the end
    | Compressed(fourCC: seq<byte>)            // DDPF_FOURCC surface
    | UnsupportedFormat(flags: u32)            // neither FOURCC nor RGB
    | UnsupportedBitCount(bitCount: u32)       // RGB surface that is not 24 or 32 bit
    | FieldOutOfRange                          // `struct.pack_into` of a value above 2^32 - 1

  /** `str(e)` for each error. */
  function Message(e: DdsError): (m: string)
    ensures e.Compressed? ==> m == "Compressed DDS format " + AsciiIgnore(e.fourCC) + " requires Wand/ImageMagick"
  {
    match e
    case NotDds => "Not a valid DDS file"
    case TruncatedHeader(offset, size) =>
      "unpack_from requires a buffer of at least " + Decimal(offset + 4)
      + " bytes for unpacking 4 bytes at offset " + Decimal(offset)
      + " (actual buffer size is " + Decimal(size) + ")"
    case Compressed(fourCC) => "Compressed DDS format " + AsciiIgnore(fourCC) + " requires Wand/ImageMagick"
    case UnsupportedFormat(flags) => "Unsupported DDS format: flags=" + Hex(flags)
    case UnsupportedBitCount(bitCount) => "Unsupported bit count: " + Decimal(bitCount)
    case FieldOutOfRange => "'I' format requires 0 <= number <= 4294967295"
  }

  /** The first field, in reading order, that does not fit in `size` body bytes. */
  function FirstShortField(size: nat): (offset: nat)
    requires size < 104
    ensures offset in FIELD_OFFSETS && size < offset + 4
    ensures forall o :: o in FIELD_OFFSETS && o < offset ==> o + 4 <= size
  {
    if size < 12 then 8
    else if size < 16 then 12
    else if size < 80 then 76
    else if size < 88 then 84
    else if size < 92 then 88
    else if size < 96 then 92
    else if size < 100 then 96
    else 100
  }

  /** Unpacks the header fields from the (up to) 124 bytes after the magic. */
  function ParseHeader(body: seq<byte>): (r: Result<Header, DdsError>)
    ensures r.Err? <==> |body| < 104
    ensures r.Err? ==> r.error == TruncatedHeader(FirstShortField(|body|), |body|)
    ensures r.Ok? ==> |r.value.pixelFormat.fourCC| == 4
  {
    if |body| < 104 then Err(TruncatedHeader(FirstShortField(|body|), |body|))
    else
      Ok(Header(
        UnpackU32At(body, 8),
        UnpackU32At(body, 12),
        PixelFormat(
          UnpackU32At(body, 76),
          body[80..84],
          UnpackU32At(body, 84),
          UnpackU32At(body, 88),
          UnpackU32At(body, 92),
          UnpackU32At(body, 96),
          UnpackU32At(body, 100))))
  }

  // ---------------------------------------------------------------- decode

  /** `data` zero-padded to `n` bytes, then cut to its first `n`. */
  function FitPayload(data: seq<byte>, n: nat): (r: seq<byte>)
    ensures |r| == n
    ensures forall i :: 0 <= i < n ==> r[i] == if i < |data| then data[i] else 0
  {
    var padded := if |data| < n then data + Zeros(n - |data|) else data;
    padded[..n]
  }

  /** The masks say the bytes are stored B,G,R[,A]. */
  predicate StoredBgr(rMask: u32, bMask: u32)
  {
    bMask == 0xFF && rMask == 0xFF0000
  }

  /** `width * height * (bit_count // 8)` */
  function ExpectedSize(width: u32, height: u32, bitCount: u32): (n: nat)
    ensures bitCount == 32 ==> n == 4 * (width * height)
    ensures bitCount == 24 ==> n == 3 * (width * height)
  {
    width * height * (bitCount / 8)
  }

  /** `_decode_uncompressed`: 32-bit data becomes RGBA, 24-bit RGB, anything else is refused. */
  function DecodeUncompressed(
    data: seq<byte>, width: u32, height: u32, bitCount: u32,
    rMask: u32, gMask: u32, bMask: u32, aMask: u32, hasAlpha: bool): (r: Result<Image, DdsError>)
    ensures r.Ok? <==> bitCount == 32 || bitCount == 24
    ensures r.Err? ==> r.error == UnsupportedBitCount(bitCount)
    ensures r.Ok? ==> r.value.Valid() && r.value.width == width && r.value.height == height
    ensures r.Ok? ==> r.value.mode == (if bitCount == 32 then RGBA else RGB)
  {
    var payload := FitPayload(data, ExpectedSize(width, height, bitCount));
    if bitCount == 32 then
      PixelsOf(width * height, 4);
      Ok(Image(RGBA, width, height, if StoredBgr(rMask, bMask) then SwapRB(payload, 4) else payload))
    else if bitCount == 24 then
      PixelsOf(width * height, 3);
      Ok(Image(RGB, width, height, if StoredBgr(rMask, bMask) then SwapRB(payload, 3) else payload))
    else
      Err(UnsupportedBitCount(bitCount))
  }

  /**
   * Each decoded byte: a byte of the payload (channel 0 and 2 exchanged for
   * B,G,R[,A] masks), or zero where the payload was too short.
   */
  lemma DecodedBytes(
    data: seq<byte>, width: u32, height: u32, bitCount: u32,
    rMask: u32, gMask: u32, bMask: u32, aMask: u32, hasAlpha: bool, i: nat)
    requires bitCount == 32 || bitCount == 24
    requires i < |DecodeUncompressed(data, width, height, bitCount, rMask, gMask, bMask, aMask, hasAlpha).value.data|
    ensures var ch := bitCount / 8;
            var j := if StoredBgr(rMask, bMask) then SwappedIndex(i, ch) else i;
            DecodeUncompressed(data, width, height, bitCount, rMask, gMask, bMask, aMask, hasAlpha).value.data[i]
            == if j < |data| then data[j] else 0
  {
    var ch := bitCount / 8;
    var payload := FitPayload(data, ExpectedSize(width, height, bitCount));
    PixelsOf(width * height, ch);
    if StoredBgr(rMask, bMask) {
      SwapRBAt(payload, ch, i);
    }
  }

  /** Bytes past `width * height * bpp` (further mip levels, say) do not change the image. */
  lemma ExtraBytesIgnored(
    data: seq<byte>, extra: seq<byte>, width: u32, height: u32, bitCount: u32,
    rMask: u32, gMask: u32, bMask: u32, aMask: u32, hasAlpha: bool)
    requires |data| >= ExpectedSize(width, height, bitCount)
    ensures DecodeUncompressed(data + extra, width, height, bitCount, rMask, gMask, bMask, aMask, hasAlpha)
         == DecodeUncompressed(data, width, height, bitCount, rMask, gMask, bMask, aMask, hasAlpha)
  {
    var n := ExpectedSize(width, height, bitCount);
    assert FitPayload(data + extra, n) == FitPayload(data, n);
  }

  /** A short payload decodes as if it had been padded with zero bytes. */
  lemma ShortPayloadZeroPadded(
    data: seq<byte>, width: u32, height: u32, bitCount: u32,
    rMask: u32, gMask: u32, bMask: u32, aMask: u32, hasAlpha: bool)
    requires |data| < ExpectedSize(width, height, bitCount)
    ensures DecodeUncompressed(data, width, height, bitCount, rMask, gMask, bMask, aMask, hasAlpha)
         == DecodeUncompressed(data + Zeros(ExpectedSize(width, height, bitCount) - |data|),
                               width, height, bitCount, rMask, gMask, bMask, aMask, hasAlpha)
  {
    var n := ExpectedSize(width, height, bitCount);
    assert FitPayload(data + Zeros(n - |data|), n) == FitPayload(data, n);
  }

  /**
   * The flag dispatch of `read_dds` once the header is unpacked: FOURCC
   * first, then RGB, else the surface is refused.
   */
  function DecodeSurface(h: Header, data: seq<byte>): (r: Result<Image, DdsError>)
    ensures r.Ok? ==> r.value.Valid() && r.value.mode in {RGB, RGBA}
  {
    var pf := h.pixelFormat;
    if HasFlag(pf.flags, DDPF_FOURCC) then
      Err(Compressed(pf.fourCC))
    else if HasFlag(pf.flags, DDPF_RGB) then
      DecodeUncompressed(data, h.width, h.height, pf.rgbBitCount,
                         pf.rMask, pf.gMask, pf.bMask, pf.aMask,
                         HasFlag(pf.flags, DDPF_ALPHAPIXELS))
    else
      Err(UnsupportedFormat(pf.flags))
  }

  /**
   * `read_dds` on the whole file: check the magic, unpack the header from
   * the next 124 bytes, take everything after them as pixel data, then
   * dispatch on the pixel-format flags.
   */
  function ReadDDS(file: seq<byte>): (r: Result<Image, DdsError>)
    ensures r == Err(NotDds) <==> file[..Min(4, |file|)] != DDS_MAGIC
    ensures r.Ok? ==> r.value.Valid() && r.value.mode in {RGB, RGBA}
  {
    if file[..Min(4, |file|)] != DDS_MAGIC then Err(NotDds)
    else
      var body := file[4..Min(|file|, FILE_HEADER_SIZE)];
      var data := file[Min(|file|, FILE_HEADER_SIZE)..];
      match ParseHeader(body)
      case Err(e) => Err(e)
      case Ok(h) => DecodeSurface(h, data)
  }

  /** With a complete header, the reader's fields are the words at file offsets 12, 16, 80, 84, 88 to 104. */
  lemma ParseFileHeader(file: seq<byte>)
    requires |file| >= 108
    ensures ParseHeader(file[4..Min(|file|, FILE_HEADER_SIZE)])
         == Ok(Header(UnpackU32At(file, 12), UnpackU32At(file, 16),
                      PixelFormat(UnpackU32At(file, 80), file[84..88], UnpackU32At(file, 88),
                                  UnpackU32At(file, 92), UnpackU32At(file, 96),
                                  UnpackU32At(file, 100), UnpackU32At(file, 104))))
  {
    var end := Min(|file|, FILE_HEADER_SIZE);
    var body := file[4..end];
    UnpackInSlice(file, 4, end, 8);
    UnpackInSlice(file, 4, end, 12);
    UnpackInSlice(file, 4, end, 76);
    UnpackInSlice(file, 4, end, 84);
    UnpackInSlice(file, 4, end, 88);
    UnpackInSlice(file, 4, end, 92);
    UnpackInSlice(file, 4, end, 96);
    UnpackInSlice(file, 4, end, 100);
    assert body[80..84] == file[84..88];
  }

  /**
   * How `read_dds` fails on a file with the magic and the 104 header bytes it unpacks:
   * a FOURCC surface is refused naming its code, even when DDPF_RGB is also
   * set; a surface with neither flag is refused naming its flags.
   */
  lemma ReadDDSFormatErrors(file: seq<byte>)
    requires |file| >= 108 && file[..4] == DDS_MAGIC
    ensures var flags := UnpackU32At(file, 80);
            (HasFlag(flags, DDPF_FOURCC) ==> ReadDDS(file) == Err(Compressed(file[84..88])))
            && (!HasFlag(flags, DDPF_FOURCC) && !HasFlag(flags, DDPF_RGB) ==>
                  ReadDDS(file) == Err(UnsupportedFormat(flags)))
            && (!HasFlag(flags, DDPF_FOURCC) && HasFlag(flags, DDPF_RGB) ==>
                  var bitCount := UnpackU32At(file, 88);
                  (ReadDDS(file).Ok? <==> bitCount == 24 || bitCount == 32)
                  && (ReadDDS(file).Err? ==> ReadDDS(file) == Err(UnsupportedBitCount(bitCount))))
  {
    ParseFileHeader(file);
  }

  /** A file with the magic but a header cut short fails at the first field that does not fit. */
  lemma ReadDDSTruncated(file: seq<byte>)
    requires 4 <= |file| < 108 && file[..4] == DDS_MAGIC
    ensures ReadDDS(file) == Err(TruncatedHeader(FirstShortField(|file| - 4), |file| - 4))
  {
  }

  // ---------------------------------------------------------------- encode

  /** Height, width and pitch `width * 4` all fit the header's u32 fields. */
  predicate HeaderFits(width: nat, height: nat)
  {
    height < U32_LIMIT && width * 4 < U32_LIMIT
  }

  /**
   * The 128 bytes `write_dds` emits before the pixels, laid out as
   * DDS_HEADER declares its fields: magic, size, flags, height, width,
   * pitch, depth, mip count, 11 reserved words, the pixel format (size,
   * flags, FourCC, bit count, four masks), caps, three more caps words and
   * a reserved word.
   */
  function HeaderLayout(width: nat, height: nat): (r: seq<byte>)
    requires HeaderFits(width, height)
    ensures |r| == FILE_HEADER_SIZE
  {
    SurfaceFields(width, height) + Zeros(44)
    + PackU32(32) + PackU32(WRITTEN_PF_FLAGS) + Zeros(4) + PackU32(32)
    + PackU32(R_MASK) + PackU32(G_MASK) + PackU32(B_MASK) + PackU32(A_MASK)
    + PackU32(DDSCAPS_TEXTURE) + Zeros(16)
  }

  /** File offsets 0 to 31: magic, size, flags, height, width, pitch, depth, mip count. */
  function SurfaceFields(width: nat, height: nat): (r: seq<byte>)
    requires HeaderFits(width, height)
    ensures |r| == 32
    ensures r[..4] == DDS_MAGIC
  {
    DDS_MAGIC + PackU32(HEADER_SIZE) + PackU32(WRITTEN_FLAGS)
    + PackU32(height) + PackU32(width) + PackU32(width * 4) + PackU32(1) + PackU32(1)
  }

  /** The flags written are exactly the five the writer names. */
  lemma WrittenFlagValues()
    ensures WRITTEN_FLAGS == DDSD_CAPS + DDSD_HEIGHT + DDSD_WIDTH + DDSD_PIXELFORMAT + DDSD_PITCH
    ensures WRITTEN_PF_FLAGS == DDPF_RGB + DDPF_ALPHAPIXELS
    ensures HasFlag(WRITTEN_PF_FLAGS, DDPF_RGB) && HasFlag(WRITTEN_PF_FLAGS, DDPF_ALPHAPIXELS)
    ensures !HasFlag(WRITTEN_PF_FLAGS, DDPF_FOURCC)
    ensures StoredBgr(R_MASK, B_MASK)
  {
  }

  /** The written header, read back: each value sits at its file offset. */
  lemma HeaderLayoutFields(width: nat, height: nat)
    requires HeaderFits(width, height)
    ensures var hd := HeaderLayout(width, height);
            hd[..4] == DDS_MAGIC
            && UnpackU32At(hd, 4) == HEADER_SIZE
            && UnpackU32At(hd, 8) == WRITTEN_FLAGS
            && UnpackU32At(hd, 12) == height
            && UnpackU32At(hd, 16) == width
            && UnpackU32At(hd, 20) == width * 4
            && UnpackU32At(hd, 24) == 1 && UnpackU32At(hd, 28) == 1
            && UnpackU32At(hd, 76) == 32
            && UnpackU32At(hd, 80) == WRITTEN_PF_FLAGS
            && hd[84..88] == [0, 0, 0, 0]
            && UnpackU32At(hd, 88) == 32
            && UnpackU32At(hd, 92) == R_MASK && UnpackU32At(hd, 96) == G_MASK
            && UnpackU32At(hd, 100) == B_MASK && UnpackU32At(hd, 104) == A_MASK
            && UnpackU32At(hd, 108) == DDSCAPS_TEXTURE
  {
    SurfaceFieldsAt(width, height);
    PixelFormatFieldsAt(width, height);
  }

  /** Magic, size, flags, height, width, pitch, depth and mip count at offsets 0 to 28. */
  lemma SurfaceFieldsAt(width: nat, height: nat)
    requires HeaderFits(width, height)
    ensures var hd := HeaderLayout(width, height);
            hd[..4] == DDS_MAGIC
            && UnpackU32At(hd, 4) == HEADER_SIZE
            && UnpackU32At(hd, 8) == WRITTEN_FLAGS
            && UnpackU32At(hd, 12) == height
            && UnpackU32At(hd, 16) == width
            && UnpackU32At(hd, 20) == width * 4
            && UnpackU32At(hd, 24) == 1 && UnpackU32At(hd, 28) == 1
  {
    var hd := HeaderLayout(width, height);
    var sf := SurfaceFields(width, height);
    assert hd[..32] == sf;
    SurfaceFieldSlices(width, height);
    UnpackPacked(hd, 4, HEADER_SIZE);
    UnpackPacked(hd, 8, WRITTEN_FLAGS);
    UnpackPacked(hd, 12, height);
    UnpackPacked(hd, 16, width);
    UnpackPacked(hd, 20, width * 4);
    UnpackPacked(hd, 24, 1);
    UnpackPacked(hd, 28, 1);
  }

  /** Each four-byte slot of the surface fields holds its packed value. */
  lemma SurfaceFieldSlices(width: nat, height: nat)
    requires HeaderFits(width, height)
    ensures var sf := SurfaceFields(width, height);
            sf[4..8] == PackU32(HEADER_SIZE) && sf[8..12] == PackU32(WRITTEN_FLAGS)
            && sf[12..16] == PackU32(height) && sf[16..20] == PackU32(width)
            && sf[20..24] == PackU32(width * 4) && sf[24..28] == PackU32(1) && sf[28..32] == PackU32(1)
  {
    var a := DDS_MAGIC + PackU32(HEADER_SIZE) + PackU32(WRITTEN_FLAGS);
    var b := a + PackU32(height) + PackU32(width);
    var sf := b + PackU32(width * 4) + PackU32(1) + PackU32(1);
    assert SurfaceFields(width, height) == sf;
    assert sf[..20] == b && b[..12] == a;
    assert a[4..8] == PackU32(HEADER_SIZE) && a[8..12] == PackU32(WRITTEN_FLAGS);
    assert b[12..16] == PackU32(height) && b[16..20] == PackU32(width);
    assert sf[4..8] == a[4..8] && sf[8..12] == a[8..12];
    assert sf[12..16] == b[12..16] && sf[16..20] == b[16..20];
  }

  /** The pixel format (size, flags, FourCC, bit count, masks) and caps at offsets 76 to 108. */
  lemma PixelFormatFieldsAt(width: nat, height: nat)
    requires HeaderFits(width, height)
    ensures var hd := HeaderLayout(width, height);
            UnpackU32At(hd, 76) == 32
            && UnpackU32At(hd, 80) == WRITTEN_PF_FLAGS
            && hd[84..88] == [0, 0, 0, 0]
            && UnpackU32At(hd, 88) == 32
            && UnpackU32At(hd, 92) == R_MASK && UnpackU32At(hd, 96) == G_MASK
            && UnpackU32At(hd, 100) == B_MASK && UnpackU32At(hd, 104) == A_MASK
            && UnpackU32At(hd, 108) == DDSCAPS_TEXTURE
  {
    var hd := HeaderLayout(width, height);
    UnpackPacked(hd, 76, 32);
    UnpackPacked(hd, 80, WRITTEN_PF_FLAGS);
    UnpackPacked(hd, 88, 32);
    UnpackPacked(hd, 92, R_MASK);
    UnpackPacked(hd, 96, G_MASK);
    UnpackPacked(hd, 100, B_MASK);
    UnpackPacked(hd, 104, A_MASK);
    UnpackPacked(hd, 108, DDSCAPS_TEXTURE);
  }

  /** The header values `write_dds` stores, as the reader sees them. */
  function WrittenHeader(width: nat, height: nat): (h: Header)
    requires HeaderFits(width, height)
    ensures h.height == height && h.width == width
    ensures HasFlag(h.pixelFormat.flags, DDPF_RGB) && !HasFlag(h.pixelFormat.flags, DDPF_FOURCC)
    ensures HasFlag(h.pixelFormat.flags, DDPF_ALPHAPIXELS)
    ensures h.pixelFormat.rgbBitCount == 32 && StoredBgr(h.pixelFormat.rMask, h.pixelFormat.bMask)
  {
    Header(height, width, PixelFormat(WRITTEN_PF_FLAGS, [0, 0, 0, 0], 32, R_MASK, G_MASK, B_MASK, A_MASK))
  }

  /** The reader parses the written header back into the written values. */
  lemma ParseWrittenHeader(width: nat, height: nat)
    requires HeaderFits(width, height)
    ensures ParseHeader(HeaderLayout(width, height)[4..]) == Ok(WrittenHeader(width, height))
  {
    var hd := HeaderLayout(width, height);
    var body := hd[4..];
    HeaderLayoutFields(width, height);
    UnpackInSlice(hd, 4, FILE_HEADER_SIZE, 8);
    UnpackInSlice(hd, 4, FILE_HEADER_SIZE, 12);
    UnpackInSlice(hd, 4, FILE_HEADER_SIZE, 76);
    UnpackInSlice(hd, 4, FILE_HEADER_SIZE, 84);
    UnpackInSlice(hd, 4, FILE_HEADER_SIZE, 88);
    UnpackInSlice(hd, 4, FILE_HEADER_SIZE, 92);
    UnpackInSlice(hd, 4, FILE_HEADER_SIZE, 96);
    UnpackInSlice(hd, 4, FILE_HEADER_SIZE, 100);
    assert body[80..84] == hd[84..88];
  }

  /** A surface with the written header decodes as 32-bit B,G,R,A pixels. */
  lemma DecodeWrittenSurface(width: nat, height: nat, pixels: seq<byte>)
    requires HeaderFits(width, height) && |pixels| == width * height * 4
    ensures DecodeSurface(WrittenHeader(width, height), pixels)
         == Ok(Image(RGBA, width, height, SwapRB(pixels, 4)))
  {
    WrittenFlagValues();
    assert FitPayload(pixels, ExpectedSize(width, height, 32)) == pixels;
  }

  /**
   * The bytes `write_dds` writes: the image converted to RGBA, the header,
   * then every pixel as B,G,R,A. Packing a height, width or pitch above
   * 2^32 - 1 fails before anything is written.
   */
  function EncodeDDS(img: Image): (r: Result<seq<byte>, DdsError>)
    requires img.Valid()
    ensures r.Ok? <==> HeaderFits(img.width, img.height)
    ensures r.Err? ==> r.error == FieldOutOfRange
    ensures r.Ok? ==> |r.value| == FILE_HEADER_SIZE + img.width * img.height * 4
  {
    var rgba := ToRGBA(img);
    if !HeaderFits(rgba.width, rgba.height) then Err(FieldOutOfRange)
    else
      PixelsOf(img.width * img.height, 4);
      Ok(HeaderLayout(rgba.width, rgba.height) + SwapRB(rgba.data, 4))
  }

  /** Byte `4 * k + j` of 4-channel data is channel `j` of pixel `k`. */
  lemma ChannelOf(k: nat)
    ensures (4 * k) % 4 == 0 && (4 * k + 1) % 4 == 1 && (4 * k + 2) % 4 == 2 && (4 * k + 3) % 4 == 3
  {
  }

  lemma FourBytes(s: seq<byte>, i: nat)
    requires i + 4 <= |s|
    ensures s[i..i + 4] == [s[i], s[i + 1], s[i + 2], s[i + 3]]
  {
  }

  /** Pixel `k` of a swapped 4-channel buffer is the original pixel in B,G,R,A order. */
  lemma SwappedPixel(d: seq<byte>, k: nat)
    requires |d| % 4 == 0 && 4 * k + 4 <= |d|
    ensures SwapRB(d, 4)[4 * k..4 * k + 4] == [d[4 * k + 2], d[4 * k + 1], d[4 * k], d[4 * k + 3]]
  {
    var i := 4 * k;
    var sw := SwapRB(d, 4);
    assert SwappedIndex(i, 4) == i + 2 && SwappedIndex(i + 1, 4) == i + 1
        && SwappedIndex(i + 2, 4) == i && SwappedIndex(i + 3, 4) == i + 3 by {
      ChannelOf(k);
    }
    SwapRBAt(d, 4, i);
    SwapRBAt(d, 4, i + 1);
    SwapRBAt(d, 4, i + 2);
    SwapRBAt(d, 4, i + 3);
    FourBytes(sw, i);
  }

  /** Each written pixel is the RGBA pixel with its bytes in B,G,R,A order. */
  lemma EncodedPixel(img: Image, k: nat)
    requires img.Valid() && HeaderFits(img.width, img.height)
    requires k < img.width * img.height
    ensures |ToRGBA(img).data| == 4 * (img.width * img.height)
    ensures |EncodeDDS(img).value| == FILE_HEADER_SIZE + 4 * (img.width * img.height)
    ensures EncodeDDS(img).value[FILE_HEADER_SIZE + 4 * k..FILE_HEADER_SIZE + 4 * k + 4]
         == [ToRGBA(img).data[4 * k + 2], ToRGBA(img).data[4 * k + 1],
             ToRGBA(img).data[4 * k], ToRGBA(img).data[4 * k + 3]]
  {
    var n := img.width * img.height;
    var px := ToRGBA(img).data;
    assert |px| == 4 * n;
    var out := EncodeDDS(img).value;
    assert out == HeaderLayout(img.width, img.height) + SwapRB(px, 4);
    SwappedPixel(px, k);
  }

  /** The reader splits a written file into the written header and the swapped pixels. */
  lemma ReadWrittenFile(width: nat, height: nat, pixels: seq<byte>)
    requires HeaderFits(width, height)
    ensures ReadDDS(HeaderLayout(width, height) + pixels) == DecodeSurface(WrittenHeader(width, height), pixels)
  {
    var hd := HeaderLayout(width, height);
    var file := hd + pixels;
    HeaderLayoutFields(width, height);
    assert file[..4] == hd[..4];
    assert file[4..FILE_HEADER_SIZE] == hd[4..];
    assert file[FILE_HEADER_SIZE..] == pixels;
    ParseWrittenHeader(width, height);
  }

  /** Reading what `write_dds` wrote gives back the image, converted to RGBA. */
  lemma ReadWriteRoundTrip(img: Image)
    requires img.Valid() && HeaderFits(img.width, img.height)
    ensures ReadDDS(EncodeDDS(img).value) == Ok(ToRGBA(img))
  {
    var rgba := ToRGBA(img);
    PixelsOf(img.width * img.height, 4);
    var px := SwapRB(rgba.data, 4);
    ReadWrittenFile(img.width, img.height, px);
    DecodeWrittenSurface(img.width, img.height, px);
    SwapRBInvolution(rgba.data, 4);
  }

  /**
   * Decoding a 32-bit B,G,R,A surface and writing it again reproduces the
   * pixel bytes the file held (zero-padded or cut to the image size), under
   * the writer's own header.
   */
  lemma WriteAfterReadKeepsPixels(file: seq<byte>)
    requires ReadDDS(file).Ok?
    requires |file| >= 108
    requires UnpackU32At(file, 88) == 32
    requires StoredBgr(UnpackU32At(file, 92), UnpackU32At(file, 100))
    requires UnpackU32At(file, 16) * 4 < U32_LIMIT
    ensures var img := ReadDDS(file).value;
            EncodeDDS(img) == Ok(HeaderLayout(img.width, img.height)
                                 + FitPayload(file[Min(|file|, FILE_HEADER_SIZE)..], img.width * img.height * 4))
  {
    var width: nat, height: nat := UnpackU32At(file, 16), UnpackU32At(file, 12);
    var payload := FitPayload(file[Min(|file|, FILE_HEADER_SIZE)..], width * height * 4);
    ReadBgraFile(file);
    var img := ReadDDS(file).value;
    PixelsOf(width * height, 4);
    EncodeRgba(img);
    SwapRBInvolution(payload, 4);
  }

  /** An RGBA image whose size fits is written as the header and its swapped pixels. */
  lemma EncodeRgba(img: Image)
    requires img.Valid() && img.mode == RGBA && HeaderFits(img.width, img.height)
    ensures |img.data| % 4 == 0
    ensures EncodeDDS(img) == Ok(HeaderLayout(img.width, img.height) + SwapRB(img.data, 4))
  {
    PixelsOf(img.width * img.height, 4);
  }

  /**
   * A readable 32-bit B,G,R,A file decodes to its payload (what follows the
   * 128-byte header, empty for a shorter file) with channels 0 and 2 exchanged.
   */
  lemma ReadBgraFile(file: seq<byte>)
    requires ReadDDS(file).Ok?
    requires |file| >= 108
    requires UnpackU32At(file, 88) == 32
    requires StoredBgr(UnpackU32At(file, 92), UnpackU32At(file, 100))
    ensures (UnpackU32At(file, 16) * UnpackU32At(file, 12) * 4) % 4 == 0
    ensures var width, height := UnpackU32At(file, 16), UnpackU32At(file, 12);
            ReadDDS(file)
            == Ok(Image(RGBA, width, height,
                        SwapRB(FitPayload(file[Min(|file|, FILE_HEADER_SIZE)..], width * height * 4), 4)))
  {
    ParseFileHeader(file);
    PixelsOf(UnpackU32At(file, 16) * UnpackU32At(file, 12), 4);
  }

  /** `struct.pack_into('<I', buf, offset, v)` on a `bytearray`. */
  method PackInto(buf: array<byte>, offset: nat, v: u32)
    requires offset + 4 <= buf.Length
    modifies buf
    ensures buf[..] == old(buf[..])[..offset] + PackU32(v) + old(buf[..])[offset + 4..]
  {
    var p := PackU32(v);
    buf[offset] := p[0];
    buf[offset + 1] := p[1];
    buf[offset + 2] := p[2];
    buf[offset + 3] := p[3];
  }

  /**
   * `PackInto` at the first offset not yet filled, in a buffer whose
   * remaining bytes are still zero: the way `write_dds` fills its header.
   */
  method PackField(buf: array<byte>, ghost filled: seq<byte>, offset: nat, v: u32)
    requires offset == |filled| && offset + 4 <= buf.Length
    requires buf[..] == filled + Zeros(buf.Length - offset)
    modifies buf
    ensures buf[..] == filled + PackU32(v) + Zeros(buf.Length - offset - 4)
  {
    PackInto(buf, offset, v);
    FillZeros(filled, PackU32(v), buf.Length - offset);
  }

  /**
   * The first eight fields of `write_dds`'s header, packed into a zeroed
   * 128-byte buffer; a height, width or pitch beyond 32 bits stops the
   * packing (`struct.error`), which is reported as `false`.
   */
  method PackSurfaceFields(header: array<byte>, width: nat, height: nat) returns (fits: bool)
    requires header.Length == FILE_HEADER_SIZE && header[..] == Zeros(FILE_HEADER_SIZE)
    modifies header
    ensures fits <==> HeaderFits(width, height)
    ensures fits ==> header[..] == SurfaceFields(width, height) + Zeros(96)
  {
    header[0], header[1], header[2], header[3] := DDS_MAGIC[0], DDS_MAGIC[1], DDS_MAGIC[2], DDS_MAGIC[3];
    // `filled` is the part of the header written so far; the rest is still zero.
    ghost var filled := DDS_MAGIC;
    assert header[..] == filled + Zeros(124);
    PackField(header, filled, 4, HEADER_SIZE);
    filled := filled + PackU32(HEADER_SIZE);
    PackField(header, filled, 8, WRITTEN_FLAGS);
    filled := filled + PackU32(WRITTEN_FLAGS);
    if height >= U32_LIMIT {
      return false;
    }
    PackField(header, filled, 12, height);
    filled := filled + PackU32(height);
    if width >= U32_LIMIT {
      return false;
    }
    PackField(header, filled, 16, width);
    filled := filled + PackU32(width);
    if width * 4 >= U32_LIMIT {
      return false;
    }
    PackField(header, filled, 20, width * 4);
    filled := filled + PackU32(width * 4);
    PackField(header, filled, 24, 1);
    filled := filled + PackU32(1);
    PackField(header, filled, 28, 1);
    filled := filled + PackU32(1);
    assert filled == SurfaceFields(width, height);
    fits := true;
  }

  /** The pixel-format and capability fields of `write_dds`'s header, after the surface fields. */
  method PackPixelFormatFields(header: array<byte>, width: nat, height: nat)
    requires HeaderFits(width, height)
    requires header.Length == FILE_HEADER_SIZE && header[..] == SurfaceFields(width, height) + Zeros(96)
    modifies header
    ensures header[..] == HeaderLayout(width, height)
  {
    ghost var filled := SurfaceFields(width, height);
    SkipZeros(filled, 44, 96);
    filled := filled + Zeros(44);
    PackField(header, filled, 76, 32);
    filled := filled + PackU32(32);
    PackField(header, filled, 80, WRITTEN_PF_FLAGS);
    filled := filled + PackU32(WRITTEN_PF_FLAGS);
    SkipZeros(filled, 4, 44);
    filled := filled + Zeros(4);
    PackField(header, filled, 88, 32);
    filled := filled + PackU32(32);
    PackField(header, filled, 92, R_MASK);
    filled := filled + PackU32(R_MASK);
    PackField(header, filled, 96, G_MASK);
    filled := filled + PackU32(G_MASK);
    PackField(header, filled, 100, B_MASK);
    filled := filled + PackU32(B_MASK);
    PackField(header, filled, 104, A_MASK);
    filled := filled + PackU32(A_MASK);
    PackField(header, filled, 108, DDSCAPS_TEXTURE);
  }

  /**
   * The header half of `write_dds`: a zeroed 128-byte buffer filled field
   * by field; packing a field beyond 32 bits raises `struct.error`.
   */
  method WriteHeader(width: nat, height: nat) returns (r: Result<seq<byte>, DdsError>)
    ensures r.Ok? <==> HeaderFits(width, height)
    ensures r.Ok? ==> r.value == HeaderLayout(width, height)
    ensures r.Err? ==> r.error == FieldOutOfRange
  {
    var header := new byte[FILE_HEADER_SIZE](_ => 0);
    assert header[..] == Zeros(FILE_HEADER_SIZE);
    var fits := PackSurfaceFields(header, width, height);
    if !fits {
      return Err(FieldOutOfRange);
    }
    PackPixelFormatFields(header, width, height);
    r := Ok(header[..]);
  }

  /**
   * `write_dds`: converts the image to RGBA, writes the header, and returns
   * it followed by the B,G,R,A pixels (the bytes written to the file, in the
   * order they are written).
   */
  method WriteDDS(img: Image) returns (r: Result<seq<byte>, DdsError>)
    requires img.Valid()
    ensures r == EncodeDDS(img)
    ensures r.Ok? ==> ReadDDS(r.value) == Ok(ToRGBA(img))
  {
    var image := if img.mode != RGBA then ToRGBA(img) else img;
    var header := WriteHeader(image.width, image.height);
    if header.Err? {
      return header;
    }
    EncodedFile(img);
    r := Ok(header.value + SwapRB(image.data, 4));
  }

  /** A header that fits is followed by the swapped RGBA pixels, and the whole reads back. */
  lemma EncodedFile(img: Image)
    requires img.Valid() && HeaderFits(img.width, img.height)
    ensures |ToRGBA(img).data| % 4 == 0
    ensures EncodeDDS(img) == Ok(HeaderLayout(img.width, img.height) + SwapRB(ToRGBA(img).data, 4))
    ensures ReadDDS(EncodeDDS(img).value) == Ok(ToRGBA(img))
  {
    PixelsOf(img.width * img.height, 4);
    ReadWriteRoundTrip(img);
  }
}
