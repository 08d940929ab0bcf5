/** Sticker images: type and size from the first bytes of a PNG or WebP file. */
module ImageHeaders {
  type Byte = x: int | 0 <= x < 256

  datatype MimeType = Png | Webp
  datatype Parsed = Image(mime: MimeType, width: int, height: int) | NotAnImage

  // ----- Reading -----

  const PNG_SIGNATURE: seq<Byte> := [0x89, 0x50, 0x4e, 0x47, 0x0d, 0x0a, 0x1a, 0x0a]

  /** The four bytes at `at` spell `text`. */
  predicate Spells(b: seq<Byte>, at: nat, text: string)
    requires |text| == 4 && at + 4 <= |b|
  {
    b[at] == text[0] as int && b[at + 1] == text[1] as int && b[at + 2] == text[2] as int && b[at + 3] == text[3] as int
  }

  function Uint32(b: seq<Byte>, at: nat): int
    requires at + 4 <= |b|
  {
    (((b[at] as int) * 256 + b[at + 1]) * 256 + b[at + 2]) * 256 + b[at + 3]
  }

  /** Bits of disjoint bytes, or-ed together, add up. */
  function Uint16LE(b: seq<Byte>, at: nat): int
    requires at + 2 <= |b|
  {
    (b[at] as int) + 256 * (b[at + 1] as int)
  }

  function Uint24LE(b: seq<Byte>, at: nat): int
    requires at + 3 <= |b|
  {
    (b[at] as int) + 256 * (b[at + 1] as int) + 65536 * (b[at + 2] as int)
  }

  /** A shift by 24 can reach the sign bit: the result is a signed 32-bit integer. */
  function Int32LE(b: seq<Byte>, at: nat): int
    requires at + 4 <= |b|
  {
    var v := Uint24LE(b, at) + 16777216 * (b[at + 3] as int);
    if v >= 0x8000_0000 then v - 0x1_0000_0000 else v
  }

  /** `x & 0x3fff` on a signed integer. */
  function Low14(x: int): int { x % 16384 }

  function ParsePng(b: seq<Byte>): Parsed {
    if |b| < 24 || !(PNG_SIGNATURE <= b) then NotAnImage
    else if Uint32(b, 8) != 13 || !Spells(b, 12, "IHDR") then NotAnImage
    else Image(Png, Uint32(b, 16), Uint32(b, 20))
  }

  function ParseWebp(b: seq<Byte>): Parsed {
    if |b| < 30 || !Spells(b, 0, "RIFF") || !Spells(b, 8, "WEBP") then NotAnImage
    else if Spells(b, 12, "VP8X") then Image(Webp, Uint24LE(b, 24) + 1, Uint24LE(b, 27) + 1)
    else if Spells(b, 12, "VP8L") && b[20] == 0x2f then
      var bits := Int32LE(b, 21);
      Image(Webp, Low14(bits) + 1, Low14(bits / 16384) + 1)
    else if Spells(b, 12, "VP8 ") then
      if b[23] != 0x9d || b[24] != 0x01 || b[25] != 0x2a then NotAnImage
      else Image(Webp, Low14(Uint16LE(b, 26)), Low14(Uint16LE(b, 28)))
    else NotAnImage
  }

  function ParseSticker(b: seq<Byte>): Parsed {
    var png := ParsePng(b);
    if png.Image? then png else ParseWebp(b)
  }

  // ----- Writing, by the formats' own rules -----

  function Big32(x: int): seq<Byte>
    requires 0 <= x < 0x1_0000_0000
  {
    [x / 16777216, x / 65536 % 256, x / 256 % 256, x % 256]
  }

  function Little16(x: int): seq<Byte>
    requires 0 <= x < 65536
  {
    [x % 256, x / 256]
  }

  function Little24(x: int): seq<Byte>
    requires 0 <= x < 16777216
  {
    [x % 256, x / 256 % 256, x / 65536]
  }

  function Little32(x: int): seq<Byte>
    requires 0 <= x < 0x1_0000_0000
  {
    [x % 256, x / 256 % 256, x / 65536 % 256, x / 16777216]
  }

  function Chars(text: string): seq<Byte>
    requires forall i :: 0 <= i < |text| ==> text[i] < '\U{100}'
  {
    seq(|text|, i requires 0 <= i < |text| => text[i] as int)
  }

  /** Signature and IHDR (section 4.1.1 of RFC 2083), up to the height. */
  function PngHeader(width: int, height: int): seq<Byte>
    requires 0 <= width < 0x1_0000_0000 && 0 <= height < 0x1_0000_0000
  {
    PNG_SIGNATURE + Big32(13) + Chars("IHDR") + Big32(width) + Big32(height)
  }

  /** RIFF container and chunk header (section 2.3 of RFC 9649). */
  function WebpChunk(fileSize: int, chunk: string, chunkSize: int): seq<Byte>
    requires |chunk| == 4 && forall i :: 0 <= i < |chunk| ==> chunk[i] < '\U{100}'
    requires 0 <= fileSize < 0x1_0000_0000 && 0 <= chunkSize < 0x1_0000_0000
  {
    Chars("RIFF") + Little32(fileSize) + Chars("WEBP") + Chars(chunk) + Little32(chunkSize)
  }

  /** The extended header (section 2.7 of RFC 9649): flags, reserved bytes, canvas minus one. */
  function ExtendedBody(flags: Byte, reserved: int, width: int, height: int): seq<Byte>
    requires 0 <= reserved < 16777216 && 1 <= width <= 16777216 && 1 <= height <= 16777216
  {
    [flags] + Little24(reserved) + Little24(width - 1) + Little24(height - 1)
  }

  /** The lossless header (section 3.4 of RFC 9649): a signature, then 14 + 14 + 1 + 3 bits. */
  function LosslessBody(width: int, height: int, alpha: int, version: int): seq<Byte>
    requires 1 <= width <= 16384 && 1 <= height <= 16384 && 0 <= alpha <= 1 && 0 <= version <= 7
  {
    [0x2f] + Little32((width - 1) + 16384 * ((height - 1) + 16384 * (alpha + 2 * version)))
  }

  /** The lossy key frame (section 9.1 of RFC 6386): frame tag, start code, 14 bits of size and
      2 of scale for each direction. */
  function LossyBody(tag: int, width: int, widthScale: int, height: int, heightScale: int): seq<Byte>
    requires 0 <= tag < 16777216 && 0 <= width < 16384 && 0 <= height < 16384
    requires 0 <= widthScale <= 3 && 0 <= heightScale <= 3
  {
    Little24(tag) + [0x9d, 0x01, 0x2a] + Little16(width + 16384 * widthScale) + Little16(height + 16384 * heightScale)
  }

  // ----- Numbers survive -----

  lemma Big32Reads(x: int)
    requires 0 <= x < 0x1_0000_0000
    ensures Uint32(Big32(x), 0) == x
  {
    var q := x / 256;
    var r := q / 256;
    assert x / 65536 == r && x / 16777216 == r / 256;
    assert x == 256 * q + x % 256 && q == 256 * r + q % 256 && r == 256 * (r / 256) + r % 256;
  }

  lemma Little24Reads(x: int)
    requires 0 <= x < 16777216
    ensures Uint24LE(Little24(x), 0) == x
  {
    var q := x / 256;
    assert x / 65536 == q / 256;
  }

  lemma Little32Reads(x: int)
    requires 0 <= x < 0x1_0000_0000
    ensures Int32LE(Little32(x), 0) == if x >= 0x8000_0000 then x - 0x1_0000_0000 else x
  {
    var q := x / 256;
    var r := q / 256;
    assert x / 65536 == r && x / 16777216 == r / 256;
    assert x == 256 * q + x % 256 && q == 256 * r + q % 256 && r == 256 * (r / 256) + r % 256;
  }

  /** The two 14-bit fields come out whatever the bits above them, sign bit included. */
  lemma FieldsOf(w: int, h: int, top: int)
    requires 0 <= w < 16384 && 0 <= h < 16384
    ensures var bits := w + 16384 * (h + 16384 * top);
      Low14(bits) == w && Low14(bits / 16384) == h
  {
    var inner := h + 16384 * top;
    assert (w + 16384 * inner) / 16384 == inner && (w + 16384 * inner) % 16384 == w;
    assert (h + 16384 * top) % 16384 == h;
  }

  // ----- Headers survive -----

  /** A PNG header reads back, whatever follows it. */
  lemma PngRoundTrip(width: int, height: int, rest: seq<Byte>)
    requires 0 <= width < 0x1_0000_0000 && 0 <= height < 0x1_0000_0000
    ensures ParseSticker(PngHeader(width, height) + rest) == Image(Png, width, height)
  {
    var h := PngHeader(width, height);
    var b := h + rest;
    assert b[..8] == PNG_SIGNATURE;
    assert b[8..12] == Big32(13) && b[12..16] == Chars("IHDR") && b[16..20] == Big32(width) && b[20..24] == Big32(height);
    UintAt(b, 8, Big32(13));
    UintAt(b, 16, Big32(width));
    UintAt(b, 20, Big32(height));
    Big32Reads(13);
    Big32Reads(width);
    Big32Reads(height);
    SpellsAt(b, 12, "IHDR");
  }

  lemma UintAt(b: seq<Byte>, at: nat, field: seq<Byte>)
    requires |field| == 4 && at + 4 <= |b| && b[at..at + 4] == field
    ensures Uint32(b, at) == Uint32(field, 0) && Int32LE(b, at) == Int32LE(field, 0)
  {
    assert b[at..at + 4][0] == b[at] && b[at..at + 4][1] == b[at + 1] && b[at..at + 4][2] == b[at + 2] && b[at..at + 4][3] == b[at + 3];
  }

  lemma Uint24At(b: seq<Byte>, at: nat, field: seq<Byte>)
    requires |field| == 3 && at + 3 <= |b| && b[at..at + 3] == field
    ensures Uint24LE(b, at) == Uint24LE(field, 0)
  {
    assert b[at..at + 3][0] == b[at] && b[at..at + 3][1] == b[at + 1] && b[at..at + 3][2] == b[at + 2];
  }

  lemma SpellsAt(b: seq<Byte>, at: nat, text: string)
    requires |text| == 4 && (forall i :: 0 <= i < |text| ==> text[i] < '\U{100}')
    requires at + 4 <= |b| && b[at..at + 4] == Chars(text)
    ensures Spells(b, at, text)
    ensures forall other: string :: |other| == 4 && Spells(b, at, other) ==> other == text
  {
    assert b[at..at + 4][0] == b[at] && b[at..at + 4][1] == b[at + 1] && b[at..at + 4][2] == b[at + 2] && b[at..at + 4][3] == b[at + 3];
  }

  /** The container in front of a WebP body. */
  lemma ChunkReads(fileSize: int, chunk: string, chunkSize: int, body: seq<Byte>)
    requires |chunk| == 4 && forall i :: 0 <= i < |chunk| ==> chunk[i] < '\U{100}'
    requires 0 <= fileSize < 0x1_0000_0000 && 0 <= chunkSize < 0x1_0000_0000
    ensures var b := WebpChunk(fileSize, chunk, chunkSize) + body;
      && |b| == 20 + |body| && b[20..] == body
      && Spells(b, 0, "RIFF") && Spells(b, 8, "WEBP") && Spells(b, 12, chunk)
      && (forall other: string :: |other| == 4 && Spells(b, 12, other) ==> other == chunk)
  {
    var b := WebpChunk(fileSize, chunk, chunkSize) + body;
    assert b[0..4] == Chars("RIFF") && b[8..12] == Chars("WEBP") && b[12..16] == Chars(chunk);
    SpellsAt(b, 0, "RIFF");
    SpellsAt(b, 8, "WEBP");
    SpellsAt(b, 12, chunk);
  }

  lemma SpelledWebpIsNotPng(b: seq<Byte>)
    requires |b| >= 4 && Spells(b, 0, "RIFF")
    ensures ParsePng(b) == NotAnImage
  {
    assert b[0] == 0x52;
    assert PNG_SIGNATURE[0] != b[0];
  }

  /** An extended header reads back exactly when the file has its 30 bytes, which it always has. */
  lemma ExtendedRoundTrip(fileSize: int, chunkSize: int, flags: Byte, reserved: int, width: int, height: int, rest: seq<Byte>)
    requires 0 <= fileSize < 0x1_0000_0000 && 0 <= chunkSize < 0x1_0000_0000
    requires 0 <= reserved < 16777216 && 1 <= width <= 16777216 && 1 <= height <= 16777216
    ensures ParseSticker(WebpChunk(fileSize, "VP8X", chunkSize) + (ExtendedBody(flags, reserved, width, height) + rest))
         == Image(Webp, width, height)
  {
    var body := ExtendedBody(flags, reserved, width, height) + rest;
    ChunkReads(fileSize, "VP8X", chunkSize, body);
    var b := WebpChunk(fileSize, "VP8X", chunkSize) + body;
    SpelledWebpIsNotPng(b);
    ExtendedParts(flags, reserved, width, height, rest);
    assert b[24..27] == body[4..7] && b[27..30] == body[7..10];
    Uint24At(b, 24, Little24(width - 1));
    Uint24At(b, 27, Little24(height - 1));
    Little24Reads(width - 1);
    Little24Reads(height - 1);
  }

  lemma ExtendedParts(flags: Byte, reserved: int, width: int, height: int, rest: seq<Byte>)
    requires 0 <= reserved < 16777216 && 1 <= width <= 16777216 && 1 <= height <= 16777216
    ensures var body := ExtendedBody(flags, reserved, width, height) + rest;
      |body| >= 10 && body[4..7] == Little24(width - 1) && body[7..10] == Little24(height - 1)
  {
  }

  /** A lossless header reads back exactly when at least five more bytes follow it: the length
      test asks for 30 bytes, although the header itself ends at byte 25. */
  lemma LosslessRoundTrip(fileSize: int, chunkSize: int, width: int, height: int, alpha: int, version: int, rest: seq<Byte>)
    requires 0 <= fileSize < 0x1_0000_0000 && 0 <= chunkSize < 0x1_0000_0000
    requires 1 <= width <= 16384 && 1 <= height <= 16384 && 0 <= alpha <= 1 && 0 <= version <= 7
    ensures ParseSticker(WebpChunk(fileSize, "VP8L", chunkSize) + (LosslessBody(width, height, alpha, version) + rest))
         == if |rest| >= 5 then Image(Webp, width, height) else NotAnImage
  {
    var top := alpha + 2 * version;
    var packed := (width - 1) + 16384 * ((height - 1) + 16384 * top);
    var body := LosslessBody(width, height, alpha, version) + rest;
    ChunkReads(fileSize, "VP8L", chunkSize, body);
    var b := WebpChunk(fileSize, "VP8L", chunkSize) + body;
    SpelledWebpIsNotPng(b);
    assert b[20] == body[0] == 0x2f && b[21..25] == body[1..5] == Little32(packed);
    UintAt(b, 21, Little32(packed));
    PackedFields(width, height, top);
  }

  lemma PackedFields(width: int, height: int, top: int)
    requires 1 <= width <= 16384 && 1 <= height <= 16384 && 0 <= top < 16
    ensures var bits := Int32LE(Little32((width - 1) + 16384 * ((height - 1) + 16384 * top)), 0);
      Low14(bits) == width - 1 && Low14(bits / 16384) == height - 1
  {
    Little32Reads((width - 1) + 16384 * ((height - 1) + 16384 * top));
    FieldsOf(width - 1, height - 1, top);
    FieldsOf(width - 1, height - 1, top - 16);
  }

  /** A lossy key frame reads back, whatever its tag and scale bits. */
  lemma LossyRoundTrip(fileSize: int, chunkSize: int, tag: int, width: int, widthScale: int, height: int, heightScale: int, rest: seq<Byte>)
    requires 0 <= fileSize < 0x1_0000_0000 && 0 <= chunkSize < 0x1_0000_0000
    requires 0 <= tag < 16777216 && 0 <= width < 16384 && 0 <= height < 16384
    requires 0 <= widthScale <= 3 && 0 <= heightScale <= 3
    ensures ParseSticker(WebpChunk(fileSize, "VP8 ", chunkSize) + (LossyBody(tag, width, widthScale, height, heightScale) + rest))
         == Image(Webp, width, height)
  {
    var body := LossyBody(tag, width, widthScale, height, heightScale) + rest;
    ChunkReads(fileSize, "VP8 ", chunkSize, body);
    var b := WebpChunk(fileSize, "VP8 ", chunkSize) + body;
    SpelledWebpIsNotPng(b);
    LossyParts(tag, width, widthScale, height, heightScale, rest);
    BodyStarts(b, body, 3);
    Uint16At(b, 26, body, 6, width + 16384 * widthScale);
    Uint16At(b, 28, body, 8, height + 16384 * heightScale);
  }

  lemma LossyParts(tag: int, width: int, widthScale: int, height: int, heightScale: int, rest: seq<Byte>)
    requires 0 <= tag < 16777216 && 0 <= width < 16384 && 0 <= height < 16384
    requires 0 <= widthScale <= 3 && 0 <= heightScale <= 3
    ensures var w, h := width + 16384 * widthScale, height + 16384 * heightScale;
      var body := LossyBody(tag, width, widthScale, height, heightScale) + rest;
      && |body| >= 10 && 0 <= w < 65536 && 0 <= h < 65536 && Low14(w) == width && Low14(h) == height
      && body[3..6] == [0x9d, 0x01, 0x2a] && body[6..8] == Little16(w) && body[8..10] == Little16(h)
  {
  }

  lemma BodyStarts(b: seq<Byte>, body: seq<Byte>, at: nat)
    requires |b| >= 20 && b[20..] == body && at + 3 <= |body| && body[at..at + 3] == [0x9d, 0x01, 0x2a]
    ensures b[20 + at] == 0x9d && b[21 + at] == 0x01 && b[22 + at] == 0x2a
  {
    assert body[at..at + 3][0] == body[at] && body[at..at + 3][1] == body[at + 1] && body[at..at + 3][2] == body[at + 2];
    assert body[at] == b[20 + at] && body[at + 1] == b[21 + at] && body[at + 2] == b[22 + at];
  }

  lemma Uint16At(b: seq<Byte>, at: nat, body: seq<Byte>, offset: nat, x: int)
    requires at == 20 + offset && at + 2 <= |b| && b[20..] == body && 0 <= x < 65536
    requires body[offset..offset + 2] == Little16(x)
    ensures Uint16LE(b, at) == x
  {
    assert body[offset..offset + 2][0] == body[offset] == b[at] && body[offset..offset + 2][1] == body[offset + 1] == b[at + 1];
  }

  /** No file is both. */
  lemma NeverBoth(b: seq<Byte>)
    ensures !(ParsePng(b).Image? && ParseWebp(b).Image?)
  {
    if ParseWebp(b).Image? {
      SpelledWebpIsNotPng(b);
    }
  }

  // ----- Nothing but headers is read -----

  function Unsigned32LE(b: seq<Byte>, at: nat): (x: int)
    requires at + 4 <= |b|
    ensures 0 <= x < 0x1_0000_0000
  {
    Uint24LE(b, at) + 16777216 * (b[at + 3] as int)
  }

  function FromDigits(d0: int, d1: int, d2: int, d3: int): int {
    d0 + 256 * (d1 + 256 * (d2 + 256 * d3))
  }

  /** Base-256 digits, least significant first, come out by division. */
  lemma DigitsOf(d0: Byte, d1: Byte, d2: Byte, d3: Byte)
    ensures var x := FromDigits(d0, d1, d2, d3);
      && x % 256 == d0 && x / 256 % 256 == d1 && x / 65536 % 256 == d2 && x / 16777216 == d3
  {
    var r: int := (d2 as int) + 256 * (d3 as int);
    var q: int := (d1 as int) + 256 * r;
    var x: int := (d0 as int) + 256 * q;
    assert x / 256 == q && q / 256 == r && r / 256 == d3;
    assert x / 65536 == q / 256 && x / 16777216 == r / 256;
  }

  lemma Big32Writes(b: seq<Byte>, at: nat)
    requires at + 4 <= |b|
    ensures 0 <= Uint32(b, at) < 0x1_0000_0000 && Big32(Uint32(b, at)) == b[at..at + 4]
  {
    DigitsOf(b[at + 3], b[at + 2], b[at + 1], b[at]);
    assert Uint32(b, at) == FromDigits(b[at + 3], b[at + 2], b[at + 1], b[at]);
  }

  lemma Little24Writes(b: seq<Byte>, at: nat)
    requires at + 3 <= |b|
    ensures 0 <= Uint24LE(b, at) < 16777216 && Little24(Uint24LE(b, at)) == b[at..at + 3]
  {
    DigitsOf(b[at], b[at + 1], b[at + 2], 0);
    assert Uint24LE(b, at) == FromDigits(b[at], b[at + 1], b[at + 2], 0);
  }

  lemma Little32Writes(b: seq<Byte>, at: nat)
    requires at + 4 <= |b|
    ensures Little32(Unsigned32LE(b, at)) == b[at..at + 4]
  {
    DigitsOf(b[at], b[at + 1], b[at + 2], b[at + 3]);
    assert Unsigned32LE(b, at) == FromDigits(b[at], b[at + 1], b[at + 2], b[at + 3]);
  }

  lemma SpelledIsChars(b: seq<Byte>, at: nat, text: string)
    requires |text| == 4 && forall i :: 0 <= i < |text| ==> text[i] < '\U{100}'
    requires at + 4 <= |b| && Spells(b, at, text)
    ensures b[at..at + 4] == Chars(text)
  {
  }

  /** A file reads as a PNG of a size of 32 bits each way, legal or not, exactly when it begins with
      the header of that size. */
  lemma PngExactlyWhen(b: seq<Byte>, width: int, height: int)
    requires 0 <= width < 0x1_0000_0000 && 0 <= height < 0x1_0000_0000
    ensures ParseSticker(b) == Image(Png, width, height) <==> PngHeader(width, height) <= b
  {
    var header := PngHeader(width, height);
    if header <= b {
      PngRoundTrip(width, height, b[24..]);
      assert b == header + b[24..];
    }
    if ParseSticker(b) == Image(Png, width, height) {
      Big32Writes(b, 8);
      Big32Writes(b, 16);
      Big32Writes(b, 20);
      SpelledIsChars(b, 12, "IHDR");
      assert b[..24] == b[..8] + b[8..12] + b[12..16] + b[16..20] + b[20..24];
      assert b[..8] == PNG_SIGNATURE;
    }
  }

  lemma ChunkWrites(b: seq<Byte>, chunk: string)
    requires |b| >= 30 && |chunk| == 4 && forall i :: 0 <= i < |chunk| ==> chunk[i] < '\U{100}'
    requires Spells(b, 0, "RIFF") && Spells(b, 8, "WEBP") && Spells(b, 12, chunk)
    ensures WebpChunk(Unsigned32LE(b, 4), chunk, Unsigned32LE(b, 16)) == b[..20]
  {
    SpelledIsChars(b, 0, "RIFF");
    SpelledIsChars(b, 8, "WEBP");
    SpelledIsChars(b, 12, chunk);
    Little32Writes(b, 4);
    Little32Writes(b, 16);
    assert b[..20] == b[0..4] + b[4..8] + b[8..12] + b[12..16] + b[16..20];
  }

  lemma ExtendedWrites(b: seq<Byte>)
    requires |b| >= 30
    ensures var w, h := Uint24LE(b, 24) + 1, Uint24LE(b, 27) + 1;
      && 1 <= w <= 16777216 && 1 <= h <= 16777216 && 0 <= Uint24LE(b, 21) < 16777216
      && ExtendedBody(b[20], Uint24LE(b, 21), w, h) == b[20..30]
  {
    Little24Writes(b, 21);
    Little24Writes(b, 24);
    Little24Writes(b, 27);
    assert b[20..30] == [b[20]] + b[21..24] + b[24..27] + b[27..30];
  }

  /** The bits above the two sizes: one of alpha, three of version. */
  lemma TopBits(b: seq<Byte>, at: nat)
    requires at + 4 <= |b|
    ensures var x, bits := Unsigned32LE(b, at), Int32LE(b, at); var top := (b[at + 3] as int) / 16;
      && 0 <= top < 16 && x == Low14(bits) + 16384 * (Low14(bits / 16384) + 16384 * top)
  {
    var x, bits, last := Unsigned32LE(b, at), Int32LE(b, at), b[at + 3] as int;
    var low := Uint24LE(b, at);
    Little24Writes(b, at);
    assert x == low + 16777216 * (16 * (last / 16) + last % 16);
    var rest := low + 16777216 * (last % 16);
    assert 0 <= rest < 268435456 && x == rest + 268435456 * (last / 16);
    FieldsOf(rest % 16384, rest / 16384, last / 16);
    FieldsOf(rest % 16384, rest / 16384, last / 16 - 16);
  }

  lemma LosslessWrites(b: seq<Byte>)
    requires |b| >= 30 && b[20] == 0x2f
    ensures var bits := Int32LE(b, 21); var top := (b[24] as int) / 16;
      var w, h := Low14(bits) + 1, Low14(bits / 16384) + 1;
      && 1 <= w <= 16384 && 1 <= h <= 16384 && 0 <= top < 16
      && LosslessBody(w, h, top % 2, top / 2) == b[20..25]
  {
    TopBits(b, 21);
    Little32Writes(b, 21);
    assert b[20..25] == [b[20]] + b[21..25];
  }

  lemma Little16Writes(b: seq<Byte>, at: nat)
    requires at + 2 <= |b|
    ensures var low, scale := Low14(Uint16LE(b, at)), (b[at + 1] as int) / 64;
      && 0 <= low < 16384 && 0 <= scale <= 3 && low + 16384 * scale == Uint16LE(b, at) < 65536
      && Little16(low + 16384 * scale) == b[at..at + 2]
  {
    var x, high := Uint16LE(b, at), b[at + 1] as int;
    assert high == 64 * (high / 64) + high % 64;
    var low := b[at] + 256 * (high % 64);
    assert 0 <= low < 16384 && x == low + 16384 * (high / 64);
    assert x % 256 == b[at] && x / 256 == high;
  }

  lemma LossyWrites(b: seq<Byte>)
    requires |b| >= 30 && b[23] == 0x9d && b[24] == 0x01 && b[25] == 0x2a
    ensures var w, h := Low14(Uint16LE(b, 26)), Low14(Uint16LE(b, 28));
      && 0 <= w < 16384 && 0 <= h < 16384 && 0 <= Uint24LE(b, 20) < 16777216
      && LossyBody(Uint24LE(b, 20), w, (b[27] as int) / 64, h, (b[29] as int) / 64) == b[20..30]
  {
    Little24Writes(b, 20);
    Little16Writes(b, 26);
    Little16Writes(b, 28);
    assert b[20..30] == b[20..23] + b[23..26] + b[26..28] + b[28..30];
    assert b[23..26] == [0x9d, 0x01, 0x2a];
  }

  // The three headers, with the fields besides the sizes taken from the file.

  predicate BeginsExtended(b: seq<Byte>, w: int, h: int)
    requires |b| >= 30
  {
    && 1 <= w <= 16777216 && 1 <= h <= 16777216 && 0 <= Uint24LE(b, 21) < 16777216
    && WebpChunk(Unsigned32LE(b, 4), "VP8X", Unsigned32LE(b, 16)) + ExtendedBody(b[20], Uint24LE(b, 21), w, h) == b[..30]
  }

  predicate BeginsLossless(b: seq<Byte>, w: int, h: int)
    requires |b| >= 30
  {
    var top := (b[24] as int) / 16;
    && 1 <= w <= 16384 && 1 <= h <= 16384 && 0 <= top < 16
    && WebpChunk(Unsigned32LE(b, 4), "VP8L", Unsigned32LE(b, 16)) + LosslessBody(w, h, top % 2, top / 2) == b[..25]
  }

  predicate BeginsLossy(b: seq<Byte>, w: int, h: int)
    requires |b| >= 30
  {
    var ws, hs := (b[27] as int) / 64, (b[29] as int) / 64;
    && 0 <= w < 16384 && 0 <= h < 16384 && 0 <= ws <= 3 && 0 <= hs <= 3 && 0 <= Uint24LE(b, 20) < 16777216
    && WebpChunk(Unsigned32LE(b, 4), "VP8 ", Unsigned32LE(b, 16)) + LossyBody(Uint24LE(b, 20), w, ws, h, hs) == b[..30]
  }

  lemma Regroup(b: seq<Byte>, n: nat, header: seq<Byte>, body: seq<Byte>)
    requires n <= |b| && b[..n] == header + body
    ensures b == header + (body + b[n..])
  {
    assert b == b[..n] + b[n..];
  }

  lemma Prefix(b: seq<Byte>, m: nat, n: nat)
    requires m <= n <= |b|
    ensures b[..n] == b[..m] + b[m..n]
  {
  }

  predicate IsChunk(b: seq<Byte>, chunk: string)
    requires |b| >= 30 && |chunk| == 4
  {
    Spells(b, 0, "RIFF") && Spells(b, 8, "WEBP") && Spells(b, 12, chunk)
  }

  lemma ExtendedExactly(b: seq<Byte>, w: int, h: int)
    requires |b| >= 30 && IsChunk(b, "VP8X")
    ensures ParseSticker(b) == Image(Webp, w, h) <==> BeginsExtended(b, w, h)
  {
    ChunkWrites(b, "VP8X");
    ExtendedWrites(b);
    Prefix(b, 20, 30);
    SpelledWebpIsNotPng(b);
    if BeginsExtended(b, w, h) {
      Regroup(b, 30, WebpChunk(Unsigned32LE(b, 4), "VP8X", Unsigned32LE(b, 16)), ExtendedBody(b[20], Uint24LE(b, 21), w, h));
      ExtendedRoundTrip(Unsigned32LE(b, 4), Unsigned32LE(b, 16), b[20], Uint24LE(b, 21), w, h, b[30..]);
    }
  }

  lemma LosslessExactly(b: seq<Byte>, w: int, h: int)
    requires |b| >= 30 && IsChunk(b, "VP8L")
    ensures ParseSticker(b) == Image(Webp, w, h) <==> BeginsLossless(b, w, h)
  {
    var top := (b[24] as int) / 16;
    ChunkWrites(b, "VP8L");
    Prefix(b, 20, 25);
    SpelledWebpIsNotPng(b);
    if b[20] == 0x2f {
      LosslessWrites(b);
    }
    if BeginsLossless(b, w, h) {
      Regroup(b, 25, WebpChunk(Unsigned32LE(b, 4), "VP8L", Unsigned32LE(b, 16)), LosslessBody(w, h, top % 2, top / 2));
      LosslessRoundTrip(Unsigned32LE(b, 4), Unsigned32LE(b, 16), w, h, top % 2, top / 2, b[25..]);
    }
  }

  lemma LossyExactly(b: seq<Byte>, w: int, h: int)
    requires |b| >= 30 && IsChunk(b, "VP8 ")
    ensures ParseSticker(b) == Image(Webp, w, h) <==> BeginsLossy(b, w, h)
  {
    var ws, hs := (b[27] as int) / 64, (b[29] as int) / 64;
    ChunkWrites(b, "VP8 ");
    Prefix(b, 20, 30);
    SpelledWebpIsNotPng(b);
    if b[23] == 0x9d && b[24] == 0x01 && b[25] == 0x2a {
      LossyWrites(b);
    }
    if BeginsLossy(b, w, h) {
      Regroup(b, 30, WebpChunk(Unsigned32LE(b, 4), "VP8 ", Unsigned32LE(b, 16)), LossyBody(Uint24LE(b, 20), w, ws, h, hs));
      LossyRoundTrip(Unsigned32LE(b, 4), Unsigned32LE(b, 16), Uint24LE(b, 20), w, ws, h, hs, b[30..]);
    }
  }

  /** A file that starts with a container header carries its chunk name. */
  lemma BeginningNamesChunk(b: seq<Byte>, file: int, chunk: string, size: int, body: seq<Byte>, n: nat)
    requires |b| >= 30 && n <= |b|
    requires |chunk| == 4 && forall i :: 0 <= i < |chunk| ==> chunk[i] < '\U{100}'
    requires 0 <= file < 0x1_0000_0000 && 0 <= size < 0x1_0000_0000
    requires WebpChunk(file, chunk, size) + body == b[..n]
    ensures IsChunk(b, chunk)
  {
    Regroup(b, n, WebpChunk(file, chunk, size), body);
    ChunkReads(file, chunk, size, body + b[n..]);
  }

  lemma BeginningsNameChunks(b: seq<Byte>, w: int, h: int)
    requires |b| >= 30
    ensures BeginsExtended(b, w, h) ==> IsChunk(b, "VP8X")
    ensures BeginsLossless(b, w, h) ==> IsChunk(b, "VP8L")
    ensures BeginsLossy(b, w, h) ==> IsChunk(b, "VP8 ")
  {
    var file, size := Unsigned32LE(b, 4), Unsigned32LE(b, 16);
    if BeginsExtended(b, w, h) {
      BeginningNamesChunk(b, file, "VP8X", size, ExtendedBody(b[20], Uint24LE(b, 21), w, h), 30);
    }
    if BeginsLossless(b, w, h) {
      var top := (b[24] as int) / 16;
      BeginningNamesChunk(b, file, "VP8L", size, LosslessBody(w, h, top % 2, top / 2), 25);
    }
    if BeginsLossy(b, w, h) {
      BeginningNamesChunk(b, file, "VP8 ", size,
                          LossyBody(Uint24LE(b, 20), w, (b[27] as int) / 64, h, (b[29] as int) / 64), 30);
    }
  }

  /** Main result: a file reads as a WebP of some size exactly when it has 30 bytes and begins
      with one of the three headers of that size. */
  lemma WebpExactlyWhen(b: seq<Byte>, w: int, h: int)
    ensures ParseSticker(b) == Image(Webp, w, h) <==>
      |b| >= 30 && (BeginsExtended(b, w, h) || BeginsLossless(b, w, h) || BeginsLossy(b, w, h))
  {
    if |b| >= 30 {
      BeginningsNameChunks(b, w, h);
      if IsChunk(b, "VP8X") {
        ExtendedExactly(b, w, h);
      } else if IsChunk(b, "VP8L") {
        LosslessExactly(b, w, h);
      } else if IsChunk(b, "VP8 ") {
        LossyExactly(b, w, h);
      }
    }
  }

  // ----- Byte by byte -----

  /** Main result: a file is a PNG of this size if and only if its first 16 bytes are the signature,
      the length 13 and the name IHDR, and the next eight the width and the height, big end first. */
  lemma PngInBytes(b: seq<Byte>, width: int, height: int)
    ensures ParseSticker(b) == Image(Png, width, height) <==>
      && |b| >= 24
      && b[..16] == [0x89, 0x50, 0x4e, 0x47, 0x0d, 0x0a, 0x1a, 0x0a, 0, 0, 0, 13, 0x49, 0x48, 0x44, 0x52]
      && width == 16777216 * (b[16] as int) + 65536 * (b[17] as int) + 256 * (b[18] as int) + (b[19] as int)
      && height == 16777216 * (b[20] as int) + 65536 * (b[21] as int) + 256 * (b[22] as int) + (b[23] as int)
  {
    if |b| >= 24 {
      PngStart(b);
    }
  }

  lemma PngStart(b: seq<Byte>)
    requires |b| >= 24
    ensures PNG_SIGNATURE <= b && Uint32(b, 8) == 13 && Spells(b, 12, "IHDR") <==>
      b[..16] == [0x89, 0x50, 0x4e, 0x47, 0x0d, 0x0a, 0x1a, 0x0a, 0, 0, 0, 13, 0x49, 0x48, 0x44, 0x52]
  {
    var start: seq<Byte> := [0x89, 0x50, 0x4e, 0x47, 0x0d, 0x0a, 0x1a, 0x0a, 0, 0, 0, 13, 0x49, 0x48, 0x44, 0x52];
    LengthIsThirteen(b, 8);
    if PNG_SIGNATURE <= b && Uint32(b, 8) == 13 && Spells(b, 12, "IHDR") {
      assert forall i :: 0 <= i < 8 ==> b[i] == PNG_SIGNATURE[i];
      assert b[..16] == start;
    }
    if b[..16] == start {
      assert forall i :: 0 <= i < 16 ==> b[i] == start[i];
      assert b[..8] == PNG_SIGNATURE;
      assert b[8] == 0 && b[9] == 0 && b[10] == 0 && b[11] == 13;
      assert b[12] == 0x49 && b[13] == 0x48 && b[14] == 0x44 && b[15] == 0x52;
    }
  }

  lemma LengthIsThirteen(b: seq<Byte>, at: nat)
    requires at + 4 <= |b|
    ensures Uint32(b, at) == 13 <==> b[at] == 0 && b[at + 1] == 0 && b[at + 2] == 0 && b[at + 3] == 13
  {
  }

  /** The sizes of the lossless header, in bytes: 14 bits from the first, 14 from where those end. */
  lemma LosslessInBytes(b: seq<Byte>)
    requires |b| >= 30
    ensures Low14(Int32LE(b, 21)) == (b[21] as int) + 256 * ((b[22] as int) % 64)
    ensures Low14(Int32LE(b, 21) / 16384) == (b[22] as int) / 64 + 4 * (b[23] as int) + 1024 * ((b[24] as int) % 16)
  {
    var b0, b1, b2, b3: int := b[21] as int, b[22] as int, b[23] as int, b[24] as int;
    var w, h, top := b0 + 256 * (b1 % 64), b1 / 64 + 4 * b2 + 1024 * (b3 % 16), b3 / 16;
    assert b1 == 64 * (b1 / 64) + b1 % 64 && b3 == 16 * (b3 / 16) + b3 % 16;
    assert Unsigned32LE(b, 21) == w + 16384 * (h + 16384 * top);
    FieldsOf(w, h, top);
    FieldsOf(w, h, top - 16);
  }

  /** The sizes of the key frame, in bytes: the two high bits are the scale. */
  lemma LossyInBytes(b: seq<Byte>, at: nat)
    requires at + 2 <= |b|
    ensures Low14(Uint16LE(b, at)) == (b[at] as int) + 256 * ((b[at + 1] as int) % 64)
  {
    var high: int := b[at + 1] as int;
    assert high == 64 * (high / 64) + high % 64;
    FieldsOf((b[at] as int) + 256 * (high % 64), 0, 0);
    assert Uint16LE(b, at) == (b[at] as int) + 256 * (high % 64) + 16384 * (high / 64);
    assert 0 <= (b[at] as int) + 256 * (high % 64) < 16384;
  }

  /** "RIFF", any four bytes, "WEBP" and the name of a chunk. */
  predicate NamesChunk(b: seq<Byte>, last: Byte) {
    |b| >= 30 && b[..4] == [0x52, 0x49, 0x46, 0x46] && b[8..16] == [0x57, 0x45, 0x42, 0x50, 0x56, 0x50, 0x38, last]
  }

  lemma ChunkInBytes(b: seq<Byte>)
    requires |b| >= 30
    ensures IsChunk(b, "VP8X") <==> NamesChunk(b, 0x58)
    ensures IsChunk(b, "VP8L") <==> NamesChunk(b, 0x4c)
    ensures IsChunk(b, "VP8 ") <==> NamesChunk(b, 0x20)
  {
    assert forall i :: 0 <= i < 4 ==> b[..4][i] == b[i];
    assert forall i :: 0 <= i < 8 ==> b[8..16][i] == b[8 + i];
    ChunkBytes(b, 0x58);
    ChunkBytes(b, 0x4c);
    ChunkBytes(b, 0x20);
  }

  lemma ChunkBytes(b: seq<Byte>, last: Byte)
    requires |b| >= 30
    ensures NamesChunk(b, last) <==>
      && b[0] == 0x52 && b[1] == 0x49 && b[2] == 0x46 && b[3] == 0x46
      && b[8] == 0x57 && b[9] == 0x45 && b[10] == 0x42 && b[11] == 0x50
      && b[12] == 0x56 && b[13] == 0x50 && b[14] == 0x38 && b[15] == last
  {
    var name: seq<Byte> := [0x57, 0x45, 0x42, 0x50, 0x56, 0x50, 0x38, last];
    assert b[..4] == [b[0], b[1], b[2], b[3]];
    assert b[8..16] == [b[8], b[9], b[10], b[11], b[12], b[13], b[14], b[15]];
  }

  /** Main result: a file is a WebP of this size if and only if it has 30 bytes, begins with "RIFF" and
      "WEBP", and its first chunk is extended, lossless with its signature, or lossy with its start
      code, with the size in the bits where the formats put it. */
  lemma WebpInBytes(b: seq<Byte>, w: int, h: int)
    ensures ParseSticker(b) == Image(Webp, w, h) <==>
      || (NamesChunk(b, 0x58)
          && w == (b[24] as int) + 256 * (b[25] as int) + 65536 * (b[26] as int) + 1
          && h == (b[27] as int) + 256 * (b[28] as int) + 65536 * (b[29] as int) + 1)
      || (NamesChunk(b, 0x4c) && b[20] == 0x2f
          && w == (b[21] as int) + 256 * ((b[22] as int) % 64) + 1
          && h == (b[22] as int) / 64 + 4 * (b[23] as int) + 1024 * ((b[24] as int) % 16) + 1)
      || (NamesChunk(b, 0x20) && b[23] == 0x9d && b[24] == 0x01 && b[25] == 0x2a
          && w == (b[26] as int) + 256 * ((b[27] as int) % 64)
          && h == (b[28] as int) + 256 * ((b[29] as int) % 64))
  {
    if |b| >= 30 {
      ChunkInBytes(b);
      LosslessInBytes(b);
      LossyInBytes(b, 26);
      LossyInBytes(b, 28);
      if IsChunk(b, "VP8X") || IsChunk(b, "VP8L") || IsChunk(b, "VP8 ") {
        SpelledWebpIsNotPng(b);
      }
    }
  }
}
