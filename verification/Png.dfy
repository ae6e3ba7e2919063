/** The deterministic grayscale PNG encoder, its strict decoder, and the crop between them. */
module Png {
  import opened Options
  import opened Bytes
  import opened StoredDeflate

  const SIGNATURE: seq<Byte> := [0x89, 0x50, 0x4e, 0x47, 0x0d, 0x0a, 0x1a, 0x0a]
  const IHDR: seq<Byte> := [0x49, 0x48, 0x44, 0x52]
  const IDAT: seq<Byte> := [0x49, 0x44, 0x41, 0x54]
  const IEND: seq<Byte> := [0x49, 0x45, 0x4e, 0x44]

  const BIT_DEPTH: Byte := 8
  const COLOR_TYPE_GRAYSCALE: Byte := 0
  const FILTER_NONE: Byte := 0
  const MAX_PIXELS := 100_000_000
  const WORDS := 0x1_0000_0000

  /** The library behind the codec: both checksums, and its decompressor. */
  datatype Zlib = Zlib(crc: seq<Byte> -> Word, adler: seq<Byte> -> Word, inflate: seq<Byte> -> Stream)

  /** A decompressor that reads stored blocks as RFC 1950 and RFC 1951 say. */
  ghost predicate ReadsStoredBlocks(z: Zlib) {
    forall s :: ReadStored(z.adler, s).Whole? ==> z.inflate(s) == ReadStored(z.adler, s)
  }

  datatype Refusal =
    | WrongRows | WrongWidth | DoesNotPack
    | NoSignature | Truncated | BadCrc | SecondHeader | MalformedHeader | NoPixels | NotGrayscale | UnknownMethod
    | DataBeforeHeader | EndCarriesData | UnknownChunk | NoHeader | NoEnd | TrailingBytes | TooManyPixels
    | CorruptData | DataTooLong | DataTruncated | DataTrails | DataTooShort | UnknownFilter
    | EmptyCrop | OutsidePage

  datatype Result<T> = Given(value: T) | Refused(why: Refusal)

  datatype Page = Page(width: int, height: int, rows: seq<seq<Byte>>)

  predicate HasShape(rows: seq<seq<Byte>>, width: int, height: int) {
    |rows| == height && forall y :: 0 <= y < |rows| ==> |rows[y]| == width
  }

  predicate IsPage(page: Page) {
    page.width >= 1 && page.height >= 1 && page.width * page.height <= 100_000_000
    && HasShape(page.rows, page.width, page.height)
  }

  // --- the framing ----------------------------------------------------------------------------------

  /** One length-prefixed, checksummed chunk. */
  function Chunk(z: Zlib, tag: seq<Byte>, data: seq<Byte>): seq<Byte>
    requires |data| < WORDS
  {
    Big(|data|) + tag + data + Big(z.crc(tag + data))
  }

  function Header(width: Word, height: Word): (s: seq<Byte>)
    ensures |s| == 13
  {
    Big(width) + Big(height) + [BIT_DEPTH, COLOR_TYPE_GRAYSCALE, 0, 0, 0]
  }

  /** A chunk byte by byte: the length of its data with the most significant byte first, its four-byte
      tag, the data, and the checksum of the tag and the data together. */
  lemma ChunkIs(z: Zlib, tag: seq<Byte>, data: seq<Byte>)
    requires |data| < WORDS && |tag| == 4
    ensures var s, n := Chunk(z, tag, data), |data|;
            var a: int, b: int, c: int, d: int := s[0], s[1], s[2], s[3];
            && |s| == n + 12 && n == 16_777_216 * a + 65_536 * b + 256 * c + d
            && s[4..8] == tag && s[8..n + 8] == data && FromBig(s[n + 8..]) == z.crc(s[4..n + 8])
  {
    var s, n := Chunk(z, tag, data), |data|;
    BigIs(n);
    BigRoundTrip(z.crc(tag + data));
    assert s[..4] == Big(n) && s[n + 8..] == Big(z.crc(tag + data));
    assert forall k :: 0 <= k < 4 ==> s[k] == s[..4][k];
    assert s[4..n + 8] == tag + data;
  }

  /** A header's fields where they stand: width, height, eight bits of gray, and no compression,
      filter or interlace method but zero. */
  lemma HeaderIs(width: Word, height: Word)
    ensures var s := Header(width, height);
            && FromBig(s[..4]) == width && FromBig(s[4..8]) == height
            && s[8] == 8 && s[9] == 0 && s[10] == 0 && s[11] == 0 && s[12] == 0
  {
    var s := Header(width, height);
    BigRoundTrip(width);
    BigRoundTrip(height);
    assert s[..4] == Big(width) && s[4..8] == Big(height);
  }

  /** Scanlines, each after its filter byte. */
  function Raw(rows: seq<seq<Byte>>): seq<Byte> {
    if |rows| == 0 then [] else Raw(rows[..|rows| - 1]) + ([FILTER_NONE] + rows[|rows| - 1])
  }

  function Flat(parts: seq<seq<Byte>>): seq<Byte> {
    if |parts| == 0 then [] else parts[0] + Flat(parts[1..])
  }

  predicate Fit(parts: seq<seq<Byte>>) {
    forall k :: 0 <= k < |parts| ==> |parts[k]| < WORDS
  }

  /** One image-data chunk a part, then the end. */
  function Tail(z: Zlib, parts: seq<seq<Byte>>): seq<Byte>
    requires Fit(parts)
  {
    if |parts| == 0 then Chunk(z, IEND, []) else Chunk(z, IDAT, parts[0]) + Tail(z, parts[1..])
  }

  /** A whole file: signature, header, image data in any number of chunks, end. */
  function File(z: Zlib, width: Word, height: Word, parts: seq<seq<Byte>>): seq<Byte>
    requires Fit(parts)
  {
    SIGNATURE + Chunk(z, IHDR, Header(width, height)) + Tail(z, parts)
  }

  /** A file that is exactly one page's and nothing else. */
  ghost predicate IsFileOf(z: Zlib, png: seq<Byte>, page: Page) {
    IsPage(page) && exists parts :: FramesPage(z, png, page, parts)
  }

  ghost predicate FramesPage(z: Zlib, png: seq<Byte>, page: Page, parts: seq<seq<Byte>>) {
    && Fit(parts) && 0 <= page.width < WORDS && 0 <= page.height < WORDS
    && png == File(z, page.width, page.height, parts)
    && z.inflate(Flat(parts)) == Whole(Raw(page.rows), [])
  }

  lemma OnePart(z: Zlib, idat: seq<Byte>)
    requires |idat| < WORDS
    ensures Tail(z, [idat]) == Chunk(z, IDAT, idat) + Chunk(z, IEND, []) && Flat([idat]) == idat
  {
    var parts := [idat];
    assert parts[1..] == [];
  }

  // --- encoding -------------------------------------------------------------------------------------

  method EncodeGrayscale(z: Zlib, width: int, height: int, rows: seq<seq<Byte>>) returns (r: Result<seq<Byte>>)
    ensures !HasShape(rows, width, height) <==> r == Refused(WrongRows) || r == Refused(WrongWidth)
    ensures r.Given? <==>
              && HasShape(rows, width, height) && 0 <= width < WORDS && height < WORDS
              && |Stored(z.adler, Raw(rows))| < WORDS
    ensures r.Given? ==> r.value == File(z, width, height, [Stored(z.adler, Raw(rows))])
  {
    if |rows| != height { return Refused(WrongRows); }
    if exists y :: 0 <= y < |rows| && |rows[y]| != width { return Refused(WrongWidth); }
    if !(0 <= width < WORDS && height < WORDS) { return Refused(DoesNotPack); }
    var header := Header(width, height);
    var raw := [];
    for y := 0 to |rows|
      invariant raw == Raw(rows[..y])
    {
      assert rows[..y + 1][..y] == rows[..y];
      raw := raw + ([FILTER_NONE] + rows[y]);
    }
    assert rows[..|rows|] == rows;
    var idat := DeterministicStoredDeflate(z.adler, raw);
    if |idat| >= WORDS { return Refused(DoesNotPack); }
    OnePart(z, idat);
    r := Given(SIGNATURE + Chunk(z, IHDR, header) + (Chunk(z, IDAT, idat) + Chunk(z, IEND, [])));
  }

  // --- decoding -------------------------------------------------------------------------------------

  datatype Found = Found(tag: seq<Byte>, data: seq<Byte>, next: int)

  /** The chunk that starts at an offset. */
  function ChunkAt(z: Zlib, png: seq<Byte>, offset: nat): (r: Result<Found>)
    ensures r.Given? ==> offset + 12 <= r.value.next <= |png|
  {
    if offset + 8 > |png| then Refused(Truncated)
    else
      var n: int := FromBig(png[offset..offset + 4]);
      var tag := png[offset + 4..offset + 8];
      var end := offset + 8 + n;
      if end + 4 > |png| then Refused(Truncated)
      else
        var data := png[offset + 8..end];
        if z.crc(tag + data) != FromBig(png[end..end + 4]) then Refused(BadCrc) else Given(Found(tag, data, end + 4))
  }

  datatype Size = Size(width: Word, height: Word)

  function ReadHeader(data: seq<Byte>): Result<Size> {
    if |data| != 13 then Refused(MalformedHeader)
    else
      var size := Size(FromBig(data[..4]), FromBig(data[4..8]));
      if size.width < 1 || size.height < 1 then Refused(NoPixels)
      else if data[8] != BIT_DEPTH || data[9] != COLOR_TYPE_GRAYSCALE then Refused(NotGrayscale)
      else if data[10] != 0 || data[11] != 0 || data[12] != 0 then Refused(UnknownMethod)
      else Given(size)
  }

  /** What is read so far. */
  datatype Reading = Reading(size: Option<Size>, idat: seq<Byte>, ended: bool)

  function TakeChunk(reading: Reading, found: Found): Result<Reading> {
    if found.tag == IHDR then
      if reading.size.Some? then Refused(SecondHeader)
      else
        match ReadHeader(found.data)
        case Refused(why) => Refused(why)
        case Given(size) => Given(reading.(size := Some(size)))
    else if found.tag == IDAT then
      if reading.size.None? then Refused(DataBeforeHeader) else Given(reading.(idat := reading.idat + found.data))
    else if found.tag == IEND then
      if |found.data| != 0 then Refused(EndCarriesData) else Given(reading.(ended := true))
    else Refused(UnknownChunk)
  }

  /** Chunk after chunk up to the end of the file, which the end chunk must be. */
  function ReadChunks(z: Zlib, png: seq<Byte>, offset: nat, reading: Reading): Result<Reading>
    requires offset <= |png|
    decreases |png| - offset
  {
    if reading.ended || offset == |png| then
      if reading.size.None? then Refused(NoHeader)
      else if !reading.ended then Refused(NoEnd)
      else if offset != |png| then Refused(TrailingBytes)
      else Given(reading)
    else
      match ChunkAt(z, png, offset)
      case Refused(why) => Refused(why)
      case Given(found) =>
        match TakeChunk(reading, found)
        case Refused(why) => Refused(why)
        case Given(more) => ReadChunks(z, png, found.next, more)
  }

  /** `n` scanlines of `width` samples, each after a zero filter byte. */
  function Unfilter(raw: seq<Byte>, width: nat, n: nat): (r: Result<seq<seq<Byte>>>)
    requires |raw| == n * (width + 1)
    ensures r.Given? ==> |r.value| == n
  {
    if n == 0 then Given([])
    else
      var start := |raw| - (width + 1);
      assert start == (n - 1) * (width + 1);
      match Unfilter(raw[..start], width, n - 1)
      case Refused(why) => Refused(why)
      case Given(rows) => if raw[start] != FILTER_NONE then Refused(UnknownFilter) else Given(rows + [raw[start + 1..]])
  }

  /** The image once its chunks are read. */
  function Finish(z: Zlib, width: Word, height: Word, idat: seq<Byte>): Result<Page> {
    var expected := (width + 1) * height;
    if width * height > MAX_PIXELS then Refused(TooManyPixels)
    else
      match z.inflate(idat)
      case Broken => Refused(CorruptData)
      case Unfinished(soFar) => Refused(if |soFar| > expected then DataTooLong else DataTruncated)
      case Whole(raw, rest) =>
        if |raw| > expected then Refused(DataTooLong)
        else if |rest| > 0 then Refused(DataTrails)
        else if |raw| != expected then Refused(DataTooShort)
        else
          match Unfilter(raw, width, height)
          case Refused(why) => Refused(why)
          case Given(rows) => Given(Page(width, height, rows))
  }

  const NOTHING := Reading(None, [], false)

  function Decode(z: Zlib, png: seq<Byte>): Result<Page> {
    if |png| < 8 || png[..8] != SIGNATURE then Refused(NoSignature)
    else
      match ReadChunks(z, png, 8, NOTHING)
      case Refused(why) => Refused(why)
      case Given(reading) =>
        if reading.size.None? then Refused(NoHeader)
        else Finish(z, reading.size.value.width, reading.size.value.height, reading.idat)
  }

  lemma UnfilterFirst(raw: seq<Byte>, width: nat, i: nat, n: nat)
    requires i < n && |raw| == n * (width + 1)
    ensures 0 <= i * (width + 1) && (i + 1) * (width + 1) == i * (width + 1) + (width + 1) <= |raw|
    ensures Unfilter(raw[..(i + 1) * (width + 1)], width, i + 1) ==
              match Unfilter(raw[..i * (width + 1)], width, i)
              case Refused(why) => Refused(why)
              case Given(rows) =>
                if raw[i * (width + 1)] != FILTER_NONE then Refused(UnknownFilter)
                else Given(rows + [raw[i * (width + 1) + 1..(i + 1) * (width + 1)]])
  {
    var stride := width + 1;
    var start := i * stride;
    assert (i + 1) * stride == start + stride;
    assert (n - (i + 1)) * stride >= 0;
    var longer := raw[..start + stride];
    assert longer[..start] == raw[..start];
    assert longer[start + 1..] == raw[start + 1..start + stride];
  }

  lemma {:induction false} UnfilterRefuses(raw: seq<Byte>, width: nat, i: nat, n: nat)
    requires i <= n && |raw| == n * (width + 1) && i * (width + 1) <= |raw|
    requires Unfilter(raw[..i * (width + 1)], width, i) == Refused(UnknownFilter)
    ensures Unfilter(raw, width, n) == Refused(UnknownFilter)
    decreases n - i
  {
    if i < n {
      UnfilterFirst(raw, width, i, n);
      UnfilterRefuses(raw, width, i + 1, n);
    } else {
      assert raw[..i * (width + 1)] == raw;
    }
  }

  method TakeRows(raw: seq<Byte>, width: nat, height: nat) returns (r: Result<seq<seq<Byte>>>)
    requires |raw| == height * (width + 1)
    ensures r == Unfilter(raw, width, height)
  {
    var stride := width + 1;
    var rows: seq<seq<Byte>> := [];
    for i := 0 to height
      invariant 0 <= i * stride <= |raw| && Unfilter(raw[..i * stride], width, i) == Given(rows)
    {
      UnfilterFirst(raw, width, i, height);
      var start := i * stride;
      if raw[start] != FILTER_NONE {
        UnfilterRefuses(raw, width, i + 1, height);
        return Refused(UnknownFilter);
      }
      rows := rows + [raw[start + 1..start + stride]];
    }
    assert raw[..height * stride] == raw;
    r := Given(rows);
  }

  method DecodeGrayscale(z: Zlib, png: seq<Byte>) returns (r: Result<Page>)
    ensures r == Decode(z, png)
    ensures forall page :: r == Given(page) <==> IsFileOf(z, png, page)
  {
    forall page
      ensures Decode(z, png) == Given(page) <==> IsFileOf(z, png, page)
    {
      AcceptsExactlyFiles(z, png, page);
    }
    if |png| < 8 || png[..8] != SIGNATURE { return Refused(NoSignature); }
    var offset := 8;
    var reading := NOTHING;
    while offset < |png| && !reading.ended
      invariant 8 <= offset <= |png|
      invariant ReadChunks(z, png, 8, NOTHING) == ReadChunks(z, png, offset, reading)
      decreases |png| - offset
    {
      var found := ChunkAt(z, png, offset);
      if found.Refused? { return Refused(found.why); }
      var more := TakeChunk(reading, found.value);
      if more.Refused? { return Refused(more.why); }
      reading, offset := more.value, found.value.next;
    }
    if reading.size.None? { return Refused(NoHeader); }
    if !reading.ended { return Refused(NoEnd); }
    if offset != |png| { return Refused(TrailingBytes); }
    r := FinishPage(z, reading.size.value, reading.idat);
  }

  method FinishPage(z: Zlib, size: Size, idat: seq<Byte>) returns (r: Result<Page>)
    ensures r == Finish(z, size.width, size.height, idat)
  {
    var width: int, height: int := size.width, size.height;
    if width * height > MAX_PIXELS { return Refused(TooManyPixels); }
    var stride := width + 1;
    var expected := stride * height;
    match z.inflate(idat) {
    case Broken => r := Refused(CorruptData);
    case Unfinished(soFar) => r := Refused(if |soFar| > expected then DataTooLong else DataTruncated);
    case Whole(raw, rest) =>
      if |raw| > expected { return Refused(DataTooLong); }
      if |rest| > 0 { return Refused(DataTrails); }
      if |raw| != expected { return Refused(DataTooShort); }
      var rows := TakeRows(raw, width, height);
      r := if rows.Refused? then Refused(rows.why) else Given(Page(width, height, rows.value));
    }
  }

  // --- what is accepted -----------------------------------------------------------------------------

  lemma OneFewer(raw: seq<Byte>, width: nat, n: nat) returns (start: nat)
    requires n > 0 && |raw| == n * (width + 1)
    ensures start == |raw| - (width + 1) == (n - 1) * (width + 1)
    ensures Unfilter(raw, width, n) ==
              match Unfilter(raw[..start], width, n - 1)
              case Refused(why) => Refused(why)
              case Given(rows) =>
                if raw[start] != FILTER_NONE then Refused(UnknownFilter)
                else Given(rows + [raw[start + 1..]])
  {
    assert n * (width + 1) == (n - 1) * (width + 1) + (width + 1);
    start := |raw| - (width + 1);
  }

  /** Scanlines survive the filter bytes, and only their own bytes give them back. */
  lemma {:induction false} UnfilterIsInverse(raw: seq<Byte>, width: nat, n: nat, rows: seq<seq<Byte>>)
    requires |raw| == n * (width + 1)
    ensures Unfilter(raw, width, n) == Given(rows) <==> HasShape(rows, width, n) && Raw(rows) == raw
  {
    if n > 0 && |rows| > 0 {
      var start := OneFewer(raw, width, n);
      var before, last := rows[..|rows| - 1], rows[|rows| - 1];
      UnfilterIsInverse(raw[..start], width, n - 1, before);
      assert rows == before + [last];
      if HasShape(rows, width, n) {
        RawLength(before, width);
        LastScanline(raw, Raw(before), last, start);
      }
    }
  }

  lemma {:induction false} RawLength(rows: seq<seq<Byte>>, width: nat)
    requires forall y :: 0 <= y < |rows| ==> |rows[y]| == width
    ensures |Raw(rows)| == |rows| * (width + 1)
  {
    if |rows| > 0 {
      RawLength(rows[..|rows| - 1], width);
      assert (|rows| - 1) * (width + 1) + (width + 1) == |rows| * (width + 1);
    }
  }

  lemma LastScanline(raw: seq<Byte>, before: seq<Byte>, last: seq<Byte>, start: nat)
    requires |before| == start && |raw| == start + 1 + |last|
    ensures before + ([FILTER_NONE] + last) == raw
            <==> raw[..start] == before && raw[start] == FILTER_NONE && raw[start + 1..] == last
  {
    var joined := before + ([FILTER_NONE] + last);
    assert joined[..start] == before && joined[start] == FILTER_NONE && joined[start + 1..] == last;
    assert raw == raw[..start] + ([raw[start]] + raw[start + 1..]);
  }

  /** A chunk that starts here is read whole. */
  lemma ChunkReads(z: Zlib, png: seq<Byte>, offset: nat, tag: seq<Byte>, data: seq<Byte>, post: seq<Byte>)
    requires offset <= |png| && |tag| == 4 && |data| < WORDS && png[offset..] == Chunk(z, tag, data) + post
    ensures ChunkAt(z, png, offset) == Given(Found(tag, data, offset + 12 + |data|))
            && png[offset + 12 + |data|..] == post
  {
    var n := |data|;
    var s := png[offset..];
    BigRoundTrip(n);
    BigRoundTrip(z.crc(tag + data));
    assert s[..4] == Big(n) && s[4..8] == tag && s[8..8 + n] == data
           && s[8 + n..12 + n] == Big(z.crc(tag + data)) && s[12 + n..] == post;
    assert png[offset..offset + 4] == s[..4] && png[offset + 4..offset + 8] == s[4..8];
    assert png[offset + 8..offset + 8 + n] == s[8..8 + n] && png[offset + 8 + n..offset + 12 + n] == s[8 + n..12 + n];
    assert png[offset + 12 + n..] == s[12 + n..];
  }

  /** A chunk that is read was there. */
  lemma ChunkWas(z: Zlib, png: seq<Byte>, offset: nat)
    requires ChunkAt(z, png, offset).Given?
    ensures var found := ChunkAt(z, png, offset).value;
            |found.tag| == 4 && |found.data| < WORDS
            && png[offset..] == Chunk(z, found.tag, found.data) + png[found.next..]
  {
    var found := ChunkAt(z, png, offset).value;
    var length, check := png[offset..offset + 4], png[found.next - 4..found.next];
    BigIsOnto(length);
    BigIsOnto(check);
    assert png[offset..] == length + found.tag + found.data + check + png[found.next..];
  }

  lemma HeaderReads(width: Word, height: Word)
    requires width >= 1 && height >= 1
    ensures ReadHeader(Header(width, height)) == Given(Size(width, height))
  {
    var data := Header(width, height);
    BigRoundTrip(width);
    BigRoundTrip(height);
    assert data[..4] == Big(width) && data[4..8] == Big(height);
  }

  lemma HeaderWas(data: seq<Byte>)
    requires ReadHeader(data).Given?
    ensures var size := ReadHeader(data).value;
            size.width >= 1 && size.height >= 1
            && data == Header(size.width, size.height)
  {
    BigIsOnto(data[..4]);
    BigIsOnto(data[4..8]);
    assert data == data[..4] + data[4..8] + data[8..];
  }

  lemma ReadData(z: Zlib, png: seq<Byte>, offset: nat, size: Size, idat: seq<Byte>, found: Found)
    requires offset < |png| && ChunkAt(z, png, offset) == Given(found) && found.tag == IDAT
    ensures ReadChunks(z, png, offset, Reading(Some(size), idat, false))
         == ReadChunks(z, png, found.next, Reading(Some(size), idat + found.data, false))
  {
  }

  lemma ReadEnd(z: Zlib, png: seq<Byte>, offset: nat, size: Size, idat: seq<Byte>, found: Found)
    requires offset < |png| && ChunkAt(z, png, offset) == Given(found) && found.tag == IEND
    ensures ReadChunks(z, png, offset, Reading(Some(size), idat, false)) ==
              if |found.data| != 0 then Refused(EndCarriesData)
              else if found.next != |png| then Refused(TrailingBytes)
              else Given(Reading(Some(size), idat, true))
  {
  }

  lemma ReadOther(z: Zlib, png: seq<Byte>, offset: nat, size: Size, idat: seq<Byte>)
    requires offset <= |png| && ReadChunks(z, png, offset, Reading(Some(size), idat, false)).Given?
    ensures offset < |png| && ChunkAt(z, png, offset).Given?
    ensures ChunkAt(z, png, offset).value.tag == IDAT || ChunkAt(z, png, offset).value.tag == IEND
  {
  }

  lemma Joined(a: seq<Byte>, parts: seq<seq<Byte>>)
    requires |parts| > 0
    ensures a + parts[0] + Flat(parts[1..]) == a + Flat(parts)
  {
    Regroup(a, parts[0], Flat(parts[1..]));
  }

  /** Image data and the end, read from where they start. */
  lemma {:induction false} TailReads(
      z: Zlib, png: seq<Byte>, offset: nat, size: Size, idat: seq<Byte>, parts: seq<seq<Byte>>)
    requires offset <= |png| && Fit(parts) && png[offset..] == Tail(z, parts)
    ensures ReadChunks(z, png, offset, Reading(Some(size), idat, false))
              == Given(Reading(Some(size), idat + Flat(parts), true))
    decreases |parts|
  {
    if |parts| == 0 {
      assert png[offset..] == Chunk(z, IEND, []) + [];
      ChunkReads(z, png, offset, IEND, [], []);
      ReadEnd(z, png, offset, size, idat, Found(IEND, [], offset + 12));
      assert idat + [] == idat;
    } else {
      var next := offset + 12 + |parts[0]|;
      ChunkReads(z, png, offset, IDAT, parts[0], Tail(z, parts[1..]));
      ReadData(z, png, offset, size, idat, Found(IDAT, parts[0], next));
      TailReads(z, png, next, size, idat + parts[0], parts[1..]);
      Joined(idat, parts);
    }
  }

  /** Whatever is read to the end was image data and the end, and nothing else. */
  lemma {:induction false} TailWas(z: Zlib, png: seq<Byte>, offset: nat, size: Size, idat: seq<Byte>)
    returns (parts: seq<seq<Byte>>)
    requires offset <= |png| && ReadChunks(z, png, offset, Reading(Some(size), idat, false)).Given?
    ensures Fit(parts) && png[offset..] == Tail(z, parts)
    ensures ReadChunks(z, png, offset, Reading(Some(size), idat, false))
              == Given(Reading(Some(size), idat + Flat(parts), true))
    decreases |png| - offset
  {
    ReadOther(z, png, offset, size, idat);
    var found := ChunkAt(z, png, offset).value;
    ChunkWas(z, png, offset);
    if found.tag == IEND {
      ReadEnd(z, png, offset, size, idat, found);
      parts := [];
      assert png[found.next..] == [] && found.data == [] && idat + [] == idat;
    } else {
      ReadData(z, png, offset, size, idat, found);
      var rest := TailWas(z, png, found.next, size, idat + found.data);
      parts := [found.data] + rest;
      assert parts[1..] == rest;
      Joined(idat, parts);
    }
  }

  lemma AfterSignature(png: seq<Byte>, rest: seq<Byte>)
    ensures png == SIGNATURE + rest <==> |png| >= 8 && png[..8] == SIGNATURE && png[8..] == rest
  {
    if png == SIGNATURE + rest {
      assert png[..8] == SIGNATURE && png[8..] == rest;
    } else if |png| >= 8 {
      assert png == png[..8] + png[8..];
    }
  }

  /** A file's chunks read as its size and its image data. */
  lemma {:induction false} FileReads(z: Zlib, png: seq<Byte>, width: Word, height: Word, parts: seq<seq<Byte>>)
    requires width >= 1 && height >= 1 && Fit(parts) && png == File(z, width, height, parts)
    ensures |png| >= 8 && png[..8] == SIGNATURE
    ensures ReadChunks(z, png, 8, NOTHING) == Given(Reading(Some(Size(width, height)), Flat(parts), true))
  {
    var header := Header(width, height);
    var rest := Chunk(z, IHDR, header) + Tail(z, parts);
    assert png == SIGNATURE + rest;
    AfterSignature(png, rest);
    ChunkReads(z, png, 8, IHDR, header, Tail(z, parts));
    HeaderReads(width, height);
    TailReads(z, png, 33, Size(width, height), [], parts);
    assert [] + Flat(parts) == Flat(parts);
  }

  /** Whatever chunks are read to the end were a file's. */
  lemma {:induction false} FileWas(z: Zlib, png: seq<Byte>) returns (size: Size, parts: seq<seq<Byte>>)
    requires |png| >= 8 && png[..8] == SIGNATURE && ReadChunks(z, png, 8, NOTHING).Given?
    ensures size.width >= 1 && size.height >= 1 && Fit(parts) && png == File(z, size.width, size.height, parts)
    ensures ReadChunks(z, png, 8, NOTHING).value == Reading(Some(size), Flat(parts), true)
  {
    var found := ChunkAt(z, png, 8).value;
    ChunkWas(z, png, 8);
    size := ReadHeader(found.data).value;
    HeaderWas(found.data);
    parts := TailWas(z, png, found.next, size, []);
    var rest := Chunk(z, IHDR, found.data) + Tail(z, parts);
    AfterSignature(png, rest);
    assert [] + Flat(parts) == Flat(parts);
    assert SIGNATURE + rest == File(z, size.width, size.height, parts);
  }

  lemma {:induction false} FinishIs(z: Zlib, width: Word, height: Word, idat: seq<Byte>, page: Page)
    requires width >= 1 && height >= 1
    ensures Finish(z, width, height, idat) == Given(page)
            <==> && page.width == width && page.height == height && IsPage(page)
                 && z.inflate(idat) == Whole(Raw(page.rows), [])
  {
    if HasShape(page.rows, width, height) {
      RawLength(page.rows, width);
    }
    if z.inflate(idat).Whole? && |z.inflate(idat).data| == height * (width + 1) {
      UnfilterIsInverse(z.inflate(idat).data, width, height, page.rows);
    }
  }

  /** The decoder accepts exactly the files that are one page's and nothing else: every byte of an
      accepted file belongs to a checksummed chunk of it. */
  lemma {:induction false} AcceptsExactlyFiles(z: Zlib, png: seq<Byte>, page: Page)
    ensures Decode(z, png) == Given(page) <==> IsFileOf(z, png, page)
  {
    if Decode(z, png) == Given(page) {
      var size, parts := FileWas(z, png);
      FinishIs(z, size.width, size.height, Flat(parts), page);
      assert FramesPage(z, png, page, parts);
    }
    if IsFileOf(z, png, page) {
      var parts :| FramesPage(z, png, page, parts);
      FileReads(z, png, page.width, page.height, parts);
      FinishIs(z, page.width, page.height, Flat(parts), page);
    }
  }

  // --- there and back -------------------------------------------------------------------------------

  lemma SmallSides(w: int, h: int)
    requires w >= 1 && h >= 1 && w * h <= MAX_PIXELS
    ensures w <= MAX_PIXELS && h <= MAX_PIXELS && h * (w + 1) <= 2 * MAX_PIXELS
  {
    assert w * h >= w && w * h >= h;
    assert h * (w + 1) == w * h + h;
  }

  lemma StoredFits(adler: seq<Byte> -> Word, data: seq<Byte>)
    requires |data| <= 2 * MAX_PIXELS
    ensures |Stored(adler, data)| < WORDS
  {
    StoredLength(adler, data);
    assert |data| / STORED_BLOCK_MAX <= |data|;
  }

  lemma PageFits(z: Zlib, page: Page)
    requires IsPage(page)
    ensures page.width < WORDS && page.height < WORDS && |Stored(z.adler, Raw(page.rows))| < WORDS
  {
    SmallSides(page.width, page.height);
    RawLength(page.rows, page.width);
    StoredFits(z.adler, Raw(page.rows));
  }

  /** The deterministic encoding of a page is a file of that page. */
  lemma {:induction false} EncodingIsAFile(z: Zlib, page: Page)
    requires IsPage(page) && ReadsStoredBlocks(z)
    ensures page.width < WORDS && page.height < WORDS && |Stored(z.adler, Raw(page.rows))| < WORDS
    ensures IsFileOf(z, File(z, page.width, page.height, [Stored(z.adler, Raw(page.rows))]), page)
  {
    PageFits(z, page);
    var idat := Stored(z.adler, Raw(page.rows));
    OnePart(z, idat);
    StoredReadsBack(z.adler, Raw(page.rows));
    assert ReadStored(z.adler, idat).Whole?;
    assert FramesPage(z, File(z, page.width, page.height, [idat]), page, [idat]);
  }

  /** Decoding the encoding of any page within the pixel bound gives the page back. */
  method EncodeThenDecode(z: Zlib, page: Page) returns (encoded: Result<seq<Byte>>, decoded: Result<Page>)
    requires IsPage(page) && ReadsStoredBlocks(z)
    ensures encoded.Given? && decoded == Given(page)
  {
    EncodingIsAFile(z, page);
    encoded := EncodeGrayscale(z, page.width, page.height, page.rows);
    decoded := DecodeGrayscale(z, encoded.value);
  }

  /** No file is two pages', and a page's encoding is no other page's file. */
  lemma {:induction false} EncodingsDiffer(z: Zlib, png: seq<Byte>, page: Page, other: Page)
    requires IsFileOf(z, png, page) && IsFileOf(z, png, other)
    ensures page == other
  {
    AcceptsExactlyFiles(z, png, page);
    AcceptsExactlyFiles(z, png, other);
  }

  // --- cropping -------------------------------------------------------------------------------------

  /** The sub-rectangle of a page. */
  function SubPage(page: Page, x: int, y: int, w: int, h: int): Page
    requires HasShape(page.rows, page.width, page.height)
    requires 0 <= x && 0 <= y && 0 <= w && 0 <= h && x + w <= page.width && y + h <= page.height
  {
    Page(w, h, seq(h, j requires 0 <= j < h => page.rows[y + j][x..x + w]))
  }

  method Crop(z: Zlib, page: Page, x: int, y: int, w: int, h: int) returns (r: Result<seq<Byte>>)
    requires IsPage(page)
    ensures r == Refused(EmptyCrop) <==> w <= 0 || h <= 0
    ensures r == Refused(OutsidePage)
            <==> w > 0 && h > 0 && !(0 <= x && 0 <= y && x + w <= page.width && y + h <= page.height)
    ensures r.Given? || r == Refused(EmptyCrop) || r == Refused(OutsidePage)
    ensures r.Given? && ReadsStoredBlocks(z) ==> Decode(z, r.value) == Given(SubPage(page, x, y, w, h))
  {
    if w <= 0 || h <= 0 { return Refused(EmptyCrop); }
    if x < 0 || y < 0 || x + w > page.width || y + h > page.height { return Refused(OutsidePage); }
    var rows: seq<seq<Byte>> := [];
    for j := 0 to h
      invariant |rows| == j && forall k :: 0 <= k < j ==> rows[k] == page.rows[y + k][x..x + w]
    {
      rows := rows + [page.rows[y + j][x..x + w]];
    }
    ghost var part := SubPage(page, x, y, w, h);
    assert rows == part.rows;
    SmallerPage(page, x, y, w, h);
    PageFits(z, part);
    r := EncodeGrayscale(z, w, h, rows);
    if ReadsStoredBlocks(z) {
      EncodingIsAFile(z, part);
      AcceptsExactlyFiles(z, r.value, part);
    }
  }

  lemma SmallerPage(page: Page, x: int, y: int, w: int, h: int)
    requires IsPage(page) && 0 <= x && 0 <= y && 0 < w && 0 < h && x + w <= page.width && y + h <= page.height
    ensures IsPage(SubPage(page, x, y, w, h))
  {
    assert (page.width - w) * h >= 0 && page.width * (page.height - h) >= 0;
  }

  lemma SliceOfSlice(row: seq<Byte>, x: nat, end: nat, x': nat, end': nat)
    requires x <= end <= |row| && x' <= end' <= end - x
    ensures row[x..end][x'..end'] == row[x + x'..x + end']
  {
    var inner := row[x..end];
    var a, b := inner[x'..end'], row[x + x'..x + end'];
    forall k | 0 <= k < end' - x'
      ensures a[k] == b[k]
    {
      assert a[k] == inner[x' + k] && b[k] == row[x + x' + k];
    }
  }

  /** A crop of a crop is the crop at the added offsets. */
  lemma {:induction false} CropsCompose(page: Page, x: int, y: int, w: int, h: int, x': int, y': int, w': int, h': int)
    requires HasShape(page.rows, page.width, page.height)
    requires 0 <= x && 0 <= y && 0 <= w && 0 <= h && x + w <= page.width && y + h <= page.height
    requires 0 <= x' && 0 <= y' && 0 <= w' && 0 <= h' && x' + w' <= w && y' + h' <= h
    ensures SubPage(SubPage(page, x, y, w, h), x', y', w', h') == SubPage(page, x + x', y + y', w', h')
  {
    var first := SubPage(page, x, y, w, h);
    var left, right := SubPage(first, x', y', w', h').rows, SubPage(page, x + x', y + y', w', h').rows;
    forall j | 0 <= j < h'
      ensures left[j] == right[j]
    {
      SliceOfSlice(page.rows[y + y' + j], x, x + w, x', x' + w');
      assert first.rows[y' + j] == page.rows[y + y' + j][x..x + w];
      assert x + (x' + w') == x + x' + w';
    }
    assert left == right;
  }
}
