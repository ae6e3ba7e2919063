/** Zlib streams of stored blocks: section 2.2 of RFC 1950 and section 3.2.4 of RFC 1951. */
module StoredDeflate {
  import opened Arithmetic
  import opened Bits
  import opened Bytes

  const STORED_BLOCK_MAX := 65535
  const HEADER: seq<Byte> := [0x78, 0x01]

  /** One stored block: its final flag, LEN, NLEN and bytes. */
  function Block(final: bool, data: seq<Byte>): seq<Byte>
    requires |data| <= STORED_BLOCK_MAX
  {
    [if final then 1 else 0] + Little(|data|) + Little(STORED_BLOCK_MAX - |data|) + data
  }

  /** Section 3.2.4 of RFC 1951, byte by byte: a first byte of one for the final block and zero for any
      other, the length and its complement with the less significant byte first, and the data. */
  lemma BlockIs(final: bool, data: seq<Byte>)
    requires |data| <= STORED_BLOCK_MAX
    ensures var s := Block(final, data);
            var a: int, b: int, c: int, d: int := s[1], s[2], s[3], s[4];
            && |s| == 5 + |data| && s[5..] == data && (final ==> s[0] == 1) && (!final ==> s[0] == 0)
            && a + 256 * b == |data| && a + c == 255 && b + d == 255
  {
    LittleIs(|data|);
    LittleIs(STORED_BLOCK_MAX - |data|);
  }

  /** As many full blocks as the data needs, the last one final. */
  function Blocks(data: seq<Byte>): seq<Byte>
    decreases |data|
  {
    if |data| <= STORED_BLOCK_MAX then Block(true, data)
    else Block(false, data[..STORED_BLOCK_MAX]) + Blocks(data[STORED_BLOCK_MAX..])
  }

  function Stored(adler: seq<Byte> -> Word, data: seq<Byte>): seq<Byte> {
    HEADER + Blocks(data) + Big(adler(data))
  }

  /** LEN's complement, as the source computes it. */
  lemma Complement(n: nat)
    requires n <= STORED_BLOCK_MAX
    ensures Xor(n, 0xFFFF) == STORED_BLOCK_MAX - n
  {
    assert Pow2(16) == 0x1_0000 by {
      assert Pow2(8) == 256;
    }
    XorOnes(n, 16);
  }

  /** The blocks of what is left, one block further on. */
  lemma BlocksStep(data: seq<Byte>, offset: nat, block: seq<Byte>, final: bool)
    requires offset < |data| && block == data[offset..Min(offset + STORED_BLOCK_MAX, |data|)]
    requires final == (offset + STORED_BLOCK_MAX >= |data|)
    ensures |block| <= STORED_BLOCK_MAX
    ensures Blocks(data[offset..])
              == Block(final, block) + (if final then [] else Blocks(data[offset + STORED_BLOCK_MAX..]))
  {
    var rest := data[offset..];
    if final {
      assert block == rest;
    } else {
      assert block == rest[..STORED_BLOCK_MAX] && rest[STORED_BLOCK_MAX..] == data[offset + STORED_BLOCK_MAX..];
    }
  }

  lemma EmptyBlock(data: seq<Byte>)
    requires |data| == 0
    ensures Blocks(data) == [0x01, 0x00, 0x00, 0xff, 0xff]
  {
  }

  method AppendBlock(out: seq<Byte>, final: bool, block: seq<Byte>) returns (longer: seq<Byte>)
    requires |block| <= STORED_BLOCK_MAX
    ensures longer == out + Block(final, block)
  {
    var nlen := Xor(|block|, 0xFFFF);
    Complement(|block|);
    var framed := [if final then 1 else 0] + Little(|block|) + Little(nlen) + block;
    longer := out + framed;
  }

  method DeterministicStoredDeflate(adler: seq<Byte> -> Word, data: seq<Byte>) returns (out: seq<Byte>)
    ensures out == Stored(adler, data)
  {
    out := HEADER;
    if |data| == 0 {
      out := out + [0x01, 0x00, 0x00, 0xff, 0xff];
      EmptyBlock(data);
    } else {
      var offset := 0;
      while offset < |data|
        invariant 0 <= offset
        invariant out + (if offset < |data| then Blocks(data[offset..]) else []) == HEADER + Blocks(data)
        decreases |data| - offset
      {
        var block := data[offset..Min(offset + STORED_BLOCK_MAX, |data|)];
        var final := offset + STORED_BLOCK_MAX >= |data|;
        BlocksStep(data, offset, block, final);
        Regroup(out, Block(final, block), if final then [] else Blocks(data[offset + STORED_BLOCK_MAX..]));
        out := AppendBlock(out, final, block);
        offset := offset + STORED_BLOCK_MAX;
      }
    }
    out := out + Big(adler(data));
  }

  // --- reading them back ----------------------------------------------------------------------------

  /** What a decompressor says of a stream: an error, not all of it, or its data and the bytes
      after its end. */
  datatype Stream = Broken | Unfinished(soFar: seq<Byte>) | Whole(data: seq<Byte>, rest: seq<Byte>)

  function Prepend(data: seq<Byte>, s: Stream): Stream {
    match s
    case Broken => Broken
    case Unfinished(soFar) => Unfinished(data + soFar)
    case Whole(more, rest) => Whole(data + more, rest)
  }

  /** Reading stored blocks up to the first final one. The flag's five high bits are padding. */
  function ReadBlocks(s: seq<Byte>): Stream
    decreases |s|
  {
    if |s| < 5 then Unfinished([])
    else if s[0] / 2 % 4 != 0 then Broken
    else
      var n := FromLittle(s[1..3]);
      if FromLittle(s[3..5]) != STORED_BLOCK_MAX - n then Broken
      else if |s| < 5 + n then Unfinished(s[5..])
      else if s[0] % 2 == 1 then Whole(s[5..5 + n], s[5 + n..])
      else Prepend(s[5..5 + n], ReadBlocks(s[5 + n..]))
  }

  /** A stream of stored blocks under the one header the encoder writes, with its checksum. */
  function ReadStored(adler: seq<Byte> -> Word, s: seq<Byte>): Stream {
    if |s| < 2 || s[..2] != HEADER then Broken
    else
      match ReadBlocks(s[2..])
      case Broken => Broken
      case Unfinished(soFar) => Unfinished(soFar)
      case Whole(data, rest) =>
        if |rest| < 4 then Unfinished(data)
        else if FromBig(rest[..4]) != adler(data) then Broken
        else Whole(data, rest[4..])
  }

  lemma {:induction false} ReadOneBlock(final: bool, data: seq<Byte>, more: seq<Byte>)
    requires |data| <= STORED_BLOCK_MAX
    ensures ReadBlocks(Block(final, data) + more)
              == if final then Whole(data, more) else Prepend(data, ReadBlocks(more))
  {
    var n := |data|;
    var s := Block(final, data) + more;
    LittleRoundTrip(n);
    LittleRoundTrip(STORED_BLOCK_MAX - n);
    assert s[1..3] == Little(n) && s[3..5] == Little(STORED_BLOCK_MAX - n);
    assert s[5..5 + n] == data && s[5 + n..] == more;
  }

  /** The first final block is the last one: reading up to it consumes every block. */
  lemma {:induction false} BlocksReadBack(data: seq<Byte>, more: seq<Byte>)
    ensures ReadBlocks(Blocks(data) + more) == Whole(data, more)
    decreases |data|
  {
    if |data| <= STORED_BLOCK_MAX {
      ReadOneBlock(true, data, more);
    } else {
      var first, rest := data[..STORED_BLOCK_MAX], data[STORED_BLOCK_MAX..];
      BlocksReadBack(rest, more);
      ReadOneBlock(false, first, Blocks(rest) + more);
      Regroup(Block(false, first), Blocks(rest), more);
      assert data == first + rest;
    }
  }

  lemma AfterHeader(s: seq<Byte>)
    ensures (HEADER + s)[..2] == HEADER && (HEADER + s)[2..] == s
  {
  }

  lemma Regroup(a: seq<Byte>, b: seq<Byte>, c: seq<Byte>)
    ensures a + b + c == a + (b + c)
  {
  }

  /** At every length the stream inflates to its input and ends where its bytes end. */
  lemma {:induction false} StoredReadsBack(adler: seq<Byte> -> Word, data: seq<Byte>)
    ensures ReadStored(adler, Stored(adler, data)) == Whole(data, [])
  {
    var trailer := Big(adler(data));
    BlocksReadBack(data, trailer);
    BigRoundTrip(adler(data));
    Regroup(HEADER, Blocks(data), trailer);
    AfterHeader(Blocks(data) + trailer);
    assert trailer[..4] == trailer && trailer[4..] == [];
  }

  /** One block for every begun stretch of the maximum length, and one for nothing. */
  function BlockCount(n: nat): nat {
    if n == 0 then 1 else (n + STORED_BLOCK_MAX - 1) / STORED_BLOCK_MAX
  }

  /** Five bytes of framing for each begun 65,535 bytes, and six for the stream. */
  lemma {:induction false} BlocksLength(data: seq<Byte>)
    ensures |Blocks(data)| == |data| + 5 * BlockCount(|data|)
    decreases |data|
  {
    if |data| > STORED_BLOCK_MAX {
      BlocksLength(data[STORED_BLOCK_MAX..]);
    }
  }

  lemma StoredLength(adler: seq<Byte> -> Word, data: seq<Byte>)
    ensures |Stored(adler, data)| <= |data| + 11 + 5 * (|data| / STORED_BLOCK_MAX)
  {
    BlocksLength(data);
  }
}
