/** The block codec of include/modules/phy_pcs.hpp: seven bytes a block under a marker bit, the
    payload followed by its checksum, most significant byte first, and zero padding. */
module Pcs {
  import opened Words
  import Crc32
  import CrcTheory
  import opened Codewords

  const BYTES_PER_BLOCK: nat := 7

  function BlockCount(length: nat): nat
  {
    (length + 4 + BYTES_PER_BLOCK - 1) / BYTES_PER_BLOCK
  }

  /** So many blocks of seven bytes hold a payload and its checksum, and one less do not. */
  predicate JustHolds(count: nat, length: nat)
  {
    7 * (count - 1) < length + 4 <= 7 * count
  }

  lemma LeastCount(length: nat)
    ensures JustHolds(BlockCount(length), length)
    ensures forall count: nat :: JustHolds(count, length) ==> count == BlockCount(length)
  {
  }

  /** The marker bit followed by the bytes: with seven bytes, bit 56 and the 56 bits below it. */
  function BlockOf(bytes: seq<byte>): (block: nat)
    ensures 1 <= block
  {
    if bytes == [] then 1 else BlockOf(bytes[..|bytes| - 1]) * 256 + bytes[|bytes| - 1]
  }

  function PaddedByte(s: seq<byte>, index: nat): byte
  {
    if index < |s| then s[index] else 0
  }

  /** The n bytes that a block starting at `start` carries. */
  function Chunk(s: seq<byte>, start: nat, n: nat): (chunk: seq<byte>)
    ensures |chunk| == n
    decreases n
  {
    if n == 0 then [] else Chunk(s, start, n - 1) + [PaddedByte(s, start + n - 1)]
  }

  ghost predicate IsEncoding(blocks: seq<nat>, payload: seq<byte>)
  {
    && |blocks| == BlockCount(|payload|)
    && forall k :: 0 <= k < |blocks| ==> blocks[k] == BlockOf(Chunk(Codeword(payload), BYTES_PER_BLOCK * k, BYTES_PER_BLOCK))
  }

  /** Or-ing the next byte in below the ones already there. */
  lemma BlockStep(bytes: seq<byte>, value: byte, k: nat)
    ensures Or(Shl(BlockOf(bytes), 8 + k), Shl(value, k)) == Shl(BlockOf(bytes + [value]), k)
  {
    assert (bytes + [value])[..|bytes|] == bytes;
    assert Pow2(8) == 256;
    ShlAdd(BlockOf(bytes), 8, k);
    OrShl(Shl(BlockOf(bytes), 8), value, k);
    OrBelow(BlockOf(bytes), value, 8);
    ShlByte(BlockOf(bytes));
  }

  lemma PackStep(s: seq<byte>, start: nat, j: nat)
    requires j < 7
    ensures Or(Shl(BlockOf(Chunk(s, start, j)), (7 - j) * 8), Shl(PaddedByte(s, start + j), (6 - j) * 8))
         == Shl(BlockOf(Chunk(s, start, j + 1)), (6 - j) * 8)
  {
    var low := (6 - j) * 8;
    BlockStep(Chunk(s, start, j), PaddedByte(s, start + j), low);
    assert (7 - j) * 8 == 8 + low;
  }

  /** The byte the encoder places at `index`. */
  function EncodedByte(payload: seq<byte>, crc: nat, index: nat): byte
  {
    var length := |payload|;
    if index < length then payload[index]
    else if index == length then Shr(crc, 24) % 256
    else if index == length + 1 then Shr(crc, 16) % 256
    else if index == length + 2 then Shr(crc, 8) % 256
    else if index == length + 3 then Shr(crc, 0) % 256
    else 0
  }

  lemma EncodedByteIsPadded(payload: seq<byte>, crc: nat, index: nat)
    requires crc == Crc32.Crc(payload)
    ensures EncodedByte(payload, crc, index) == PaddedByte(Codeword(payload), index)
  {
    if |payload| <= index < |payload| + 4 {
      PutAt(crc, 4, index - |payload|);
    }
  }

  /** The inner loop of the encoder: one block of the padded `word`. */
  method PackBlock(payload: seq<byte>, crc: nat, start: nat, ghost word: seq<byte>) returns (block: nat)
    requires forall index: nat :: EncodedByte(payload, crc, index) == PaddedByte(word, index)
    ensures block == BlockOf(Chunk(word, start, BYTES_PER_BLOCK))
  {
    block := Shl(1, 56);
    for j := 0 to BYTES_PER_BLOCK
      invariant block == Shl(BlockOf(Chunk(word, start, j)), (7 - j) * 8)
    {
      var value := EncodedByte(payload, crc, start + j);
      PackStep(word, start, j);
      block := Or(block, Shl(value, (6 - j) * 8));
    }
  }

  /** The number of blocks written, or 0 if they do not fit. */
  method Encode(payload: seq<byte>, blocks: array<nat>) returns (count: nat)
    modifies blocks
    ensures count == if blocks.Length == 0 || blocks.Length < BlockCount(|payload|) then 0 else BlockCount(|payload|)
    ensures count == 0 <==> 7 * blocks.Length < |payload| + 4
    ensures count > 0 ==> JustHolds(count, |payload|) && IsEncoding(blocks[..count], payload)
    ensures blocks[count..] == old(blocks[count..])
  {
    if blocks.Length == 0 {
      return 0;
    }
    var total := |payload| + 4;
    count := (total + BYTES_PER_BLOCK - 1) / BYTES_PER_BLOCK;
    if count > blocks.Length {
      return 0;
    }
    var crc := Crc32.Compute(payload);
    Crc32.CrcIsUnique(crc, Crc32.Crc(payload), payload);
    ghost var word := Codeword(payload);
    forall index: nat ensures EncodedByte(payload, crc, index) == PaddedByte(word, index) {
      EncodedByteIsPadded(payload, crc, index);
    }
    for blockIndex := 0 to count
      invariant forall k :: 0 <= k < blockIndex ==> blocks[k] == BlockOf(Chunk(word, BYTES_PER_BLOCK * k, BYTES_PER_BLOCK))
      invariant blocks[count..] == old(blocks[count..])
    {
      blocks[blockIndex] := PackBlock(payload, crc, BYTES_PER_BLOCK * blockIndex, word);
    }
  }

  // ---- decoding ----

  datatype PcsResult = PcsResult(blockLock: bool, crcValid: bool, payloadLength: nat)

  predicate Marked(block: nat)
  {
    Shr(block, 56) == 1
  }

  function BlockBytes(block: nat): (bytes: seq<byte>)
    ensures |bytes| == BYTES_PER_BLOCK
  {
    seq<byte>(BYTES_PER_BLOCK, j requires 0 <= j < BYTES_PER_BLOCK => Shr(block, (6 - j) * 8) % 256)
  }

  /** The bytes of the marked blocks; the others are skipped. */
  function Unpack(blocks: seq<nat>): seq<byte>
  {
    if blocks == [] then []
    else
      var last := blocks[|blocks| - 1];
      Unpack(blocks[..|blocks| - 1]) + if Marked(last) then BlockBytes(last) else []
  }

  function PayloadLength(written: nat, expected: nat): nat
  {
    if expected != 0 then expected else if 4 <= written then written - 4 else 0
  }

  /** What decoding into a buffer of `capacity` bytes reports. */
  ghost function Decoded(blocks: seq<nat>, capacity: nat, expected: nat): PcsResult
  {
    var bytes := Unpack(blocks);
    var written := Min(capacity, |bytes|);
    var length := PayloadLength(written, expected);
    if blocks != [] && length + 4 <= written then
      PcsResult(true, Crc32.IsCrc(BigEndian(bytes[length..length + 4]), bytes[..length]), length)
    else
      PcsResult(blocks != [], false, 0)
  }

  lemma {:induction false} UnpackPrefix(blocks: seq<nat>, i: nat)
    requires i <= |blocks|
    ensures Unpack(blocks[..i]) <= Unpack(blocks)
    decreases |blocks| - i
  {
    if i == |blocks| {
      assert blocks[..i] == blocks;
    } else {
      UnpackPrefix(blocks, i + 1);
      assert blocks[..i + 1][..i] == blocks[..i];
    }
  }

  /** The inner loop of the decoder: the bytes of one block, while there is room. */
  method ExtractBlock(block: nat, payload: array<byte>, start: nat) returns (written: nat)
    requires start <= payload.Length
    modifies payload
    ensures written == Min(payload.Length, start + BYTES_PER_BLOCK)
    ensures payload[start..written] == BlockBytes(block)[..written - start]
    ensures forall k :: 0 <= k < payload.Length && !(start <= k < written) ==> payload[k] == old(payload[k])
  {
    written := start;
    var byteIndex := 6;
    while 0 <= byteIndex && written < payload.Length
      invariant -1 <= byteIndex <= 6
      invariant written == start + 6 - byteIndex <= payload.Length
      invariant forall k :: start <= k < written ==> payload[k] == BlockBytes(block)[k - start]
      invariant forall k :: 0 <= k < payload.Length && !(start <= k < written) ==> payload[k] == old(payload[k])
    {
      payload[written] := Shr(block, byteIndex * 8) % 256;
      assert byteIndex == 6 - (written - start);
      written := written + 1;
      byteIndex := byteIndex - 1;
    }
  }

  /** One more block, unpacked after those before it. */
  lemma UnpackStep(blocks: seq<nat>, i: nat)
    requires i < |blocks|
    ensures Unpack(blocks[..i + 1]) == Unpack(blocks[..i]) + if Marked(blocks[i]) then BlockBytes(blocks[i]) else []
  {
    assert blocks[..i + 1][..i] == blocks[..i];
  }

  lemma SamePrefix<T>(a: seq<T>, b: seq<T>, n: nat, lo: nat, hi: nat)
    requires lo <= hi <= n <= |a| && n <= |b| && a[..n] == b[..n]
    ensures a[lo..hi] == b[lo..hi]
  {
    forall i | lo <= i < hi ensures a[i] == b[i] {
      assert a[i] == a[..n][i] && b[i] == b[..n][i];
    }
  }

  /** `payload` starts with what the decoder has written after the first i blocks. */
  ghost predicate Extracted(payload: seq<byte>, blocks: seq<nat>, i: nat, written: nat)
    requires i <= |blocks|
  {
    var bytes := Unpack(blocks[..i]);
    written == Min(|payload|, |bytes|) && payload[..written] == bytes[..written]
  }

  lemma AppendPrefix<T>(whole: seq<T>, part: seq<T>, more: seq<T>, end: nat)
    requires |part| <= end <= |whole| && end <= |part| + |more|
    requires whole[..|part|] == part && whole[|part|..end] == more[..end - |part|]
    ensures whole[..end] == (part + more)[..end]
  {
    assert whole[..end] == whole[..|part|] + whole[|part|..end];
  }

  lemma ExtractedStep(before: seq<byte>, after: seq<byte>, blocks: seq<nat>, i: nat, start: nat, end: nat)
    requires i < |blocks| && |before| == |after| && start < |before|
    requires Extracted(before, blocks, i, start)
    requires if Marked(blocks[i])
      then end == Min(|after|, start + BYTES_PER_BLOCK) && after[..start] == before[..start]
        && after[start..end] == BlockBytes(blocks[i])[..end - start]
      else end == start && after == before
    ensures Extracted(after, blocks, i + 1, end)
  {
    UnpackStep(blocks, i);
    if Marked(blocks[i]) {
      AppendPrefix(after, Unpack(blocks[..i]), BlockBytes(blocks[i]), end);
    }
  }

  lemma ExtractedAll(payload: seq<byte>, blocks: seq<nat>, i: nat, written: nat)
    requires i <= |blocks| && Extracted(payload, blocks, i, written)
    requires i == |blocks| || |payload| <= written
    ensures Extracted(payload, blocks, |blocks|, written)
  {
    UnpackPrefix(blocks, i);
    assert blocks[..|blocks|] == blocks;
  }

  /** Takes the bytes of the marked blocks, up to the capacity; returns how many were written. */
  method Extract(blocks: seq<nat>, payload: array<byte>) returns (written: nat)
    modifies payload
    ensures Extracted(payload[..], blocks, |blocks|, written)
    ensures forall k :: written <= k < payload.Length ==> payload[k] == old(payload[k])
  {
    written := 0;
    var i := 0;
    while i < |blocks| && written < payload.Length
      invariant i <= |blocks|
      invariant Extracted(payload[..], blocks, i, written)
      invariant forall k :: written <= k < payload.Length ==> payload[k] == old(payload[k])
    {
      ghost var before, start := payload[..], written;
      if Shr(blocks[i], 56) == 1 {
        written := ExtractBlock(blocks[i], payload, written);
      }
      ExtractedStep(before, payload[..], blocks, i, start, written);
      i := i + 1;
    }
    ExtractedAll(payload[..], blocks, i, written);
  }

  /** Comparing the computed and the stored checksum decides whether the stored one is right. */
  lemma ChecksumDecides(payload: seq<byte>, blocks: seq<nat>, expected: nat, written: nat, crc: nat)
    requires blocks != [] && Extracted(payload, blocks, |blocks|, written)
    requires PayloadLength(written, expected) + 4 <= written
    requires Crc32.IsCrc(crc, payload[..PayloadLength(written, expected)])
    ensures var n := PayloadLength(written, expected);
            Decoded(blocks, |payload|, expected) == PcsResult(true, crc == U32be(payload[n..n + 4]), n)
  {
    var n := PayloadLength(written, expected);
    var bytes := Unpack(blocks);
    assert blocks[..|blocks|] == blocks;
    SamePrefix(payload, bytes, written, 0, n);
    SamePrefix(payload, bytes, written, n, n + 4);
    var stored := BigEndian(bytes[n..n + 4]);
    if Crc32.IsCrc(stored, bytes[..n]) {
      Crc32.CrcIsUnique(stored, crc, bytes[..n]);
    }
  }

  lemma NoChecksum(payload: seq<byte>, blocks: seq<nat>, expected: nat, written: nat)
    requires blocks != [] && Extracted(payload, blocks, |blocks|, written)
    requires written < PayloadLength(written, expected) + 4
    ensures Decoded(blocks, |payload|, expected) == PcsResult(true, false, 0)
  {
    assert blocks[..|blocks|] == blocks;
  }

  method Decode(blocks: seq<nat>, payload: array<byte>, expected: nat) returns (result: PcsResult)
    modifies payload
    ensures result == Decoded(blocks, payload.Length, expected)
    ensures Extracted(payload[..], blocks, |blocks|, Min(payload.Length, |Unpack(blocks)|))
    ensures forall k :: Min(payload.Length, |Unpack(blocks)|) <= k < payload.Length ==> payload[k] == old(payload[k])
  {
    if |blocks| == 0 {
      return PcsResult(false, false, 0);
    }
    assert blocks[..|blocks|] == blocks;
    var written := Extract(blocks, payload);
    var length := if expected == 0 then (if written >= 4 then written - 4 else 0) else expected;
    if length + 4 <= written && length <= payload.Length {
      var stored := U32be(payload[length..length + 4]);
      var crc := Crc32.Compute(payload[..length]);
      ChecksumDecides(payload[..], blocks, expected, written, crc);
      result := PcsResult(true, crc == stored, length);
    } else {
      NoChecksum(payload[..], blocks, expected, written);
      result := PcsResult(true, false, 0);
    }
  }

  // ---- round trips ----

  lemma {:induction false} BlockShr(s: seq<byte>, k: nat)
    requires k <= |s|
    ensures Shr(BlockOf(s), k * 8) == BlockOf(s[..|s| - k])
    decreases k
  {
    if k == 0 {
      assert s[..|s|] == s;
    } else {
      var front := s[..|s| - 1];
      BlockShr(front, k - 1);
      ShrByte(BlockOf(s), (k - 1) * 8);
      assert BlockOf(s) / 256 == BlockOf(front);
      assert front[..|front| - (k - 1)] == s[..|s| - k];
    }
  }

  /** Unpacking a packed block gives its bytes back, under the marker. */
  lemma BlockRoundTrip(s: seq<byte>)
    requires |s| == BYTES_PER_BLOCK
    ensures Marked(BlockOf(s)) && BlockBytes(BlockOf(s)) == s
    ensures Shr(BlockOf(s), 56) == 1 && forall j :: 0 <= j < 7 ==> Shr(BlockOf(s), 48 - 8 * j) % 256 == s[j]
  {
    BlockShr(s, 7);
    assert s[..0] == [];
    forall j | 0 <= j < BYTES_PER_BLOCK ensures Shr(BlockOf(s), (6 - j) * 8) % 256 == s[j] {
      BlockShr(s, 6 - j);
      assert s[..|s| - (6 - j)] == s[..j + 1];
      BlockLow(s[..j + 1]);
    }
  }

  lemma {:induction false} ChunkAt(s: seq<byte>, start: nat, n: nat, j: nat)
    requires j < n
    ensures Chunk(s, start, n)[j] == PaddedByte(s, start + j)
    decreases n
  {
    if j < n - 1 {
      ChunkAt(s, start, n - 1, j);
    }
  }

  /** Read seven bytes a block from the top, encoded blocks are the marker, the payload, its checksum with the most
      significant byte first, and zeros. */
  lemma EncodedBytes(blocks: seq<nat>, payload: seq<byte>, k: nat, j: nat)
    requires IsEncoding(blocks, payload) && k < |blocks| && j < 7
    ensures Shr(blocks[k], 56) == 1
    ensures var at, n := 7 * k + j, |payload|;
      Shr(blocks[k], 48 - 8 * j) % 256
        == if at < n then payload[at] else if at < n + 4 then PutBytes(Crc32.Crc(payload), 4)[at - n] else 0
  {
    hide BlockOf, Chunk, Shr;
    var chunk := Chunk(Codeword(payload), BYTES_PER_BLOCK * k, BYTES_PER_BLOCK);
    BlockRoundTrip(chunk);
    ChunkAt(Codeword(payload), BYTES_PER_BLOCK * k, BYTES_PER_BLOCK, j);
  }

  lemma BlockLow(s: seq<byte>)
    requires s != []
    ensures BlockOf(s) % 256 == s[|s| - 1]
  {
  }

  /** The marked blocks of a run of blocks, in order. */
  function MarkedOf(blocks: seq<nat>): seq<nat>
  {
    if blocks == [] then []
    else
      var last := blocks[|blocks| - 1];
      MarkedOf(blocks[..|blocks| - 1]) + if Marked(last) then [last] else []
  }

  lemma {:induction false} AllMarked(blocks: seq<nat>)
    requires forall k :: 0 <= k < |blocks| ==> Marked(blocks[k])
    ensures MarkedOf(blocks) == blocks
  {
    if blocks != [] {
      AllMarked(blocks[..|blocks| - 1]);
    }
  }

  /** An encoder only writes marked blocks. */
  lemma EncodedIsMarked(blocks: seq<nat>, payload: seq<byte>)
    requires IsEncoding(blocks, payload)
    ensures MarkedOf(blocks) == blocks
  {
    var word := Codeword(payload);
    forall k | 0 <= k < |blocks| ensures Marked(blocks[k]) {
      BlockRoundTrip(Chunk(word, BYTES_PER_BLOCK * k, BYTES_PER_BLOCK));
    }
    AllMarked(blocks);
  }

  lemma {:induction false} UnpackMarked(blocks: seq<nat>)
    ensures Unpack(MarkedOf(blocks)) == Unpack(blocks)
  {
    if blocks != [] {
      var n := |blocks| - 1;
      UnpackMarked(blocks[..n]);
      if Marked(blocks[n]) {
        var kept := MarkedOf(blocks);
        assert kept[..|kept| - 1] == MarkedOf(blocks[..n]);
      } else {
        assert MarkedOf(blocks) == MarkedOf(blocks[..n]);
      }
    }
  }

  /** `bytes` begins, and where it is longer continues with zeros, like `s`. */
  ghost predicate IsPadded(bytes: seq<byte>, s: seq<byte>)
  {
    forall i :: 0 <= i < |bytes| ==> bytes[i] == PaddedByte(s, i)
  }

  lemma {:induction false} PaddedStep(before: seq<byte>, s: seq<byte>, n: nat)
    requires IsPadded(before, s)
    ensures IsPadded(before + Chunk(s, |before|, n), s)
    decreases n
  {
    if n == 0 {
      assert before + Chunk(s, |before|, n) == before;
    } else {
      PaddedStep(before, s, n - 1);
      assert before + Chunk(s, |before|, n) == before + Chunk(s, |before|, n - 1) + [PaddedByte(s, |before| + n - 1)];
    }
  }

  lemma {:induction false} UnpackEncoded(blocks: seq<nat>, s: seq<byte>, n: nat)
    requires n <= |blocks|
    requires forall k :: 0 <= k < n ==> blocks[k] == BlockOf(Chunk(s, BYTES_PER_BLOCK * k, BYTES_PER_BLOCK))
    ensures |Unpack(blocks[..n])| == BYTES_PER_BLOCK * n
    ensures IsPadded(Unpack(blocks[..n]), s)
    decreases n
  {
    if n > 0 {
      var m := n - 1;
      UnpackEncoded(blocks, s, m);
      UnpackStep(blocks, m);
      BlockRoundTrip(Chunk(s, BYTES_PER_BLOCK * m, BYTES_PER_BLOCK));
      PaddedStep(Unpack(blocks[..m]), s, BYTES_PER_BLOCK);
    }
  }

  lemma PaddedPrefix(bytes: seq<byte>, s: seq<byte>)
    requires IsPadded(bytes, s) && |s| <= |bytes|
    ensures bytes[..|s|] == s
  {
  }

  /** What the decoder unpacks begins with the codeword, whatever unmarked blocks lie between. */
  lemma CodewordUnpacked(blocks: seq<nat>, payload: seq<byte>)
    requires IsEncoding(MarkedOf(blocks), payload)
    ensures |Unpack(blocks)| == BlockCount(|payload|) * BYTES_PER_BLOCK
    ensures |payload| + 4 <= |Unpack(blocks)|
    ensures Unpack(blocks)[..|payload| + 4] == Codeword(payload)
  {
    var kept, word := MarkedOf(blocks), Codeword(payload);
    UnpackEncoded(kept, word, |kept|);
    assert kept[..|kept|] == kept;
    UnpackMarked(blocks);
    PaddedPrefix(Unpack(blocks), word);
  }

  /** The stored checksum bytes read back as the checksum. */
  lemma StoredChecksum(crc: nat)
    requires crc <= Crc32.ALL_ONES
    ensures BigEndian(PutBytes(crc, 4)) == crc
  {
    ByteWidths();
    PutGet(crc, 4);
  }

  /** Reading a received payload and its stored checksum apart. */
  lemma ReceivedParts(bytes: seq<byte>, payload: seq<byte>, crc: nat)
    requires crc <= Crc32.ALL_ONES && |payload| + 4 <= |bytes|
    requires bytes[..|payload| + 4] == payload + PutBytes(crc, 4)
    ensures bytes[..|payload|] == payload
    ensures BigEndian(bytes[|payload|..|payload| + 4]) == crc
  {
    var n, received := |payload|, payload + PutBytes(crc, 4);
    SamePrefix(bytes, received, n + 4, 0, n);
    SamePrefix(bytes, received, n + 4, n, n + 4);
    assert received[0..n] == payload && received[n..n + 4] == PutBytes(crc, 4);
    StoredChecksum(crc);
  }

  /** Decoding what was encoded, with its length: lock, a valid checksum, the length, and the bytes.
      Blocks without the marker may be inserted anywhere. */
  lemma RoundTrip(blocks: seq<nat>, payload: seq<byte>, capacity: nat)
    requires IsEncoding(MarkedOf(blocks), payload)
    requires 1 <= |payload| && |payload| + 4 <= capacity
    ensures Decoded(blocks, capacity, |payload|) == PcsResult(true, true, |payload|)
    ensures |payload| <= |Unpack(blocks)| && Unpack(blocks)[..|payload|] == payload
  {
    CodewordUnpacked(blocks, payload);
    DecodedReceived(blocks, capacity, payload, Crc32.Crc(payload));
    ReceivedParts(Unpack(blocks), payload, Crc32.Crc(payload));
  }

  /** The decoder's buffer then starts with the payload. */
  lemma DecodedBytes(buffer: seq<byte>, blocks: seq<nat>, payload: seq<byte>)
    requires IsEncoding(MarkedOf(blocks), payload) && |payload| + 4 <= |buffer|
    requires Extracted(buffer, blocks, |blocks|, Min(|buffer|, |Unpack(blocks)|))
    ensures buffer[..|payload|] == payload
  {
    var n, bytes := |payload|, Unpack(blocks);
    CodewordUnpacked(blocks, payload);
    assert blocks[..|blocks|] == blocks;
    SamePrefix(buffer, bytes, Min(|buffer|, |bytes|), 0, n);
    SamePrefix(bytes, Codeword(payload), n + 4, 0, n);
    assert Codeword(payload)[0..n] == payload;
  }

  lemma FillsIff(length: nat, capacity: nat)
    requires length + 4 <= capacity
    ensures Min(BYTES_PER_BLOCK * BlockCount(length), capacity) == length + 4
      <==> (length + 4) % 7 == 0 || capacity == length + 4
  {
  }

  /** Without the length, the decoder finds it exactly when payload and checksum fill their blocks or the
      capacity. */
  lemma InferredLength(blocks: seq<nat>, payload: seq<byte>, capacity: nat)
    requires IsEncoding(MarkedOf(blocks), payload)
    requires 1 <= |payload| && |payload| + 4 <= capacity
    ensures Decoded(blocks, capacity, 0).payloadLength == |payload|
        <==> (|payload| + 4) % 7 == 0 || capacity == |payload| + 4
    ensures (|payload| + 4) % 7 == 0 || capacity == |payload| + 4
        ==> Decoded(blocks, capacity, 0) == PcsResult(true, true, |payload|)
  {
    hide IsEncoding, Unpack, Codeword, BlockCount, Crc32.IsCrc, PutBytes, BigEndian;
    FillsIff(|payload|, capacity);
    CodewordUnpacked(blocks, payload);
    ReceivedCodeword(Unpack(blocks), payload);
    HasBlocks(blocks, payload);
  }

  lemma HasBlocks(blocks: seq<nat>, payload: seq<byte>)
    requires IsEncoding(MarkedOf(blocks), payload)
    ensures blocks != []
  {
  }

  lemma ReceivedCodeword(bytes: seq<byte>, payload: seq<byte>)
    requires |payload| + 4 <= |bytes| && bytes[..|payload| + 4] == Codeword(payload)
    ensures Crc32.IsCrc(BigEndian(bytes[|payload|..|payload| + 4]), bytes[..|payload|])
  {
    ReceivedParts(bytes, payload, Crc32.Crc(payload));
  }

  /** The decoder reports a valid checksum exactly for codewords of the length given, or of all the bytes that it has
      if none is, and a length only where payload and checksum have arrived. */
  lemma ValidIff(blocks: seq<nat>, capacity: nat, expected: nat)
    ensures var r := Decoded(blocks, capacity, expected);
      var received := Unpack(blocks)[..Min(capacity, |Unpack(blocks)|)];
      var length := if expected == 0 then |received| - 4 else expected;
      && (r.blockLock <==> blocks != [])
      && r.payloadLength == (if blocks != [] && 0 <= length <= |received| - 4 then length else 0)
      && (r.crcValid <==> blocks != [] && exists payload :: |payload| == length && Codeword(payload) <= received)
  {
    hide Unpack, Crc32.IsCrc, Codeword, BigEndian;
    var bytes := Unpack(blocks);
    var received := bytes[..Min(capacity, |bytes|)];
    var length := if expected == 0 then |received| - 4 else expected;
    if 0 <= length <= |received| - 4 {
      assert bytes[..length] == received[..length] && bytes[length..length + 4] == received[length..length + 4];
      assert received[..length + 4][length..] == received[length..length + 4];
      assert received[..length + 4][..length] == received[..length];
      CodewordIff(received[..length], received[..length + 4]);
      forall payload | |payload| == length && Codeword(payload) <= received ensures payload == received[..length] {
        CodewordFront(payload);
      }
    }
  }

  lemma CodewordFront(payload: seq<byte>)
    ensures Codeword(payload)[..|payload|] == payload
  {
  }

  /** A word is the codeword of its front exactly when its last four bytes are the checksum of that. */
  lemma CodewordIff(payload: seq<byte>, word: seq<byte>)
    requires |word| == |payload| + 4 && word[..|payload|] == payload
    ensures word == Codeword(payload) <==> Crc32.IsCrc(BigEndian(word[|payload|..]), payload)
  {
    hide Crc32.Register, Crc32.WordPoly;
    var stored := word[|payload|..];
    assert word == payload + stored;
    StoredBack(payload);
    assert word == Codeword(payload) <==> stored == PutBytes(Crc32.Crc(payload), 4);
    GetPut(stored);
    StoredChecksum(Crc32.Crc(payload));
    if Crc32.IsCrc(BigEndian(stored), payload) {
      Crc32.CrcIsUnique(BigEndian(stored), Crc32.Crc(payload), payload);
    }
  }

  /** What the decoder makes of any received payload followed by a checksum. */
  lemma DecodedReceived(blocks: seq<nat>, capacity: nat, received: seq<byte>, crc: nat)
    requires crc <= Crc32.ALL_ONES
    requires |received| + 4 <= capacity && |received| + 4 <= |Unpack(blocks)| && 1 <= |received|
    requires Unpack(blocks)[..|received| + 4] == received + PutBytes(crc, 4)
    ensures Decoded(blocks, capacity, |received|) == PcsResult(true, Crc32.IsCrc(crc, received), |received|)
  {
    hide BigEndian, PutBytes, Crc32.IsCrc;
    ReceivedParts(Unpack(blocks), received, crc);
  }

  /** If the codeword on the wire is altered inside four consecutive bytes, in the payload, in the
      checksum or across both, the decoder reports an invalid checksum, except for one alteration. */
  lemma AlterationDetected(blocks: seq<nat>, capacity: nat, payload: seq<byte>, word: seq<byte>, i: nat)
    requires |word| == |payload| + 4 && word != Codeword(payload)
    requires forall k :: 0 <= k < |word| && word[k] != Codeword(payload)[k] ==> i <= k < i + 4
    requires 1 <= |payload| && |word| <= capacity && |word| <= |Unpack(blocks)| && Unpack(blocks)[..|word|] == word
    ensures var r := Decoded(blocks, capacity, |payload|);
      && r.blockLock && r.payloadLength == |payload|
      && (r.crcValid
          <==> 2 <= |payload| && word == CrcTheory.XorBytes(Codeword(payload), MissedDifference(|word|)))
  {
    hide Codeword, CrcTheory.XorBytes, MissedDifference, Crc32.IsCrc;
    CodewordAltered(payload, word, i);
    var n := |payload|;
    BigEndianBound(word[n..]);
    ByteWidths();
    GetPut(word[n..]);
    assert word == word[..n] + PutBytes(BigEndian(word[n..]), 4);
    DecodedReceived(blocks, capacity, word[..n], BigEndian(word[n..]));
  }
}
