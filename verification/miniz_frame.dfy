/**
 * The container format of the parallel compressor
 * (Assignment3/Miniz_Code/utility.hpp:453-605) and of its older chunked
 * variant (utility.hpp:329-445).
 *
 * A compressed file is the chunk count and the original size, each as a
 * native `size_t` (eight bytes, little-endian here), then per chunk its
 * compressed length (eight bytes) and its bytes.  The older variant puts a
 * four-byte magic number in front.  The compressor itself (miniz `compress`
 * and `uncompress`) is a pair of function parameters; chunks are opaque
 * byte sequences.
 */
module MinizFrame {
  import opened Outcomes
  import opened Records
  import opened Numerals
  import opened Blocks

  /** Bytes per chunk (Assignment3/Miniz_Code/config.hpp:9). */
  const CHUNK_SIZE: nat := 0x10_0000

  /** The tag of the older chunked files (Assignment3/Miniz_Code/config.hpp:12). */
  const CHUNKED_MAGIC: nat := 0x1A2B_3C4D

  /** `sizeof(size_t)` and `sizeof(uint32_t)`. */
  const SIZE_BYTES: nat := 8
  const MAGIC_BYTES: nat := 4

  // ---------------------------------------------------------------------
  // Native integers as bytes
  // ---------------------------------------------------------------------

  function Pow256(w: nat): (p: nat)
    ensures p >= 1
  {
    if w == 0 then 1 else 256 * Pow256(w - 1)
  }

  /** `n` written into `w` bytes, least significant first; higher bits are cut off. */
  function LE(n: nat, w: nat): (r: seq<Byte>)
    ensures |r| == w
  {
    if w == 0 then [] else [(n % 256) as Byte] + LE(n / 256, w - 1)
  }

  /** The number `w` little-endian bytes hold. */
  function FromLE(bs: seq<Byte>): (n: nat)
    ensures n < Pow256(|bs|)
  {
    if |bs| == 0 then 0 else bs[0] as nat + 256 * FromLE(bs[1..])
  }

  lemma SizeBytesSpan()
    ensures Pow256(SIZE_BYTES) == WORD && Pow256(MAGIC_BYTES) == 0x1_0000_0000
  {
  }

  /** A byte and a higher part, combined and split again. */
  lemma Split256(b: nat, high: nat)
    requires b < 256
    ensures (b + 256 * high) % 256 == b && (b + 256 * high) / 256 == high
  {
  }

  /** The low byte of `n` and the rest put `n` back together. */
  lemma Join256(n: nat)
    ensures ((n % 256) as Byte) as nat + 256 * (n / 256) == n
  {
  }

  lemma ByteOfNat(b: Byte)
    ensures (b as nat) as Byte == b
  {
  }

  /** Reading back what was written gives the number, when it fits. */
  lemma {:induction false} FromLEOfLE(n: nat, w: nat)
    requires n < Pow256(w)
    ensures FromLE(LE(n, w)) == n
    decreases w
  {
    if w > 0 {
      var bs := LE(n, w);
      assert n / 256 < Pow256(w - 1);
      FromLEOfLE(n / 256, w - 1);
      assert bs[1..] == LE(n / 256, w - 1);
      assert FromLE(bs) == bs[0] as nat + 256 * (n / 256);
      Join256(n);
    }
  }

  /** Writing back what was read gives the bytes. */
  lemma {:induction false} LEOfFromLE(bs: seq<Byte>)
    ensures LE(FromLE(bs), |bs|) == bs
    decreases |bs|
  {
    if |bs| > 0 {
      var b := bs[0] as nat;
      var high := FromLE(bs[1..]);
      var n := FromLE(bs);
      assert n == b + 256 * high;
      LEOfFromLE(bs[1..]);
      Split256(b, high);
      ByteOfNat(bs[0]);
      assert LE(n, |bs|) == [(n % 256) as Byte] + LE(n / 256, |bs| - 1);
    }
  }

  /** The first `k` bytes of a `w`-byte number are its `k`-byte truncation. */
  lemma {:induction false} LEPrefix(n: nat, k: nat, w: nat)
    requires k <= w
    ensures LE(n, w)[..k] == LE(n, k)
    decreases k
  {
    if k > 0 {
      LEPrefix(n / 256, k - 1, w - 1);
      assert LE(n, w)[..k] == [(n % 256) as Byte] + LE(n / 256, w - 1)[..k - 1];
    }
  }

  // ---------------------------------------------------------------------
  // The container
  // ---------------------------------------------------------------------

  /** Why a container cannot be read. */
  datatype FrameError = Truncated | TooShort | ChunkOutsideFile

  /** What the header and the chunk table of a container say. */
  datatype Frame = Frame(count: nat, size: nat, chunks: seq<seq<Byte>>)

  /** The chunk table: per chunk, its length as a `size_t`, then its bytes. */
  function EncodeChunks(chunks: seq<seq<Byte>>): seq<Byte>
    decreases |chunks|
  {
    if |chunks| == 0 then [] else LE(|chunks[0]|, SIZE_BYTES) + chunks[0] + EncodeChunks(chunks[1..])
  }

  /** The file `compressParallelFile` writes: chunk count, original size, chunk table. */
  function Encode(size: nat, chunks: seq<seq<Byte>>): seq<Byte> {
    LE(|chunks|, SIZE_BYTES) + LE(size, SIZE_BYTES) + EncodeChunks(chunks)
  }

  /** All the numbers a container holds fit in a `size_t`. */
  predicate Fits(size: nat, chunks: seq<seq<Byte>>) {
    size < WORD && |chunks| < WORD && forall i :: 0 <= i < |chunks| ==> |chunks[i]| < WORD
  }

  /** One entry of the chunk table, put back together. */
  lemma ChunkEntry(bs: seq<Byte>, len: nat, cs: seq<seq<Byte>>, rest: seq<Byte>)
    requires |bs| >= SIZE_BYTES + len && len == FromLE(bs[..SIZE_BYTES])
    requires EncodeChunks(cs) + rest == bs[SIZE_BYTES + len..]
    ensures EncodeChunks([bs[SIZE_BYTES..SIZE_BYTES + len]] + cs) + rest == bs
  {
    var c := bs[SIZE_BYTES..SIZE_BYTES + len];
    var all := [c] + cs;
    assert all[0] == c && all[1..] == cs;
    LEOfFromLE(bs[..SIZE_BYTES]);
    assert bs == bs[..SIZE_BYTES] + c + bs[SIZE_BYTES + len..];
  }

  /**
   * The metadata loop of `decompressParallelFile`: `n` entries of the chunk
   * table, and what follows them.  The source reads past the end of the
   * mapping when the table is cut short; here that is `Truncated`.
   */
  function ReadChunks(bs: seq<Byte>, n: nat): (r: Result<(seq<seq<Byte>>, seq<Byte>), FrameError>)
    ensures r.Ok? ==> |r.value.0| == n && EncodeChunks(r.value.0) + r.value.1 == bs
    ensures r.Err? ==> r.error == Truncated
    decreases n
  {
    if n == 0 then Ok(([], bs))
    else if |bs| < SIZE_BYTES then Err(Truncated)
    else
      var len := FromLE(bs[..SIZE_BYTES]);
      if |bs| - SIZE_BYTES < len then Err(Truncated)
      else
        match ReadChunks(bs[SIZE_BYTES + len..], n - 1)
        case Err(e) => Err(e)
        case Ok(p) =>
          ChunkEntry(bs, len, p.0, p.1);
          Ok(([bs[SIZE_BYTES..SIZE_BYTES + len]] + p.0, p.1))
  }

  /** The header and chunk table, put back together. */
  lemma HeaderEntry(bs: seq<Byte>, cs: seq<seq<Byte>>, rest: seq<Byte>)
    requires |bs| >= 2 * SIZE_BYTES && |cs| == FromLE(bs[..SIZE_BYTES])
    requires EncodeChunks(cs) + rest == bs[2 * SIZE_BYTES..]
    ensures Encode(FromLE(bs[SIZE_BYTES..2 * SIZE_BYTES]), cs) + rest == bs
  {
    LEOfFromLE(bs[..SIZE_BYTES]);
    LEOfFromLE(bs[SIZE_BYTES..2 * SIZE_BYTES]);
    assert bs == bs[..SIZE_BYTES] + bs[SIZE_BYTES..2 * SIZE_BYTES] + bs[2 * SIZE_BYTES..];
  }

  /**
   * The reading side of `decompressParallelFile`: the header, then as many
   * table entries as it announces.  Bytes after the table are ignored.
   */
  function Parse(bs: seq<Byte>): (r: Result<Frame, FrameError>)
    ensures r.Ok? ==> r.value.count == |r.value.chunks| && r.value.size < WORD
    ensures r.Ok? ==> Encode(r.value.size, r.value.chunks) <= bs
    ensures r.Err? ==> r.error == Truncated
  {
    if |bs| < 2 * SIZE_BYTES then Err(Truncated)
    else
      var n := FromLE(bs[..SIZE_BYTES]);
      var size := FromLE(bs[SIZE_BYTES..2 * SIZE_BYTES]);
      SizeBytesSpan();
      match ReadChunks(bs[2 * SIZE_BYTES..], n)
      case Err(e) => Err(e)
      case Ok(p) =>
        HeaderEntry(bs, p.0, p.1);
        Ok(Frame(n, size, p.0))
  }

  /** Reading a chunk table back gives its chunks and leaves what follows. */
  lemma {:induction false} ReadChunksEncode(cs: seq<seq<Byte>>, rest: seq<Byte>)
    requires forall i :: 0 <= i < |cs| ==> |cs[i]| < WORD
    ensures ReadChunks(EncodeChunks(cs) + rest, |cs|) == Ok((cs, rest))
    decreases |cs|
  {
    if |cs| > 0 {
      var bs := EncodeChunks(cs) + rest;
      var c := cs[0];
      var tail := EncodeChunks(cs[1..]) + rest;
      assert bs == LE(|c|, SIZE_BYTES) + c + tail;
      assert bs[..SIZE_BYTES] == LE(|c|, SIZE_BYTES);
      SizeBytesSpan();
      FromLEOfLE(|c|, SIZE_BYTES);
      assert bs[SIZE_BYTES..SIZE_BYTES + |c|] == c;
      assert bs[SIZE_BYTES + |c|..] == tail;
      ReadChunksEncode(cs[1..], rest);
      assert ReadChunks(tail, |cs| - 1) == Ok((cs[1..], rest));
      assert ReadChunks(bs, |cs|) == Ok(([c] + cs[1..], rest));
      assert [c] + cs[1..] == cs;
    } else {
      assert EncodeChunks(cs) + rest == rest;
    }
  }

  /** What `compressParallelFile` writes, `decompressParallelFile` reads back. */
  lemma ParseEncode(size: nat, chunks: seq<seq<Byte>>, rest: seq<Byte>)
    requires Fits(size, chunks)
    ensures Parse(Encode(size, chunks) + rest) == Ok(Frame(|chunks|, size, chunks))
  {
    var bs := Encode(size, chunks) + rest;
    SizeBytesSpan();
    assert bs[..SIZE_BYTES] == LE(|chunks|, SIZE_BYTES);
    assert bs[SIZE_BYTES..2 * SIZE_BYTES] == LE(size, SIZE_BYTES);
    assert bs[2 * SIZE_BYTES..] == EncodeChunks(chunks) + rest;
    FromLEOfLE(|chunks|, SIZE_BYTES);
    FromLEOfLE(size, SIZE_BYTES);
    ReadChunksEncode(chunks, rest);
  }

  /** A container shorter than its header cannot be read. */
  lemma ParseShortHeader(bs: seq<Byte>)
    requires |bs| < 2 * SIZE_BYTES
    ensures Parse(bs) == Err(Truncated)
  {
  }

  // ---------------------------------------------------------------------
  // The older chunked format and the single-stream format
  // ---------------------------------------------------------------------

  /** The file `compressDataChunked` writes: the magic number in front of the same container. */
  function EncodeChunked(size: nat, chunks: seq<seq<Byte>>): seq<Byte> {
    LE(CHUNKED_MAGIC, MAGIC_BYTES) + Encode(size, chunks)
  }

  /**
   * The header check of `decompressDataChunked`: fewer bytes than the magic
   * number and two `size_t`s is an error; the magic itself is not checked
   * again.
   */
  function ParseChunked(bs: seq<Byte>): (r: Result<Frame, FrameError>)
    ensures r.Ok? ==> |bs| >= MAGIC_BYTES + 2 * SIZE_BYTES
    ensures r.Ok? ==> Encode(r.value.size, r.value.chunks) <= bs[MAGIC_BYTES..]
    ensures r == Err(TooShort) <==> |bs| < MAGIC_BYTES + 2 * SIZE_BYTES
  {
    if |bs| < MAGIC_BYTES + 2 * SIZE_BYTES then Err(TooShort) else Parse(bs[MAGIC_BYTES..])
  }

  lemma ParseChunkedEncode(size: nat, chunks: seq<seq<Byte>>)
    requires Fits(size, chunks)
    ensures ParseChunked(EncodeChunked(size, chunks)) == Ok(Frame(|chunks|, size, chunks))
  {
    var bs := EncodeChunked(size, chunks);
    assert bs[MAGIC_BYTES..] == Encode(size, chunks) + [];
    ParseEncode(size, chunks, []);
  }

  /** The dispatch of `doParallelWork`: a file is chunked when its first four bytes are the magic number. */
  predicate IsChunked(bs: seq<Byte>) {
    |bs| >= MAGIC_BYTES && FromLE(bs[..MAGIC_BYTES]) == CHUNKED_MAGIC
  }

  /** The file `compressData` writes: the original size, then the compressed stream. */
  function EncodeSingle(data: seq<Byte>, comp: seq<Byte> -> seq<Byte>): seq<Byte> {
    LE(|data|, SIZE_BYTES) + comp(data)
  }

  /** Files of the chunked format are recognised as such. */
  lemma ChunkedIsDetected(size: nat, chunks: seq<seq<Byte>>)
    ensures IsChunked(EncodeChunked(size, chunks))
  {
    var bs := EncodeChunked(size, chunks);
    assert bs[..MAGIC_BYTES] == LE(CHUNKED_MAGIC, MAGIC_BYTES);
    SizeBytesSpan();
    FromLEOfLE(CHUNKED_MAGIC, MAGIC_BYTES);
  }

  /**
   * `doParallelWork` writes the single-stream format only for files under
   * one chunk, whose size is below the magic number, so the dispatch never
   * mistakes one for a chunked file.
   */
  lemma SingleIsNotChunked(data: seq<Byte>, comp: seq<Byte> -> seq<Byte>)
    requires |data| < CHUNK_SIZE
    ensures !IsChunked(EncodeSingle(data, comp))
  {
    var bs := EncodeSingle(data, comp);
    assert bs[..MAGIC_BYTES] == LE(|data|, SIZE_BYTES)[..MAGIC_BYTES];
    LEPrefix(|data|, MAGIC_BYTES, SIZE_BYTES);
    SizeBytesSpan();
    FromLEOfLE(|data|, MAGIC_BYTES);
  }

  // ---------------------------------------------------------------------
  // Chunks of a file
  // ---------------------------------------------------------------------

  /** The chunk count of `compressDataChunked`: `size / CHUNK_SIZE` rounded up, in `size_t` arithmetic. */
  function ChunkCount(size: nat): (n: nat)
    requires size < WORD
    ensures n == 0 || (n - 1) * CHUNK_SIZE < size
  {
    ((size + CHUNK_SIZE - 1) % WORD) / CHUNK_SIZE
  }

  /** The chunk count of `compressParallelFile` as written: `size / CHUNK_SIZE`, rounded down. */
  function ChunkCountAsWritten(size: nat): (n: nat)
    ensures n * CHUNK_SIZE <= size < n * CHUNK_SIZE + CHUNK_SIZE
  {
    size / CHUNK_SIZE
  }

  /** The rounded-up count is the least number of chunks that covers the file. */
  lemma ChunkCountCovers(size: nat)
    requires size + CHUNK_SIZE - 1 < WORD
    ensures ChunkCount(size) * CHUNK_SIZE >= size
    ensures ChunkCount(size) == 0 || (ChunkCount(size) - 1) * CHUNK_SIZE < size
  {
  }

  /** The rounded-down count leaves out the last `size % CHUNK_SIZE` bytes. */
  lemma ChunkCountAsWrittenShort(size: nat)
    requires size + CHUNK_SIZE - 1 < WORD && size % CHUNK_SIZE != 0
    ensures ChunkCountAsWritten(size) * CHUNK_SIZE < size
    ensures ChunkCountAsWritten(size) < ChunkCount(size)
  {
  }

  /** Files under one chunk get no chunk at all as written. */
  lemma SmallFileHasNoChunk(size: nat)
    requires 0 < size < CHUNK_SIZE
    ensures ChunkCountAsWritten(size) == 0 && ChunkCount(size) == 1
  {
  }

  /** Length of chunk `i`: `min(CHUNK_SIZE, size - i * CHUNK_SIZE)`. */
  function ChunkLen(size: nat, i: nat): (len: nat)
    requires i * CHUNK_SIZE <= size
    ensures len <= CHUNK_SIZE && i * CHUNK_SIZE + len <= size
  {
    Min(CHUNK_SIZE, size - i * CHUNK_SIZE)
  }

  /**
   * Chunk `i` covers `[i * CHUNK_SIZE, i * CHUNK_SIZE + ChunkLen(size, i))`,
   * and position `k` of the file lies in exactly the chunk `k / CHUNK_SIZE`:
   * the chunks are disjoint and leave no gap.
   */
  lemma ChunkOf(size: nat, i: nat, k: nat)
    requires i * CHUNK_SIZE <= size
    ensures i * CHUNK_SIZE <= k < i * CHUNK_SIZE + ChunkLen(size, i) <==> k < size && i == k / CHUNK_SIZE
  {
  }

  /** The bytes of chunk `i`. */
  function Piece(data: seq<Byte>, i: nat): (p: seq<Byte>)
    requires i * CHUNK_SIZE <= |data|
    ensures |p| == ChunkLen(|data|, i)
    ensures forall j :: 0 <= j < |p| ==> p[j] == data[i * CHUNK_SIZE + j]
  {
    data[i * CHUNK_SIZE..i * CHUNK_SIZE + ChunkLen(|data|, i)]
  }

  /** The compressed chunks `0 .. n-1`, each compressed on its own. */
  function Pieces(data: seq<Byte>, n: nat, comp: seq<Byte> -> seq<Byte>): (cs: seq<seq<Byte>>)
    requires n == 0 || (n - 1) * CHUNK_SIZE < |data|
    ensures |cs| == n
  {
    seq(n, i requires 0 <= i < n => comp(Piece(data, i)))
  }

  /**
   * `compressParallelFile`: the container of the file's chunks, with the
   * rounded-down count when `asWritten` and the rounded-up one otherwise.
   */
  function CompressFile(data: seq<Byte>, comp: seq<Byte> -> seq<Byte>, asWritten: bool): seq<Byte>
    requires |data| < WORD
  {
    var n := if asWritten then ChunkCountAsWritten(|data|) else ChunkCount(|data|);
    Encode(|data|, Pieces(data, n, comp))
  }

  // ---------------------------------------------------------------------
  // Decompression into the output file
  // ---------------------------------------------------------------------

  /** At most `cap` bytes: `uncompress` stops at the end of the buffer it is given. */
  function Take(u: seq<Byte>, cap: nat): (r: seq<Byte>)
    ensures |r| <= cap && r <= u
    ensures |u| <= cap ==> r == u
  {
    if |u| <= cap then u else u[..cap]
  }

  /** `bytes` written over `out` at offset `off`. */
  function Place(out: seq<Byte>, off: nat, bytes: seq<Byte>): (r: seq<Byte>)
    requires off + |bytes| <= |out|
    ensures |r| == |out|
    ensures forall k :: 0 <= k < |out| ==> r[k] == if off <= k < off + |bytes| then bytes[k - off] else out[k]
  {
    out[..off] + bytes + out[off + |bytes|..]
  }

  /**
   * What position `k` of the output holds once every chunk has been
   * decompressed: the matching byte of its chunk, or the zero the output
   * file was created with when that chunk came out short.
   */
  function Written(size: nat, us: seq<seq<Byte>>, k: nat): Byte
    requires k < size
  {
    var i := k / CHUNK_SIZE;
    var j := k - i * CHUNK_SIZE;
    if i < |us| && j < |Take(us[i], ChunkLen(size, i))| then us[i][j] else 0
  }

  /** One position of `Fill`, for the chunk added last. */
  lemma FillAt(size: nat, us: seq<seq<Byte>>, k: nat, before: Byte, now: Byte)
    requires |us| > 0 && (|us| - 1) * CHUNK_SIZE <= size && k < size
    requires before == Written(size, us[..|us| - 1], k)
    requires var i := |us| - 1;
             var t := Take(us[i], ChunkLen(size, i));
             now == if i * CHUNK_SIZE <= k < i * CHUNK_SIZE + |t| then t[k - i * CHUNK_SIZE] else before
    ensures now == Written(size, us, k)
  {
    var i := |us| - 1;
    ChunkOf(size, i, k);
  }

  /**
   * The output file after the decompression tasks: created as `size` zero
   * bytes, then chunk `i`, cut to `ChunkLen(size, i)`, written at
   * `i * CHUNK_SIZE`.  The chunks do not overlap, so the order of the
   * tasks does not matter: every position holds `Written`.
   */
  function Fill(size: nat, us: seq<seq<Byte>>): (r: seq<Byte>)
    requires |us| == 0 || (|us| - 1) * CHUNK_SIZE <= size
    ensures |r| == size
    ensures forall k :: 0 <= k < size ==> r[k] == Written(size, us, k)
    decreases |us|
  {
    if |us| == 0 then Zeros(size)
    else
      var i := |us| - 1;
      var prev := Fill(size, us[..i]);
      var t := Take(us[i], ChunkLen(size, i));
      var r := Place(prev, i * CHUNK_SIZE, t);
      assert forall k :: 0 <= k < size ==> r[k] == Written(size, us, k) by {
        forall k | 0 <= k < size
          ensures r[k] == Written(size, us, k)
        {
          FillAt(size, us, k, prev[k], r[k]);
        }
      }
      r
  }

  /** Every chunk of a container, decompressed. */
  function Uncompressed(chunks: seq<seq<Byte>>, uncomp: seq<Byte> -> seq<Byte>): (us: seq<seq<Byte>>)
    ensures |us| == |chunks|
  {
    seq(|chunks|, i requires 0 <= i < |chunks| => uncomp(chunks[i]))
  }

  /**
   * `decompressParallelFile`: read the container, then decompress every
   * chunk into its place in the output.  A chunk that would start past the
   * end of the output (the source writes outside the mapping there) is
   * `ChunkOutsideFile`.
   */
  function DecompressFile(file: seq<Byte>, uncomp: seq<Byte> -> seq<Byte>): (r: Result<seq<Byte>, FrameError>)
    ensures r.Ok? ==> |file| >= 2 * SIZE_BYTES && |r.value| == FromLE(file[SIZE_BYTES..2 * SIZE_BYTES])
    ensures r.Err? ==> r.error != TooShort
  {
    match Parse(file)
    case Err(e) => Err(e)
    case Ok(f) =>
      if f.count > 0 && (f.count - 1) * CHUNK_SIZE > f.size then Err(ChunkOutsideFile)
      else Ok(Fill(f.size, Uncompressed(f.chunks, uncomp)))
  }

  /** A compressor followed by its decompressor gives back what it was given. */
  ghost predicate Inverse(comp: seq<Byte> -> seq<Byte>, uncomp: seq<Byte> -> seq<Byte>) {
    forall x :: uncomp(comp(x)) == x
  }

  /** Compressed output fits the `size_t` length field. */
  ghost predicate Bounded(comp: seq<Byte> -> seq<Byte>) {
    forall x :: |comp(x)| < WORD
  }

  /** The lengths of compressed chunks fit in the table. */
  lemma PiecesFit(data: seq<Byte>, n: nat, comp: seq<Byte> -> seq<Byte>)
    requires |data| < WORD && n < WORD && (n == 0 || (n - 1) * CHUNK_SIZE < |data|)
    requires Bounded(comp)
    ensures Fits(|data|, Pieces(data, n, comp))
  {
    var cs := Pieces(data, n, comp);
    forall i | 0 <= i < n
      ensures |cs[i]| < WORD
    {
      assert cs[i] == comp(Piece(data, i));
    }
  }

  /** Decompressing each compressed chunk gives the chunk. */
  lemma PiecesBack(data: seq<Byte>, n: nat, comp: seq<Byte> -> seq<Byte>, uncomp: seq<Byte> -> seq<Byte>)
    requires n == 0 || (n - 1) * CHUNK_SIZE < |data|
    requires Inverse(comp, uncomp)
    ensures forall i :: 0 <= i < n ==> Uncompressed(Pieces(data, n, comp), uncomp)[i] == Piece(data, i)
  {
    var us := Uncompressed(Pieces(data, n, comp), uncomp);
    forall i | 0 <= i < n
      ensures us[i] == Piece(data, i)
    {
      assert us[i] == uncomp(comp(Piece(data, i)));
    }
  }

  /** One position of the output, when chunk `i` holds the file's `i`-th piece for every `i < n`. */
  lemma WrittenPiece(data: seq<Byte>, us: seq<seq<Byte>>, k: nat)
    requires k < |data| && (forall i :: 0 <= i < |us| ==> i * CHUNK_SIZE <= |data| && us[i] == Piece(data, i))
    ensures Written(|data|, us, k) == if k < |us| * CHUNK_SIZE then data[k] else 0
  {
    var i := k / CHUNK_SIZE;
    ChunkOf(|data|, i, k);
    if i < |us| {
      assert Take(us[i], ChunkLen(|data|, i)) == us[i];
    }
  }

  /** The output when the first `|us|` chunks hold the file's pieces. */
  lemma FillPieces(data: seq<Byte>, us: seq<seq<Byte>>)
    requires |us| == 0 || (|us| - 1) * CHUNK_SIZE < |data|
    requires forall i :: 0 <= i < |us| ==> i * CHUNK_SIZE <= |data| && us[i] == Piece(data, i)
    ensures forall k :: 0 <= k < |data| ==> Fill(|data|, us)[k] == if k < |us| * CHUNK_SIZE then data[k] else 0
  {
    forall k | 0 <= k < |data|
      ensures Fill(|data|, us)[k] == if k < |us| * CHUNK_SIZE then data[k] else 0
    {
      WrittenPiece(data, us, k);
    }
  }

  /** Decompressing a container of the first `n` chunks rebuilds those chunks and zeros after them. */
  lemma DecompressPieces(data: seq<Byte>, n: nat, comp: seq<Byte> -> seq<Byte>, uncomp: seq<Byte> -> seq<Byte>)
    requires |data| < WORD && n < WORD && (n == 0 || (n - 1) * CHUNK_SIZE < |data|)
    requires Inverse(comp, uncomp) && Bounded(comp)
    ensures var out := DecompressFile(Encode(|data|, Pieces(data, n, comp)), uncomp);
            out.Ok? && |out.value| == |data|
            && forall k :: 0 <= k < |data| ==> out.value[k] == if k < n * CHUNK_SIZE then data[k] else 0
  {
    var cs := Pieces(data, n, comp);
    PiecesFit(data, n, comp);
    ParseEncode(|data|, cs, []);
    assert Encode(|data|, cs) + [] == Encode(|data|, cs);
    var us := Uncompressed(cs, uncomp);
    PiecesBack(data, n, comp, uncomp);
    assert forall i :: 0 <= i < |us| ==> i * CHUNK_SIZE <= |data|;
    FillPieces(data, us);
    assert DecompressFile(Encode(|data|, cs), uncomp) == Ok(Fill(|data|, us));
  }

  /** With the rounded-up count, decompressing a compressed file gives the file back. */
  lemma FileRoundTrip(data: seq<Byte>, comp: seq<Byte> -> seq<Byte>, uncomp: seq<Byte> -> seq<Byte>)
    requires |data| + CHUNK_SIZE - 1 < WORD
    requires Inverse(comp, uncomp) && Bounded(comp)
    ensures DecompressFile(CompressFile(data, comp, false), uncomp) == Ok(data)
  {
    var n := ChunkCount(|data|);
    ChunkCountCovers(|data|);
    DecompressPieces(data, n, comp, uncomp);
    assert CompressFile(data, comp, false) == Encode(|data|, Pieces(data, n, comp));
    var out := DecompressFile(CompressFile(data, comp, false), uncomp).value;
    assert out == data;
  }

  /**
   * As written, decompressing a compressed file gives back only its whole
   * chunks; the last `size % CHUNK_SIZE` bytes come back as zeros.
   */
  lemma AsWrittenDropsTail(data: seq<Byte>, comp: seq<Byte> -> seq<Byte>, uncomp: seq<Byte> -> seq<Byte>)
    requires |data| < WORD
    requires Inverse(comp, uncomp) && Bounded(comp)
    ensures var m := ChunkCountAsWritten(|data|) * CHUNK_SIZE;
            DecompressFile(CompressFile(data, comp, true), uncomp) == Ok(data[..m] + Zeros(|data| - m))
  {
    var n := ChunkCountAsWritten(|data|);
    var m := n * CHUNK_SIZE;
    DecompressPieces(data, n, comp, uncomp);
    var out := DecompressFile(CompressFile(data, comp, true), uncomp).value;
    assert out == data[..m] + Zeros(|data| - m);
  }

  /** A one-byte file comes back as a single zero byte. */
  lemma SmallFileZeroed(comp: seq<Byte> -> seq<Byte>, uncomp: seq<Byte> -> seq<Byte>)
    requires Inverse(comp, uncomp) && Bounded(comp)
    ensures DecompressFile(CompressFile([0x41], comp, true), uncomp) == Ok([0])
  {
    AsWrittenDropsTail([0x41], comp, uncomp);
    assert ChunkCountAsWritten(1) == 0;
    assert [0x41][..0] + Zeros(1) == [0];
  }
}
