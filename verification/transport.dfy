/**
 * The chunked record stream of the MPI engine
 * (Assignment4/MergeSort_Code/mergesort_mpi.cpp).
 *
 * A process that hands records to another sends a count (tag 0) and then,
 * chunk by chunk, the chunk length (tag 1), the chunk's keys (tag 2) and the
 * chunk's payload bytes packed back to back (tag 3).  The master scatters the
 * input this way, and a process leaving the merge tree sends its sorted data
 * to its parent this way.  MPI delivers the messages of one sender to one
 * receiver in the order they were sent (the non-overtaking rule of section
 * 3.5 of the MPI standard, version 3.1), so a channel is a sequence of
 * messages here.
 *
 * The chunk limit (CHUNK_SIZE) is a parameter: the master raises it from
 * 5'000'000 to 10'000'000 for small payloads while the other processes keep
 * the default.
 */
module Transport {
  import opened Outcomes
  import opened Records
  import opened Blocks
  import opened Bits

  /** One message of the stream; the constructor is its tag. */
  datatype Msg = Count(n: nat) | ChunkLen(c: nat) | Keys(keys: seq<nat>) | Payloads(bytes: seq<Byte>)

  /** Why a receiver cannot rebuild records from a stream. */
  datatype StreamError = Truncated | WrongTag | LengthMismatch

  function KeysOf(c: seq<Record>): (r: seq<nat>)
    ensures |r| == |c| && forall i :: 0 <= i < |c| ==> r[i] == c[i].key
  {
    seq(|c|, i requires 0 <= i < |c| => c[i].key)
  }

  /** The payloads of a chunk, packed back to back (record `j` at offset `j * plen`). */
  function PackPayloads(c: seq<Record>): seq<Byte>
    decreases |c|
  {
    if |c| == 0 then [] else c[0].payload + PackPayloads(c[1..])
  }

  /** The receiver's reconstruction: record `i` gets key `i` and payload bytes `[i * plen, (i + 1) * plen)`. */
  function Unpack(keys: seq<nat>, bytes: seq<Byte>, plen: nat): seq<Record>
    requires |bytes| == |keys| * plen
    decreases |keys|
  {
    if |keys| == 0 then []
    else [Record(keys[0], bytes[..plen])] + Unpack(keys[1..], bytes[plen..], plen)
  }

  lemma {:induction false} PackedLength(c: seq<Record>, plen: nat)
    requires AllHavePayload(c, plen)
    ensures |PackPayloads(c)| == |c| * plen
    decreases |c|
  {
    if |c| > 0 {
      PackedLength(c[1..], plen);
    }
  }

  /** Unpacking the keys and packed payloads of a chunk gives the chunk back. */
  lemma {:induction false} UnpackPack(c: seq<Record>, plen: nat)
    requires AllHavePayload(c, plen)
    ensures |PackPayloads(c)| == |KeysOf(c)| * plen
    ensures Unpack(KeysOf(c), PackPayloads(c), plen) == c
    decreases |c|
  {
    PackedLength(c, plen);
    if |c| > 0 {
      var bytes := PackPayloads(c);
      assert bytes == c[0].payload + PackPayloads(c[1..]);
      assert bytes[..plen] == c[0].payload && bytes[plen..] == PackPayloads(c[1..]);
      assert KeysOf(c)[1..] == KeysOf(c[1..]);
      UnpackPack(c[1..], plen);
      assert c == [c[0]] + c[1..];
    }
  }

  /** The three messages that carry one chunk. */
  function ChunkMsgs(c: seq<Record>): seq<Msg> {
    [ChunkLen(|c|), Keys(KeysOf(c)), Payloads(PackPayloads(c))]
  }

  /** The chunks of `data` from index `sent` on: each `min(chunk, remaining)` records long. */
  function Chunks(data: seq<Record>, chunk: nat, sent: nat): seq<seq<Record>>
    requires chunk >= 1
    decreases |data| - sent
  {
    if sent >= |data| then []
    else
      var c := Min(chunk, |data| - sent);
      [data[sent..sent + c]] + Chunks(data, chunk, sent + c)
  }

  function Flatten(cs: seq<seq<Record>>): seq<Record>
    decreases |cs|
  {
    if |cs| == 0 then [] else cs[0] + Flatten(cs[1..])
  }

  /** The sending loop from record `sent` on, reading `data[sent + j]` for the `j`-th record of a chunk. */
  function SendFrom(data: seq<Record>, chunk: nat, sent: nat): seq<Msg>
    requires chunk >= 1
    decreases |data| - sent
  {
    if sent >= |data| then []
    else
      var c := Min(chunk, |data| - sent);
      ChunkMsgs(data[sent..sent + c]) + SendFrom(data, chunk, sent + c)
  }

  /** The whole stream for `data`: its count, then its chunks. */
  function SendRecords(data: seq<Record>, chunk: nat): seq<Msg>
    requires chunk >= 1
  {
    [Count(|data|)] + SendFrom(data, chunk, 0)
  }

  /**
   * The receiving loop: while fewer than `n` records have arrived, take a
   * chunk length, that many keys and that many payloads.  It returns the
   * chunks received and the rest of the channel.
   */
  function RecvChunks(msgs: seq<Msg>, n: nat, received: nat, plen: nat): Result<(seq<seq<Record>>, seq<Msg>), StreamError>
    decreases |msgs|
  {
    if received >= n then Ok(([], msgs))
    else if |msgs| < 3 then Err(Truncated)
    else if !msgs[0].ChunkLen? || !msgs[1].Keys? || !msgs[2].Payloads? then Err(WrongTag)
    else
      var c, ks, bs := msgs[0].c, msgs[1].keys, msgs[2].bytes;
      if |ks| != c || |bs| != c * plen then Err(LengthMismatch)
      else
        match RecvChunks(msgs[3..], n, received + c, plen)
        case Err(e) => Err(e)
        case Ok(rest) => Ok(([Unpack(ks, bs, plen)] + rest.0, rest.1))
  }

  /** Receive a whole stream: the count, then chunks until that many records have arrived. */
  function RecvRecords(msgs: seq<Msg>, plen: nat): Result<(seq<seq<Record>>, seq<Msg>), StreamError> {
    if |msgs| == 0 then Err(Truncated)
    else if !msgs[0].Count? then Err(WrongTag)
    else RecvChunks(msgs[1..], msgs[0].n, 0, plen)
  }

  /** One chunk's three messages are received as that chunk, when records are still expected. */
  lemma RecvChunkStep(piece: seq<Record>, tail: seq<Msg>, n: nat, received: nat, plen: nat)
    requires received < n && AllHavePayload(piece, plen)
    ensures RecvChunks(ChunkMsgs(piece) + tail, n, received, plen)
         == match RecvChunks(tail, n, received + |piece|, plen)
            case Err(e) => Err(e)
            case Ok(rest) => Ok(([piece] + rest.0, rest.1))
  {
    var msgs := ChunkMsgs(piece) + tail;
    UnpackPack(piece, plen);
    assert msgs[0] == ChunkLen(|piece|) && msgs[1] == Keys(KeysOf(piece)) && msgs[2] == Payloads(PackPayloads(piece));
    assert msgs[3..] == tail;
  }

  /** A slice of an array whose records all carry `plen` payload bytes carries them too. */
  lemma SlicePayload(data: seq<Record>, lo: nat, hi: nat, plen: nat)
    requires lo <= hi <= |data| && AllHavePayload(data, plen)
    ensures AllHavePayload(data[lo..hi], plen)
  {
    var piece := data[lo..hi];
    forall i | 0 <= i < |piece| ensures |piece[i].payload| == plen {
      assert piece[i] == data[lo + i];
    }
  }

  /** The messages that carry a list of chunks, one chunk after another. */
  function Frame(pcs: seq<seq<Record>>): seq<Msg>
    decreases |pcs|
  {
    if |pcs| == 0 then [] else ChunkMsgs(pcs[0]) + Frame(pcs[1..])
  }

  /**
   * A receiver that has `received` of `n` records takes every chunk of `pcs`
   * and stops right after the last: it still expects records before each
   * chunk and has them all after the last one.
   */
  predicate Fits(pcs: seq<seq<Record>>, received: nat, n: nat)
    decreases |pcs|
  {
    if |pcs| == 0 then received >= n else received < n && Fits(pcs[1..], received + |pcs[0]|, n)
  }

  /** Chunks the receiver expects come back as sent, and the channel continues after them. */
  lemma {:induction false} RecvFrame(pcs: seq<seq<Record>>, rest: seq<Msg>, n: nat, received: nat, plen: nat)
    requires Fits(pcs, received, n)
    requires forall j :: 0 <= j < |pcs| ==> AllHavePayload(pcs[j], plen)
    ensures RecvChunks(Frame(pcs) + rest, n, received, plen) == Ok((pcs, rest))
    decreases |pcs|
  {
    if |pcs| > 0 {
      var tail := Frame(pcs[1..]) + rest;
      assert Frame(pcs) + rest == ChunkMsgs(pcs[0]) + tail;
      RecvFrame(pcs[1..], rest, n, received + |pcs[0]|, plen);
      RecvChunkStep(pcs[0], tail, n, received, plen);
      assert [pcs[0]] + pcs[1..] == pcs;
    } else {
      assert Frame(pcs) + rest == rest;
    }
  }

  /** The sending loop frames exactly the chunks of the data, and the receiver expects each of them. */
  lemma {:induction false} SendFromFrame(data: seq<Record>, chunk: nat, sent: nat)
    requires chunk >= 1 && sent <= |data|
    ensures SendFrom(data, chunk, sent) == Frame(Chunks(data, chunk, sent))
    ensures Fits(Chunks(data, chunk, sent), sent, |data|)
    decreases |data| - sent
  {
    if sent < |data| {
      var c := Min(chunk, |data| - sent);
      SendFromFrame(data, chunk, sent + c);
      var cs := Chunks(data, chunk, sent);
      assert cs[0] == data[sent..sent + c] && cs[1..] == Chunks(data, chunk, sent + c);
    }
  }

  /** Every chunk of an array whose records carry `plen` payload bytes carries them too. */
  lemma {:induction false} ChunksPayload(data: seq<Record>, chunk: nat, sent: nat, plen: nat)
    requires chunk >= 1 && sent <= |data| && AllHavePayload(data, plen)
    ensures forall j :: 0 <= j < |Chunks(data, chunk, sent)| ==> AllHavePayload(Chunks(data, chunk, sent)[j], plen)
    decreases |data| - sent
  {
    if sent < |data| {
      var c := Min(chunk, |data| - sent);
      ChunksPayload(data, chunk, sent + c, plen);
      SlicePayload(data, sent, sent + c, plen);
      var cs, tail := Chunks(data, chunk, sent), Chunks(data, chunk, sent + c);
      forall j | 0 <= j < |cs| ensures AllHavePayload(cs[j], plen) {
        if j > 0 {
          assert cs[j] == tail[j - 1];
        }
      }
    }
  }

  /** The chunks receive back as sent, and the channel continues after them. */
  lemma RecvSendFrom(data: seq<Record>, chunk: nat, sent: nat, plen: nat, rest: seq<Msg>)
    requires chunk >= 1 && sent <= |data| && AllHavePayload(data, plen)
    ensures RecvChunks(SendFrom(data, chunk, sent) + rest, |data|, sent, plen) == Ok((Chunks(data, chunk, sent), rest))
  {
    SendFromFrame(data, chunk, sent);
    ChunksPayload(data, chunk, sent, plen);
    RecvFrame(Chunks(data, chunk, sent), rest, |data|, sent, plen);
  }

  /**
   * Round trip: receiving the stream of `data` yields its chunks, whose
   * concatenation is `data`, and leaves the rest of the channel untouched.
   */
  lemma RecvSend(data: seq<Record>, chunk: nat, plen: nat, rest: seq<Msg>)
    requires chunk >= 1 && AllHavePayload(data, plen)
    ensures RecvRecords(SendRecords(data, chunk) + rest, plen) == Ok((Chunks(data, chunk, 0), rest))
    ensures Flatten(Chunks(data, chunk, 0)) == data
  {
    var msgs := SendRecords(data, chunk) + rest;
    assert msgs[1..] == SendFrom(data, chunk, 0) + rest;
    RecvSendFrom(data, chunk, 0, plen, rest);
    ChunksFlatten(data, chunk, 0);
  }

  /** The chunks from `sent` on concatenate to the rest of the data. */
  lemma {:induction false} ChunksFlatten(data: seq<Record>, chunk: nat, sent: nat)
    requires chunk >= 1 && sent <= |data|
    ensures Flatten(Chunks(data, chunk, sent)) == data[sent..]
    decreases |data| - sent
  {
    if sent < |data| {
      var c := Min(chunk, |data| - sent);
      ChunksFlatten(data, chunk, sent + c);
      assert data[sent..] == data[sent..sent + c] + data[sent + c..];
    }
  }

  /** There are `ceil(remaining / chunk)` chunks, none for an empty array. */
  lemma {:induction false} ChunkCount(data: seq<Record>, chunk: nat, sent: nat)
    requires chunk >= 1 && sent <= |data|
    ensures |Chunks(data, chunk, sent)| == (|data| - sent + chunk - 1) / chunk
    decreases |data| - sent
  {
    if sent < |data| {
      var c := Min(chunk, |data| - sent);
      ChunkCount(data, chunk, sent + c);
      if c == chunk {
        DivStep(|data| - sent, chunk);
      } else {
        DivOne(|data| - sent, chunk);
      }
    }
  }

  /**
   * Every chunk carries at least one and at most `chunk` records, and every
   * chunk but the last exactly `chunk`.
   */
  lemma {:induction false} ChunkSizes(data: seq<Record>, chunk: nat, sent: nat)
    requires chunk >= 1 && sent <= |data|
    ensures forall i :: 0 <= i < |Chunks(data, chunk, sent)| ==> 1 <= |Chunks(data, chunk, sent)[i]| <= chunk
    ensures forall i :: 0 <= i < |Chunks(data, chunk, sent)| - 1 ==> |Chunks(data, chunk, sent)[i]| == chunk
    decreases |data| - sent
  {
    if sent < |data| {
      var c := Min(chunk, |data| - sent);
      ChunkSizes(data, chunk, sent + c);
      var cs, tail := Chunks(data, chunk, sent), Chunks(data, chunk, sent + c);
      assert cs == [data[sent..sent + c]] + tail;
      assert c < chunk ==> |tail| == 0;
      forall i | 0 <= i < |cs|
        ensures 1 <= |cs[i]| <= chunk && (i < |cs| - 1 ==> |cs[i]| == chunk)
      {
        if i == 0 {
          assert cs[0] == data[sent..sent + c];
        } else {
          assert cs[i] == tail[i - 1];
        }
      }
    }
  }

  lemma DivStep(m: nat, c: nat)
    requires 1 <= c <= m
    ensures (m + c - 1) / c == 1 + (m - c + c - 1) / c
  {
    var q, r := (m - 1) / c, (m - 1) % c;
    assert c * (q + 1) == c * q + c;
    ModUnique(m + c - 1, c, q + 1, r);
  }

  lemma DivOne(m: nat, c: nat)
    requires 1 <= m < c
    ensures (m + c - 1) / c == 1
  {
  }

  // ---------------------------------------------------------------------
  // The sender of the merge phase, as written and corrected
  // ---------------------------------------------------------------------

  /**
   * The merge-phase sender as written (mergesort_mpi.cpp:539-556): the
   * `j`-th record of every chunk is read from `local_data[j]`, not from
   * `local_data[number_sent + j]`, so every chunk repeats the array's prefix.
   */
  function SendFromAsWritten(data: seq<Record>, chunk: nat, sent: nat): seq<Msg>
    requires chunk >= 1
    decreases |data| - sent
  {
    if sent >= |data| then []
    else
      var c := Min(chunk, |data| - sent);
      ChunkMsgs(data[0..c]) + SendFromAsWritten(data, chunk, sent + c)
  }

  function SendRecordsAsWritten(data: seq<Record>, chunk: nat): seq<Msg>
    requires chunk >= 1
  {
    [Count(|data|)] + SendFromAsWritten(data, chunk, 0)
  }

  /** Up to one chunk's worth of records the sender as written is correct. */
  lemma AsWrittenSingleChunk(data: seq<Record>, chunk: nat)
    requires 1 <= chunk && |data| <= chunk
    ensures SendRecordsAsWritten(data, chunk) == SendRecords(data, chunk)
  {
    if |data| > 0 {
      assert SendFromAsWritten(data, chunk, |data|) == SendFrom(data, chunk, |data|) == [];
    }
  }

  predicate IsPrefix(x: seq<Record>, data: seq<Record>) {
    |x| <= |data| && x == data[..|x|]
  }

  /** The chunks the sender as written puts on the channel: each is the array's prefix of the length due. */
  function AsWrittenChunks(data: seq<Record>, chunk: nat, sent: nat): seq<seq<Record>>
    requires chunk >= 1
    decreases |data| - sent
  {
    if sent >= |data| then []
    else
      var c := Min(chunk, |data| - sent);
      [data[0..c]] + AsWrittenChunks(data, chunk, sent + c)
  }

  /** The sender as written frames prefixes of the array, as many as the receiver expects. */
  lemma {:induction false} AsWrittenFrame(data: seq<Record>, chunk: nat, sent: nat)
    requires chunk >= 1 && sent <= |data|
    ensures SendFromAsWritten(data, chunk, sent) == Frame(AsWrittenChunks(data, chunk, sent))
    ensures Fits(AsWrittenChunks(data, chunk, sent), sent, |data|)
    ensures forall j :: 0 <= j < |AsWrittenChunks(data, chunk, sent)| ==> IsPrefix(AsWrittenChunks(data, chunk, sent)[j], data)
    decreases |data| - sent
  {
    if sent < |data| {
      var c := Min(chunk, |data| - sent);
      AsWrittenFrame(data, chunk, sent + c);
      var cs, tail := AsWrittenChunks(data, chunk, sent), AsWrittenChunks(data, chunk, sent + c);
      assert cs[0] == data[0..c] && cs[1..] == tail;
      forall j | 0 <= j < |cs| ensures IsPrefix(cs[j], data) {
        if j > 0 {
          assert cs[j] == tail[j - 1];
        }
      }
    }
  }

  /**
   * What the receiver rebuilds from the sender as written: it accepts the
   * stream, but every chunk it gets is a prefix of the array.
   */
  lemma AsWrittenRepeatsPrefix(data: seq<Record>, chunk: nat, plen: nat)
    requires chunk >= 1 && AllHavePayload(data, plen)
    ensures RecvRecords(SendRecordsAsWritten(data, chunk), plen) == Ok((AsWrittenChunks(data, chunk, 0), []))
    ensures forall j :: 0 <= j < |AsWrittenChunks(data, chunk, 0)| ==> IsPrefix(AsWrittenChunks(data, chunk, 0)[j], data)
  {
    var cs := AsWrittenChunks(data, chunk, 0);
    AsWrittenFrame(data, chunk, 0);
    forall j | 0 <= j < |cs| ensures AllHavePayload(cs[j], plen) {
      SlicePayload(data, 0, |cs[j]|, plen);
    }
    RecvFrame(cs, [], |data|, 0, plen);
    var msgs := SendRecordsAsWritten(data, chunk);
    assert msgs[1..] == Frame(cs) + [];
  }

  /**
   * A two-record array sent in chunks of one: the receiver gets the first
   * record twice and never sees the second.
   */
  lemma AsWrittenLosesRecords()
    ensures var data := [Record(1, []), Record(2, [])];
            RecvRecords(SendRecordsAsWritten(data, 1), 0)
              == Ok(([[Record(1, [])], [Record(1, [])]], []))
  {
    var data := [Record(1, []), Record(2, [])];
    var first := [Record(1, [])];
    assert data[0..1] == first;
    assert AllHavePayload(first, 0);
    var m2 := SendFromAsWritten(data, 1, 2);
    assert m2 == [];
    var m1 := SendFromAsWritten(data, 1, 1);
    assert m1 == ChunkMsgs(first) + m2;
    var m0 := SendFromAsWritten(data, 1, 0);
    assert m0 == ChunkMsgs(first) + m1;
    var none: seq<seq<Record>> := [];
    assert RecvChunks(m2, 2, 2, 0) == Ok((none, m2));
    RecvChunkStep(first, m2, 2, 1, 0);
    assert [first] + none == [first];
    assert RecvChunks(m1, 2, 1, 0) == Ok(([first], m2));
    RecvChunkStep(first, m1, 2, 0, 0);
    assert [first] + [first] == [first, first];
    assert RecvChunks(m0, 2, 0, 0) == Ok(([first, first], m2));
    var msgs := SendRecordsAsWritten(data, 1);
    assert msgs[0] == Count(2) && msgs[1..] == m0;
  }

  // ---------------------------------------------------------------------
  // The scatter of the first phase
  // ---------------------------------------------------------------------

  /**
   * The master's scatter (mergesort_mpi.cpp:312-357): process `r` of `size`
   * gets block `r` of the input, `counts[r]` records starting at
   * `displs[r]`.  Entry `r - 1` is the stream sent to rank `r`.
   */
  function Scatter(data: seq<Record>, size: nat, chunk: nat): (r: seq<seq<Msg>>)
    requires size >= 1 && chunk >= 1
  {
    seq(size - 1, r requires 0 <= r < size - 1 =>
      BlockRange(|data|, size, r + 1, r + 2);
      SendRecords(data[BlockStart(|data|, size, r + 1)..BlockStart(|data|, size, r + 2)], chunk))
  }

  /** Every worker rebuilds exactly its block of the input from the master's stream. */
  lemma ScatterDelivers(data: seq<Record>, size: nat, chunk: nat, plen: nat, r: nat)
    requires size >= 1 && chunk >= 1 && AllHavePayload(data, plen) && 1 <= r < size
    ensures BlockStart(|data|, size, r) <= BlockStart(|data|, size, r + 1) <= |data|
    ensures var got := RecvRecords(Scatter(data, size, chunk)[r - 1], plen);
            got.Ok? && Flatten(got.value.0) == data[BlockStart(|data|, size, r)..BlockStart(|data|, size, r + 1)]
            && |Flatten(got.value.0)| == BlockLen(|data|, size, r)
  {
    BlockRange(|data|, size, r, r + 1);
    var block := data[BlockStart(|data|, size, r)..BlockStart(|data|, size, r + 1)];
    assert AllHavePayload(block, plen) by {
      forall i | 0 <= i < |block| ensures |block[i].payload| == plen {
        assert block[i] == data[BlockStart(|data|, size, r) + i];
      }
    }
    RecvSend(block, chunk, plen, []);
    assert SendRecords(block, chunk) + [] == SendRecords(block, chunk);
  }
}
