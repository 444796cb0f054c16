/**
 * The record type of the sorting engine (Assignment4/MergeSort_Code/config.hpp).
 *
 * A record is a key plus a payload of `plen` bytes (RPAYLOAD, 32 by default
 * and settable from the command line, hence a parameter here).  The sorting
 * layers treat records as values; the second half of this module justifies
 * that by modelling the C++ object with its heap-allocated payload buffer and
 * proving that every constructor and assignment operator copies or transfers
 * the value and never lets two live objects share a buffer.
 */
module Records {
  import opened Outcomes

  type Byte = bv8

  /** Payload length used when no `-r` option is given (RPAYLOAD). */
  const DEFAULT_RPAYLOAD: nat := 32

  /** Ranges of at most this many records are sorted by the stable base case. */
  const BASE_CASE_SIZE: nat := 1000

  /** A record as a value: its key and its payload bytes. */
  datatype Record = Record(key: nat, payload: seq<Byte>)

  /** Every record of `s` carries exactly `plen` payload bytes. */
  predicate AllHavePayload(s: seq<Record>, plen: nat) {
    forall i :: 0 <= i < |s| ==> |s[i].payload| == plen
  }

  function Zeros(n: nat): seq<Byte> {
    seq(n, _ => 0)
  }

  /** The value a default-constructed record holds. */
  function DefaultRecord(plen: nat): Record {
    Record(0, Zeros(plen))
  }

  // ---------------------------------------------------------------------
  // The object model: records in memory, payloads as owned heap buffers.
  // ---------------------------------------------------------------------

  type ObjId = nat
  type BufId = nat

  /** A `Record` object: its key and its payload pointer (`None` is nullptr). */
  datatype Obj = Obj(key: nat, payload: Option<BufId>)

  /**
   * The live record objects, the payload buffers currently allocated, and
   * the id the next allocation will receive.
   */
  datatype Heap = Heap(objs: map<ObjId, Obj>, bufs: map<BufId, seq<Byte>>, next: BufId)

  /** Why an operation has undefined behaviour in the source. */
  datatype Fault = NullPayload

  /**
   * Heap well-formedness: buffers hold `plen` bytes and lie below `next`,
   * every non-null payload points to an allocated buffer, and no two
   * objects share a buffer.
   */
  ghost predicate Valid(h: Heap, plen: nat) {
    && (forall b :: b in h.bufs ==> b < h.next && |h.bufs[b]| == plen)
    && (forall o :: o in h.objs && h.objs[o].payload.Some? ==> h.objs[o].payload.value in h.bufs)
    && (forall o1, o2 :: o1 in h.objs && o2 in h.objs && o1 != o2 && h.objs[o1].payload.Some?
          ==> h.objs[o1].payload != h.objs[o2].payload)
  }

  /** The record value an object denotes; `None` when it has been moved from. */
  function Value(h: Heap, o: ObjId): Option<Record> {
    if o in h.objs && h.objs[o].payload.Some? && h.objs[o].payload.value in h.bufs
    then Some(Record(h.objs[o].key, h.bufs[h.objs[o].payload.value]))
    else None
  }

  /** Every object other than `except` that existed in `h` denotes the same value in `h'`. */
  ghost predicate OthersUnchanged(h: Heap, h': Heap, except: set<ObjId>) {
    forall o :: o in h.objs && o !in except ==> o in h'.objs && Value(h', o) == Value(h, o)
  }

  /** Default constructor: key 0 and a fresh zero-filled payload of `plen` bytes. */
  function DefaultConstruct(h: Heap, o: ObjId, plen: nat): (h': Heap)
    requires Valid(h, plen) && o !in h.objs
    ensures Valid(h', plen)
    ensures Value(h', o).Some? && Value(h', o).value.key == 0
    ensures |Value(h', o).value.payload| == plen
    ensures forall i :: 0 <= i < plen ==> Value(h', o).value.payload[i] == 0
    ensures h'.objs[o].payload.Some? && h'.objs[o].payload.value !in h.bufs
    ensures OthersUnchanged(h, h', {o})
  {
    Heap(h.objs[o := Obj(0, Some(h.next))], h.bufs[h.next := Zeros(plen)], h.next + 1)
  }

  /**
   * Copy constructor: the new object gets the source's key and a byte-identical
   * copy of its payload in a buffer of its own.  Copying from a moved-from
   * object reads through nullptr, which the model reports as a fault.
   */
  function CopyConstruct(h: Heap, dst: ObjId, src: ObjId, plen: nat): (r: Result<Heap, Fault>)
    requires Valid(h, plen) && dst !in h.objs && src in h.objs
    ensures r.Ok? <==> h.objs[src].payload.Some?
    ensures r.Ok? ==> Valid(r.value, plen)
    ensures r.Ok? ==> Value(r.value, dst) == Value(h, src)
    ensures r.Ok? ==> r.value.objs[dst].payload.Some? && r.value.objs[dst].payload.value !in h.bufs
    ensures r.Ok? ==> OthersUnchanged(h, r.value, {dst})
  {
    match h.objs[src].payload
    case None => Err(NullPayload)
    case Some(b) =>
      Ok(Heap(h.objs[dst := Obj(h.objs[src].key, Some(h.next))], h.bufs[h.next := h.bufs[b]], h.next + 1))
  }

  /**
   * Copy assignment.  Assigning an object to itself changes nothing.
   * Otherwise the key and the payload bytes are copied; the target keeps its
   * own buffer and a new one is allocated only when its payload was null.
   */
  function CopyAssign(h: Heap, dst: ObjId, src: ObjId, plen: nat): (r: Result<Heap, Fault>)
    requires Valid(h, plen) && dst in h.objs && src in h.objs
    ensures dst == src ==> r == Ok(h)
    ensures dst != src ==> (r.Ok? <==> h.objs[src].payload.Some?)
    ensures r.Ok? ==> Valid(r.value, plen)
    ensures r.Ok? ==> Value(r.value, dst) == Value(h, src)
    ensures r.Ok? && dst != src && h.objs[dst].payload.Some? ==> r.value.objs[dst].payload == h.objs[dst].payload
    ensures r.Ok? && dst != src && h.objs[dst].payload.None? ==> r.value.objs[dst].payload.Some? && r.value.objs[dst].payload.value !in h.bufs
    ensures r.Ok? ==> OthersUnchanged(h, r.value, {dst})
  {
    if dst == src then Ok(h)
    else
      match h.objs[src].payload
      case None => Err(NullPayload)
      case Some(sb) =>
        var h1 :=
          if h.objs[dst].payload.Some? then h
          else Heap(h.objs[dst := Obj(h.objs[dst].key, Some(h.next))], h.bufs[h.next := Zeros(plen)], h.next + 1);
        var db := h1.objs[dst].payload.value;
        Ok(Heap(h1.objs[dst := Obj(h.objs[src].key, Some(db))], h1.bufs[db := h.bufs[sb]], h1.next))
  }

  /**
   * Move constructor: the new object takes over the source's key and payload
   * buffer, and the source's payload becomes null.  Nothing is allocated.
   */
  function MoveConstruct(h: Heap, dst: ObjId, src: ObjId, plen: nat): (h': Heap)
    requires Valid(h, plen) && dst !in h.objs && src in h.objs
    ensures Valid(h', plen)
    ensures Value(h', dst) == Value(h, src)
    ensures dst in h'.objs && src in h'.objs
    ensures h'.objs[dst].payload == h.objs[src].payload && h'.objs[src].payload.None?
    ensures h'.bufs == h.bufs
    ensures OthersUnchanged(h, h', {dst, src})
  {
    Heap(h.objs[dst := h.objs[src]][src := Obj(h.objs[src].key, None)], h.bufs, h.next)
  }

  /**
   * Move assignment.  Assigning an object to itself changes nothing.
   * Otherwise the target frees its own buffer, takes over the source's key
   * and buffer, and the source's payload becomes null.
   */
  function MoveAssign(h: Heap, dst: ObjId, src: ObjId, plen: nat): (h': Heap)
    requires Valid(h, plen) && dst in h.objs && src in h.objs
    ensures dst == src ==> h' == h
    ensures Valid(h', plen)
    ensures dst != src ==> Value(h', dst) == Value(h, src)
    ensures dst in h'.objs && src in h'.objs
    ensures dst != src ==> h'.objs[dst].payload == h.objs[src].payload && h'.objs[src].payload.None?
    ensures dst != src && h.objs[dst].payload.Some? ==> h.objs[dst].payload.value !in h'.bufs
    ensures OthersUnchanged(h, h', {dst, src})
  {
    if dst == src then h
    else
      var freed := if h.objs[dst].payload.Some? then h.bufs - {h.objs[dst].payload.value} else h.bufs;
      Heap(h.objs[dst := h.objs[src]][src := Obj(h.objs[src].key, None)], freed, h.next)
  }

  /** Destructor: the object disappears and its buffer (if any) is freed. */
  function Destroy(h: Heap, o: ObjId, plen: nat): (h': Heap)
    requires Valid(h, plen) && o in h.objs
    ensures Valid(h', plen)
    ensures o !in h'.objs
    ensures h.objs[o].payload.Some? ==> h.objs[o].payload.value !in h'.bufs
    ensures OthersUnchanged(h, h', {o})
  {
    var freed := if h.objs[o].payload.Some? then h.bufs - {h.objs[o].payload.value} else h.bufs;
    Heap(h.objs - {o}, freed, h.next)
  }

  /**
   * Copying a record and then moving the copy into a third object (the
   * `push_back(std::move(r))` idiom of the receivers) delivers the original
   * value and leaves the source object untouched.
   */
  lemma CopyThenMoveDeliversValue(h: Heap, src: ObjId, tmp: ObjId, dst: ObjId, plen: nat)
    requires Valid(h, plen) && src in h.objs && h.objs[src].payload.Some?
    requires tmp !in h.objs && dst !in h.objs && tmp != dst
    ensures CopyConstruct(h, tmp, src, plen).Ok?
    ensures var h1 := CopyConstruct(h, tmp, src, plen).value;
            var h2 := MoveConstruct(h1, dst, tmp, plen);
            Value(h2, dst) == Value(h, src) && Value(h2, src) == Value(h, src) && Value(h2, tmp).None?
  {
  }
}
