/** The two streams over an asset's original bytes (src/immich_bridge/immich_client.py) and
  * `open_original`, which picks one of them. */
module Streams {
  import opened Wrappers

  type Bytes = seq<nat>

  function Concat(chunks: seq<Bytes>): Bytes {
    if chunks == [] then [] else chunks[0] + Concat(chunks[1..])
  }

  function Min(a: int, b: int): int { if a < b then a else b }

  /** Where reading stops: the end of the body, or one past an inclusive range end before it. */
  function Limit(body: Bytes, rangeEnd: Option<nat>): (n: nat)
    ensures n <= |body|
  {
    if rangeEnd.Some? && rangeEnd.value + 1 < |body| then rangeEnd.value + 1 else |body|
  }

  /** What a reader must see: the bytes from `pos` up to the limit, at most `size` of them; a
    * negative size asks for all. */
  function ReadSpec(body: Bytes, limit: nat, pos: nat, size: int): Bytes
    requires pos <= limit <= |body|
  {
    if size < 0 then body[pos..limit] else body[pos..Min(pos + size, limit)]
  }

  /** The bytes start to end of a body, both inclusive. */
  predicate SliceOf(body: Bytes, start: int, end: int, data: Bytes) {
    0 <= start <= end < |body| && data == body[start..end + 1]
  }

  /** An upstream that honours ranges: what it sends is the body from the offset to the limit, in any
    * chunks; None when it refuses, as it must for an offset past the limit. */
  ghost predicate Honours(body: Bytes, rangeEnd: Option<nat>, offset: nat, response: Option<seq<Bytes>>) {
    response.Some? ==> offset <= Limit(body, rangeEnd) && Concat(response.value) == body[offset..Limit(body, rangeEnd)]
  }

  datatype SeekOutcome = Moved | NegativeOffset | Refused

  /** Over an HTTP response: chunks still to come, a buffer, a position. */
  class ImmichOriginalStream {
    ghost const body: Bytes
    const rangeEnd: Option<nat>
    var chunks: seq<Bytes>
    var buffer: Bytes
    var position: nat
    var startedReading: bool

    /** Buffer and chunks to come are the body from the position on. */
    ghost predicate Valid()
      reads this
    {
      position <= Limit(body, rangeEnd) && buffer + Concat(chunks) == body[position..Limit(body, rangeEnd)]
    }

    /** The response covers the body from `start` to the limit, in any chunks. */
    constructor (ghost body: Bytes, response: seq<Bytes>, start: nat, rangeEnd: Option<nat>)
      requires start <= Limit(body, rangeEnd) && Concat(response) == body[start..Limit(body, rangeEnd)]
      ensures Valid() && this.body == body && this.rangeEnd == rangeEnd && position == start
    {
      this.body := body;
      this.rangeEnd := rangeEnd;
      chunks, buffer, position, startedReading := response, [], start, false;
      new;
      assert buffer + Concat(chunks) == Concat(chunks);
    }

    /** `seek`: nothing to do where the stream stands unread, else reopen there; `response` is what the
      * upstream then answers. A refusal closes the stream and leaves its position. */
    method Seek(offset: int, response: Option<seq<Bytes>>) returns (outcome: SeekOutcome)
      requires offset >= 0 ==> Honours(body, rangeEnd, offset, response)
      modifies this
      ensures outcome == (if offset < 0 then NegativeOffset
                          else if offset == old(position) && !old(startedReading) then Moved
                          else if response.None? then Refused else Moved)
      ensures position == if outcome == Moved then offset else old(position)
      ensures outcome == Moved && (old(Valid()) || offset != old(position) || old(startedReading)) ==> Valid()
      ensures outcome == NegativeOffset ==>
                chunks == old(chunks) && buffer == old(buffer) && startedReading == old(startedReading)
    {
      if offset < 0 {
        return NegativeOffset;
      }
      if offset == position && !startedReading {
        return Moved;
      }
      if response.None? {
        chunks := [];
        return Refused;
      }
      chunks := response.value;
      buffer := [];
      position := offset;
      startedReading := false;
      assert buffer + Concat(chunks) == Concat(chunks);
      return Moved;
    }

    method Read(size: int) returns (data: Bytes)
      requires Valid()
      modifies this
      ensures Valid()
      ensures data == ReadSpec(body, Limit(body, rangeEnd), old(position), size) && position == old(position) + |data|
    {
      ghost var limit := Limit(body, rangeEnd);
      ghost var all := body[position..limit];
      startedReading := true;
      if size < 0 {
        data := Rest();
        position := position + |data|;
        assert body[position..limit] == [];
        return;
      }
      Fill(size);
      var n := Min(size, |buffer|);
      TakenFromFront(buffer, Concat(chunks), n, all);
      data := buffer[..n];
      buffer := buffer[n..];
      position := position + n;
      assert all[n..] == body[position..limit];
    }

    /** The loop of a read to the end: the buffer and every chunk to come. */
    method Rest() returns (data: Bytes)
      modifies this`chunks, this`buffer
      ensures data == old(buffer + Concat(chunks)) && buffer + Concat(chunks) == []
    {
      ghost var all := buffer + Concat(chunks);
      data := buffer;
      while chunks != []
        invariant data + Concat(chunks) == all
        decreases |chunks|
      {
        NextChunk(data, chunks);
        data := data + chunks[0];
        chunks := chunks[1..];
      }
      assert data + Concat([]) == data;
      buffer := [];
    }

    /** The loop of a sized read: chunks into the buffer until it has enough or nothing comes. */
    method Fill(size: nat)
      modifies this`chunks, this`buffer
      ensures buffer + Concat(chunks) == old(buffer + Concat(chunks))
      ensures |buffer| < size ==> Concat(chunks) == []
    {
      ghost var all := buffer + Concat(chunks);
      while |buffer| < size && chunks != []
        invariant buffer + Concat(chunks) == all
        decreases |chunks|
      {
        NextChunk(buffer, chunks);
        buffer := buffer + chunks[0];
        chunks := chunks[1..];
      }
    }
  }

  lemma NextChunk(seen: Bytes, chunks: seq<Bytes>)
    requires chunks != []
    ensures (seen + chunks[0]) + Concat(chunks[1..]) == seen + Concat(chunks)
  {
  }

  lemma TakenFromFront(buffer: Bytes, rest: Bytes, n: nat, all: Bytes)
    requires buffer + rest == all && n <= |buffer|
    ensures buffer[..n] == all[..n] && buffer[n..] + rest == all[n..]
  {
  }

  /** A range held in memory, addressed by absolute offsets. */
  class CachedRangeStream {
    const data: Bytes
    const start: nat
    const end: int
    var position: nat

    ghost predicate Valid()
      reads this
    {
      end == start + |data| - 1 && start <= position <= end + 1
    }

    /** The stream stands for `body` when its data are the body's bytes at its offsets. */
    ghost predicate Holds(body: Bytes)
    {
      start + |data| <= |body| && data == body[start..start + |data|]
    }

    constructor (data: Bytes, start: nat)
      ensures Valid() && this.data == data && this.start == start && position == start
    {
      this.data, this.start, this.end := data, start, start + |data| - 1;
      position := start;
    }

    /** `seek`: False is the OSError for an offset outside the range. */
    method Seek(offset: int) returns (ok: bool)
      requires Valid()
      modifies this
      ensures Valid() && ok == (start <= offset <= end + 1) && position == if ok then offset else old(position)
    {
      if offset < start || offset > end + 1 {
        return false;
      }
      position := offset;
      return true;
    }

    method Read(size: int) returns (bytes: Bytes)
      requires Valid()
      modifies this
      ensures Valid() && position == old(position) + |bytes|
      ensures forall body :: Holds(body) ==> bytes == ReadSpec(body, start + |data|, old(position), size)
    {
      var relative := position - start;
      if relative >= |data| {
        return [];
      }
      if size < 0 {
        bytes := data[relative..];
      } else {
        bytes := data[relative..Min(relative + size, |data|)];
      }
      position := position + |bytes|;
      assert bytes == data[relative..relative + |bytes|];
      forall body | Holds(body)
        ensures bytes == ReadSpec(body, start + |data|, old(position), size)
      {
        SliceOfSlice(body, start, |data|, relative, relative + |bytes|);
      }
    }
  }

  lemma SliceOfSlice(body: Bytes, start: nat, n: nat, lo: nat, hi: nat)
    requires start + n <= |body| && lo <= hi <= n
    ensures body[start..start + n][lo..hi] == body[start + lo..start + hi]
  {
    var held := body[start..start + n];
    assert forall k :: lo <= k < hi ==> held[k] == body[start + k];
    assert forall k :: 0 <= k < hi - lo ==> held[lo..hi][k] == held[lo + k];
  }

  // ---------- opening ----------

  /** The file-like object `open_original` returns. */
  datatype Opened = Cached(cached: CachedRangeStream) | Direct(direct: ImmichOriginalStream)

  function StreamOf(o: Opened): object {
    match o
    case Cached(c) => c
    case Direct(d) => d
  }

  /** Everything a reader can observe of an open stream: its position and the bytes from there on. */
  ghost predicate Shows(o: Opened, body: Bytes, limit: nat, pos: nat)
    reads StreamOf(o)
  {
    match o
    case Cached(c) => c.Valid() && c.Holds(body) && c.start + |c.data| == limit && c.position == pos
    case Direct(d) => d.Valid() && d.body == body && Limit(body, d.rangeEnd) == limit && d.position == pos
  }

  /** What the blob cache answers for the range. */
  datatype Lookup = Bypass | Hit(data: Bytes) | Miss

  /** `open_original`. `response` is what the upstream answers for the requested range; a hit holds the
    * range's bytes, as CachedOriginals proves of the cache. None is the ImmichApiError. */
  method OpenOriginal(ghost body: Bytes, rangeStart: Option<nat>, rangeEnd: Option<nat>, lookup: Lookup,
                      response: Option<seq<Bytes>>)
    returns (o: Option<Opened>, stored: Option<Bytes>)
    requires Honours(body, rangeEnd, rangeStart.GetOr(0), response)
    requires !lookup.Bypass? ==> rangeStart.Some? && rangeEnd.Some? && rangeStart.value <= rangeEnd.value
    requires lookup.Hit? ==> SliceOf(body, rangeStart.value, rangeEnd.value, lookup.data)
    ensures o.None? <==> !lookup.Hit? && response.None?
    ensures o.Some? ==>
              && rangeStart.GetOr(0) <= Limit(body, rangeEnd)
              && Shows(o.value, body, Limit(body, rangeEnd), rangeStart.GetOr(0)) && fresh(StreamOf(o.value))
    ensures stored.Some? ==> lookup.Miss? && SliceOf(body, rangeStart.value, rangeEnd.value, stored.value)
    ensures lookup.Miss? && response.Some? && rangeEnd.value < |body| ==> stored.Some?
  {
    stored := None;
    if lookup.Hit? {
      var c := new CachedRangeStream(lookup.data, rangeStart.value);
      return Some(Cached(c)), None;
    }
    if response.None? {
      return None, None;
    }
    if lookup.Miss? {
      var data: Bytes := [];
      var rest := response.value;
      while rest != []
        invariant data + Concat(rest) == body[rangeStart.value..Limit(body, rangeEnd)]
        decreases |rest|
      {
        NextChunk(data, rest);
        data := data + rest[0];
        rest := rest[1..];
      }
      assert data + Concat([]) == data;
      if |data| == rangeEnd.value - rangeStart.value + 1 {
        stored := Some(data);
      }
      var c := new CachedRangeStream(data, rangeStart.value);
      return Some(Cached(c)), stored;
    }
    var d := new ImmichOriginalStream(body, response.value, rangeStart.GetOr(0), rangeEnd);
    return Some(Direct(d)), None;
  }

  // ---------- any sequence of reads and seeks ----------

  datatype Op = Read(size: int) | Seek(offset: nat)

  /** One call on any stream over the body: the bytes returned, and the position after it. */
  function Answer(body: Bytes, limit: nat, pos: nat, op: Op): (r: (Bytes, nat))
    requires pos <= limit <= |body| && (op.Seek? ==> op.offset < limit)
    ensures r.1 <= limit
  {
    match op
    case Read(size) => var bytes := ReadSpec(body, limit, pos, size); (bytes, pos + |bytes|)
    case Seek(offset) => ([], offset)
  }

  predicate SeeksInside(ops: seq<Op>, lo: nat, hi: nat) {
    forall i :: 0 <= i < |ops| && ops[i].Seek? ==> lo <= ops[i].offset < hi
  }

  function Answers(body: Bytes, limit: nat, pos: nat, ops: seq<Op>): seq<(Bytes, nat)>
    requires pos <= limit <= |body| && SeeksInside(ops, 0, limit)
    decreases |ops|
  {
    if ops == [] then []
    else [Answer(body, limit, pos, ops[0])] + Answers(body, limit, Answer(body, limit, pos, ops[0]).1, ops[1..])
  }

  /** The upstream serves the body from any offset below the limit, in chunks of its choice. */
  ghost predicate Serves(served: nat -> seq<Bytes>, body: Bytes, limit: nat) {
    limit <= |body| && forall offset: nat :: offset < limit ==> Concat(served(offset)) == body[offset..limit]
  }

  method Call(o: Opened, ghost body: Bytes, ghost limit: nat, ghost pos: nat, op: Op, served: nat -> seq<Bytes>)
    returns (bytes: Bytes, now: nat)
    requires pos <= limit <= |body| && Shows(o, body, limit, pos) && Serves(served, body, limit)
    requires op.Seek? ==> op.offset < limit && (o.Cached? ==> o.cached.start <= op.offset)
    modifies StreamOf(o)
    ensures (bytes, now) == Answer(body, limit, pos, op) && Shows(o, body, limit, now)
  {
    bytes := [];
    match o
    case Cached(c) =>
      match op {
        case Read(size) => bytes := c.Read(size);
        case Seek(offset) => var ok := c.Seek(offset);
      }
      now := c.position;
    case Direct(d) =>
      match op {
        case Read(size) => bytes := d.Read(size);
        case Seek(offset) => var _ := d.Seek(offset, Some(served(offset)));
      }
      now := d.position;
  }

  /** Indistinguishable: whichever stream was opened and however the upstream chunks its answers, a
    * reader sees the same bytes and positions, those of the body. */
  method Drive(o: Opened, ghost body: Bytes, ghost limit: nat, ghost pos: nat, ops: seq<Op>, served: nat -> seq<Bytes>)
    returns (answers: seq<(Bytes, nat)>)
    requires pos <= limit <= |body| && Shows(o, body, limit, pos) && Serves(served, body, limit)
    requires SeeksInside(ops, if o.Cached? then o.cached.start else 0, limit)
    modifies StreamOf(o)
    ensures answers == Answers(body, limit, pos, ops)
  {
    hide Shows, Answer, Answers, Serves, SeeksInside;
    answers := [];
    ghost var at: nat := pos;
    SeeksBelow(ops, if o.Cached? then o.cached.start else 0, limit, 0);
    assert ops[0..] == ops;
    for i := 0 to |ops|
      invariant at <= limit && Shows(o, body, limit, at) && SeeksInside(ops[i..], 0, limit)
      invariant answers + Answers(body, limit, at, ops[i..]) == Answers(body, limit, pos, ops)
    {
      SeeksBelow(ops, if o.Cached? then o.cached.start else 0, limit, i + 1);
      AnswersFirst(body, limit, at, ops, i);
      var bytes, now := Call(o, body, limit, at, ops[i], served);
      ghost var rest := Answers(body, limit, now, ops[i + 1..]);
      assert answers + ([(bytes, now)] + rest) == answers + [(bytes, now)] + rest;
      answers := answers + [(bytes, now)];
      at := now;
    }
    NoAnswers(body, limit, at);
    assert ops[|ops|..] == [] && answers + [] == answers;
  }

  lemma SeeksBelow(ops: seq<Op>, lo: nat, hi: nat, i: nat)
    requires SeeksInside(ops, lo, hi) && i <= |ops|
    ensures SeeksInside(ops, 0, hi) && SeeksInside(ops[i..], 0, hi)
    ensures i < |ops| && ops[i].Seek? ==> lo <= ops[i].offset < hi
    ensures i > 0 && ops[i - 1].Seek? ==> lo <= ops[i - 1].offset < hi
  {
  }

  lemma AnswersFirst(body: Bytes, limit: nat, pos: nat, ops: seq<Op>, i: nat)
    requires pos <= limit <= |body| && i < |ops| && SeeksInside(ops[i..], 0, limit)
    ensures (ops[i].Seek? ==> ops[i].offset < limit) && SeeksInside(ops[i + 1..], 0, limit)
    ensures var first := Answer(body, limit, pos, ops[i]);
            Answers(body, limit, pos, ops[i..]) == [first] + Answers(body, limit, first.1, ops[i + 1..])
  {
    hide Answer;
    assert ops[i..][0] == ops[i] && ops[i..][1..] == ops[i + 1..];
    var rest := ops[i + 1..];
    assert forall k :: 0 <= k < |rest| ==> rest[k] == ops[i..][k + 1];
  }

  lemma NoAnswers(body: Bytes, limit: nat, pos: nat)
    requires pos <= limit <= |body|
    ensures Answers(body, limit, pos, []) == []
  {
  }
}
