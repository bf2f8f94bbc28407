/** The request-body reader with a cap (src/immich_bridge/webdav_server.py, `LimitedInput`). */
module LimitedInputs {
  import opened Wrappers

  type Bytes = seq<nat>

  const NEWLINE: nat := 10

  function Min(a: int, b: int): int { if a < b then a else b }

  /** Length of the first line of `s`, its newline included. */
  function LineLength(s: Bytes): (n: nat)
    ensures n <= |s|
    ensures s != [] ==> n >= 1
  {
    if s == [] then 0 else if s[0] == NEWLINE then 1 else 1 + LineLength(s[1..])
  }

  /** What the raw WSGI stream returns for a read or a line; a negative size is no bound. */
  function RawRead(rest: Bytes, size: int): Bytes {
    if size < 0 then rest else rest[..Min(size, |rest|)]
  }

  function RawLine(rest: Bytes, size: int): Bytes {
    if size < 0 then rest[..LineLength(rest)] else rest[..Min(size, LineLength(rest))]
  }

  /** The server's body stream. */
  class RawStream {
    const body: Bytes
    var pos: nat

    ghost predicate Valid()
      reads this
    {
      pos <= |body|
    }

    constructor (body: Bytes)
      ensures Valid() && this.body == body && pos == 0
    {
      this.body := body;
      pos := 0;
    }

    method Read(size: int) returns (data: Bytes)
      requires Valid()
      modifies this
      ensures Valid() && data == RawRead(body[old(pos)..], size) && pos == old(pos) + |data|
    {
      data := RawRead(body[pos..], size);
      pos := pos + |data|;
    }

    method ReadLine(size: int) returns (data: Bytes)
      requires Valid()
      modifies this
      ensures Valid() && data == RawLine(body[old(pos)..], size) && pos == old(pos) + |data|
    {
      data := RawLine(body[pos..], size);
      pos := pos + |data|;
    }
  }

  datatype Call = Read(size: int) | ReadLine(size: int)

  function RawAnswer(rest: Bytes, call: Call): Bytes {
    if call.Read? then RawRead(rest, call.size) else RawLine(rest, call.size)
  }

  /** What the capped reader answers with `taken` bytes of the body consumed: None is the
    * RequestBodyTooLarge, and the second part is what it has consumed then. */
  function CappedAnswer(body: Bytes, max: nat, taken: nat, call: Call): (r: (Option<Bytes>, nat))
    requires taken <= |body|
    ensures r.1 <= |body|
  {
    if taken > max then (None, taken)
    else
      var remaining := max - taken;
      var size := if call.size < 0 then remaining + 1 else Min(call.size, remaining + 1);
      var data := RawAnswer(body[taken..], call.(size := size));
      (if taken + |data| > max then None else Some(data), taken + |data|)
  }

  class LimitedInput {
    const stream: RawStream
    const max: nat
    var bytesRead: nat

    ghost predicate Valid()
      reads this, stream
    {
      stream.Valid() && bytesRead == stream.pos
    }

    constructor (stream: RawStream, max: nat)
      requires stream.Valid() && stream.pos == 0
      ensures Valid() && this.stream == stream && this.max == max && bytesRead == 0
    {
      this.stream, this.max, this.bytesRead := stream, max, 0;
    }

    /** `_bounded_read_size`: None raises, once the cap is passed. Never more than one byte beyond the cap is
      * asked for; a size that stays within that bound is asked for unchanged, and any other is cut to just
      * enough to notice the excess. */
    method BoundedReadSize(size: int) returns (bounded: Option<nat>)
      ensures bounded.None? <==> bytesRead > max
      ensures bounded.Some? ==> bytesRead + bounded.value <= max + 1
      ensures bounded.Some? && 0 <= size && bytesRead + size <= max + 1 ==> bounded.value == size
      ensures bounded.Some? && (size < 0 || bytesRead + size > max + 1) ==> bytesRead + bounded.value == max + 1
    {
      var remaining: int := max - bytesRead;
      if remaining < 0 {
        return None;
      }
      if size < 0 {
        return Some(remaining + 1);
      }
      return Some(Min(size, remaining + 1));
    }

    /** `read` and `readline`. */
    method Answer(call: Call) returns (r: Option<Bytes>)
      requires Valid()
      modifies this, stream
      ensures Valid()
      ensures (r, bytesRead) == CappedAnswer(stream.body, max, old(bytesRead), call)
    {
      var bounded := BoundedReadSize(call.size);
      if bounded.None? {
        return None;
      }
      var data: Bytes;
      match call {
        case Read(_) => data := stream.Read(bounded.value);
        case ReadLine(_) => data := stream.ReadLine(bounded.value);
      }
      bytesRead := bytesRead + |data|;
      if bytesRead > max {
        return None;
      }
      return Some(data);
    }
  }

  // ---------- runs ----------

  /** The answers of a run of calls, and the bytes consumed at its end. */
  function CappedRun(body: Bytes, max: nat, taken: nat, calls: seq<Call>): (r: (seq<Option<Bytes>>, nat))
    requires taken <= |body|
    ensures |r.0| == |calls| && r.1 <= |body|
    decreases |calls|
  {
    if calls == [] then ([], taken)
    else
      var first := CappedAnswer(body, max, taken, calls[0]);
      var rest := CappedRun(body, max, first.1, calls[1..]);
      ([first.0] + rest.0, rest.1)
  }

  function RawRun(body: Bytes, taken: nat, calls: seq<Call>): (r: seq<Bytes>)
    requires taken <= |body|
    ensures |r| == |calls|
    decreases |calls|
  {
    if calls == [] then []
    else
      var data := RawAnswer(body[taken..], calls[0]);
      [data] + RawRun(body, taken + |data|, calls[1..])
  }

  /** Everything handed out, in order. */
  function Handed(answers: seq<Option<Bytes>>): Bytes {
    if answers == [] then []
    else (if answers[0].Some? then answers[0].value else []) + Handed(answers[1..])
  }

  lemma AnswerBounds(body: Bytes, max: nat, taken: nat, call: Call)
    requires taken <= |body|
    ensures var (r, now) := CappedAnswer(body, max, taken, call);
            && taken <= now <= |body|
            && (taken <= max ==> now <= max + 1)
            && (taken > max ==> now == taken)
            && (r.Some? <==> now <= max)
            && (r.Some? ==> r.value == body[taken..now])
  {
  }

  lemma AnswerIsRaw(body: Bytes, max: nat, taken: nat, call: Call)
    requires taken <= |body| <= max
    ensures var data := RawAnswer(body[taken..], call);
            CappedAnswer(body, max, taken, call) == (Some(data), taken + |data|)
  {
    var rest := body[taken..];
    assert rest[..|rest|] == rest;
  }

  /** The capped reader's answers are the raw stream's data, none refused. */
  predicate Serves(answers: seq<Option<Bytes>>, raw: seq<Bytes>) {
    |answers| == |raw| && forall i :: 0 <= i < |raw| ==> answers[i] == Some(raw[i])
  }

  lemma ServesFirst(data: Bytes, answers: seq<Option<Bytes>>, raw: seq<Bytes>)
    requires Serves(answers, raw)
    ensures Serves([Some(data)] + answers, [data] + raw)
  {
  }

  /** A body within the cap is read as if there were none: the capped reader refines the raw one. */
  lemma {:induction false} RefinesRaw(body: Bytes, max: nat, taken: nat, calls: seq<Call>)
    requires taken <= |body| <= max
    ensures Serves(CappedRun(body, max, taken, calls).0, RawRun(body, taken, calls))
    decreases |calls|
  {
    hide CappedAnswer, RawAnswer;
    if calls != [] {
      AnswerIsRaw(body, max, taken, calls[0]);
      var data := RawAnswer(body[taken..], calls[0]);
      RefinesRaw(body, max, taken + |data|, calls[1..]);
      ServesFirst(data, CappedRun(body, max, taken + |data|, calls[1..]).0, RawRun(body, taken + |data|, calls[1..]));
    }
  }

  /** What is handed out between `taken` and `now` consumed bytes is the body from `taken` on, up to
    * the cap; past the cap nothing is. */
  predicate WithinCap(body: Bytes, max: nat, taken: nat, now: nat, handed: Bytes) {
    && taken <= now <= max + 1
    && taken + |handed| <= |body| && handed == body[taken..taken + |handed|]
    && (if taken <= max then taken + |handed| <= max else handed == [])
  }

  lemma CapFirst(body: Bytes, max: nat, taken: nat, middle: nat, now: nat, first: Option<Bytes>, handed: Bytes)
    requires taken <= middle <= |body| && (taken > max ==> middle == taken) && taken <= max + 1
    requires (first.Some? <==> middle <= max) && (first.Some? ==> first.value == body[taken..middle])
    requires WithinCap(body, max, middle, now, handed)
    ensures WithinCap(body, max, taken, now, (if first.Some? then first.value else []) + handed)
  {
    Spliced(body, taken, middle, |handed|);
    if first.None? { assert handed == [] && [] + handed == []; }
  }

  /** For any body: what is handed out is a prefix of it of at most `max` bytes, and at most one
    * byte more is consumed. */
  lemma {:induction false} CapHolds(body: Bytes, max: nat, taken: nat, calls: seq<Call>)
    requires taken <= |body| && taken <= max + 1
    ensures var run := CappedRun(body, max, taken, calls); WithinCap(body, max, taken, run.1, Handed(run.0))
    decreases |calls|
  {
    if calls != [] {
      AnswerBounds(body, max, taken, calls[0]);
      var first := CappedAnswer(body, max, taken, calls[0]);
      hide CappedAnswer, Handed, WithinCap;
      CapHolds(body, max, first.1, calls[1..]);
      var rest := CappedRun(body, max, first.1, calls[1..]);
      HandedFirst(first.0, rest.0);
      CapFirst(body, max, taken, first.1, rest.1, first.0, Handed(rest.0));
    }
  }

  lemma HandedFirst(first: Option<Bytes>, rest: seq<Option<Bytes>>)
    ensures Handed([first] + rest) == (if first.Some? then first.value else []) + Handed(rest)
  {
    assert ([first] + rest)[1..] == rest;
  }

  lemma Spliced(body: Bytes, a: nat, b: nat, n: nat)
    requires a <= b && b + n <= |body|
    ensures body[a..b] + body[b..b + n] == body[a..b + n]
  {
  }

  predicate AllRefused(answers: seq<Option<Bytes>>) { forall i :: 0 <= i < |answers| ==> answers[i].None? }

  /** No answer follows a refusal. */
  predicate Sticky(answers: seq<Option<Bytes>>) {
    forall i, j :: 0 <= i < j < |answers| && answers[i].None? ==> answers[j].None?
  }

  lemma StickyFirst(first: Option<Bytes>, rest: seq<Option<Bytes>>)
    requires Sticky(rest) && (first.None? ==> AllRefused(rest))
    ensures Sticky([first] + rest) && (first.None? ==> AllRefused([first] + rest))
  {
    var answers := [first] + rest;
    assert forall i :: 0 < i < |answers| ==> answers[i] == rest[i - 1];
  }

  /** After one refusal all further calls are refused, and a reader past the cap refuses at once. */
  lemma {:induction false} RefusalSticks(body: Bytes, max: nat, taken: nat, calls: seq<Call>)
    requires taken <= |body|
    ensures Sticky(CappedRun(body, max, taken, calls).0)
    ensures taken > max ==> AllRefused(CappedRun(body, max, taken, calls).0)
    decreases |calls|
  {
    if calls != [] {
      AnswerBounds(body, max, taken, calls[0]);
      hide CappedAnswer, Sticky, AllRefused;
      var first := CappedAnswer(body, max, taken, calls[0]);
      RefusalSticks(body, max, first.1, calls[1..]);
      StickyFirst(first.0, CappedRun(body, max, first.1, calls[1..]).0);
    }
  }

  /** The stateful reader over a run of calls. */
  method Drive(input: LimitedInput, calls: seq<Call>) returns (answers: seq<Option<Bytes>>)
    requires input.Valid()
    modifies input, input.stream
    ensures input.Valid()
    ensures (answers, input.bytesRead) == CappedRun(input.stream.body, input.max, old(input.bytesRead), calls)
  {
    answers := [];
    ghost var body, max, start := input.stream.body, input.max, input.bytesRead;
    assert calls[0..] == calls;
    assert [] + CappedRun(body, max, start, calls).0 == CappedRun(body, max, start, calls).0;
    for i := 0 to |calls|
      invariant input.Valid()
      invariant var rest := CappedRun(body, max, input.bytesRead, calls[i..]);
                (answers + rest.0, rest.1) == CappedRun(body, max, start, calls)
    {
      ghost var before := CappedRun(body, max, input.bytesRead, calls[i..]);
      assert calls[i..][0] == calls[i] && calls[i..][1..] == calls[i + 1..];
      var r := input.Answer(calls[i]);
      assert answers + before.0 == (answers + [r]) + CappedRun(body, max, input.bytesRead, calls[i + 1..]).0;
      answers := answers + [r];
    }
    assert calls[|calls|..] == [];
    assert answers + [] == answers;
  }
}
