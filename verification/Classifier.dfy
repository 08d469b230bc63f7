/**
  Protocol classification of a shared-port connection (internal/frontmux/classifier.go):
  TLS ClientHello, HTTP/1, the HTTP/2 preface (section 3.4 of RFC 9113), or raw.

  Verdicts depend on the bytes of the stream, not on how reads cut them, except for one
  family of five-byte TLS headers and for decisions within a read buffer of the inspection
  limit; SchedulesAgreeIff states exactly when.
*/
module Classifier {
  import opened Wrappers
  import opened TlsHello

  /** Host-name normalisation, and parseHTTP1Selector on a complete header block. */
  datatype Library = Library(
    serverName: Normalizer,
    selector: Bytes -> Option<(Name, Bytes)>)

  datatype Classification =
    | Tls(sni: Name)
    | Http1(host: Name, path: Bytes)
    | Http2
    | Raw

  datatype Refusal = BadTls(error: TlsError) | BadHttp | HeadersTooLong | NoMatch

  datatype Inspection = NeedMore | Accept(classification: Classification) | Reject(refusal: Refusal)

  /** "PRI * HTTP/2.0\r\n\r\nSM\r\n\r\n" */
  const PREFACE: Bytes := [
    0x50, 0x52, 0x49, 0x20, 0x2a, 0x20, 0x48, 0x54, 0x54, 0x50, 0x2f, 0x32, 0x2e, 0x30,
    0x0d, 0x0a, 0x0d, 0x0a, 0x53, 0x4d, 0x0d, 0x0a, 0x0d, 0x0a]
  const BLANK_LINE: Bytes := [0x0d, 0x0a, 0x0d, 0x0a]
  const SPACE: byte := 0x20

  // ---------------------------------------------------------------- inspection of a prefix

  predicate LooksLikeTls(data: Bytes) {
    && data != [] && data[0] == HANDSHAKE
    && (|data| >= 3 ==> data[1] == 3 && data[2] <= 4)
    && (|data| >= 6 ==> data[5] == CLIENT_HELLO)
  }

  predicate Upper(b: byte) {
    0x41 <= b <= 0x5a
  }

  /** The rest of the method-token scan, from `index` on. */
  predicate MethodFrom(data: Bytes, index: nat)
    decreases 16 - index
  {
    if index >= |data| || index >= 16 then |data| < 16
    else if data[index] == SPACE then index >= 3
    else Upper(data[index]) && MethodFrom(data, index + 1)
  }

  predicate PossibleHttp1(data: Bytes) {
    MethodFrom(data, 0)
  }

  method IsPossibleHTTP1Prefix(data: Bytes) returns (possible: bool)
    ensures possible == PossibleHttp1(data)
  {
    if |data| == 0 {
      return true;
    }
    var limit := |data|;
    if limit > 16 {
      limit := 16;
    }
    var index := 0;
    while index < limit
      invariant 0 <= index <= limit
      invariant MethodFrom(data, index) == PossibleHttp1(data)
    {
      var b := data[index];
      if b == SPACE {
        return index >= 3;
      }
      if b < 0x41 || b > 0x5a {
        return false;
      }
      index := index + 1;
    }
    return |data| < 16;
  }

  /** A method of 3 to 15 capital letters, then a space. */
  predicate MethodAt(data: Bytes, n: nat) {
    3 <= n <= 15 && n < |data| && data[n] == SPACE && forall i | 0 <= i < n :: Upper(data[i])
  }

  lemma {:induction false} ScanFinds(data: Bytes, index: nat)
    requires index <= |data| && index <= 16 && forall i | 0 <= i < index :: Upper(data[i])
    ensures MethodFrom(data, index) <==>
      || (|data| < 16 && forall i | 0 <= i < |data| :: Upper(data[i]))
      || exists n: nat :: MethodAt(data, n)
    decreases 16 - index
  {
    if index < |data| && index < 16 {
      assert forall n: nat | MethodAt(data, n) :: n < index ==> Upper(data[n]);
      if data[index] == SPACE {
        assert MethodAt(data, index) <==> index >= 3;
        assert forall n: nat | MethodAt(data, n) :: index < n ==> Upper(data[index]);
      } else if Upper(data[index]) {
        ScanFinds(data, index + 1);
      } else {
        assert forall n: nat | MethodAt(data, n) :: index < n ==> Upper(data[index]);
      }
    }
  }

  /** Bytes can be an HTTP/1 request exactly when they extend to a method and a space. */
  lemma PossibleIffExtendable(data: Bytes)
    ensures PossibleHttp1(data) <==> exists more: Bytes, n: nat :: MethodAt(data + more, n)
  {
    ScanFinds(data, 0);
    if n: nat :| MethodAt(data, n) {
      assert data + [] == data;
      assert MethodAt(data + [], n);
    } else if |data| < 16 && forall i | 0 <= i < |data| :: Upper(data[i]) {
      var more: Bytes := if |data| < 3 then [0x41, 0x41, 0x41, SPACE] else [SPACE];
      assert MethodAt(data + more, if |data| < 3 then |data| + 3 else |data|);
    }
    if more: Bytes, n: nat :| MethodAt(data + more, n) {
      if n < |data| {
        assert forall i | 0 <= i <= n :: (data + more)[i] == data[i];
        assert MethodAt(data, n);
      } else {
        assert forall i | 0 <= i < |data| :: (data + more)[i] == data[i];
      }
    }
  }

  predicate BlankAt(data: Bytes, i: nat) {
    i + 4 <= |data| && data[i..i + 4] == BLANK_LINE
  }

  /** Position of the first blank line at or after `from`. */
  function BlankLine(data: Bytes, from: nat): (end: Option<nat>)
    ensures end.Some? ==> from <= end.value && BlankAt(data, end.value)
    ensures forall i: nat | from <= i && BlankAt(data, i) :: end.Some? && end.value <= i
    decreases |data| - from
  {
    if from + 4 > |data| then None
    else if BlankAt(data, from) then Some(from)
    else BlankLine(data, from + 1)
  }

  function InspectHttp1(lib: Library, data: Bytes, max: int): Inspection {
    match BlankLine(data, 0)
    case Some(end) =>
      (match lib.selector(data[..end + 4])
       case None => Reject(BadHttp)
       case Some((host, path)) => Accept(Http1(host, path)))
    case None => if |data| >= max then Reject(HeadersTooLong) else NeedMore
  }

  function InspectTls(lib: Library, data: Bytes, max: int): Inspection {
    match Records(lib.serverName, data, [], max)
    case Incomplete => NeedMore
    case Complete(sni) => Accept(Tls(sni))
    case Malformed(e) => Reject(BadTls(e))
  }

  function Inspect(lib: Library, data: Bytes, hasRaw: bool, max: int): Inspection {
    if data == [] then NeedMore
    else if LooksLikeTls(data) then InspectTls(lib, data, max)
    else if |data| < |PREFACE| && data <= PREFACE then NeedMore
    else if PREFACE <= data then Accept(Http2)
    else if PossibleHttp1(data) then InspectHttp1(lib, data, max)
    else if hasRaw then Accept(Raw)
    else Reject(NoMatch)
  }

  // ---------------------------------------------------------------- stability

  lemma {:induction false} MethodScanStable(p: Bytes, q: Bytes, index: nat)
    requires p <= q && index <= |p| && index <= 16
    requires forall i | 0 <= i < index :: Upper(p[i])
    ensures !MethodFrom(p, index) ==> !MethodFrom(q, index)
    ensures (exists i | 0 <= i < |p| :: !Upper(p[i])) && MethodFrom(p, index) ==> MethodFrom(q, index)
    decreases 16 - index
  {
    if index < |p| && index < 16 {
      assert p[index] == q[index];
      if Upper(p[index]) {
        MethodScanStable(p, q, index + 1);
      }
    }
  }

  lemma {:induction false} BlankLineStable(p: Bytes, q: Bytes, from: nat)
    requires p <= q && BlankLine(p, from).Some?
    ensures BlankLine(q, from) == BlankLine(p, from)
    decreases |p| - from
  {
    assert p[from..from + 4] == q[from..from + 4];
    if !BlankAt(p, from) {
      BlankLineStable(p, q, from + 1);
    }
  }

  lemma NotTlsIsFinal(p: Bytes, q: Bytes)
    requires p <= q && p != [] && !LooksLikeTls(p)
    ensures !LooksLikeTls(q)
  {
  }

  lemma TlsIsFinal(p: Bytes, q: Bytes)
    requires p <= q && |p| >= 6 && LooksLikeTls(p)
    ensures LooksLikeTls(q)
  {
  }

  /** Once the HTTP/2 preface has been missed or matched, later bytes cannot change that. */
  lemma PrefaceDecided(p: Bytes, q: Bytes)
    requires p <= q && !(|p| < |PREFACE| && p <= PREFACE)
    ensures !(|q| < |PREFACE| && q <= PREFACE)
    ensures PREFACE <= q <==> PREFACE <= p
  {
    if q <= PREFACE {
      assert p <= PREFACE;
    }
    if PREFACE <= q {
      assert p == q[..|p|];
      assert |p| <= |PREFACE| ==> p == PREFACE[..|p|];
      assert |p| >= |PREFACE| ==> p[..|PREFACE|] == PREFACE;
    }
  }

  lemma Http1Stable(lib: Library, p: Bytes, q: Bytes, max: int)
    requires p <= q && PossibleHttp1(p) && BlankLine(p, 0).Some?
    ensures PossibleHttp1(q)
    ensures InspectHttp1(lib, q, max) == InspectHttp1(lib, p, max)
  {
    BlankLineStable(p, q, 0);
    var end := BlankLine(p, 0).value;
    assert p[..end + 4] == q[..end + 4];
    assert p[end..end + 4][0] == 0x0d;
    assert !Upper(p[end]);
    MethodScanStable(p, q, 0);
  }

  lemma TlsVerdictStable(lib: Library, p: Bytes, q: Bytes, max: int)
    requires p <= q && !InspectTls(lib, p, max).NeedMore?
    ensures InspectTls(lib, q, max) == InspectTls(lib, p, max)
  {
    RecordsStable(lib.serverName, p, q, [], max);
  }

  lemma VerdictStable(lib: Library, p: Bytes, q: Bytes, hasRaw: bool, max: int)
    requires p <= q && !Inspect(lib, p, hasRaw, max).NeedMore?
    requires LooksLikeTls(p) ==> LooksLikeTls(q)
    requires Inspect(lib, p, hasRaw, max) != Reject(HeadersTooLong)
    ensures Inspect(lib, q, hasRaw, max) == Inspect(lib, p, hasRaw, max)
  {
    if LooksLikeTls(p) {
      TlsVerdictStable(lib, p, q, max);
    } else {
      NotTlsIsFinal(p, q);
      PrefaceDecided(p, q);
      if PREFACE <= p {
      } else if PossibleHttp1(p) {
        Http1Stable(lib, p, q, max);
      } else {
        MethodScanStable(p, q, 0);
      }
    }
  }

  lemma ShortTls(lib: Library, p: Bytes, hasRaw: bool, max: int)
    requires LooksLikeTls(p) && |p| < 6 && !Inspect(lib, p, hasRaw, max).NeedMore?
    ensures |p| == 5 && Inspect(lib, p, hasRaw, max) == Reject(BadTls(BadRecordLength))
  {
  }

  /** An accepted prefix fixes the classification of every extension. */
  lemma AcceptStable(lib: Library, p: Bytes, q: Bytes, hasRaw: bool, max: int)
    requires p <= q && Inspect(lib, p, hasRaw, max).Accept?
    ensures Inspect(lib, q, hasRaw, max) == Inspect(lib, p, hasRaw, max)
  {
    if LooksLikeTls(p) {
      if |p| < 6 {
        ShortTls(lib, p, hasRaw, max);
      }
      TlsIsFinal(p, q);
    }
    VerdictStable(lib, p, q, hasRaw, max);
  }

  /** Five bytes of a TLS header whose record length is already impossible. */
  predicate HastyHeader(data: Bytes) {
    && |data| == 5 && LooksLikeTls(data)
    && (U16(data[3], data[4]) < 1 || U16(data[3], data[4]) > MAX_RECORD)
  }

  /** Below the inspection limit a rejection fixes every extension too, the hasty header apart. */
  lemma RejectStable(lib: Library, p: Bytes, q: Bytes, hasRaw: bool, max: int)
    requires p <= q && |p| < max && Inspect(lib, p, hasRaw, max).Reject? && !HastyHeader(p)
    ensures Inspect(lib, q, hasRaw, max) == Inspect(lib, p, hasRaw, max)
  {
    if LooksLikeTls(p) {
      if |p| < 6 {
        ShortTls(lib, p, hasRaw, max);
      }
      TlsIsFinal(p, q);
    }
    VerdictStable(lib, p, q, hasRaw, max);
  }

  lemma HastyIsRejected(lib: Library, p: Bytes, hasRaw: bool, max: int)
    requires HastyHeader(p)
    ensures Inspect(lib, p, hasRaw, max) == Reject(BadTls(BadRecordLength))
  {
  }

  /** A hasty header is overruled by a sixth byte that is not a ClientHello. */
  lemma HastyOverruled(lib: Library, q: Bytes, hasRaw: bool, max: int)
    requires |q| >= 6 && HastyHeader(q[..5]) && q[5] != CLIENT_HELLO
    ensures Inspect(lib, q, hasRaw, max) == if hasRaw then Accept(Raw) else Reject(NoMatch)
  {
    assert q[0] == q[..5][0] == HANDSHAKE;
    assert !LooksLikeTls(q);
    assert PREFACE[0] == 0x50;
    assert q[0] != PREFACE[0];
  }

  /** A hasty header is confirmed by a sixth byte that is a ClientHello. */
  lemma HastyConfirmed(lib: Library, q: Bytes, hasRaw: bool, max: int)
    requires |q| >= 6 && HastyHeader(q[..5]) && q[5] == CLIENT_HELLO
    ensures Inspect(lib, q, hasRaw, max) == Reject(BadTls(BadRecordLength))
  {
    assert forall i | 0 <= i < 5 :: q[i] == q[..5][i];
  }

  /** When a rejection below the limit is final: always, unless raw traffic may still claim a hasty header. */
  lemma RejectIsFinalIff(lib: Library, p: Bytes, hasRaw: bool, max: int)
    requires |p| < max && Inspect(lib, p, hasRaw, max).Reject?
    ensures (forall q | p <= q :: Inspect(lib, q, hasRaw, max).Reject?) <==> !(HastyHeader(p) && hasRaw)
  {
    if HastyHeader(p) {
      var q := p + [0];
      assert q[..5] == p;
      HastyOverruled(lib, q, hasRaw, max);
      if !hasRaw {
        forall q | p <= q ensures Inspect(lib, q, hasRaw, max).Reject? {
          if |q| == 5 {
            assert q == p;
          } else {
            assert q[..5] == p;
            if q[5] == CLIENT_HELLO {
              HastyConfirmed(lib, q, hasRaw, max);
            } else {
              HastyOverruled(lib, q, hasRaw, max);
            }
          }
        }
      }
    } else {
      forall q | p <= q ensures Inspect(lib, q, hasRaw, max).Reject? {
        RejectStable(lib, p, q, hasRaw, max);
      }
    }
  }

  // ---------------------------------------------------------------- the read loop

  /** How a connection stops delivering bytes. */
  datatype Ending = Eof | Failed

  /** Sizes of the successive reads, before clamping. */
  type Schedule = nat -> nat

  const READ_BUFFER := 4096

  /** A client connection: the bytes that will still arrive, and how reads cut them. */
  class Conn {
    const schedule: Schedule
    const ending: Ending
    var pending: Bytes
    var readCount: nat

    constructor (stream: Bytes, schedule: Schedule, ending: Ending)
      ensures pending == stream && readCount == 0 && this.schedule == schedule && this.ending == ending
    {
      this.schedule, this.ending, this.pending, this.readCount := schedule, ending, stream, 0;
    }

    /** One Read call: between 1 and `limit` of the pending bytes, or the ending. */
    method Read(limit: nat) returns (chunk: Option<Bytes>)
      requires limit >= 1
      modifies this
      ensures readCount == old(readCount) + 1
      ensures old(pending) == [] ==> chunk == None && pending == []
      ensures old(pending) != [] ==>
                var n := ReadSize(schedule, old(readCount), limit, |old(pending)|);
                chunk == Some(old(pending)[..n]) && pending == old(pending)[n..]
    {
      if pending == [] {
        chunk := None;
      } else {
        var n := ReadSize(schedule, readCount, limit, |pending|);
        chunk := Some(pending[..n]);
        pending := pending[n..];
      }
      readCount := readCount + 1;
    }
  }

  function Min(a: int, b: int): int {
    if a < b then a else b
  }

  function ReadSize(schedule: Schedule, read: nat, limit: nat, available: nat): (n: nat)
    requires limit >= 1 && available >= 1
    ensures 1 <= n <= limit && n <= available
  {
    var wanted := schedule(read);
    if wanted < 1 then 1 else Min(wanted, Min(limit, available))
  }

  datatype Outcome = Decided(classification: Classification) | Refused(refusal: Refusal) | ReadFailed | Exceeded

  /** How the loop ends on `buffer` when it reads no more. */
  function Stopped(inspection: Inspection, ending: Ending, hasRaw: bool, buffered: nat): Outcome {
    match inspection
    case Reject(refusal) => Refused(refusal)
    case Accept(classification) => Decided(classification)
    case NeedMore => if ending == Eof && buffered > 0 && hasRaw then Decided(Raw) else ReadFailed
  }

  function Inspector(lib: Library, hasRaw: bool, max: int): Bytes -> Inspection {
    (data: Bytes) => Inspect(lib, data, hasRaw, max)
  }

  /** What classify returns and how many bytes it consumed, from `pos` consumed bytes and `read` reads on. */
  function Run(inspect: Bytes -> Inspection, stream: Bytes, pos: nat, schedule: Schedule, read: nat, ending: Ending,
               hasRaw: bool, max: int)
    : (r: (Outcome, nat))
    requires pos <= |stream|
    ensures pos <= r.1 <= |stream|
    decreases |stream| - pos
  {
    if pos >= max then (Exceeded, pos)
    else if pos == |stream| || !inspect(stream[..pos]).NeedMore? then
      (Stopped(inspect(stream[..pos]), ending, hasRaw, pos), pos)
    else
      var n := ReadSize(schedule, read, Min(READ_BUFFER, max - pos), |stream| - pos);
      Run(inspect, stream, pos + n, schedule, read + 1, ending, hasRaw, max)
  }

  /** inspectPrefix. */
  method InspectPrefix(lib: Library, data: Bytes, hasRaw: bool, max: int) returns (r: Inspection)
    ensures r == Inspect(lib, data, hasRaw, max)
  {
    if |data| == 0 {
      return NeedMore;
    }
    if LooksLikeTls(data) {
      var p := ParseClientHelloSNI(lib.serverName, data, max);
      match p {
        case Malformed(e) => return Reject(BadTls(e));
        case Incomplete => return NeedMore;
        case Complete(sni) => return Accept(Tls(sni));
      }
    }
    if |data| < |PREFACE| {
      if data <= PREFACE {
        return NeedMore;
      }
    } else if PREFACE <= data {
      return Accept(Http2);
    }
    var http := IsPossibleHTTP1Prefix(data);
    if http {
      var end := BlankLine(data, 0);
      if end.Some? {
        var parsed := lib.selector(data[..end.value + 4]);
        if parsed.None? {
          return Reject(BadHttp);
        }
        return Accept(Http1(parsed.value.0, parsed.value.1));
      }
      if |data| >= max {
        return Reject(HeadersTooLong);
      }
      return NeedMore;
    }
    if hasRaw {
      return Accept(Raw);
    }
    return Reject(NoMatch);
  }

  /** From `pos` consumed bytes and `read` reads on, the loop ends as `goal` says. */
  ghost predicate OnTrack(inspect: Bytes -> Inspection, stream: Bytes, pos: nat, schedule: Schedule, read: nat,
                          ending: Ending, hasRaw: bool, max: int,
                          goal: (Outcome, nat))
  {
    pos <= |stream| && Run(inspect, stream, pos, schedule, read, ending, hasRaw, max) == goal
  }

  lemma TurnStops(inspect: Bytes -> Inspection, stream: Bytes, buffer: Bytes, schedule: Schedule, read: nat,
                  ending: Ending, hasRaw: bool, max: int,
                  goal: (Outcome, nat))
    requires buffer <= stream && |buffer| < max
    requires buffer == stream || !inspect(buffer).NeedMore?
    requires OnTrack(inspect, stream, |buffer|, schedule, read, ending, hasRaw, max, goal)
    ensures goal == (Stopped(inspect(buffer), ending, hasRaw, |buffer|), |buffer|)
  {
    assert stream[..|buffer|] == buffer;
  }

  lemma TurnReads(inspect: Bytes -> Inspection, stream: Bytes, buffer: Bytes, pending: Bytes, schedule: Schedule,
                  read: nat, ending: Ending, hasRaw: bool, max: int, next: Bytes, rest: Bytes,
                  goal: (Outcome, nat))
    requires stream == buffer + pending && |buffer| < max && pending != []
    requires inspect(buffer).NeedMore?
    requires var n := ReadSize(schedule, read, Min(READ_BUFFER, max - |buffer|), |pending|);
             next == buffer + pending[..n] && rest == pending[n..]
    requires OnTrack(inspect, stream, |buffer|, schedule, read, ending, hasRaw, max, goal)
    ensures stream == next + rest && |next| > |buffer|
    ensures OnTrack(inspect, stream, |next|, schedule, read + 1, ending, hasRaw, max, goal)
  {
    assert stream[..|buffer|] == buffer;
  }

  /** The read half of one turn of classify's loop: the loop ends, or the buffer grows. */
  method ReadMore(conn: Conn, buffer: Bytes, hasRaw: bool, max: int) returns (done: Option<Outcome>, next: Bytes)
    requires |buffer| < max
    modifies conn
    ensures conn.readCount == old(conn.readCount) + 1
    ensures old(conn.pending) == [] ==>
      done == Some(Stopped(NeedMore, conn.ending, hasRaw, |buffer|)) && next == buffer && conn.pending == []
    ensures old(conn.pending) != [] ==>
      var n := ReadSize(conn.schedule, old(conn.readCount), Min(READ_BUFFER, max - |buffer|), |old(conn.pending)|);
      done == None && next == buffer + old(conn.pending)[..n] && conn.pending == old(conn.pending)[n..]
  {
    var chunk := conn.Read(Min(READ_BUFFER, max - |buffer|));
    if chunk.None? {
      if conn.ending == Eof && |buffer| > 0 && hasRaw {
        return Some(Decided(Raw)), buffer;
      }
      return Some(ReadFailed), buffer;
    }
    done, next := None, buffer + chunk.value;
  }

  /** classify: the returned buffer is exactly what was consumed, so replaying it loses nothing. */
  method Classify(lib: Library, conn: Conn, hasRaw: bool, max: int) returns (outcome: Outcome, buffer: Bytes)
    modifies conn
    ensures (outcome, |buffer|)
      == Run(Inspector(lib, hasRaw, max), old(conn.pending), 0, conn.schedule, old(conn.readCount), conn.ending, hasRaw,
             max)
    ensures buffer + conn.pending == old(conn.pending)
  {
    ghost var stream, inspect := conn.pending, Inspector(lib, hasRaw, max);
    ghost var goal := Run(inspect, stream, 0, conn.schedule, conn.readCount, conn.ending, hasRaw, max);
    buffer := [];
    while |buffer| < max
      invariant stream == buffer + conn.pending
      invariant OnTrack(inspect, stream, |buffer|, conn.schedule, conn.readCount, conn.ending, hasRaw, max, goal)
      decreases |stream| - |buffer|
    {
      var inspection := InspectPrefix(lib, buffer, hasRaw, max);
      if !inspection.NeedMore? {
        TurnStops(inspect, stream, buffer, conn.schedule, conn.readCount, conn.ending, hasRaw, max, goal);
        return if inspection.Reject? then Refused(inspection.refusal) else Decided(inspection.classification), buffer;
      }
      ghost var before, pending, read := buffer, conn.pending, conn.readCount;
      var done;
      done, buffer := ReadMore(conn, buffer, hasRaw, max);
      if done.Some? {
        TurnStops(inspect, stream, before, conn.schedule, read, conn.ending, hasRaw, max, goal);
        return done.value, buffer;
      }
      TurnReads(inspect, stream, before, pending, conn.schedule, read, conn.ending, hasRaw, max, buffer, conn.pending,
                goal);
    }
    return Exceeded, buffer;
  }

  // ---------------------------------------------------------------- independence of the schedule

  /** The stream opens with a hasty header that its sixth byte overrules. */
  predicate Treacherous(stream: Bytes) {
    |stream| >= 6 && HastyHeader(stream[..5]) && stream[5] != CLIENT_HELLO
  }

  /** The verdict on the whole stream, read in one piece. */
  function WholeStream(lib: Library, stream: Bytes, ending: Ending, hasRaw: bool, max: int): Outcome {
    match Inspect(lib, stream, hasRaw, max)
    case Reject(refusal) => Refused(refusal)
    case Accept(classification) => Decided(classification)
    case NeedMore => if ending == Eof && stream != [] && hasRaw then Decided(Raw) else ReadFailed
  }

  lemma PrefixVerdict(lib: Library, stream: Bytes, pos: nat, hasRaw: bool, max: int)
    requires pos <= |stream| && pos < max && !Treacherous(stream)
    requires !Inspect(lib, stream[..pos], hasRaw, max).NeedMore?
    ensures Inspect(lib, stream, hasRaw, max) == Inspect(lib, stream[..pos], hasRaw, max)
  {
    var p := stream[..pos];
    if Inspect(lib, p, hasRaw, max).Accept? {
      AcceptStable(lib, p, stream, hasRaw, max);
    } else if HastyHeader(p) {
      HastyIsRejected(lib, p, hasRaw, max);
      if |stream| == 5 {
        assert p == stream;
      } else {
        HastyConfirmed(lib, stream, hasRaw, max);
      }
    } else {
      RejectStable(lib, p, stream, hasRaw, max);
    }
  }

  /** Every schedule that stays within the limit reaches the verdict on the whole stream. */
  lemma {:induction false} RunReachesVerdict(lib: Library, stream: Bytes, pos: nat, schedule: Schedule, read: nat,
                                             ending: Ending, hasRaw: bool, max: int)
    requires pos <= |stream| && !Treacherous(stream)
    ensures var outcome := Run(Inspector(lib, hasRaw, max), stream, pos, schedule, read, ending, hasRaw, max).0;
            outcome == Exceeded || outcome == WholeStream(lib, stream, ending, hasRaw, max)
    ensures |stream| < max ==>
      Run(Inspector(lib, hasRaw, max), stream, pos, schedule, read, ending, hasRaw, max).0 != Exceeded
    decreases |stream| - pos
  {
    if pos < max {
      if Inspect(lib, stream[..pos], hasRaw, max).NeedMore? {
        if pos == |stream| {
          assert stream[..pos] == stream;
        } else {
          var n := ReadSize(schedule, read, Min(READ_BUFFER, max - pos), |stream| - pos);
          RunReachesVerdict(lib, stream, pos + n, schedule, read + 1, ending, hasRaw, max);
        }
      } else {
        PrefixVerdict(lib, stream, pos, hasRaw, max);
      }
    }
  }

  function Verdict(lib: Library, stream: Bytes, schedule: Schedule, ending: Ending, hasRaw: bool, max: int): Outcome {
    Run(Inspector(lib, hasRaw, max), stream, 0, schedule, 0, ending, hasRaw, max).0
  }

  /** Any two schedules of one stream that end within the limit end in the same verdict. */
  lemma SchedulesAgreeWithinLimit(lib: Library, stream: Bytes, s: Schedule, t: Schedule, ending: Ending, hasRaw: bool,
                                  max: int)
    requires !Treacherous(stream)
    requires Verdict(lib, stream, s, ending, hasRaw, max) != Exceeded
    requires Verdict(lib, stream, t, ending, hasRaw, max) != Exceeded
    ensures Verdict(lib, stream, s, ending, hasRaw, max) == Verdict(lib, stream, t, ending, hasRaw, max)
  {
    RunReachesVerdict(lib, stream, 0, s, 0, ending, hasRaw, max);
    RunReachesVerdict(lib, stream, 0, t, 0, ending, hasRaw, max);
  }

  /** The outcome when the first read stops at `n`. */
  lemma FirstRead(lib: Library, stream: Bytes, n: nat, ending: Ending, hasRaw: bool, max: int)
    requires 1 <= n <= |stream| && n <= max && n <= READ_BUFFER
    requires n < max ==> !Inspect(lib, stream[..n], hasRaw, max).NeedMore?
    ensures Verdict(lib, stream, k => n, ending, hasRaw, max)
         == if n == max then Exceeded else Stopped(Inspect(lib, stream[..n], hasRaw, max), ending, hasRaw, n)
  {
    var s: Schedule := k => n;
    assert stream[..0] == [];
    assert ReadSize(s, 0, Min(READ_BUFFER, max), |stream|) == n;
    assert Run(Inspector(lib, hasRaw, max), stream, 0, s, 0, ending, hasRaw, max)
      == Run(Inspector(lib, hasRaw, max), stream, n, s, 1, ending, hasRaw, max);
  }

  /** Some inspection the loop may make, of the first `n` bytes, decides. */
  predicate DecidedAt(lib: Library, stream: Bytes, n: nat, hasRaw: bool, max: int) {
    n <= |stream| && n < max && !Inspect(lib, stream[..n], hasRaw, max).NeedMore?
  }

  ghost predicate Decidable(lib: Library, stream: Bytes, hasRaw: bool, max: int) {
    exists n: nat :: DecidedAt(lib, stream, n, hasRaw, max)
  }

  /** Decided so early that no read from an undecided buffer can run into the limit. */
  ghost predicate DecidedEarly(lib: Library, stream: Bytes, hasRaw: bool, max: int) {
    exists n: nat :: DecidedAt(lib, stream, n, hasRaw, max) && n + READ_BUFFER <= max
  }

  /** An undecidable stream ends by its length and its ending alone. */
  lemma {:induction false} UndecidableRuns(lib: Library, stream: Bytes, pos: nat, schedule: Schedule, read: nat,
                                           ending: Ending, hasRaw: bool, max: int)
    requires pos <= |stream| && forall n: nat :: !DecidedAt(lib, stream, n, hasRaw, max)
    ensures Run(Inspector(lib, hasRaw, max), stream, pos, schedule, read, ending, hasRaw, max).0
         == if |stream| >= max then Exceeded else Stopped(NeedMore, ending, hasRaw, |stream|)
    decreases |stream| - pos
  {
    assert !DecidedAt(lib, stream, pos, hasRaw, max);
    if pos < max && pos < |stream| {
      var n := ReadSize(schedule, read, Min(READ_BUFFER, max - pos), |stream| - pos);
      UndecidableRuns(lib, stream, pos + n, schedule, read + 1, ending, hasRaw, max);
    }
  }

  /** Decisions last: past a decided prefix every prefix is decided. */
  lemma DecidedStays(lib: Library, stream: Bytes, n: nat, pos: nat, hasRaw: bool, max: int)
    requires !Treacherous(stream) && DecidedAt(lib, stream, n, hasRaw, max) && n <= pos <= |stream| && pos < max
    ensures DecidedAt(lib, stream, pos, hasRaw, max)
  {
    var p := stream[..pos];
    assert p[..n] == stream[..n];
    assert |p| >= 5 ==> p[..5] == stream[..5];
    PrefixVerdict(lib, p, n, hasRaw, max);
  }

  lemma {:induction false} EarlyRuns(inspect: Bytes -> Inspection, stream: Bytes, n: nat, pos: nat, schedule: Schedule,
                                     read: nat, ending: Ending, hasRaw: bool, max: int)
    requires n + READ_BUFFER <= max && pos <= |stream| && pos < max
    requires forall k | n <= k <= |stream| && k < max :: !inspect(stream[..k]).NeedMore?
    ensures Run(inspect, stream, pos, schedule, read, ending, hasRaw, max).0 != Exceeded
    decreases |stream| - pos
  {
    if pos < |stream| && inspect(stream[..pos]).NeedMore? {
      var k := ReadSize(schedule, read, Min(READ_BUFFER, max - pos), |stream| - pos);
      EarlyRuns(inspect, stream, n, pos + k, schedule, read + 1, ending, hasRaw, max);
    }
  }

  /** A stream decided early is never exceeded, however it goes on. */
  lemma EarlyIsNeverExceeded(lib: Library, stream: Bytes, n: nat, schedule: Schedule, ending: Ending, hasRaw: bool,
                             max: int)
    requires !Treacherous(stream) && DecidedAt(lib, stream, n, hasRaw, max) && n + READ_BUFFER <= max
    ensures Verdict(lib, stream, schedule, ending, hasRaw, max) != Exceeded
  {
    forall k | n <= k <= |stream| && k < max ensures !Inspector(lib, hasRaw, max)(stream[..k]).NeedMore? {
      DecidedStays(lib, stream, n, k, hasRaw, max);
    }
    EarlyRuns(Inspector(lib, hasRaw, max), stream, n, 0, schedule, 0, ending, hasRaw, max);
  }

  lemma {:induction false} SlowRuns(inspect: Bytes -> Inspection, stream: Bytes, n: nat, pos: nat, read: nat,
                                    ending: Ending, hasRaw: bool, max: int)
    requires pos <= n <= |stream| && n < max && !inspect(stream[..n]).NeedMore?
    ensures Run(inspect, stream, pos, k => 1, read, ending, hasRaw, max).0 != Exceeded
    decreases n - pos
  {
    if pos < n && inspect(stream[..pos]).NeedMore? {
      var s: Schedule := k => 1;
      assert ReadSize(s, read, Min(READ_BUFFER, max - pos), |stream| - pos) == 1;
      SlowRuns(inspect, stream, n, pos + 1, read + 1, ending, hasRaw, max);
    }
  }

  /** Reading byte by byte never misses a decision. */
  lemma SlowReadsDecide(lib: Library, stream: Bytes, n: nat, ending: Ending, hasRaw: bool, max: int)
    requires DecidedAt(lib, stream, n, hasRaw, max)
    ensures Verdict(lib, stream, k => 1, ending, hasRaw, max) != Exceeded
  {
    SlowRuns(Inspector(lib, hasRaw, max), stream, n, 0, 0, ending, hasRaw, max);
  }

  /** Byte by byte up to the last undecided byte, then as much as fits. */
  function LateSchedule(d: nat): Schedule {
    k => if k + 1 < d then 1 else READ_BUFFER
  }

  /** A late decision can be jumped over, straight into the limit. */
  lemma {:induction false} LateReadsExceed(lib: Library, stream: Bytes, d: nat, pos: nat, ending: Ending, hasRaw: bool,
                                           max: int)
    requires pos < d <= max <= |stream| && d + READ_BUFFER > max
    requires forall n: nat | n < d :: !DecidedAt(lib, stream, n, hasRaw, max)
    ensures Run(Inspector(lib, hasRaw, max), stream, pos, LateSchedule(d), pos, ending, hasRaw, max).0 == Exceeded
    decreases d - pos
  {
    assert !DecidedAt(lib, stream, pos, hasRaw, max);
    var n := ReadSize(LateSchedule(d), pos, Min(READ_BUFFER, max - pos), |stream| - pos);
    if pos + 1 < d {
      assert n == 1;
      LateReadsExceed(lib, stream, d, pos + 1, ending, hasRaw, max);
    } else {
      assert pos + n == max;
    }
  }

  lemma {:induction false} FirstDecision(lib: Library, stream: Bytes, n: nat, hasRaw: bool, max: int) returns (d: nat)
    requires DecidedAt(lib, stream, n, hasRaw, max)
    ensures 0 < d <= n && DecidedAt(lib, stream, d, hasRaw, max)
    ensures forall k: nat | k < d :: !DecidedAt(lib, stream, k, hasRaw, max)
  {
    assert stream[..0] == [];
    d := n;
    while exists k: nat :: k < d && DecidedAt(lib, stream, k, hasRaw, max)
      invariant 0 < d <= n && DecidedAt(lib, stream, d, hasRaw, max)
      decreases d
    {
      var k: nat :| k < d && DecidedAt(lib, stream, k, hasRaw, max);
      d := k;
    }
  }

  ghost predicate AllAgree(lib: Library, stream: Bytes, ending: Ending, hasRaw: bool, max: int) {
    forall s: Schedule, t: Schedule ::
      Verdict(lib, stream, s, ending, hasRaw, max) == Verdict(lib, stream, t, ending, hasRaw, max)
  }

  lemma TreacherousDisagrees(lib: Library, stream: Bytes, n: nat, ending: Ending, hasRaw: bool, max: int)
    requires Treacherous(stream) && DecidedAt(lib, stream, n, hasRaw, max)
    ensures !AllAgree(lib, stream, ending, hasRaw, max)
  {
    if n < 5 {
      ShortTls(lib, stream[..n], hasRaw, max);
      assert false;
    }
    var five, six: Schedule := k => 5, k => 6;
    HastyIsRejected(lib, stream[..5], hasRaw, max);
    FirstRead(lib, stream, 5, ending, hasRaw, max);
    assert stream[..6][..5] == stream[..5];
    HastyOverruled(lib, stream[..6], hasRaw, max);
    FirstRead(lib, stream, 6, ending, hasRaw, max);
    assert Verdict(lib, stream, five, ending, hasRaw, max) != Verdict(lib, stream, six, ending, hasRaw, max);
  }

  lemma LateDecisionDisagrees(lib: Library, stream: Bytes, n: nat, ending: Ending, hasRaw: bool, max: int)
    requires DecidedAt(lib, stream, n, hasRaw, max) && max <= |stream| && !DecidedEarly(lib, stream, hasRaw, max)
    ensures !AllAgree(lib, stream, ending, hasRaw, max)
  {
    var d := FirstDecision(lib, stream, n, hasRaw, max);
    var slow: Schedule := k => 1;
    LateReadsExceed(lib, stream, d, 0, ending, hasRaw, max);
    SlowReadsDecide(lib, stream, d, ending, hasRaw, max);
    assert Verdict(lib, stream, slow, ending, hasRaw, max)
      != Verdict(lib, stream, LateSchedule(d), ending, hasRaw, max);
  }

  /**
    When all schedules of a stream agree, for every stream and limit: when no inspection below the
    limit decides, or the stream is not treacherous and is either shorter than the limit or decided
    a whole read buffer before it.
  */
  lemma SchedulesAgreeIff(lib: Library, stream: Bytes, ending: Ending, hasRaw: bool, max: int)
    ensures AllAgree(lib, stream, ending, hasRaw, max) <==>
      || !Decidable(lib, stream, hasRaw, max)
      || (!Treacherous(stream) && (|stream| < max || DecidedEarly(lib, stream, hasRaw, max)))
  {
    if !Decidable(lib, stream, hasRaw, max) {
      forall s: Schedule, t: Schedule
        ensures Verdict(lib, stream, s, ending, hasRaw, max) == Verdict(lib, stream, t, ending, hasRaw, max)
      {
        UndecidableRuns(lib, stream, 0, s, 0, ending, hasRaw, max);
        UndecidableRuns(lib, stream, 0, t, 0, ending, hasRaw, max);
      }
    } else {
      var n: nat :| DecidedAt(lib, stream, n, hasRaw, max);
      if Treacherous(stream) {
        TreacherousDisagrees(lib, stream, n, ending, hasRaw, max);
      } else if |stream| >= max && !DecidedEarly(lib, stream, hasRaw, max) {
        LateDecisionDisagrees(lib, stream, n, ending, hasRaw, max);
      } else {
        WithinLimitAgrees(lib, stream, ending, hasRaw, max);
      }
    }
  }

  lemma WithinLimitAgrees(lib: Library, stream: Bytes, ending: Ending, hasRaw: bool, max: int)
    requires !Treacherous(stream) && (|stream| < max || DecidedEarly(lib, stream, hasRaw, max))
    ensures AllAgree(lib, stream, ending, hasRaw, max)
  {
    forall s: Schedule
      ensures Verdict(lib, stream, s, ending, hasRaw, max) == WholeStream(lib, stream, ending, hasRaw, max)
    {
      RunReachesVerdict(lib, stream, 0, s, 0, ending, hasRaw, max);
      if |stream| >= max {
        var n: nat :| DecidedAt(lib, stream, n, hasRaw, max) && n + READ_BUFFER <= max;
        EarlyIsNeverExceeded(lib, stream, n, s, ending, hasRaw, max);
      }
    }
  }

  /** Raw traffic longer than a small limit: decided by its first byte, or exceeded by one big read. */
  lemma LongRawStreamDisagrees(lib: Library, stream: Bytes, ending: Ending, max: int)
    requires 1024 <= max <= READ_BUFFER && max <= |stream| && stream[0] == 0
    ensures Verdict(lib, stream, k => 1, ending, true, max) == Decided(Raw)
    ensures Verdict(lib, stream, k => max, ending, true, max) == Exceeded
  {
    assert PREFACE[0] == 0x50;
    assert Inspect(lib, stream[..1], true, max) == Accept(Raw);
    FirstRead(lib, stream, 1, ending, true, max);
    FirstRead(lib, stream, max, ending, true, max);
  }
}
