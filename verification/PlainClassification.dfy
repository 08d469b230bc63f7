/**
  The kinds of traffic other than TLS, told from the bytes (internal/frontmux/classifier.go): the HTTP/2
  preface, HTTP/1 requests, and raw traffic, which is what can no longer become anything else.
*/
module PlainClassification {
  import opened Wrappers
  import opened TlsHello
  import opened Classifier

  // ---------------------------------------------------------------- a decision and the reads

  /** How a connection ends that is decided by an inspection. */
  function EndOf(inspection: Inspection): Outcome
    requires !inspection.NeedMore?
  {
    match inspection
    case Accept(c) => Decided(c)
    case Reject(refusal) => Refused(refusal)
  }

  /** The bytes decide, as whatever follows, and nothing shorter does below the limit. */
  ghost predicate DecidesFirst(lib: Library, s: Bytes, tail: Bytes, hasRaw: bool, max: int) {
    && !Inspect(lib, s, hasRaw, max).NeedMore? && Inspect(lib, s + tail, hasRaw, max) == Inspect(lib, s, hasRaw, max)
    && !Treacherous(s + tail)
    && forall cut | cut < s && |cut| < max :: Inspect(lib, cut, hasRaw, max).NeedMore?
  }

  lemma DecidedWhere(lib: Library, s: Bytes, tail: Bytes, n: nat, hasRaw: bool, max: int)
    requires DecidesFirst(lib, s, tail, hasRaw, max) && n <= |s|
    ensures DecidedAt(lib, s + tail, n, hasRaw, max) <==> n == |s| < max
  {
    assert (s + tail)[..n] == s[..n];
    if n < |s| {
      assert s[..n] < s;
    } else {
      assert s[..n] == s;
    }
  }

  /**
    Every schedule of such a stream ends as the bytes decide or at the limit, and all of them as the bytes
    decide exactly when the stream stays below the limit or decides a read buffer before it.
  */
  lemma DecidedIff(lib: Library, s: Bytes, tail: Bytes, ending: Ending, hasRaw: bool, max: int)
    requires DecidesFirst(lib, s, tail, hasRaw, max) && s != []
    ensures forall schedule ::
      var verdict := Verdict(lib, s + tail, schedule, ending, hasRaw, max);
      verdict == Exceeded || verdict == EndOf(Inspect(lib, s, hasRaw, max))
    ensures (forall schedule ::
      Verdict(lib, s + tail, schedule, ending, hasRaw, max) == EndOf(Inspect(lib, s, hasRaw, max)))
       <==> |s| + |tail| < max || |s| + READ_BUFFER <= max
  {
    var stream, goal := s + tail, EndOf(Inspect(lib, s, hasRaw, max));
    forall schedule
      ensures Verdict(lib, stream, schedule, ending, hasRaw, max) in {Exceeded, goal}
      ensures |stream| < max || |s| + READ_BUFFER <= max ==> Verdict(lib, stream, schedule, ending, hasRaw, max) == goal
    {
      RunReachesVerdict(lib, stream, 0, schedule, 0, ending, hasRaw, max);
      if |stream| >= max && |s| + READ_BUFFER <= max {
        DecidedWhere(lib, s, tail, |s|, hasRaw, max);
        EarlyIsNeverExceeded(lib, stream, |s|, schedule, ending, hasRaw, max);
      }
    }
    if |stream| >= max && |s| + READ_BUFFER > max {
      LateCanExceed(lib, s, tail, ending, hasRaw, max);
    }
  }

  lemma LateCanExceed(lib: Library, s: Bytes, tail: Bytes, ending: Ending, hasRaw: bool, max: int)
    requires DecidesFirst(lib, s, tail, hasRaw, max) && s != []
    requires |s| + |tail| >= max && |s| + READ_BUFFER > max
    ensures exists schedule :: Verdict(lib, s + tail, schedule, ending, hasRaw, max) == Exceeded
  {
    if max <= 0 {
      assert Verdict(lib, s + tail, k => 1, ending, hasRaw, max) == Exceeded;
    } else {
      var d := Min(|s|, max);
      forall n: nat | n < d ensures !DecidedAt(lib, s + tail, n, hasRaw, max) {
        DecidedWhere(lib, s, tail, n, hasRaw, max);
      }
      LateReadsExceed(lib, s + tail, d, 0, ending, hasRaw, max);
      assert Verdict(lib, s + tail, LateSchedule(d), ending, hasRaw, max) == Exceeded;
    }
  }

  // ---------------------------------------------------------------- the HTTP/2 preface

  function Ascii(text: string): Bytes {
    seq(|text|, i requires 0 <= i < |text| => if text[i] as int < 256 then text[i] as int else 0)
  }

  /** The connection preface of section 3.4 of RFC 9113. */
  function Http2Preface(): Bytes {
    Ascii("PRI * HTTP/2.0\r\n\r\nSM\r\n\r\n")
  }

  lemma PrefaceIsText()
    ensures PREFACE == Http2Preface() && |Http2Preface()| == 24
  {
  }

  /** The preface waits up to its last byte, and with anything after it is HTTP/2. */
  lemma PrefaceInspected(lib: Library, tail: Bytes, hasRaw: bool, max: int)
    ensures Inspect(lib, Http2Preface() + tail, hasRaw, max) == Accept(Http2)
    ensures forall cut | cut < Http2Preface() :: Inspect(lib, cut, hasRaw, max) == NeedMore
  {
    PrefaceIsText();
    assert (Http2Preface() + tail)[0] == 0x50;
    assert PREFACE <= Http2Preface() + tail;
    forall cut | cut < Http2Preface() ensures Inspect(lib, cut, hasRaw, max) == NeedMore {
      assert cut != [] ==> cut[0] == 0x50;
    }
  }

  lemma PrefaceDecidesFirst(lib: Library, tail: Bytes, hasRaw: bool, max: int)
    ensures DecidesFirst(lib, Http2Preface(), tail, hasRaw, max)
    ensures Inspect(lib, Http2Preface(), hasRaw, max) == Accept(Http2)
  {
    PrefaceIsText();
    PrefaceInspected(lib, tail, hasRaw, max);
    PrefaceInspected(lib, [], hasRaw, max);
    assert Http2Preface() + [] == Http2Preface();
    assert (Http2Preface() + tail)[..5][0] == 0x50;
  }

  /** A client that opens with the preface is HTTP/2 under every schedule, exactly when that comes early enough. */
  lemma PrefaceClassified(lib: Library, tail: Bytes, ending: Ending, hasRaw: bool, max: int)
    ensures (forall schedule :: Verdict(lib, Http2Preface() + tail, schedule, ending, hasRaw, max) == Decided(Http2))
       <==> 24 + |tail| < max || 24 + 4096 <= max
  {
    PrefaceIsText();
    PrefaceDecidesFirst(lib, tail, hasRaw, max);
    DecidedIff(lib, Http2Preface(), tail, ending, hasRaw, max);
  }

  // ---------------------------------------------------------------- HTTP/1 requests

  /** A method of 3 to 15 capital letters and a space, and the first blank line at the very end. */
  predicate IsHead(head: Bytes, method_: nat) {
    && 3 <= method_ <= 15 && method_ + 5 <= |head|
    && (forall i | 0 <= i < method_ :: 0x41 <= head[i] <= 0x5a) && head[method_] == 0x20
    && EmptyLineAt(head, |head| - 4) && forall i: nat | i < |head| - 4 :: !EmptyLineAt(head, i)
  }

  /** The end of a line and an empty line. */
  predicate EmptyLineAt(data: Bytes, i: nat) {
    i + 4 <= |data| && data[i] == 0x0d && data[i + 1] == 0x0a && data[i + 2] == 0x0d && data[i + 3] == 0x0a
  }

  lemma EmptyLineIsBlank(data: Bytes, i: nat)
    ensures EmptyLineAt(data, i) <==> BlankAt(data, i)
  {
    if i + 4 <= |data| {
      assert data[i..i + 4] == [data[i], data[i + 1], data[i + 2], data[i + 3]];
    }
  }

  /** The head of a request, other than the one that opens the HTTP/2 preface. */
  predicate IsRequest(head: Bytes, method_: nat) {
    IsHead(head, method_) && !(head <= Http2Preface())
  }

  lemma HeadEnds(head: Bytes, method_: nat, tail: Bytes)
    requires IsHead(head, method_)
    ensures BlankLine(head + tail, 0) == Some(|head| - 4) && (head + tail)[..|head|] == head
  {
    var data := head + tail;
    EmptyLineIsBlank(data, |head| - 4);
    forall i: nat | i < |head| - 4 ensures !BlankAt(data, i) {
      EmptyLineIsBlank(data, i);
      assert !EmptyLineAt(head, i);
    }
  }

  lemma NoBlankLineYet(head: Bytes, method_: nat, cut: Bytes)
    requires IsHead(head, method_) && cut < head
    ensures BlankLine(cut, 0) == None
  {
    forall i: nat ensures !BlankAt(cut, i) {
      EmptyLineIsBlank(cut, i);
      assert EmptyLineAt(cut, i) ==> EmptyLineAt(head, i);
    }
  }

  lemma HeadIsPossible(head: Bytes, method_: nat, tail: Bytes)
    requires IsHead(head, method_)
    ensures PossibleHttp1(head + tail) && !LooksLikeTls(head + tail)
    ensures forall cut | cut < head :: PossibleHttp1(cut) && !LooksLikeTls(cut)
  {
    assert MethodAt(head + tail, method_);
    assert head + tail + [] == head + tail;
    PossibleIffExtendable(head + tail);
    forall cut | cut < head ensures PossibleHttp1(cut) && !LooksLikeTls(cut) {
      PossibleIffExtendable(cut);
      assert cut + head[|cut|..] == head;
      assert MethodAt(cut + head[|cut|..], method_);
      assert cut != [] ==> cut[0] == head[0];
    }
  }

  /** Neither the preface nor a part of it goes on to such a head. */
  lemma HeadIsNotPreface(head: Bytes, method_: nat, tail: Bytes)
    requires IsRequest(head, method_)
    ensures !(Http2Preface() <= head + tail) && !(head + tail <= Http2Preface())
  {
    PrefaceIsText();
    Prefixes(head, head + tail, Http2Preface());
    assert EmptyLineAt(Http2Preface(), 14);
    assert Http2Preface() <= head ==> EmptyLineAt(head, 14);
  }

  /** Of two beginnings of one text the shorter begins the longer. */
  lemma Prefixes(a: Bytes, whole: Bytes, b: Bytes)
    requires a <= whole
    ensures b <= whole ==> a <= b || b <= a
    ensures whole <= b ==> a <= b
  {
    assert b <= whole && |a| <= |b| ==> a == b[..|a|];
    assert b <= whole && |b| <= |a| ==> b == a[..|b|];
    assert whole <= b ==> a == b[..|a|];
  }

  /** A request in words: the selector's host and path, in their places, or its refusal. */
  function RequestVerdict(lib: Library, head: Bytes): Inspection {
    match lib.selector(head)
    case None => Reject(BadHttp)
    case Some(selector) => Accept(Http1(selector.0, selector.1))
  }

  /** A request waits up to the blank line; with it, and with anything after it, it is decided by the selector. */
  lemma RequestInspected(lib: Library, head: Bytes, method_: nat, tail: Bytes, hasRaw: bool, max: int)
    requires IsRequest(head, method_)
    ensures Inspect(lib, head + tail, hasRaw, max) == RequestVerdict(lib, head)
    ensures forall cut | cut < head && |cut| < max :: Inspect(lib, cut, hasRaw, max) == NeedMore
  {
    PrefaceIsText();
    HeadEnds(head, method_, tail);
    HeadIsPossible(head, method_, tail);
    HeadIsNotPreface(head, method_, tail);
    assert (head + tail)[..|head| - 4 + 4] == head;
    forall cut | cut < head && |cut| < max ensures Inspect(lib, cut, hasRaw, max) == NeedMore {
      NoBlankLineYet(head, method_, cut);
      HeadIsNotPreface(head, method_, []);
      assert PREFACE <= cut ==> Http2Preface() <= head + [];
    }
  }

  lemma RequestDecidesFirst(lib: Library, head: Bytes, method_: nat, tail: Bytes, hasRaw: bool, max: int)
    requires IsRequest(head, method_)
    ensures DecidesFirst(lib, head, tail, hasRaw, max) && Inspect(lib, head, hasRaw, max) == RequestVerdict(lib, head)
  {
    RequestInspected(lib, head, method_, tail, hasRaw, max);
    RequestInspected(lib, head, method_, [], hasRaw, max);
    assert head + [] == head;
    assert (head + tail)[..5][0] == head[0];
  }

  /** A request ends as its selector says under every schedule, exactly when its head comes early enough. */
  lemma RequestClassified(lib: Library, head: Bytes, method_: nat, tail: Bytes, ending: Ending, hasRaw: bool, max: int)
    requires IsRequest(head, method_)
    ensures var verdict := if lib.selector(head).None? then Refused(BadHttp)
                           else Decided(Http1(lib.selector(head).value.0, lib.selector(head).value.1));
      (forall schedule :: Verdict(lib, head + tail, schedule, ending, hasRaw, max) == verdict)
      <==> |head| + |tail| < max || |head| + 4096 <= max
  {
    RequestDecidesFirst(lib, head, method_, tail, hasRaw, max);
    DecidedIff(lib, head, tail, ending, hasRaw, max);
  }

  // ---------------------------------------------------------------- raw traffic

  /** The bytes begin a TLS record that begins a ClientHello. */
  predicate StartsTls(data: Bytes) {
    |data| >= 6 && data[0] == 0x16 && data[1] == 3 && data[2] <= 4 && data[5] == 1
  }

  ghost predicate StartsRequest(data: Bytes) {
    exists n: nat :: 3 <= n <= 15 && n < |data| && data[n] == 0x20 && forall i | 0 <= i < n :: 0x41 <= data[i] <= 0x5a
  }

  /** Some continuation of the bytes is TLS, the HTTP/2 preface or an HTTP/1 method. */
  ghost predicate CanBecomeOther(data: Bytes) {
    exists more: Bytes :: StartsTls(data + more) || Http2Preface() <= data + more || StartsRequest(data + more)
  }

  lemma CanBecomeTlsIff(data: Bytes)
    requires data != [] && !(|data| == 2 && data[0] == 0x16)
    ensures LooksLikeTls(data) <==> exists more: Bytes :: StartsTls(data + more)
  {
    if LooksLikeTls(data) {
      var whole: Bytes := [0x16, 3, if |data| >= 3 then data[2] else 1, if |data| >= 4 then data[3] else 0,
                           if |data| >= 5 then data[4] else 1, 1];
      var more := if |data| < 6 then whole[|data|..] else [];
      assert |data| < 6 ==> data == whole[..|data|];
      assert StartsTls(data + more);
    }
    if more: Bytes :| StartsTls(data + more) {
      assert forall i | 0 <= i < |data| && i < 6 :: data[i] == (data + more)[i];
    }
  }

  lemma CanBecomePrefaceIff(data: Bytes)
    ensures (|data| < |PREFACE| && data <= PREFACE) || PREFACE <= data <==>
      exists more: Bytes :: Http2Preface() <= data + more
  {
    PrefaceIsText();
    if |data| < |PREFACE| && data <= PREFACE {
      assert data + PREFACE[|data|..] == PREFACE;
    } else if PREFACE <= data {
      assert data + [] == data;
    }
    if more: Bytes :| Http2Preface() <= data + more {
      if |data| < 24 {
        assert data == PREFACE[..|data|];
      } else {
        assert PREFACE == data[..24];
      }
    }
  }

  lemma CanBecomeRequestIff(data: Bytes)
    ensures PossibleHttp1(data) <==> exists more: Bytes :: StartsRequest(data + more)
  {
    PossibleIffExtendable(data);
    if more: Bytes, n: nat :| MethodAt(data + more, n) {
      assert StartsRequest(data + more);
    }
    if more: Bytes :| StartsRequest(data + more) {
      var n: nat :| 3 <= n <= 15 && n < |data + more| && (data + more)[n] == 0x20
                    && forall i | 0 <= i < n :: 0x41 <= (data + more)[i] <= 0x5a;
      assert MethodAt(data + more, n);
    }
  }

  /** Two bytes of which the second is not looked at yet: a TLS record is expected after the first. */
  predicate HalfTls(data: Bytes) {
    |data| == 2 && data[0] == 0x16
  }

  /**
    What can become nothing else is raw, exactly when the group has a raw route, and refused if it has
    none; two bytes after the first of TLS are waited for. Nothing else is ever raw.
  */
  lemma RawInspectedIff(lib: Library, data: Bytes, hasRaw: bool, max: int)
    ensures Inspect(lib, data, hasRaw, max) == Accept(Raw) <==>
      hasRaw && data != [] && !HalfTls(data) && !CanBecomeOther(data)
    ensures Inspect(lib, data, hasRaw, max) == Reject(NoMatch) <==>
      !hasRaw && data != [] && !HalfTls(data) && !CanBecomeOther(data)
  {
    if data != [] && !HalfTls(data) {
      CanBecomeTlsIff(data);
      CanBecomePrefaceIff(data);
      CanBecomeRequestIff(data);
      CanBecomeIff(data);
    }
  }

  lemma CanBecomeIff(data: Bytes)
    ensures CanBecomeOther(data) <==>
      || (exists more: Bytes :: StartsTls(data + more))
      || (exists more: Bytes :: Http2Preface() <= data + more)
      || (exists more: Bytes :: StartsRequest(data + more))
  {
    if more: Bytes :| StartsTls(data + more) {
      assert CanBecomeOther(data);
    }
    if more: Bytes :| Http2Preface() <= data + more {
      assert CanBecomeOther(data);
    }
    if more: Bytes :| StartsRequest(data + more) {
      assert CanBecomeOther(data);
    }
  }

  /** Bytes of which every continuation is still open: part of a method, or of a TLS header that can be right. */
  predicate Open(data: Bytes) {
    || (|data| <= 15 && forall i | 0 <= i < |data| :: 0x41 <= data[i] <= 0x5a)
    || (&& 1 <= |data| <= 5 && data[0] == 0x16 && (|data| >= 3 ==> data[1] == 3 && data[2] <= 4)
        && (|data| == 5 ==> 1 <= U16(data[3], data[4]) <= 18432))
  }

  lemma OpenWaits(lib: Library, data: Bytes, hasRaw: bool, max: int)
    requires Open(data) && |data| < max
    ensures Inspect(lib, data, hasRaw, max) == NeedMore
  {
    if data != [] && data[0] == 0x16 {
      TlsHeaderWaits(lib, data, hasRaw, max);
    } else if data != [] {
      ScanFinds(data, 0);
      assert forall i: nat :: !BlankAt(data, i) by {
        forall i: nat ensures !BlankAt(data, i) {
          EmptyLineIsBlank(data, i);
        }
      }
      assert PREFACE[3] == SPACE;
    }
  }

  lemma TlsHeaderWaits(lib: Library, data: Bytes, hasRaw: bool, max: int)
    requires Open(data) && data != [] && data[0] == 0x16
    ensures Inspect(lib, data, hasRaw, max) == NeedMore
  {
    assert LooksLikeTls(data);
  }

  /** The bytes can become nothing else, and before their last one anything was open. */
  ghost predicate TurnsRaw(s: Bytes) {
    s != [] && !HalfTls(s) && !CanBecomeOther(s) && forall cut | cut < s :: Open(cut)
  }

  lemma RawDecidesFirst(lib: Library, s: Bytes, tail: Bytes, hasRaw: bool, max: int)
    requires TurnsRaw(s)
    ensures DecidesFirst(lib, s, tail, hasRaw, max)
    ensures Inspect(lib, s, hasRaw, max) == if hasRaw then Accept(Raw) else Reject(NoMatch)
  {
    RawInspectedIff(lib, s, hasRaw, max);
    CanBecomeTlsIff(s);
    CanBecomeIff(s);
    VerdictStable(lib, s, s + tail, hasRaw, max);
    forall cut | cut < s && |cut| < max ensures Inspect(lib, cut, hasRaw, max).NeedMore? {
      OpenWaits(lib, cut, hasRaw, max);
    }
    RawIsNotTreacherous(s, tail);
  }

  lemma RawIsNotTreacherous(s: Bytes, tail: Bytes)
    requires s != [] && !LooksLikeTls(s) && forall cut | cut < s :: Open(cut)
    ensures !Treacherous(s + tail)
  {
    var stream := s + tail;
    if |s| >= 6 {
      assert s[..5] < s && stream[..5] == s[..5] && Open(s[..5]);
    } else if |stream| >= 5 {
      NotTlsIsFinal(s, stream[..5]);
    }
  }

  /** Such traffic is raw, or refused without a raw route, under every schedule, exactly when it shows early enough. */
  lemma RawClassified(lib: Library, s: Bytes, tail: Bytes, ending: Ending, hasRaw: bool, max: int)
    requires TurnsRaw(s)
    ensures (forall schedule :: Verdict(lib, s + tail, schedule, ending, hasRaw, max)
                                == if hasRaw then Decided(Raw) else Refused(NoMatch))
       <==> |s| + |tail| < max || |s| + 4096 <= max
  {
    RawDecidesFirst(lib, s, tail, hasRaw, max);
    DecidedIff(lib, s, tail, ending, hasRaw, max);
  }

  /** A client that closes before anything is decided is raw if it sent anything and there is a raw route. */
  lemma ClosedUndecided(lib: Library, stream: Bytes, schedule: Schedule, ending: Ending, hasRaw: bool, max: int)
    requires forall n: nat :: !DecidedAt(lib, stream, n, hasRaw, max)
    ensures Verdict(lib, stream, schedule, ending, hasRaw, max)
         == if |stream| >= max then Exceeded
            else if ending == Eof && stream != [] && hasRaw then Decided(Raw)
            else ReadFailed
  {
    UndecidableRuns(lib, stream, 0, schedule, 0, ending, hasRaw, max);
  }

  /** A five-byte TLS header is refused exactly when its record is empty or longer than 18432 bytes. */
  lemma HeaderRefusedIff(lib: Library, minor: byte, hi: byte, lo: byte, hasRaw: bool, max: int)
    requires minor <= 4
    ensures Inspect(lib, [0x16, 3, minor, hi, lo], hasRaw, max)
         == if 1 <= 256 * hi + lo <= 18432 then NeedMore else Reject(BadTls(BadRecordLength))
  {
    assert LooksLikeTls([0x16, 3, minor, hi, lo]);
  }
}
