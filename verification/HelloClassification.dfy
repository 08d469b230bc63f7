/**
  The parser and the read loop together: a client that sends a well-formed ClientHello is
  never classified by anything but the name it asked for, whatever the record boundaries, the
  read sizes and the bytes that follow; HelloClassified states when it is sure to be classified.
*/
module HelloClassification {
  import opened TlsHello
  import opened TlsEncoding
  import opened Classifier

  /** The first record carries a version the classifier recognises as TLS. */
  predicate TlsVersioned(records: seq<Record>) {
    records != [] && records[0].major == 3 && records[0].minor <= 4
  }

  lemma FirstBytes(records: seq<Record>, body: Bytes)
    requires FitsRecords(records) && TlsVersioned(records)
    requires |body| <= 0xffffff && Payloads(records) == Handshake(body)
    ensures var s := Stream(records);
            |s| >= 6 && s[0] == HANDSHAKE && s[1] == 3 && s[2] <= 4 && s[5] == CLIENT_HELLO
  {
    var head := records[0];
    assert head in records;
    EncodedRecord(head, Stream(records[1..]));
    assert Stream(records)[5..5 + |head.payload|][0] == head.payload[0];
    assert head.payload[0] == Payloads(records)[0];
  }

  /** Up to its last byte the hello is undecided; with it, and with anything after it, decided. */
  lemma HelloInspected(lib: Library, hello: ClientHello, records: seq<Record>, tail: Bytes, hasRaw: bool, max: int)
    requires Good(lib.serverName, hello) && Carries(records, hello, max) && TlsVersioned(records)
    ensures Inspect(lib, Stream(records) + tail, hasRaw, max) == Accept(Tls(RequestedName(lib.serverName, hello)))
    ensures forall cut | cut < Stream(records) :: Inspect(lib, cut, hasRaw, max) == NeedMore
  {
    var s := Stream(records);
    FirstBytes(records, EncodeBody(hello));
    ClientHelloRoundTrip(lib.serverName, hello, records, max);
    assert LooksLikeTls(s);
    AcceptStable(lib, s, s + tail, hasRaw, max);
    forall cut | cut < s ensures Inspect(lib, cut, hasRaw, max) == NeedMore {
      assert forall i | 0 <= i < |cut| :: cut[i] == s[i];
    }
  }

  lemma HelloIsNotTreacherous(hello: ClientHello, records: seq<Record>, tail: Bytes, max: int)
    requires Carries(records, hello, max) && TlsVersioned(records)
    ensures !Treacherous(Stream(records) + tail)
  {
    FirstBytes(records, EncodeBody(hello));
  }

  /** Whatever follows and however it is read, the connection is classified by the requested name or not at all. */
  lemma HelloNeverMisclassified(lib: Library, hello: ClientHello, records: seq<Record>, tail: Bytes, schedule: Schedule,
                                ending: Ending, hasRaw: bool, max: int)
    requires Good(lib.serverName, hello) && Carries(records, hello, max) && TlsVersioned(records)
    ensures var verdict := Verdict(lib, Stream(records) + tail, schedule, ending, hasRaw, max);
      verdict == Exceeded || verdict == Decided(Tls(RequestedName(lib.serverName, hello)))
  {
    HelloInspected(lib, hello, records, tail, hasRaw, max);
    HelloIsNotTreacherous(hello, records, tail, max);
    RunReachesVerdict(lib, Stream(records) + tail, 0, schedule, 0, ending, hasRaw, max);
  }

  /** The hello is decided at its last byte and not before. */
  lemma HelloDecidedAt(lib: Library, hello: ClientHello, records: seq<Record>, tail: Bytes, n: nat, hasRaw: bool,
                       max: int)
    requires Good(lib.serverName, hello) && Carries(records, hello, max) && TlsVersioned(records)
    requires n <= |Stream(records)|
    ensures DecidedAt(lib, Stream(records) + tail, n, hasRaw, max) <==> n == |Stream(records)| < max
  {
    var s := Stream(records);
    HelloInspected(lib, hello, records, [], hasRaw, max);
    assert s + [] == s;
    assert n <= |s| ==> (s + tail)[..n] == s[..n];
    assert n < |s| ==> s[..n] < s;
    assert s[..|s|] == s;
  }

  /** A tail long enough, and a hello that ends within a read buffer of the limit: some schedule exceeds it. */
  lemma LateHelloCanExceed(lib: Library, hello: ClientHello, records: seq<Record>, tail: Bytes, ending: Ending,
                           hasRaw: bool, max: int)
    requires Good(lib.serverName, hello) && Carries(records, hello, max) && TlsVersioned(records)
    requires |Stream(records)| + |tail| >= max && |Stream(records)| + READ_BUFFER > max
    ensures exists schedule :: Verdict(lib, Stream(records) + tail, schedule, ending, hasRaw, max) == Exceeded
  {
    var stream := Stream(records) + tail;
    var d := Min(|Stream(records)|, max);
    forall n: nat | n < d ensures !DecidedAt(lib, stream, n, hasRaw, max) {
      HelloDecidedAt(lib, hello, records, tail, n, hasRaw, max);
    }
    FirstBytes(records, EncodeBody(hello));
    LateReadsExceed(lib, stream, d, 0, ending, hasRaw, max);
    assert Verdict(lib, stream, LateSchedule(d), ending, hasRaw, max) == Exceeded;
  }

  /**
    Every read schedule classifies the connection by the requested name exactly when all the client
    ever sends stays below the inspection limit, or the hello ends a read buffer before it.
  */
  lemma HelloClassified(lib: Library, hello: ClientHello, records: seq<Record>, tail: Bytes, ending: Ending,
                        hasRaw: bool, max: int)
    requires Good(lib.serverName, hello) && Carries(records, hello, max) && TlsVersioned(records)
    ensures (forall schedule :: Verdict(lib, Stream(records) + tail, schedule, ending, hasRaw, max)
                               == Decided(Tls(RequestedName(lib.serverName, hello))))
       <==> |Stream(records)| + |tail| < max || |Stream(records)| + READ_BUFFER <= max
  {
    var s, stream := Stream(records), Stream(records) + tail;
    if |s| + |tail| < max || |s| + READ_BUFFER <= max {
      HelloIsNotTreacherous(hello, records, tail, max);
      HelloDecidedAt(lib, hello, records, tail, |s|, hasRaw, max);
      forall schedule
        ensures Verdict(lib, stream, schedule, ending, hasRaw, max)
          == Decided(Tls(RequestedName(lib.serverName, hello)))
      {
        HelloNeverMisclassified(lib, hello, records, tail, schedule, ending, hasRaw, max);
        if |stream| < max {
          RunReachesVerdict(lib, stream, 0, schedule, 0, ending, hasRaw, max);
        } else {
          EarlyIsNeverExceeded(lib, stream, |s|, schedule, ending, hasRaw, max);
        }
      }
    } else {
      LateHelloCanExceed(lib, hello, records, tail, ending, hasRaw, max);
    }
  }
}
