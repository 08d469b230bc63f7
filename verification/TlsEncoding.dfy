/**
  The independent partner of the TlsHello parser: a ClientHello as data, its wire form
  (section 4.1.2 of RFC 8446, section 3 of RFC 6066) and its fragmentation into records
  (section 5.1 of RFC 8446).  Parsing what was serialised gives the name back, however the
  bytes are cut into records, and nothing shorter gives a verdict.
*/
module TlsEncoding {
  import opened Wrappers
  import opened TlsHello

  datatype NameEntry = NameEntry(kind: byte, name: Bytes)

  datatype Extension = ServerNameList(entries: seq<NameEntry>) | Other(kind: nat, body: Bytes)

  datatype ClientHello = ClientHello(
    versionAndRandom: Bytes, sessionId: Bytes, ciphers: Bytes, compression: Bytes,
    extensions: Option<seq<Extension>>)

  datatype Record = Record(major: byte, minor: byte, payload: Bytes)

  // ---------------------------------------------------------------- wire form

  function P16(n: nat): (b: Bytes)
    requires n <= 0xffff
    ensures |b| == 2 && U16(b[0], b[1]) == n
  {
    [n / 256, n % 256]
  }

  function P24(n: nat): (b: Bytes)
    requires n <= 0xffffff
    ensures |b| == 3 && U24(b[0], b[1], b[2]) == n
  {
    [n / 65536, n / 256 % 256, n % 256]
  }

  predicate FitsEntries(entries: seq<NameEntry>) {
    forall e <- entries :: |e.name| <= 0xffff
  }

  function EncodeEntries(entries: seq<NameEntry>): Bytes
    requires FitsEntries(entries)
  {
    if entries == [] then []
    else [entries[0].kind] + P16(|entries[0].name|) + entries[0].name + EncodeEntries(entries[1..])
  }

  predicate FitsExtension(x: Extension) {
    match x
    case ServerNameList(entries) => FitsEntries(entries) && |EncodeEntries(entries)| <= 0xfffd
    case Other(kind, body) => kind <= 0xffff && kind != 0 && kind != ECH && |body| <= 0xffff
  }

  function Kind(x: Extension): nat {
    if x.Other? then x.kind else 0
  }

  function ExtensionBody(x: Extension): (b: Bytes)
    requires FitsExtension(x)
    ensures |b| <= 0xffff
  {
    match x
    case ServerNameList(entries) => P16(|EncodeEntries(entries)|) + EncodeEntries(entries)
    case Other(_, body) => body
  }

  function EncodeExtension(x: Extension): Bytes
    requires FitsExtension(x)
  {
    P16(Kind(x)) + P16(|ExtensionBody(x)|) + ExtensionBody(x)
  }

  predicate FitsExtensions(xs: seq<Extension>) {
    forall x <- xs :: FitsExtension(x)
  }

  function EncodeExtensions(xs: seq<Extension>): Bytes
    requires FitsExtensions(xs)
  {
    if xs == [] then [] else EncodeExtension(xs[0]) + EncodeExtensions(xs[1..])
  }

  predicate Fits(hello: ClientHello) {
    && |hello.versionAndRandom| == 34
    && |hello.sessionId| <= 0xff
    && 2 <= |hello.ciphers| <= 0xffff && |hello.ciphers| % 2 == 0
    && 1 <= |hello.compression| <= 0xff
    && (hello.extensions.Some? ==>
          FitsExtensions(hello.extensions.value) && |EncodeExtensions(hello.extensions.value)| <= 0xffff)
  }

  function EncodeBlock(extensions: Option<seq<Extension>>): Bytes
    requires extensions.Some? ==>
               FitsExtensions(extensions.value) && |EncodeExtensions(extensions.value)| <= 0xffff
  {
    match extensions
    case None => []
    case Some(xs) => P16(|EncodeExtensions(xs)|) + EncodeExtensions(xs)
  }

  /** From the cipher suites on. */
  function EncodeChoices(hello: ClientHello): Bytes
    requires Fits(hello)
  {
    P16(|hello.ciphers|) + hello.ciphers + ([|hello.compression|] + hello.compression + EncodeBlock(hello.extensions))
  }

  function EncodeBody(hello: ClientHello): (body: Bytes)
    requires Fits(hello)
  {
    hello.versionAndRandom + ([|hello.sessionId|] + hello.sessionId + EncodeChoices(hello))
  }

  function Handshake(body: Bytes): Bytes
    requires |body| <= 0xffffff
  {
    [CLIENT_HELLO] + P24(|body|) + body
  }

  predicate FitsRecords(records: seq<Record>) {
    forall r <- records :: 1 <= |r.payload| <= MAX_RECORD
  }

  function EncodeRecord(r: Record): Bytes
    requires |r.payload| <= MAX_RECORD
  {
    [HANDSHAKE, r.major, r.minor] + P16(|r.payload|) + r.payload
  }

  function Stream(records: seq<Record>): Bytes
    requires FitsRecords(records)
  {
    if records == [] then [] else EncodeRecord(records[0]) + Stream(records[1..])
  }

  function Payloads(records: seq<Record>): Bytes {
    if records == [] then [] else records[0].payload + Payloads(records[1..])
  }

  // ---------------------------------------------------------------- what the client asked for

  predicate NoHost(entries: seq<NameEntry>) {
    forall e <- entries :: e.kind != 0
  }

  /** At most one host_name entry, and it normalises. */
  predicate GoodEntries(norm: Normalizer, entries: seq<NameEntry>) {
    && (forall i, j :: 0 <= i < j < |entries| ==> entries[i].kind != 0 || entries[j].kind != 0)
    && (forall e <- entries :: e.kind == 0 ==> norm(e.name).Some?)
  }

  function HostName(norm: Normalizer, entries: seq<NameEntry>): Name {
    if entries == [] then []
    else if entries[0].kind == 0 && norm(entries[0].name).Some? then norm(entries[0].name).value
    else HostName(norm, entries[1..])
  }

  predicate NoServerName(xs: seq<Extension>) {
    forall x <- xs :: x.Other?
  }

  /** At most one server_name extension, and it is a good one. */
  predicate GoodExtensions(norm: Normalizer, xs: seq<Extension>) {
    && (forall i, j :: 0 <= i < j < |xs| ==> xs[i].Other? || xs[j].Other?)
    && (forall x <- xs :: x.ServerNameList? ==> GoodEntries(norm, x.entries))
  }

  function ServerName(norm: Normalizer, xs: seq<Extension>): Name {
    if xs == [] then []
    else if xs[0].ServerNameList? then HostName(norm, xs[0].entries)
    else ServerName(norm, xs[1..])
  }

  predicate Good(norm: Normalizer, hello: ClientHello) {
    hello.extensions.Some? ==> GoodExtensions(norm, hello.extensions.value)
  }

  function RequestedName(norm: Normalizer, hello: ClientHello): Name {
    if hello.extensions.Some? then ServerName(norm, hello.extensions.value) else []
  }

  // ---------------------------------------------------------------- round trip

  lemma {:induction false} NamesRoundTrip(norm: Normalizer, entries: seq<NameEntry>, name: Name)
    requires FitsEntries(entries) && GoodEntries(norm, entries)
    requires name == [] || NoHost(entries)
    ensures ServerNames(norm, EncodeEntries(entries), name)
         == Ok(if NoHost(entries) then name else HostName(norm, entries))
  {
    if entries != [] {
      var head, tail := entries[0], entries[1..];
      var rest, n := EncodeEntries(entries), |head.name|;
      assert rest[1..3] == P16(n);
      assert rest[3..3 + n] == head.name;
      assert rest[3 + n..] == EncodeEntries(tail);
      assert forall e <- tail :: e in entries;
      if head.kind == 0 {
        OnlyHost(norm, entries);
        assert head in entries;
        NamesRoundTrip(norm, tail, norm(head.name).value);
      } else {
        NamesRoundTrip(norm, tail, name);
        assert entries == [head] + tail;
        assert NoHost(entries) <==> NoHost(tail);
      }
    }
  }

  lemma OnlyHost(norm: Normalizer, entries: seq<NameEntry>)
    requires GoodEntries(norm, entries) && entries != [] && entries[0].kind == 0
    ensures NoHost(entries[1..])
  {
    forall e | e in entries[1..] ensures e.kind != 0 {
      var j :| 1 <= j < |entries| && entries[j] == e;
    }
  }

  lemma ServerNameRoundTrip(norm: Normalizer, entries: seq<NameEntry>)
    requires FitsExtension(ServerNameList(entries)) && GoodEntries(norm, entries)
    ensures ServerNameExtension(norm, ExtensionBody(ServerNameList(entries))) == Ok(HostName(norm, entries))
  {
    var body := ExtensionBody(ServerNameList(entries));
    assert body[2..] == EncodeEntries(entries);
    NamesRoundTrip(norm, entries, []);
    if NoHost(entries) {
      NoHostName(norm, entries);
    }
  }

  lemma {:induction false} NoHostName(norm: Normalizer, entries: seq<NameEntry>)
    requires NoHost(entries)
    ensures HostName(norm, entries) == []
  {
    if entries != [] {
      assert entries[0] in entries;
      NoHostName(norm, entries[1..]);
    }
  }

  lemma EncodedExtension(x: Extension, tail: Bytes)
    requires FitsExtension(x)
    ensures var rest := EncodeExtension(x) + tail;
            var n := |ExtensionBody(x)|;
            && |rest| == 4 + n + |tail|
            && U16(rest[0], rest[1]) == Kind(x) && U16(rest[2], rest[3]) == n
            && rest[4..4 + n] == ExtensionBody(x) && rest[4 + n..] == tail
  {
  }

  lemma {:induction false} ExtensionsRoundTrip(norm: Normalizer, xs: seq<Extension>, seen: bool, name: Name)
    requires FitsExtensions(xs) && GoodExtensions(norm, xs)
    requires seen ==> NoServerName(xs)
    ensures Extensions(norm, EncodeExtensions(xs), seen, name)
         == Ok(if NoServerName(xs) then name else ServerName(norm, xs))
  {
    if xs != [] {
      var head, tail := xs[0], xs[1..];
      assert head in xs;
      assert xs == [head] + tail;
      assert forall x <- tail :: x in xs;
      EncodedExtension(head, EncodeExtensions(tail));
      match head {
        case ServerNameList(entries) =>
          ServerNameRoundTrip(norm, entries);
          OnlyServerName(norm, xs);
          ExtensionsRoundTrip(norm, tail, true, HostName(norm, entries));
        case Other(_, _) =>
          ExtensionsRoundTrip(norm, tail, seen, name);
      }
    }
  }

  lemma OnlyServerName(norm: Normalizer, xs: seq<Extension>)
    requires GoodExtensions(norm, xs) && xs != [] && xs[0].ServerNameList?
    ensures NoServerName(xs[1..])
  {
    forall x | x in xs[1..] ensures x.Other? {
      var j :| 1 <= j < |xs| && xs[j] == x;
    }
  }

  lemma {:induction false} NoServerNameIsEmpty(norm: Normalizer, xs: seq<Extension>)
    requires NoServerName(xs)
    ensures ServerName(norm, xs) == []
  {
    if xs != [] {
      assert xs[0] in xs;
      NoServerNameIsEmpty(norm, xs[1..]);
    }
  }

  lemma BlockRoundTrip(norm: Normalizer, hello: ClientHello)
    requires Fits(hello) && Good(norm, hello)
    ensures ExtensionBlock(norm, EncodeBlock(hello.extensions)) == Ok(RequestedName(norm, hello))
  {
    if hello.extensions.Some? {
      var xs := hello.extensions.value;
      assert EncodeBlock(hello.extensions)[2..] == EncodeExtensions(xs);
      ExtensionsRoundTrip(norm, xs, false, []);
      if NoServerName(xs) {
        NoServerNameIsEmpty(norm, xs);
      }
    }
  }

  lemma ChoicesRoundTrip(norm: Normalizer, hello: ClientHello)
    requires Fits(hello) && Good(norm, hello)
    ensures Ciphers(norm, EncodeChoices(hello)) == Ok(RequestedName(norm, hello))
  {
    var block := EncodeBlock(hello.extensions);
    BlockRoundTrip(norm, hello);
    CompressionStep(norm, hello.compression, block);
    CiphersStep(norm, hello.ciphers, [|hello.compression|] + hello.compression + block);
  }

  lemma BodyRoundTrip(norm: Normalizer, hello: ClientHello)
    requires Fits(hello) && Good(norm, hello)
    ensures HelloBody(norm, EncodeBody(hello)) == Ok(RequestedName(norm, hello))
  {
    ChoicesRoundTrip(norm, hello);
    SessionStep(norm, hello.versionAndRandom, hello.sessionId, EncodeChoices(hello));
  }

  lemma SessionStep(norm: Normalizer, head: Bytes, sessionId: Bytes, rest: Bytes)
    requires |head| == 34 && |sessionId| <= 0xff
    ensures HelloBody(norm, head + ([|sessionId|] + sessionId + rest)) == Ciphers(norm, rest)
  {
    var session := [|sessionId|] + sessionId + rest;
    assert (head + session)[34..] == session;
    assert session[1 + |sessionId|..] == rest;
  }

  lemma CompressionStep(norm: Normalizer, compression: Bytes, rest: Bytes)
    requires 1 <= |compression| <= 0xff
    ensures Compression(norm, [|compression|] + compression + rest) == ExtensionBlock(norm, rest)
  {
    assert ([|compression|] + compression + rest)[1 + |compression|..] == rest;
  }

  lemma CiphersStep(norm: Normalizer, ciphers: Bytes, rest: Bytes)
    requires 2 <= |ciphers| <= 0xffff && |ciphers| % 2 == 0
    ensures Ciphers(norm, P16(|ciphers|) + ciphers + rest) == Compression(norm, rest)
  {
    var all := P16(|ciphers|) + ciphers + rest;
    assert all[0] == P16(|ciphers|)[0] && all[1] == P16(|ciphers|)[1];
    assert all[2 + |ciphers|..] == rest;
  }

  lemma AssembledStep(norm: Normalizer, body: Bytes, part: Bytes, max: int)
    requires |body| <= 0xffffff && 4 + |body| <= max
    requires part <= Handshake(body)
    ensures Assembled(norm, part, max)
         == if |part| == 4 + |body| then Some(AsParse(HelloBody(norm, body))) else None
  {
    var all := Handshake(body);
    assert |all| == 4 + |body|;
    if |part| >= 4 {
      var length := P24(|body|);
      assert forall i | 0 <= i < |part| :: part[i] == all[i];
      assert part[0] == CLIENT_HELLO;
      assert all[1] == length[0] && all[2] == length[1] && all[3] == length[2];
      assert HandshakeLength(part) == |body|;
      if |part| == 4 + |body| {
        assert part[4..4 + |body|] == body;
      }
    }
  }

  lemma EncodedRecord(r: Record, tail: Bytes)
    requires 1 <= |r.payload| <= MAX_RECORD
    ensures var rest := EncodeRecord(r) + tail;
            var n := |r.payload|;
            && |rest| == 5 + n + |tail|
            && rest[0] == HANDSHAKE && U16(rest[3], rest[4]) == n
            && rest[5..5 + n] == r.payload && rest[5 + n..] == tail
  {
  }

  /** Any fragmentation of a handshake message assembles to that message. */
  lemma {:induction false} FragmentsRoundTrip(norm: Normalizer, body: Bytes, sent: Bytes, records: seq<Record>,
                                              max: int)
    requires |body| <= 0xffffff && 4 + |body| <= max
    requires FitsRecords(records) && sent + Payloads(records) == Handshake(body)
    requires records != []
    ensures Records(norm, Stream(records), sent, max) == AsParse(HelloBody(norm, body))
    decreases |records|
  {
    var head, tail := records[0], records[1..];
    assert head in records;
    assert forall r <- tail :: r in records;
    EncodedRecord(head, Stream(tail));
    var next := sent + head.payload;
    assert next + Payloads(tail) == Handshake(body);
    AssembledStep(norm, body, next, max);
    if tail == [] {
      assert next == Handshake(body);
    } else {
      assert tail[0] in records;
      assert |next| < |Handshake(body)|;
      FragmentsRoundTrip(norm, body, next, tail, max);
    }
  }

  /** Cutting the stream anywhere before its last byte leaves the parser waiting. */
  lemma {:induction false} FragmentsWait(norm: Normalizer, body: Bytes, sent: Bytes, records: seq<Record>, max: int,
                                         cut: Bytes)
    requires |body| <= 0xffffff && 4 + |body| <= max
    requires FitsRecords(records) && sent + Payloads(records) == Handshake(body)
    requires cut <= Stream(records) && |cut| < |Stream(records)|
    ensures Records(norm, cut, sent, max) == Incomplete
    decreases |records|
  {
    var head, tail := records[0], records[1..];
    assert head in records;
    assert forall r <- tail :: r in records;
    EncodedRecord(head, Stream(tail));
    var all, n := Stream(records), |head.payload|;
    if |cut| >= 5 {
      assert cut[..5] == all[..5];
      assert U16(cut[3], cut[4]) == n;
      if |cut| >= 5 + n {
        assert cut[5..5 + n] == all[5..5 + n];
        var next := sent + head.payload;
        assert next + Payloads(tail) == Handshake(body);
        AssembledStep(norm, body, next, max);
        assert cut[5 + n..] <= all[5 + n..];
        if tail != [] {
          assert tail[0] in records;
          assert |next| < |Handshake(body)|;
        }
        FragmentsWait(norm, body, next, tail, max, cut[5 + n..]);
      }
    }
  }

  /** A ClientHello that fits the inspection limit, in any fragmentation. */
  ghost predicate Carries(records: seq<Record>, hello: ClientHello, max: int) {
    && Fits(hello) && |EncodeBody(hello)| <= 0xffffff && 4 + |EncodeBody(hello)| <= max
    && FitsRecords(records) && Payloads(records) == Handshake(EncodeBody(hello))
  }

  /** The round trip: the complete stream gives exactly the requested name, no strict prefix gives any. */
  lemma ClientHelloRoundTrip(norm: Normalizer, hello: ClientHello, records: seq<Record>, max: int)
    requires Good(norm, hello) && Carries(records, hello, max)
    ensures Records(norm, Stream(records), [], max) == Complete(RequestedName(norm, hello))
    ensures forall cut | cut < Stream(records) :: Records(norm, cut, [], max) == Incomplete
  {
    var body := EncodeBody(hello);
    assert [] + Payloads(records) == Handshake(body);
    assert |Payloads(records)| > 0;
    BodyRoundTrip(norm, hello);
    FragmentsRoundTrip(norm, body, [], records, max);
    forall cut | cut < Stream(records) ensures Records(norm, cut, [], max) == Incomplete {
      FragmentsWait(norm, body, [], records, max, cut);
    }
  }
}
