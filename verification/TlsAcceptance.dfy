/**
  The converse of TlsEncoding: whatever the ClientHello parser accepts is the encoding of a ClientHello
  without encrypted_client_hello and with at most one server_name extension, and the name it returns is the
  one that ClientHello asks for.
*/
module TlsAcceptance {
  import opened Wrappers
  import opened TlsHello
  import opened TlsEncoding

  // ---------------------------------------------------------------- server names

  /** Every host_name normalises, and to nothing where another one follows. */
  predicate Acceptable(norm: Normalizer, entries: seq<NameEntry>) {
    && (forall e <- entries :: e.kind == 0 ==> norm(e.name).Some?)
    && forall i, j | 0 <= i < j < |entries| ::
         entries[i].kind == 0 && entries[j].kind == 0 ==> norm(entries[i].name) == Some([])
  }

  /** The normal form of the last host_name. */
  function LastHost(norm: Normalizer, entries: seq<NameEntry>): Name {
    if entries == [] then []
    else if entries[0].kind == 0 && NoHost(entries[1..]) && norm(entries[0].name).Some? then norm(entries[0].name).value
    else LastHost(norm, entries[1..])
  }

  lemma {:induction false} NoLastHost(norm: Normalizer, entries: seq<NameEntry>)
    requires NoHost(entries)
    ensures LastHost(norm, entries) == []
  {
    if entries != [] {
      assert entries[0] in entries;
      NoLastHost(norm, entries[1..]);
    }
  }

  /** The list is accepted exactly when it is acceptable, after a name already found only without another. */
  lemma {:induction false} NamesAcceptedIff(norm: Normalizer, entries: seq<NameEntry>, name: Name, value: Name)
    requires FitsEntries(entries)
    ensures ServerNames(norm, EncodeEntries(entries), name) == Ok(value) <==>
      && Acceptable(norm, entries) && (name != [] ==> NoHost(entries))
      && value == if NoHost(entries) then name else LastHost(norm, entries)
    decreases |entries|
  {
    if entries != [] {
      var head, tail := entries[0], entries[1..];
      var rest, n := EncodeEntries(entries), |head.name|;
      assert head in entries && forall e | e in tail :: e in entries;
      assert entries == [head] + tail;
      assert rest[1..3] == P16(n) && rest[3..3 + n] == head.name && rest[3 + n..] == EncodeEntries(tail);
      AcceptableCons(norm, head, tail);
      if head.kind != 0 {
        NamesAcceptedIff(norm, tail, name, value);
      } else if name == [] && norm(head.name).Some? {
        NamesAcceptedIff(norm, tail, norm(head.name).value, value);
      }
    }
  }

  lemma AcceptableCons(norm: Normalizer, head: NameEntry, tail: seq<NameEntry>)
    ensures Acceptable(norm, [head] + tail) <==>
      Acceptable(norm, tail)
        && (head.kind == 0 ==> norm(head.name).Some? && (NoHost(tail) || norm(head.name) == Some([])))
    ensures NoHost([head] + tail) <==> head.kind != 0 && NoHost(tail)
  {
    var all := [head] + tail;
    assert all[0] in all && forall e | e in tail :: e in all;
    if Acceptable(norm, all) {
      AcceptableTail(norm, head, tail);
    }
    if Acceptable(norm, tail)
      && (head.kind == 0 ==> norm(head.name).Some? && (NoHost(tail) || norm(head.name) == Some([]))) {
      AcceptableWithHead(norm, head, tail);
    }
  }

  lemma AcceptableTail(norm: Normalizer, head: NameEntry, tail: seq<NameEntry>)
    requires Acceptable(norm, [head] + tail)
    ensures Acceptable(norm, tail)
    ensures head.kind == 0 ==> norm(head.name).Some? && (NoHost(tail) || norm(head.name) == Some([]))
  {
    var all := [head] + tail;
    assert all[0] in all && forall e | e in tail :: e in all;
    forall i, j | 0 <= i < j < |tail|
      ensures tail[i].kind == 0 && tail[j].kind == 0 ==> norm(tail[i].name) == Some([])
    {
      assert all[i + 1] == tail[i] && all[j + 1] == tail[j];
    }
    if head.kind == 0 && !NoHost(tail) {
      var j :| 0 <= j < |tail| && tail[j].kind == 0;
      assert all[0].kind == 0 && all[j + 1].kind == 0;
    }
  }

  lemma AcceptableWithHead(norm: Normalizer, head: NameEntry, tail: seq<NameEntry>)
    requires Acceptable(norm, tail)
    requires head.kind == 0 ==> norm(head.name).Some? && (NoHost(tail) || norm(head.name) == Some([]))
    ensures Acceptable(norm, [head] + tail)
  {
    var all := [head] + tail;
    forall e | e in all ensures e.kind == 0 ==> norm(e.name).Some? {
      assert e == head || e in tail;
    }
    forall i, j | 0 <= i < j < |all| ensures all[i].kind == 0 && all[j].kind == 0 ==> norm(all[i].name) == Some([]) {
      assert all[j] == tail[j - 1] && tail[j - 1] in tail;
      assert i > 0 ==> all[i] == tail[i - 1];
    }
  }

  lemma EntriesCons(head: NameEntry, tail: seq<NameEntry>)
    requires |head.name| <= 0xffff && FitsEntries(tail)
    ensures FitsEntries([head] + tail)
    ensures EncodeEntries([head] + tail) == [head.kind] + P16(|head.name|) + head.name + EncodeEntries(tail)
  {
    assert ([head] + tail)[1..] == tail;
  }

  lemma EntryBytes(rest: Bytes, n: nat)
    requires |rest| >= 3 + n && n == U16(rest[1], rest[2])
    ensures rest == [rest[0]] + P16(n) + rest[3..3 + n] + rest[3 + n..]
  {
    BytesOf16(rest[1], rest[2]);
  }

  /** Whatever list is accepted is the encoding of entries. */
  lemma {:induction false} NamesDecode(norm: Normalizer, rest: Bytes, name: Name) returns (entries: seq<NameEntry>)
    requires ServerNames(norm, rest, name).Ok?
    ensures FitsEntries(entries) && EncodeEntries(entries) == rest
    decreases |rest|
  {
    if rest == [] {
      entries := [];
    } else {
      var n := U16(rest[1], rest[2]);
      var next := if rest[0] == 0 then norm(rest[3..3 + n]).value else name;
      var tail := NamesDecode(norm, rest[3 + n..], next);
      entries := [NameEntry(rest[0], rest[3..3 + n])] + tail;
      EntryBytes(rest, n);
      EntriesCons(NameEntry(rest[0], rest[3..3 + n]), tail);
    }
  }

  lemma BytesOf16(hi: byte, lo: byte)
    ensures P16(U16(hi, lo)) == [hi, lo]
  {
  }

  lemma BytesOf24(a: byte, b: byte, c: byte)
    ensures U24(a, b, c) <= 0xffffff && P24(U24(a, b, c)) == [a, b, c]
  {
    var n := U24(a, b, c);
    assert n == 65536 * a + (256 * b + c);
    assert n / 256 == 256 * a + b;
  }

  // ---------------------------------------------------------------- extensions

  /** At most one server_name, acceptable; FitsExtension leaves no encrypted_client_hello. */
  predicate AcceptableExtensions(norm: Normalizer, xs: seq<Extension>) {
    && (forall i, j | 0 <= i < j < |xs| :: xs[i].Other? || xs[j].Other?)
    && forall x <- xs :: x.ServerNameList? ==> Acceptable(norm, x.entries)
  }

  function NameAsked(norm: Normalizer, xs: seq<Extension>): Name {
    if xs == [] then [] else if xs[0].ServerNameList? then LastHost(norm, xs[0].entries) else NameAsked(norm, xs[1..])
  }

  lemma ServerNameAcceptedIff(norm: Normalizer, entries: seq<NameEntry>, value: Name)
    requires FitsExtension(ServerNameList(entries))
    ensures ServerNameExtension(norm, ExtensionBody(ServerNameList(entries))) == Ok(value) <==>
      Acceptable(norm, entries) && value == LastHost(norm, entries)
  {
    var body := ExtensionBody(ServerNameList(entries));
    assert body[2..] == EncodeEntries(entries);
    NamesAcceptedIff(norm, entries, [], value);
    if NoHost(entries) {
      NoLastHost(norm, entries);
    }
  }

  lemma AcceptableExtensionsCons(norm: Normalizer, head: Extension, tail: seq<Extension>)
    ensures AcceptableExtensions(norm, [head] + tail) <==>
      && AcceptableExtensions(norm, tail)
      && (head.ServerNameList? ==> Acceptable(norm, head.entries) && NoServerName(tail))
    ensures NoServerName([head] + tail) <==> head.Other? && NoServerName(tail)
  {
    var all := [head] + tail;
    assert forall i | 0 <= i < |tail| :: all[i + 1] == tail[i] && tail[i] in tail && all[i + 1] in all;
    assert all[0] in all && all[1..] == tail;
    if AcceptableExtensions(norm, all) {
      forall i, j | 0 <= i < j < |tail| ensures tail[i].Other? || tail[j].Other? {
        assert all[i + 1].Other? || all[j + 1].Other?;
      }
      assert forall x | x in tail :: x in all;
      forall x | x in tail && head.ServerNameList? ensures x.Other? {
        var j :| 0 <= j < |tail| && tail[j] == x;
        assert all[0].Other? || all[j + 1].Other?;
      }
    }
    if AcceptableExtensions(norm, tail)
      && (head.ServerNameList? ==> Acceptable(norm, head.entries) && NoServerName(tail)) {
      forall i, j | 0 <= i < j < |all| ensures all[i].Other? || all[j].Other? {
        assert all[j] == tail[j - 1] && all[j] in tail;
        assert i > 0 ==> all[i] == tail[i - 1];
      }
      forall x | x in all ensures x.ServerNameList? ==> Acceptable(norm, x.entries) {
        assert x == head || x in tail;
      }
    }
  }

  lemma {:induction false} ExtensionsAcceptedIff(norm: Normalizer, xs: seq<Extension>, seen: bool, name: Name,
                                                 value: Name)
    requires FitsExtensions(xs)
    ensures Extensions(norm, EncodeExtensions(xs), seen, name) == Ok(value) <==>
      && AcceptableExtensions(norm, xs) && (seen ==> NoServerName(xs))
      && value == if NoServerName(xs) then name else NameAsked(norm, xs)
    decreases |xs|
  {
    if xs != [] {
      var head, tail := xs[0], xs[1..];
      assert head in xs && forall x | x in tail :: x in xs;
      assert xs == [head] + tail;
      EncodedExtension(head, EncodeExtensions(tail));
      AcceptableExtensionsCons(norm, head, tail);
      if head.Other? {
        ExtensionsAcceptedIff(norm, tail, seen, name, value);
      } else if !seen {
        ServerNameAcceptedIff(norm, head.entries, LastHost(norm, head.entries));
        if Acceptable(norm, head.entries) {
          ExtensionsAcceptedIff(norm, tail, true, LastHost(norm, head.entries), value);
        } else {
          NoneAccepted(norm, head.entries);
        }
      }
    }
  }

  lemma NoneAccepted(norm: Normalizer, entries: seq<NameEntry>)
    requires FitsExtension(ServerNameList(entries)) && !Acceptable(norm, entries)
    ensures ServerNameExtension(norm, ExtensionBody(ServerNameList(entries))).Err?
  {
    var r := ServerNameExtension(norm, ExtensionBody(ServerNameList(entries)));
    ServerNameAcceptedIff(norm, entries, if r.Ok? then r.value else []);
  }

  lemma ExtensionDecodes(norm: Normalizer, kind: nat, body: Bytes) returns (x: Extension)
    requires |body| <= 0xffff && kind <= 0xffff && kind != 0xfe0d
    requires kind == 0 ==> ServerNameExtension(norm, body).Ok?
    ensures FitsExtension(x) && Kind(x) == kind && ExtensionBody(x) == body
  {
    if kind == 0 {
      var entries := NamesDecode(norm, body[2..], []);
      x := ServerNameList(entries);
      BytesOf16(body[0], body[1]);
      assert body == [body[0], body[1]] + body[2..];
    } else {
      x := Other(kind, body);
    }
  }

  lemma ExtensionsCons(head: Extension, tail: seq<Extension>)
    requires FitsExtension(head) && FitsExtensions(tail)
    ensures FitsExtensions([head] + tail)
    ensures EncodeExtensions([head] + tail) == EncodeExtension(head) + EncodeExtensions(tail)
  {
    assert ([head] + tail)[1..] == tail;
  }

  lemma ExtensionBytes(rest: Bytes, kind: nat, n: nat)
    requires |rest| >= 4 + n && kind == U16(rest[0], rest[1]) && n == U16(rest[2], rest[3])
    ensures rest == P16(kind) + P16(n) + rest[4..4 + n] + rest[4 + n..]
  {
    BytesOf16(rest[0], rest[1]);
    BytesOf16(rest[2], rest[3]);
  }

  /** What the parser makes of the rest, once it is past one extension. */
  lemma AcceptedTail(norm: Normalizer, rest: Bytes, seen: bool, name: Name)
    returns (kind: nat, n: nat, seen': bool, name': Name)
    requires Extensions(norm, rest, seen, name).Ok? && rest != []
    ensures |rest| >= 4 + n && kind == U16(rest[0], rest[1]) && n == U16(rest[2], rest[3]) && kind != 0xfe0d
    ensures kind == 0 ==> ServerNameExtension(norm, rest[4..4 + n]).Ok?
    ensures Extensions(norm, rest[4 + n..], seen', name').Ok?
  {
    kind, n := U16(rest[0], rest[1]), U16(rest[2], rest[3]);
    seen' := seen || kind == 0;
    name' := if kind == 0 then ServerNameExtension(norm, rest[4..4 + n]).value else name;
  }

  /** Whatever block of extensions is accepted is the encoding of extensions, none of them encrypted_client_hello. */
  lemma {:induction false} ExtensionsDecode(norm: Normalizer, rest: Bytes, seen: bool, name: Name)
    returns (xs: seq<Extension>)
    requires Extensions(norm, rest, seen, name).Ok?
    ensures FitsExtensions(xs) && EncodeExtensions(xs) == rest
    decreases |rest|
  {
    if rest == [] {
      xs := [];
    } else {
      var kind, n, seen', name' := AcceptedTail(norm, rest, seen, name);
      var x := ExtensionDecodes(norm, kind, rest[4..4 + n]);
      var tail := ExtensionsDecode(norm, rest[4 + n..], seen', name');
      xs := [x] + tail;
      ExtensionBytes(rest, kind, n);
      ExtensionsCons(x, tail);
    }
  }

  // ---------------------------------------------------------------- the body

  predicate Asks(norm: Normalizer, hello: ClientHello, name: Name) {
    match hello.extensions
    case None => name == []
    case Some(xs) => AcceptableExtensions(norm, xs) && name == NameAsked(norm, xs)
  }

  lemma {:induction false} NoNameAsked(norm: Normalizer, xs: seq<Extension>)
    requires NoServerName(xs)
    ensures NameAsked(norm, xs) == []
  {
    if xs != [] {
      assert xs[0] in xs;
      NoNameAsked(norm, xs[1..]);
    }
  }

  lemma BlockAcceptedIff(norm: Normalizer, extensions: Option<seq<Extension>>, name: Name)
    requires extensions.Some? ==> FitsExtensions(extensions.value) && |EncodeExtensions(extensions.value)| <= 0xffff
    ensures ExtensionBlock(norm, EncodeBlock(extensions)) == Ok(name) <==>
      match extensions
      case None => name == []
      case Some(xs) => AcceptableExtensions(norm, xs) && name == NameAsked(norm, xs)
  {
    if extensions.Some? {
      var xs := extensions.value;
      assert EncodeBlock(extensions)[2..] == EncodeExtensions(xs);
      ExtensionsAcceptedIff(norm, xs, false, [], name);
      if NoServerName(xs) {
        NoNameAsked(norm, xs);
      }
    }
  }

  lemma BodyOfHelloIff(norm: Normalizer, hello: ClientHello, name: Name)
    requires Fits(hello)
    ensures HelloBody(norm, EncodeBody(hello)) == Ok(name) <==> Asks(norm, hello, name)
  {
    var block := EncodeBlock(hello.extensions);
    SessionStep(norm, hello.versionAndRandom, hello.sessionId, EncodeChoices(hello));
    CiphersStep(norm, hello.ciphers, [|hello.compression|] + hello.compression + block);
    CompressionStep(norm, hello.compression, block);
    BlockAcceptedIff(norm, hello.extensions, name);
  }

  lemma CompressionDecodes(norm: Normalizer, more: Bytes) returns (compression: Bytes, block: Bytes)
    requires Compression(norm, more).Ok?
    ensures 1 <= |compression| <= 0xff && more == [|compression|] + compression + block
    ensures ExtensionBlock(norm, block).Ok?
  {
    compression, block := more[1..1 + more[0]], more[1 + more[0]..];
    PrefixedBytes(more, more[0]);
  }

  lemma CiphersDecode(norm: Normalizer, rest: Bytes) returns (ciphers: Bytes, more: Bytes)
    requires Ciphers(norm, rest).Ok?
    ensures 2 <= |ciphers| <= 0xffff && |ciphers| % 2 == 0 && rest == P16(|ciphers|) + ciphers + more
    ensures Compression(norm, more).Ok?
  {
    var n := U16(rest[0], rest[1]);
    ciphers, more := rest[2..2 + n], rest[2 + n..];
    CipherBytes(rest, n);
  }

  lemma CipherBytes(rest: Bytes, n: nat)
    requires |rest| >= 2 + n && n == U16(rest[0], rest[1])
    ensures rest == P16(n) + rest[2..2 + n] + rest[2 + n..]
  {
    BytesOf16(rest[0], rest[1]);
  }

  lemma SessionDecodes(norm: Normalizer, body: Bytes) returns (head: Bytes, sessionId: Bytes, rest: Bytes)
    requires HelloBody(norm, body).Ok?
    ensures |head| == 34 && |sessionId| <= 0xff && body == head + ([|sessionId|] + sessionId + rest)
    ensures Ciphers(norm, rest).Ok?
  {
    var session := body[34..];
    head, sessionId, rest := body[..34], session[1..1 + session[0]], session[1 + session[0]..];
    PrefixedBytes(session, session[0]);
  }

  lemma PrefixedBytes(session: Bytes, n: nat)
    requires |session| >= 1 + n && session[0] == n
    ensures session == [n] + session[1..1 + n] + session[1 + n..]
  {
  }

  /** Whatever body is accepted is the encoding of a ClientHello. */
  lemma BodyDecodes(norm: Normalizer, body: Bytes) returns (hello: ClientHello)
    requires HelloBody(norm, body).Ok?
    ensures Fits(hello) && EncodeBody(hello) == body
  {
    var head, sessionId, rest := SessionDecodes(norm, body);
    var ciphers, more := CiphersDecode(norm, rest);
    var compression, block := CompressionDecodes(norm, more);
    var extensions := BlockDecodes(norm, block);
    hello := ClientHello(head, sessionId, ciphers, compression, extensions);
  }

  lemma BlockDecodes(norm: Normalizer, block: Bytes) returns (extensions: Option<seq<Extension>>)
    requires ExtensionBlock(norm, block).Ok?
    ensures extensions.Some? ==> FitsExtensions(extensions.value) && |EncodeExtensions(extensions.value)| <= 0xffff
    ensures EncodeBlock(extensions) == block
  {
    if block == [] {
      extensions := None;
    } else {
      var xs := ExtensionsDecode(norm, block[2..], false, []);
      extensions := Some(xs);
      BytesOf16(block[0], block[1]);
      assert block == [block[0], block[1]] + block[2..];
    }
  }

  /** A body is accepted, with a name, exactly when it encodes a ClientHello that may be served and asks for it. */
  lemma BodyAcceptedIff(norm: Normalizer, body: Bytes, name: Name)
    ensures HelloBody(norm, body) == Ok(name) <==>
      exists hello :: Fits(hello) && EncodeBody(hello) == body && Asks(norm, hello, name)
  {
    if HelloBody(norm, body) == Ok(name) {
      var hello := BodyDecodes(norm, body);
      BodyOfHelloIff(norm, hello, name);
    }
    if hello :| Fits(hello) && EncodeBody(hello) == body && Asks(norm, hello, name) {
      BodyOfHelloIff(norm, hello, name);
    }
  }

  // ---------------------------------------------------------------- records

  /** The stream begins with records whose payloads, after what was sent before, begin with the handshake message. */
  ghost predicate Delivers(data: Bytes, sent: Bytes, body: Bytes, records: seq<Record>, extra: Bytes, tail: Bytes,
                           max: int) {
    && |body| <= 0xffffff && records != [] && FitsRecords(records) && data == Stream(records) + tail
    && sent + Payloads(records) == Handshake(body) + extra && |sent + Payloads(records)| <= max
  }

  lemma FirstRecord(rest: Bytes) returns (r: Record)
    requires |rest| >= 5 && rest[0] == HANDSHAKE && 1 <= U16(rest[3], rest[4]) <= MAX_RECORD
    requires 5 + U16(rest[3], rest[4]) <= |rest|
    ensures 1 <= |r.payload| <= MAX_RECORD && r.payload == rest[5..5 + U16(rest[3], rest[4])]
    ensures EncodeRecord(r) + rest[5 + U16(rest[3], rest[4])..] == rest
  {
    var n := U16(rest[3], rest[4]);
    r := Record(rest[1], rest[2], rest[5..5 + n]);
    BytesOf16(rest[3], rest[4]);
    assert rest == [rest[0], rest[1], rest[2]] + [rest[3], rest[4]] + rest[5..5 + n] + rest[5 + n..];
  }

  lemma AssembledMessage(norm: Normalizer, handshake: Bytes, name: Name, max: int) returns (body: Bytes, extra: Bytes)
    requires Assembled(norm, handshake, max) == Some(Complete(name))
    ensures |body| <= 0xffffff && handshake == Handshake(body) + extra && |handshake| <= max
    ensures HelloBody(norm, body) == Ok(name)
  {
    var n := HandshakeLength(handshake);
    body, extra := handshake[4..4 + n], handshake[4 + n..];
    MessageBytes(handshake, n);
  }

  lemma MessageBytes(handshake: Bytes, n: nat)
    requires |handshake| >= 4 + n && handshake[0] == CLIENT_HELLO && n == U24(handshake[1], handshake[2], handshake[3])
    ensures n <= 0xffffff && handshake == Handshake(handshake[4..4 + n]) + handshake[4 + n..]
  {
    BytesOf24(handshake[1], handshake[2], handshake[3]);
  }

  /** Whatever stream is accepted delivers an accepted ClientHello within the inspection limit. */
  lemma {:induction false} AcceptedStreamDelivers(norm: Normalizer, data: Bytes, sent: Bytes, name: Name, max: int)
    returns (body: Bytes, records: seq<Record>, extra: Bytes, tail: Bytes)
    requires Records(norm, data, sent, max) == Complete(name)
    ensures Delivers(data, sent, body, records, extra, tail, max) && HelloBody(norm, body) == Ok(name)
    decreases |data|
  {
    var n := U16(data[3], data[4]);
    var r := FirstRecord(data);
    var next, rest := sent + r.payload, data[5 + n..];
    if Assembled(norm, next, max).Some? {
      body, extra := AssembledMessage(norm, next, name, max);
      records, tail := [r], rest;
      assert Stream([r]) == EncodeRecord(r) && Payloads([r]) == r.payload by {
        assert [r][1..] == [];
      }
    } else {
      var more;
      body, more, extra, tail := AcceptedStreamDelivers(norm, rest, next, name, max);
      records := [r] + more;
      OneMoreRecord(data, sent, body, r, rest, more, extra, tail, max);
    }
  }

  lemma OneMoreRecord(data: Bytes, sent: Bytes, body: Bytes, r: Record, rest: Bytes, more: seq<Record>, extra: Bytes,
                      tail: Bytes, max: int)
    requires 1 <= |r.payload| <= MAX_RECORD && EncodeRecord(r) + rest == data
    requires Delivers(rest, sent + r.payload, body, more, extra, tail, max)
    ensures Delivers(data, sent, body, [r] + more, extra, tail, max)
  {
    StreamCons(r, more);
    Reassociate(EncodeRecord(r), Stream(more), tail);
    Reassociate(sent, r.payload, Payloads(more));
  }

  lemma StreamCons(r: Record, more: seq<Record>)
    requires 1 <= |r.payload| <= MAX_RECORD && FitsRecords(more)
    ensures FitsRecords([r] + more) && Stream([r] + more) == EncodeRecord(r) + Stream(more)
    ensures Payloads([r] + more) == r.payload + Payloads(more)
  {
    assert ([r] + more)[1..] == more;
  }

  lemma Reassociate(a: Bytes, b: Bytes, c: Bytes)
    ensures (a + b) + c == a + (b + c)
  {
  }

  /**
    A stream the parser accepts opens with records that carry a ClientHello, which the limit leaves room for,
    has no encrypted_client_hello and asks for the returned name.
  */
  lemma AcceptedMeansHello(norm: Normalizer, data: Bytes, name: Name, max: int)
    requires Records(norm, data, [], max) == Complete(name)
    ensures exists hello, records, extra, tail ::
      Fits(hello) && Asks(norm, hello, name) && Delivers(data, [], EncodeBody(hello), records, extra, tail, max)
  {
    var body, records, extra, tail := AcceptedStreamDelivers(norm, data, [], name, max);
    BodyAcceptedIff(norm, body, name);
  }

  /** The bytes of an encrypted_client_hello extension. */
  function EncryptedHelloExtension(inner: Bytes): Bytes
    requires |inner| <= 0xffff
  {
    P16(0xfe0d) + P16(|inner|) + inner
  }

  lemma ExtensionStep(norm: Normalizer, x: Extension, rest: Bytes, seen: bool, name: Name)
    requires FitsExtension(x)
    ensures Extensions(norm, EncodeExtension(x) + rest, seen, name)
         == if x.Other? then Extensions(norm, rest, seen, name)
            else if seen then Err(DuplicateServerName)
            else match ServerNameExtension(norm, ExtensionBody(x))
              case Err(e) => Err(e)
              case Ok(value) => Extensions(norm, rest, true, value)
  {
    EncodedExtension(x, rest);
  }

  /** A block of extensions with an encrypted_client_hello anywhere is never accepted. */
  lemma {:induction false} EncryptedHelloIsRefused(norm: Normalizer, xs: seq<Extension>, inner: Bytes, after: Bytes,
                                                   seen: bool, name: Name)
    requires FitsExtensions(xs) && |inner| <= 0xffff
    ensures Extensions(norm, EncodeExtensions(xs) + (EncryptedHelloExtension(inner) + after), seen, name).Err?
    decreases |xs|
  {
    var ech := EncryptedHelloExtension(inner) + after;
    if xs == [] {
      assert EncodeExtensions(xs) + ech == ech;
      EncryptedHelloBytes(inner, after);
    } else {
      var head, tail := xs[0], xs[1..];
      assert head in xs && forall x | x in tail :: x in xs;
      Reassociate(EncodeExtension(head), EncodeExtensions(tail), ech);
      ExtensionStep(norm, head, EncodeExtensions(tail) + ech, seen, name);
      if head.Other? {
        EncryptedHelloIsRefused(norm, tail, inner, after, seen, name);
      } else {
        var r := ServerNameExtension(norm, ExtensionBody(head));
        EncryptedHelloIsRefused(norm, tail, inner, after, true, if r.Ok? then r.value else []);
      }
    }
  }

  lemma EncryptedHelloBytes(inner: Bytes, after: Bytes)
    requires |inner| <= 0xffff
    ensures var ech := EncryptedHelloExtension(inner) + after;
      |ech| >= 4 && ech[0] == 0xfe && ech[1] == 0x0d && U16(ech[0], ech[1]) == 0xfe0d
  {
  }
}
