/**
  The TLS ClientHello parser of the shared-port front (internal/frontmux/classifier.go).
  Record layer: section 5.1 of RFC 8446; ClientHello: section 4.1.2 of RFC 8446;
  server_name: section 3 of RFC 6066.  Host-name normalisation (IDNA) is a parameter.

  The functions say what the parser returns in terms of the bytes still unread; the
  methods are the code's loops over an offset, proved equal to them.
*/
module TlsHello {
  import opened Wrappers

  type byte = x: int | 0 <= x < 256
  type Bytes = seq<byte>
  type Name = seq<byte>
  /** NormalizeServerName: None is an error, Some([]) an empty name. */
  type Normalizer = Name -> Option<Name>

  datatype TlsError =
    | UnexpectedRecordType | BadRecordLength | HelloTooLong | NotClientHello
    | TruncatedHello | TruncatedSessionId | TruncatedCiphers | BadCiphers
    | TruncatedCompression | BadCompression | TruncatedExtensions | BadExtensionsLength
    | TruncatedExtension | TruncatedExtensionBody | DuplicateServerName | EncryptedHello
    | TruncatedNameExtension | BadNameListLength | TruncatedNameEntry | TruncatedNameValue
    | DuplicateHostName | BadName

  datatype Parse = Incomplete | Complete(sni: Name) | Malformed(error: TlsError)

  const HANDSHAKE: byte := 0x16
  const CLIENT_HELLO: byte := 0x01
  const MAX_RECORD := 18432
  const ECH := 0xfe0d

  function U16(hi: byte, lo: byte): (n: nat)
    ensures n <= 0xffff
  {
    hi * 256 + lo
  }

  function U24(a: byte, b: byte, c: byte): nat {
    a * 65536 + b * 256 + c
  }

  // ---------------------------------------------------------------- server_name

  function ServerNames(norm: Normalizer, rest: Bytes, name: Name): Result<Name, TlsError>
    decreases |rest|
  {
    if rest == [] then Ok(name)
    else if |rest| < 3 then Err(TruncatedNameEntry)
    else
      var n := U16(rest[1], rest[2]);
      if 3 + n > |rest| then Err(TruncatedNameValue)
      else if rest[0] != 0 then ServerNames(norm, rest[3 + n..], name)
      else if name != [] then Err(DuplicateHostName)
      else match norm(rest[3..3 + n])
        case None => Err(BadName)
        case Some(value) => ServerNames(norm, rest[3 + n..], value)
  }

  function ServerNameExtension(norm: Normalizer, data: Bytes): Result<Name, TlsError> {
    if |data| < 2 then Err(TruncatedNameExtension)
    else if U16(data[0], data[1]) != |data| - 2 then Err(BadNameListLength)
    else ServerNames(norm, data[2..], [])
  }

  method ParseServerNameExtension(norm: Normalizer, data: Bytes) returns (r: Result<Name, TlsError>)
    ensures r == ServerNameExtension(norm, data)
  {
    if |data| < 2 {
      return Err(TruncatedNameExtension);
    }
    if U16(data[0], data[1]) != |data| - 2 {
      return Err(BadNameListLength);
    }
    var offset, serverName := 2, [];
    ghost var goal := ServerNames(norm, data[2..], []);
    while offset < |data|
      invariant 2 <= offset <= |data|
      invariant ServerNames(norm, data[offset..], serverName) == goal
    {
      if offset + 3 > |data| {
        return Err(TruncatedNameEntry);
      }
      var nameType, nameLength := data[offset], U16(data[offset + 1], data[offset + 2]);
      if offset + 3 + nameLength > |data| {
        return Err(TruncatedNameValue);
      }
      DropDrop(data, offset, 3 + nameLength);
      if nameType == 0 {
        if serverName != [] {
          return Err(DuplicateHostName);
        }
        DropSlice(data, offset, 3, 3 + nameLength);
        var normalized := norm(data[offset + 3..offset + 3 + nameLength]);
        if normalized.None? {
          return Err(BadName);
        }
        serverName := normalized.value;
      }
      offset := offset + 3 + nameLength;
    }
    assert data[offset..] == [];
    return Ok(serverName);
  }

  // ---------------------------------------------------------------- ClientHello body

  function Extensions(norm: Normalizer, rest: Bytes, seen: bool, name: Name): Result<Name, TlsError>
    decreases |rest|
  {
    if rest == [] then Ok(name)
    else if |rest| < 4 then Err(TruncatedExtension)
    else
      var kind, n := U16(rest[0], rest[1]), U16(rest[2], rest[3]);
      if 4 + n > |rest| then Err(TruncatedExtensionBody)
      else if kind == 0 then
        if seen then Err(DuplicateServerName)
        else match ServerNameExtension(norm, rest[4..4 + n])
          case Err(e) => Err(e)
          case Ok(value) => Extensions(norm, rest[4 + n..], true, value)
      else if kind == ECH then Err(EncryptedHello)
      else Extensions(norm, rest[4 + n..], seen, name)
  }

  /** What follows the compression methods: nothing at all, or one length-prefixed block. */
  function ExtensionBlock(norm: Normalizer, rest: Bytes): Result<Name, TlsError> {
    if rest == [] then Ok([])
    else if |rest| < 2 then Err(TruncatedExtensions)
    else if 2 + U16(rest[0], rest[1]) != |rest| then Err(BadExtensionsLength)
    else Extensions(norm, rest[2..], false, [])
  }

  function Compression(norm: Normalizer, rest: Bytes): Result<Name, TlsError> {
    if rest == [] then Err(TruncatedCompression)
    else if rest[0] == 0 || 1 + rest[0] > |rest| then Err(BadCompression)
    else ExtensionBlock(norm, rest[1 + rest[0]..])
  }

  function Ciphers(norm: Normalizer, rest: Bytes): Result<Name, TlsError> {
    if |rest| < 2 then Err(TruncatedCiphers)
    else
      var n := U16(rest[0], rest[1]);
      if n == 0 || n % 2 != 0 || 2 + n > |rest| then Err(BadCiphers)
      else Compression(norm, rest[2 + n..])
  }

  function HelloBody(norm: Normalizer, body: Bytes): Result<Name, TlsError> {
    if |body| < 34 then Err(TruncatedHello)
    else
      var rest := body[34..];
      if rest == [] || 1 + rest[0] > |rest| then Err(TruncatedSessionId)
      else Ciphers(norm, rest[1 + rest[0]..])
  }

  method ParseClientHelloBodySNI(norm: Normalizer, body: Bytes) returns (r: Result<Name, TlsError>)
    ensures r == HelloBody(norm, body)
  {
    if |body| < 34 {
      return Err(TruncatedHello);
    }
    var offset := 34;
    if offset >= |body| {
      return Err(TruncatedSessionId);
    }
    var sessionLength: nat := body[offset];
    offset := offset + 1;
    if offset + sessionLength > |body| {
      return Err(TruncatedSessionId);
    }
    offset := offset + sessionLength;
    DropDrop(body, 34, 1 + sessionLength);
    r := ParseCiphers(norm, body, offset);
  }

  /** parseClientHelloBodySNI from the cipher suites on. */
  method ParseCiphers(norm: Normalizer, body: Bytes, start: nat) returns (r: Result<Name, TlsError>)
    requires start <= |body|
    ensures r == Ciphers(norm, body[start..])
  {
    var offset := start;
    ghost var rest := body[start..];
    if offset + 2 > |body| {
      return Err(TruncatedCiphers);
    }
    var cipherLength := U16(body[offset], body[offset + 1]);
    assert cipherLength == U16(rest[0], rest[1]);
    offset := offset + 2;
    if cipherLength == 0 || cipherLength % 2 != 0 || offset + cipherLength > |body| {
      return Err(BadCiphers);
    }
    offset := offset + cipherLength;
    DropDrop(body, start, 2 + cipherLength);
    r := ParseCompression(norm, body, offset);
  }

  /** parseClientHelloBodySNI from the compression methods on. */
  method ParseCompression(norm: Normalizer, body: Bytes, start: nat) returns (r: Result<Name, TlsError>)
    requires start <= |body|
    ensures r == Compression(norm, body[start..])
  {
    var offset := start;
    if offset >= |body| {
      return Err(TruncatedCompression);
    }
    var compressionLength: nat := body[offset];
    offset := offset + 1;
    if compressionLength == 0 || offset + compressionLength > |body| {
      return Err(BadCompression);
    }
    offset := offset + compressionLength;
    DropDrop(body, start, 1 + compressionLength);
    ghost var block := body[offset..];
    if offset == |body| {
      return Ok([]);
    }
    if offset + 2 > |body| {
      return Err(TruncatedExtensions);
    }
    var extensionsLength := U16(body[offset], body[offset + 1]);
    DropDrop(body, offset, 2);
    offset := offset + 2;
    if offset + extensionsLength != |body| {
      return Err(BadExtensionsLength);
    }
    r := ParseExtensions(norm, body, offset);
  }

  lemma DropDrop(s: Bytes, i: nat, j: nat)
    requires i + j <= |s|
    ensures s[i..][j..] == s[i + j..]
  {
  }

  lemma DropSlice(s: Bytes, i: nat, j: nat, k: nat)
    requires j <= k && i + k <= |s|
    ensures s[i..][j..k] == s[i + j..i + k]
  {
  }

  /** The extension loop of parseClientHelloBodySNI. */
  method ParseExtensions(norm: Normalizer, body: Bytes, start: nat) returns (r: Result<Name, TlsError>)
    requires start <= |body|
    ensures r == Extensions(norm, body[start..], false, [])
  {
    var offset, end := start, |body|;
    var serverName, seenServerName := [], false;
    ghost var goal := Extensions(norm, body[start..], false, []);
    while offset < end
      invariant start <= offset <= end
      invariant Extensions(norm, body[offset..], seenServerName, serverName) == goal
    {
      if offset + 4 > end {
        return Err(TruncatedExtension);
      }
      var kind := U16(body[offset], body[offset + 1]);
      var length := U16(body[offset + 2], body[offset + 3]);
      if offset + 4 + length > end {
        return Err(TruncatedExtensionBody);
      }
      DropDrop(body, offset, 4 + length);
      DropSlice(body, offset, 4, 4 + length);
      offset := offset + 4;
      if kind == 0 {
        if seenServerName {
          return Err(DuplicateServerName);
        }
        seenServerName := true;
        var value := ParseServerNameExtension(norm, body[offset..offset + length]);
        if value.Err? {
          return Err(value.error);
        }
        serverName := value.value;
      } else if kind == ECH {
        return Err(EncryptedHello);
      }
      offset := offset + length;
    }
    assert body[offset..] == [];
    return Ok(serverName);
  }

  // ---------------------------------------------------------------- record layer

  function AsParse(r: Result<Name, TlsError>): Parse {
    match r
    case Ok(name) => Complete(name)
    case Err(e) => Malformed(e)
  }

  function HandshakeLength(handshake: Bytes): nat
    requires |handshake| >= 4
  {
    U24(handshake[1], handshake[2], handshake[3])
  }

  /** Outcome once `handshake` bytes are assembled; None means another record is needed. */
  function Assembled(norm: Normalizer, handshake: Bytes, max: int): Option<Parse> {
    if |handshake| > max then Some(Malformed(HelloTooLong))
    else if |handshake| < 4 then None
    else if handshake[0] != CLIENT_HELLO then Some(Malformed(NotClientHello))
    else if HandshakeLength(handshake) > max - 4 then Some(Malformed(HelloTooLong))
    else if |handshake| >= 4 + HandshakeLength(handshake) then
      Some(AsParse(HelloBody(norm, handshake[4..4 + HandshakeLength(handshake)])))
    else None
  }

  function Records(norm: Normalizer, rest: Bytes, handshake: Bytes, max: int): Parse
    decreases |rest|
  {
    if |rest| < 5 then Incomplete
    else if rest[0] != HANDSHAKE then Malformed(UnexpectedRecordType)
    else
      var n := U16(rest[3], rest[4]);
      if n < 1 || n > MAX_RECORD then Malformed(BadRecordLength)
      else if 5 + n > |rest| then Incomplete
      else
        var next := handshake + rest[5..5 + n];
        match Assembled(norm, next, max)
        case Some(p) => p
        case None => Records(norm, rest[5 + n..], next, max)
  }

  method ParseClientHelloSNI(norm: Normalizer, data: Bytes, maxInspect: int) returns (p: Parse)
    ensures p == Records(norm, data, [], maxInspect)
  {
    var handshake: Bytes := [];
    var offset := 0;
    ghost var goal := Records(norm, data, [], maxInspect);
    assert data[0..] == data;
    while true
      invariant 0 <= offset <= |data|
      invariant Records(norm, data[offset..], handshake, maxInspect) == goal
      decreases |data| - offset
    {
      if |data| - offset < 5 {
        return Incomplete;
      }
      if data[offset] != HANDSHAKE {
        return Malformed(UnexpectedRecordType);
      }
      var recordLength := U16(data[offset + 3], data[offset + 4]);
      if recordLength < 1 || recordLength > MAX_RECORD {
        return Malformed(BadRecordLength);
      }
      if offset + 5 + recordLength > |data| {
        return Incomplete;
      }
      DropSlice(data, offset, 5, 5 + recordLength);
      DropDrop(data, offset, 5 + recordLength);
      handshake := handshake + data[offset + 5..offset + 5 + recordLength];
      if |handshake| > maxInspect {
        return Malformed(HelloTooLong);
      }
      if |handshake| >= 4 {
        if handshake[0] != CLIENT_HELLO {
          return Malformed(NotClientHello);
        }
        var handshakeLength := U24(handshake[1], handshake[2], handshake[3]);
        if handshakeLength > maxInspect - 4 {
          return Malformed(HelloTooLong);
        }
        if |handshake| >= 4 + handshakeLength {
          var body := ParseClientHelloBodySNI(norm, handshake[4..4 + handshakeLength]);
          return AsParse(body);
        }
      }
      offset := offset + 5 + recordLength;
      if offset >= |data| {
        return Incomplete;
      }
    }
  }

  /** More bytes never change a verdict: only `Incomplete` is provisional. */
  lemma {:induction false} RecordsStable(norm: Normalizer, p: Bytes, q: Bytes, handshake: Bytes, max: int)
    requires p <= q
    requires !Records(norm, p, handshake, max).Incomplete?
    ensures Records(norm, q, handshake, max) == Records(norm, p, handshake, max)
    decreases |p|
  {
    var n := U16(p[3], p[4]);
    if p[0] == HANDSHAKE && 1 <= n <= MAX_RECORD {
      var record := p[5..5 + n];
      assert record == q[5..5 + n];
      if Assembled(norm, handshake + record, max).None? {
        RecordsStable(norm, p[5 + n..], q[5 + n..], handshake + record, max);
      }
    }
  }
}
