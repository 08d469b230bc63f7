/**
  The desired configuration of one mtproto inbound and its two fingerprints
  (internal/mtproto/manager.go).

  The fingerprints are joined with separators that fields may contain. For fields free of
  them, two configurations have equal fingerprints exactly when they are the same
  configuration up to the order of clients; a client name with a bar can make them lie.
*/
module MtprotoConfig {
  import opened Decimals
  import opened Ordering
  import opened Sequences

  datatype SecretEntry = SecretEntry(name: string, secret: string, adTag: string, quotaBytes: int, expiresUnix: int)

  datatype InboundId = InboundId(n: int)

  datatype Instance = Instance(
    id: InboundId, tag: string, listen: string, port: int, secrets: seq<SecretEntry>,
    debug: bool, proxyProtocolListener: bool, preferIP: string,
    frontingIP: string, frontingPort: int, frontingProxyProtocol: bool,
    throttleMaxConnections: int, routeThroughXray: bool, xrayRoutePort: int,
    publicIPv4: string, publicIPv6: string)

  // ---------------------------------------------------------------- joined text

  /** strings.Join(parts, "|"). */
  function JoinBars(parts: seq<string>): string {
    if parts == [] then "" else if |parts| == 1 then parts[0] else parts[0] + "|" + JoinBars(parts[1..])
  }

  lemma SplitFirst(a: string, b: string, a': string, b': string, c: char)
    requires a + [c] + b == a' + [c] + b' && c !in a && c !in a'
    ensures a == a' && b == b'
  {
    var s := a + [c] + b;
    assert s[|a|] == c && s[|a'|] == c;
    assert forall i | 0 <= i < |a| :: s[i] == a[i];
    assert forall i | 0 <= i < |a'| :: s[i] == a'[i];
    assert s[..|a|] == a && s[..|a'|] == a';
    assert s[|a| + 1..] == b && s[|a'| + 1..] == b';
  }

  lemma SplitLast(a: string, b: string, a': string, b': string, c: char)
    requires a + [c] + b == a' + [c] + b' && c !in b && c !in b'
    ensures a == a' && b == b'
  {
    var s := a + [c] + b;
    assert s[|a|] == c && s[|a'|] == c;
    assert forall i | |a| < i < |s| :: s[i] == b[i - |a| - 1];
    assert forall i | |a'| < i < |s| :: s[i] == b'[i - |a'| - 1];
    assert s[..|a|] == a && s[..|a'|] == a';
    assert s[|a| + 1..] == b && s[|a'| + 1..] == b';
  }

  lemma SeveralPartsHaveABar(parts: seq<string>)
    ensures |parts| > 1 ==> '|' in JoinBars(parts)
  {
    if |parts| > 1 {
      assert JoinBars(parts)[|parts[0]|] == '|';
    }
  }

  lemma {:induction false} JoinIsInjective(a: seq<string>, b: seq<string>)
    requires a != [] && b != [] && (forall p <- a :: '|' !in p) && (forall p <- b :: '|' !in p)
    requires JoinBars(a) == JoinBars(b)
    ensures a == b
  {
    assert a[0] in a && b[0] in b;
    SeveralPartsHaveABar(a);
    SeveralPartsHaveABar(b);
    if |a| > 1 && |b| > 1 {
      SplitFirst(a[0], JoinBars(a[1..]), b[0], JoinBars(b[1..]), '|');
      JoinIsInjective(a[1..], b[1..]);
      assert a == [a[0]] + a[1..] && b == [b[0]] + b[1..];
    }
  }

  // ---------------------------------------------------------------- secrets

  /** A value after its equals sign, and the name of the next field. */
  function Field(value: string, next: string): string {
    "=" + value + next
  }

  /** One client in the secrets fingerprint. */
  function EntryText(e: SecretEntry): string {
    e.name + Field(e.secret, ";tag") + Field(e.adTag, ";q") + Field(Signed(e.quotaBytes), ";exp")
    + Field(Signed(e.expiresUnix), "")
  }

  function AsText(): SecretEntry -> string {
    (e: SecretEntry) => EntryText(e)
  }

  function SecretsFingerprint(secrets: seq<SecretEntry>): string {
    JoinBars(SortStrings(Map(AsText(), secrets)))
  }

  /** No separator where it could be mistaken; a name may still hold '=' and ';'. */
  predicate PlainEntry(e: SecretEntry) {
    '|' !in e.name && '|' !in e.secret && '|' !in e.adTag && '=' !in e.secret && '=' !in e.adTag
  }

  predicate PlainSecrets(secrets: seq<SecretEntry>) {
    forall e <- secrets :: PlainEntry(e)
  }

  lemma EntryTextIsInjective(e: SecretEntry, f: SecretEntry)
    requires PlainEntry(e) && PlainEntry(f) && EntryText(e) == EntryText(f)
    ensures e == f
  {
    SignedIsPlain(e.expiresUnix);
    SignedIsPlain(f.expiresUnix);
    SignedIsPlain(e.quotaBytes);
    SignedIsPlain(f.quotaBytes);
    var e1, f1 := e.name + Field(e.secret, ";tag"), f.name + Field(f.secret, ";tag");
    var e2, f2 := e1 + Field(e.adTag, ";q"), f1 + Field(f.adTag, ";q");
    var e3, f3 := e2 + Field(Signed(e.quotaBytes), ";exp"), f2 + Field(Signed(f.quotaBytes), ";exp");
    SplitField(e3, Signed(e.expiresUnix), f3, Signed(f.expiresUnix), "");
    SplitField(e2, Signed(e.quotaBytes), f2, Signed(f.quotaBytes), ";exp");
    SplitField(e1, e.adTag, f1, f.adTag, ";q");
    SplitField(e.name, e.secret, f.name, f.secret, ";tag");
    SignedIsInjective(e.expiresUnix, f.expiresUnix);
    SignedIsInjective(e.quotaBytes, f.quotaBytes);
  }

  /** The last equals sign separates the value from what comes before. */
  lemma SplitField(a: string, b: string, a': string, b': string, next: string)
    requires a + Field(b, next) == a' + Field(b', next)
    requires '=' !in b && '=' !in b' && '=' !in next
    ensures a == a' && b == b'
  {
    assert a + Field(b, next) == a + "=" + (b + next);
    assert a' + Field(b', next) == a' + "=" + (b' + next);
    SplitLast(a, b + next, a', b' + next, '=');
    assert |b| == |b'| && (b + next)[..|b|] == b && (b' + next)[..|b'|] == b';
  }

  lemma EntryTextHasNoBar(e: SecretEntry)
    requires PlainEntry(e)
    ensures '|' !in EntryText(e)
  {
    SignedIsPlain(e.expiresUnix);
    SignedIsPlain(e.quotaBytes);
  }

  /** Reordering clients never changes the fingerprint. */
  lemma SecretsFingerprintForgetsOrder(a: seq<SecretEntry>, b: seq<SecretEntry>)
    requires multiset(a) == multiset(b)
    ensures SecretsFingerprint(a) == SecretsFingerprint(b)
  {
    MapPermutes(AsText(), a, b);
    SortForgetsOrder(Map(AsText(), a), Map(AsText(), b));
  }

  lemma SortedTextsHaveNoBar(a: seq<SecretEntry>)
    requires PlainSecrets(a)
    ensures forall p <- SortStrings(Map(AsText(), a)) :: '|' !in p && p != ""
    ensures |SortStrings(Map(AsText(), a))| == |a|
  {
    var texts := Map(AsText(), a);
    SortStringsSorts(texts);
    SameMultisetSameLength(SortStrings(texts), texts);
    forall p <- SortStrings(texts) ensures '|' !in p && p != "" {
      assert p in multiset(SortStrings(texts));
      var i :| 0 <= i < |texts| && texts[i] == p;
      assert a[i] in a;
      EntryTextHasNoBar(a[i]);
    }
  }

  lemma JoinIsEmptyOnlyForNone(parts: seq<string>)
    requires forall p <- parts :: p != ""
    ensures JoinBars(parts) == "" <==> parts == []
  {
    assert parts != [] ==> parts[0] in parts;
  }

  /** For separator-free clients the fingerprint moves whenever the clients do, and only then. */
  lemma SecretsFingerprintIsExact(a: seq<SecretEntry>, b: seq<SecretEntry>)
    requires PlainSecrets(a) && PlainSecrets(b)
    ensures SecretsFingerprint(a) == SecretsFingerprint(b) <==> multiset(a) == multiset(b)
  {
    if multiset(a) == multiset(b) {
      SecretsFingerprintForgetsOrder(a, b);
    } else if SecretsFingerprint(a) == SecretsFingerprint(b) {
      var s, t := SortStrings(Map(AsText(), a)), SortStrings(Map(AsText(), b));
      SortedTextsHaveNoBar(a);
      SortedTextsHaveNoBar(b);
      JoinIsEmptyOnlyForNone(s);
      JoinIsEmptyOnlyForNone(t);
      if s != [] {
        JoinIsInjective(s, t);
      }
      SortForgetsOrder(Map(AsText(), a), Map(AsText(), b));
      forall x, y | x in a && y in b && AsText()(x) == AsText()(y) ensures x == y {
        EntryTextIsInjective(x, y);
      }
      MapReflects(AsText(), a, b);
      assert false;
    }
  }

  /** A bar in a name defeats it: any two clients look like one suitably named client. */
  lemma BarsCanHideAClient(e: SecretEntry, f: SecretEntry)
    requires !Below(EntryText(f), EntryText(e))
    ensures SecretsFingerprint([e, f]) == SecretsFingerprint([f.(name := EntryText(e) + "|" + f.name)])
    ensures multiset([e, f]) != multiset([f.(name := EntryText(e) + "|" + f.name)])
  {
    var g := f.(name := EntryText(e) + "|" + f.name);
    assert |multiset([e, f])| == 2 && |multiset([g])| == 1;
    PrefixedName(f, EntryText(e) + "|");
    assert Map(AsText(), [e, f]) == [EntryText(e), EntryText(f)] && Map(AsText(), [g]) == [EntryText(g)];
    JoinSorted(EntryText(e), EntryText(f));
  }

  lemma PrefixedName(e: SecretEntry, prefix: string)
    ensures EntryText(e.(name := prefix + e.name)) == prefix + EntryText(e)
  {
    var a, b := Field(e.secret, ";tag"), Field(e.adTag, ";q");
    var c, d := Field(Signed(e.quotaBytes), ";exp"), Field(Signed(e.expiresUnix), "");
    Reassociate(prefix, e.name, a);
    Reassociate(prefix, e.name + a, b);
    Reassociate(prefix, e.name + a + b, c);
    Reassociate(prefix, e.name + a + b + c, d);
  }

  lemma Reassociate(a: string, b: string, c: string)
    ensures (a + b) + c == a + (b + c)
  {
  }

  lemma JoinSorted(x: string, y: string)
    requires !Below(y, x)
    ensures JoinBars(SortStrings([x, y])) == x + "|" + y && JoinBars(SortStrings([x + "|" + y])) == x + "|" + y
  {
    assert [x, y][1..] == [y] && [y][1..] == [];
    assert SortStrings([y]) == [y];
    assert SortStrings([x, y]) == [x, y];
    assert [x + "|" + y][1..] == [];
    assert SortStrings([x + "|" + y]) == [x + "|" + y];
  }

  lemma {:induction false} LongerIsNotLower(a: string, more: string, x: string)
    requires !Below(a, x)
    ensures !Below(a + more, x)
  {
    if a != [] && x != [] && a[0] == x[0] {
      assert (a + more)[1..] == a[1..] + more;
      LongerIsNotLower(a[1..], more, x[1..]);
    }
  }

  /** Joining the last two parts beforehand changes nothing. */
  lemma {:induction false} JoinLastTwo(parts: seq<string>, x: string, y: string)
    ensures JoinBars(parts + [x, y]) == JoinBars(parts + [x + "|" + y])
  {
    if parts == [] {
      assert [x, y][1..] == [y] && [] + [x, y] == [x, y] && [] + [x + "|" + y] == [x + "|" + y];
    } else {
      assert (parts + [x, y])[1..] == parts[1..] + [x, y];
      assert (parts + [x + "|" + y])[1..] == parts[1..] + [x + "|" + y];
      JoinLastTwo(parts[1..], x, y);
    }
  }

  lemma MergedIsSorted(parts: seq<string>, x: string, y: string)
    requires Sorted(parts + [x, y])
    ensures Sorted(parts + [x + "|" + y])
  {
    var s, t := parts + [x, y], parts + [x + "|" + y];
    forall i, j | 0 <= i < j < |t| ensures !Below(t[j], t[i]) {
      assert t[i] == s[i];
      if j < |parts| {
        assert t[j] == s[j];
      } else {
        assert s[j] == x;
        LongerIsNotLower(x, "|" + y, t[i]);
        assert x + ("|" + y) == x + "|" + y;
      }
    }
  }

  /** The client whose text is `text`, and the others. */
  lemma TakeText(secrets: seq<SecretEntry>, texts: seq<string>, text: string)
    returns (e: SecretEntry, rest: seq<SecretEntry>)
    requires multiset(Map(AsText(), secrets)) == multiset(texts + [text])
    ensures EntryText(e) == text && |rest| == |secrets| - 1
    ensures multiset(Map(AsText(), rest)) == multiset(texts)
  {
    assert (texts + [text])[|texts|] == text;
    assert text in multiset(Map(AsText(), secrets));
    var k :| 0 <= k < |secrets| && Map(AsText(), secrets)[k] == text;
    e, rest := secrets[k], DropAt(secrets, k);
    MapTakeOut(AsText(), secrets, k);
    assert multiset(texts + [text]) - multiset{text} == multiset(texts);
    assert multiset(Map(AsText(), rest)) == multiset(Map(AsText(), secrets)) - multiset{text};
  }

  /** The last two clients, in the order of their texts, become one. */
  lemma MergeClients(secrets: seq<SecretEntry>, parts: seq<string>, x: string, y: string)
    returns (other: seq<SecretEntry>)
    requires multiset(Map(AsText(), secrets)) == multiset(parts + [x, y])
    ensures |other| == |secrets| - 1 && multiset(Map(AsText(), other)) == multiset(parts + [x + "|" + y])
  {
    assert parts + [x, y] == (parts + [x]) + [y];
    var e, most := TakeText(secrets, parts + [x], y);
    var _, rest := TakeText(most, parts, x);
    PrefixedName(e, x + "|");
    other := WithText(rest, parts, e.(name := x + "|" + e.name));
  }

  lemma WithText(rest: seq<SecretEntry>, parts: seq<string>, e: SecretEntry) returns (other: seq<SecretEntry>)
    requires multiset(Map(AsText(), rest)) == multiset(parts)
    ensures |other| == |rest| + 1 && multiset(Map(AsText(), other)) == multiset(parts + [EntryText(e)])
  {
    other := rest + [e];
    assert Map(AsText(), other) == Map(AsText(), rest) + [EntryText(e)];
  }

  lemma FingerprintOf(secrets: seq<SecretEntry>, texts: seq<string>)
    requires Sorted(texts) && multiset(Map(AsText(), secrets)) == multiset(texts)
    ensures SecretsFingerprint(secrets) == JoinBars(texts)
  {
    SortStringsSorts(Map(AsText(), secrets));
    SortedIsUnique(SortStrings(Map(AsText(), secrets)), texts);
  }

  /** The sorted texts of two clients or more, split before the last two. */
  lemma SortedTexts(secrets: seq<SecretEntry>) returns (parts: seq<string>, x: string, y: string)
    requires |secrets| >= 2
    ensures Sorted(parts + [x, y]) && multiset(Map(AsText(), secrets)) == multiset(parts + [x, y])
  {
    var texts := Map(AsText(), secrets);
    var t := SortStrings(texts);
    SortStringsSorts(texts);
    SameMultisetSameLength(t, texts);
    parts, x, y := LastTwo(t);
  }

  lemma LastTwo(t: seq<string>) returns (parts: seq<string>, x: string, y: string)
    requires |t| >= 2
    ensures t == parts + [x, y]
  {
    parts, x, y := t[..|t| - 2], t[|t| - 2], t[|t| - 1];
  }

  /** No list of two clients or more is safe: one with a client fewer has the same fingerprint. */
  lemma EveryListCollides(secrets: seq<SecretEntry>) returns (other: seq<SecretEntry>)
    requires |secrets| >= 2
    ensures SecretsFingerprint(other) == SecretsFingerprint(secrets)
    ensures |other| == |secrets| - 1 && multiset(other) != multiset(secrets)
  {
    var parts, x, y := SortedTexts(secrets);
    other := MergeClients(secrets, parts, x, y);
    MergedIsSorted(parts, x, y);
    FingerprintOf(secrets, parts + [x, y]);
    FingerprintOf(other, parts + [x + "|" + y]);
    JoinLastTwo(parts, x, y);
    assert |multiset(other)| != |multiset(secrets)|;
  }

  // ---------------------------------------------------------------- everything else

  function BindTo(inst: Instance): string {
    (if inst.listen == "" then "0.0.0.0" else inst.listen) + ":" + Signed(inst.port)
  }

  function BoolText(b: bool): string {
    if b then "true" else "false"
  }

  function StructuralParts(inst: Instance): seq<string> {
    [BindTo(inst), BoolText(inst.debug), BoolText(inst.proxyProtocolListener), inst.preferIP,
     inst.frontingIP, Signed(inst.frontingPort), BoolText(inst.frontingProxyProtocol),
     Signed(inst.throttleMaxConnections), BoolText(inst.routeThroughXray), Signed(inst.xrayRoutePort),
     inst.publicIPv4, inst.publicIPv6]
  }

  function StructuralFingerprint(inst: Instance): string {
    JoinBars(StructuralParts(inst))
  }

  /** What a restart would pick up: everything but the tag, the secrets and how 0.0.0.0 is written. */
  function Structure(inst: Instance): Instance {
    inst.(id := InboundId(0), tag := "", secrets := [], listen := if inst.listen == "" then "0.0.0.0" else inst.listen)
  }

  predicate PlainStructure(inst: Instance) {
    '|' !in inst.listen && '|' !in inst.preferIP && '|' !in inst.frontingIP
    && '|' !in inst.publicIPv4 && '|' !in inst.publicIPv6
  }

  lemma PartsHaveNoBar(inst: Instance)
    requires PlainStructure(inst)
    ensures forall p <- StructuralParts(inst) :: '|' !in p
  {
    SignedIsPlain(inst.port);
    SignedIsPlain(inst.frontingPort);
    SignedIsPlain(inst.throttleMaxConnections);
    SignedIsPlain(inst.xrayRoutePort);
  }

  lemma PartsAreExact(a: Instance, b: Instance)
    requires StructuralParts(a) == StructuralParts(b)
    ensures Structure(a) == Structure(b)
  {
    var p, q := StructuralParts(a), StructuralParts(b);
    assert p[0] == BindTo(a) && q[0] == BindTo(b);
    SignedIsPlain(a.port);
    SignedIsPlain(b.port);
    SplitLast(Structure(a).listen, Signed(a.port), Structure(b).listen, Signed(b.port), ':');
    SignedIsInjective(a.port, b.port);
    assert p[1] == BoolText(a.debug) && q[1] == BoolText(b.debug);
    assert p[2] == BoolText(a.proxyProtocolListener) && q[2] == BoolText(b.proxyProtocolListener);
    assert p[3] == a.preferIP && q[3] == b.preferIP && p[4] == a.frontingIP && q[4] == b.frontingIP;
    assert p[5] == Signed(a.frontingPort) && q[5] == Signed(b.frontingPort);
    SignedIsInjective(a.frontingPort, b.frontingPort);
    assert p[6] == BoolText(a.frontingProxyProtocol) && q[6] == BoolText(b.frontingProxyProtocol);
    assert p[7] == Signed(a.throttleMaxConnections) && q[7] == Signed(b.throttleMaxConnections);
    SignedIsInjective(a.throttleMaxConnections, b.throttleMaxConnections);
    assert p[8] == BoolText(a.routeThroughXray) && q[8] == BoolText(b.routeThroughXray);
    assert p[9] == Signed(a.xrayRoutePort) && q[9] == Signed(b.xrayRoutePort);
    SignedIsInjective(a.xrayRoutePort, b.xrayRoutePort);
    assert p[10] == a.publicIPv4 && q[10] == b.publicIPv4 && p[11] == a.publicIPv6 && q[11] == b.publicIPv6;
  }

  /** The structural fingerprint moves exactly when something outside the secrets does. */
  lemma StructuralFingerprintIsExact(a: Instance, b: Instance)
    requires PlainStructure(a) && PlainStructure(b)
    ensures StructuralFingerprint(a) == StructuralFingerprint(b) <==> Structure(a) == Structure(b)
  {
    if Structure(a) == Structure(b) {
      assert BindTo(a) == BindTo(b);
    } else if StructuralFingerprint(a) == StructuralFingerprint(b) {
      PartsHaveNoBar(a);
      PartsHaveNoBar(b);
      JoinIsInjective(StructuralParts(a), StructuralParts(b));
      PartsAreExact(a, b);
      assert false;
    }
  }
}
