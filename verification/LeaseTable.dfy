/**
  The lease table of the strict IP-limit coordinator (internal/iplimit/coordinator.go):
  rows keyed by (client, ip, holder), slots ordered by age, and what one transaction does.
*/
module LeaseTable {
  import opened Sequences
  import opened Ordering

  datatype Key = Key(guid: string, ip: string, holder: string)
  datatype Row = Row(expiresAt: int, createdAt: int, updatedAt: int)
  type Table = map<Key, Row>

  // ---------------------------------------------------------------- rows

  predicate Live(t: Table, k: Key, now: int) {
    k in t && t[k].expiresAt > now
  }

  /** The unexpired rows: what the global sweep keeps. */
  function Unexpired(t: Table, now: int): Table {
    map k | k in t && t[k].expiresAt > now :: t[k]
  }

  /** pruneClientExpired. */
  function PruneClient(t: Table, guid: string, now: int): Table {
    map k | k in t && !(k.guid == guid && t[k].expiresAt <= now) :: t[k]
  }

  function RowsOf(t: Table, guid: string): Table {
    map k | k in t && k.guid == guid :: t[k]
  }

  /** Distinct source addresses stored for a client. */
  function StoredIps(t: Table, guid: string): set<string> {
    set k | k in t && k.guid == guid :: k.ip
  }

  // ---------------------------------------------------------------- slots by age

  datatype Stamp = Stamp(ms: int)

  /** Creation times of the unexpired holders of one address. */
  function Creations(t: Table, guid: string, ip: string, now: int): set<Stamp> {
    set k | k in t && k.guid == guid && k.ip == ip && t[k].expiresAt > now :: Stamp(t[k].createdAt)
  }

  function ActiveIps(t: Table, guid: string, now: int): set<string> {
    set k | k in t && k.guid == guid && t[k].expiresAt > now :: k.ip
  }

  predicate IsLeast(s: set<Stamp>, m: Stamp) {
    m in s && forall c | c in s :: m.ms <= c.ms
  }

  lemma {:induction false} LeastExists(s: set<Stamp>)
    requires s != {}
    ensures exists m :: IsLeast(s, m)
  {
    var x :| x in s;
    var rest := s - {x};
    assert forall c | c in s :: c == x || c in rest;
    if rest == {} {
      assert IsLeast(s, x);
    } else {
      LeastExists(rest);
      var m :| IsLeast(rest, m);
      assert IsLeast(s, if m.ms <= x.ms then m else x);
    }
  }

  function Least(s: set<Stamp>): (m: Stamp)
    requires s != {}
    ensures IsLeast(s, m)
  {
    LeastExists(s);
    var m :| m in s && IsLeast(s, m);
    m
  }

  /** Each active address with the creation time of its oldest unexpired holder. */
  function Ages(t: Table, guid: string, now: int): (ages: map<string, int>)
    ensures ages.Keys == ActiveIps(t, guid, now)
  {
    map ip | ip in ActiveIps(t, guid, now) ::
      assert exists k ::
        k in t && k.guid == guid && t[k].expiresAt > now && k.ip == ip
          && Stamp(t[k].createdAt) in Creations(t, guid, ip, now);
      Least(Creations(t, guid, ip, now)).ms
  }

  /** Slot `a` outranks slot `b`: older, or as old with the smaller address. */
  predicate Precedes(ages: map<string, int>, a: string, b: string)
    requires a in ages && b in ages
  {
    ages[a] < ages[b] || (ages[a] == ages[b] && Below(a, b))
  }

  lemma PrecedesIsStrict(ages: map<string, int>, a: string, b: string)
    requires a in ages && b in ages && Precedes(ages, a, b)
    ensures a != b && !Precedes(ages, b, a)
  {
    if ages[a] == ages[b] {
      BelowIsStrict(a, b);
    }
  }

  lemma PrecedesIsTotal(ages: map<string, int>, a: string, b: string)
    requires a in ages && b in ages
    ensures a == b || Precedes(ages, a, b) || Precedes(ages, b, a)
  {
    BelowIsTotal(a, b);
  }

  lemma PrecedesIsTransitive(ages: map<string, int>, a: string, b: string, c: string)
    requires a in ages && b in ages && c in ages && Precedes(ages, a, b) && Precedes(ages, b, c)
    ensures Precedes(ages, a, c)
  {
    if ages[a] == ages[b] == ages[c] {
      BelowIsTransitive(a, b, c);
    }
  }

  predicate IsFirst(ages: map<string, int>, a: string) {
    a in ages && forall b | b in ages :: b == a || Precedes(ages, a, b)
  }

  lemma FirstExists(ages: map<string, int>)
    requires ages != map[]
    ensures exists a :: IsFirst(ages, a)
    decreases |ages|
  {
    var x :| x in ages;
    var rest := ages - {x};
    if rest == map[] {
      assert forall b | b in ages :: b == x || b in rest;
      assert IsFirst(ages, x);
    } else {
      FirstExists(rest);
      var m :| IsFirst(rest, m);
      PrecedesIsTotal(ages, m, x);
      if Precedes(ages, m, x) {
        assert forall b | b in ages :: b == x || b in rest;
        assert IsFirst(ages, m);
      } else {
        forall b | b in ages ensures b == x || Precedes(ages, x, b) {
          if b != x && b != m {
            assert b in rest;
            PrecedesIsTransitive(ages, x, m, b);
          }
        }
        assert IsFirst(ages, x);
      }
    }
  }

  lemma FirstIsUnique(ages: map<string, int>, a: string, b: string)
    requires IsFirst(ages, a) && IsFirst(ages, b)
    ensures a == b
  {
    if a != b {
      PrecedesIsStrict(ages, a, b);
    }
  }

  function First(ages: map<string, int>): (a: string)
    requires ages != map[]
    ensures IsFirst(ages, a)
  {
    FirstExists(ages);
    assert forall a, b | IsFirst(ages, a) && IsFirst(ages, b) :: a == b by {
      forall a, b | IsFirst(ages, a) && IsFirst(ages, b) ensures a == b {
        FirstIsUnique(ages, a, b);
      }
    }
    var a :| a in ages && IsFirst(ages, a);
    a
  }

  /** ORDER BY created_at, ip. */
  function Oldest(ages: map<string, int>): (order: seq<string>)
    ensures |order| == |ages|
    ensures forall ip :: ip in order <==> ip in ages
    decreases |ages|
  {
    if ages == map[] then []
    else
      var first := First(ages);
      [first] + Oldest(ages - {first})
  }

  predicate InOrder(ages: map<string, int>, order: seq<string>)
    requires forall ip | ip in order :: ip in ages
  {
    forall i, j :: 0 <= i < j < |order| ==> Precedes(ages, order[i], order[j])
  }

  lemma {:induction false} OldestInOrder(ages: map<string, int>)
    ensures InOrder(ages, Oldest(ages))
    decreases |ages|
  {
    if ages != map[] {
      var first := First(ages);
      var rest := ages - {first};
      OldestInOrder(rest);
      ConsInOrder(ages, first, Oldest(rest));
    }
  }

  lemma ConsInOrder(ages: map<string, int>, first: string, tail: seq<string>)
    requires IsFirst(ages, first)
    requires forall ip :: ip in tail <==> ip in ages - {first}
    requires InOrder(ages - {first}, tail)
    ensures InOrder(ages, [first] + tail)
  {
    var order := [first] + tail;
    forall i, j | 0 <= i < j < |order| ensures Precedes(ages, order[i], order[j]) {
      assert order[j] == tail[j - 1] && tail[j - 1] in tail;
      if i > 0 {
        assert order[i] == tail[i - 1] && tail[i - 1] in tail;
        assert Precedes(ages - {first}, tail[i - 1], tail[j - 1]);
      }
    }
  }

  /** The order is determined by the ages: any in-order listing is the one the query returns. */
  lemma {:induction false} OrderIsUnique(ages: map<string, int>, order: seq<string>)
    requires forall ip :: ip in order <==> ip in ages
    requires InOrder(ages, order)
    ensures order == Oldest(ages)
    decreases |ages|
  {
    if ages == map[] {
      NoMembers(order);
    } else {
      assert First(ages) in order;
      var k :| 0 <= k < |order| && order[k] == First(ages);
      if k > 0 {
        assert order[0] in order;
        PrecedesIsStrict(ages, order[0], order[k]);
        assert false;
      }
      var rest, tail := ages - {First(ages)}, order[1..];
      assert order == [order[0]] + tail;
      forall j | 0 <= j < |tail| ensures tail[j] != order[0] {
        PrecedesIsStrict(ages, order[0], order[j + 1]);
      }
      forall ip ensures ip in tail <==> ip in rest {
      }
      forall i, j | 0 <= i < j < |tail| ensures Precedes(rest, tail[i], tail[j]) {
        assert Precedes(ages, order[i + 1], order[j + 1]);
      }
      OrderIsUnique(rest, tail);
    }
  }

  // ---------------------------------------------------------------- convergence

  function DeleteIps(t: Table, guid: string, ips: set<string>): Table {
    map k | k in t && !(k.guid == guid && k.ip in ips) :: t[k]
  }

  /** convergeClientLimit: the table and the number of slots left. */
  function Converge(t: Table, guid: string, limit: nat, now: int): (Table, nat) {
    var active := Oldest(Ages(t, guid, now));
    if |active| <= limit then (t, |active|)
    else (DeleteIps(t, guid, Elems(active[limit..])), limit)
  }

  /** The active slots that outrank `ip`. */
  function Ahead(ages: map<string, int>, ip: string): set<string>
    requires ip in ages
  {
    set q | q in ages && Precedes(ages, q, ip)
  }

  lemma OldestDistinct(ages: map<string, int>)
    ensures Distinct(Oldest(ages))
  {
    var order := Oldest(ages);
    OldestInOrder(ages);
    forall i, j | 0 <= i < j < |order| ensures order[i] != order[j] {
      assert order[i] in order && order[j] in order;
      PrecedesIsStrict(ages, order[i], order[j]);
    }
  }

  lemma AheadMember(ages: map<string, int>, i: nat, j: nat)
    requires i < |ages| && j < |ages|
    ensures Oldest(ages)[i] in ages && Oldest(ages)[j] in ages
    ensures Precedes(ages, Oldest(ages)[j], Oldest(ages)[i]) <==> j < i
  {
    var order := Oldest(ages);
    OldestInOrder(ages);
    var a, b := order[i], order[j];
    assert a in order && b in order;
    if j < i {
      assert Precedes(ages, b, a);
    } else if j > i {
      assert Precedes(ages, a, b);
      PrecedesIsStrict(ages, a, b);
    } else if Precedes(ages, b, a) {
      PrecedesIsStrict(ages, b, a);
    }
  }

  lemma AheadAt(ages: map<string, int>, i: nat, j: nat)
    requires i < |ages| && j < |ages| && Oldest(ages)[i] in ages
    ensures Oldest(ages)[j] in Ahead(ages, Oldest(ages)[i]) <==> Oldest(ages)[j] in Oldest(ages)[..i]
  {
    AheadMember(ages, i, j);
    OldestDistinct(ages);
    SideOfCut(Oldest(ages), i, j);
  }

  lemma AheadStandsBefore(ages: map<string, int>, i: nat, q: string)
    requires i < |ages| && Oldest(ages)[i] in ages
    ensures q in Ahead(ages, Oldest(ages)[i]) <==> q in Oldest(ages)[..i]
  {
    var order := Oldest(ages);
    if q in ages {
      assert q in order;
      var j :| 0 <= j < |order| && order[j] == q;
      AheadAt(ages, i, j);
    } else {
      OnOneSide(order, i, q);
    }
  }

  lemma OnOneSide(order: seq<string>, cut: nat, ip: string)
    requires cut <= |order|
    ensures ip in order <==> ip in order[..cut] || ip in order[cut..]
  {
    assert order == order[..cut] + order[cut..];
  }

  lemma SideOfCut(order: seq<string>, cut: nat, j: nat)
    requires Distinct(order) && cut <= |order| && j < |order|
    ensures order[j] in order[..cut] <==> j < cut
    ensures order[j] in order[cut..] <==> j >= cut
  {
    if j < cut {
      assert order[..cut][j] == order[j];
    } else {
      assert order[cut..][j - cut] == order[j];
    }
  }

  lemma AheadIsPrefix(ages: map<string, int>, i: nat)
    requires i < |ages|
    ensures Oldest(ages)[i] in ages
    ensures Ahead(ages, Oldest(ages)[i]) == Elems(Oldest(ages)[..i]) && |Ahead(ages, Oldest(ages)[i])| == i
  {
    var order := Oldest(ages);
    assert order[i] in order;
    forall q ensures q in Ahead(ages, order[i]) <==> q in order[..i] {
      AheadStandsBefore(ages, i, q);
    }
    OldestDistinct(ages);
    DistinctSize(order[..i]);
  }

  /** Cutting the order in two splits the active addresses. */
  lemma SplitOrder(ages: map<string, int>, limit: nat, ip: string)
    requires limit <= |ages|
    ensures ip in Oldest(ages)[..limit] <==> ip in ages && ip !in Oldest(ages)[limit..]
  {
    var order := Oldest(ages);
    OldestDistinct(ages);
    OnOneSide(order, limit, ip);
    if ip in order {
      var j :| 0 <= j < |order| && order[j] == ip;
      SideOfCut(order, limit, j);
    }
  }

  lemma {:induction false} DistinctSize(s: seq<string>)
    requires Distinct(s)
    ensures |Elems(s)| == |s|
  {
    if s != [] {
      DistinctTail(s);
      DistinctSize(s[1..]);
      assert Elems(s) == {s[0]} + Elems(s[1..]);
    }
  }

  /** An active slot survives convergence exactly when fewer than `limit` slots outrank it. */
  predicate Survives(t: Table, guid: string, limit: nat, now: int, ip: string) {
    var ages := Ages(t, guid, now);
    ip in ages && |Ahead(ages, ip)| < limit
  }

  lemma EvictedIffOutranked(t: Table, guid: string, limit: nat, now: int, ip: string)
    requires ip in Ages(t, guid, now)
    requires |Ages(t, guid, now)| > limit
    ensures ip in Oldest(Ages(t, guid, now))[limit..] <==> |Ahead(Ages(t, guid, now), ip)| >= limit
  {
    var ages := Ages(t, guid, now);
    var order := Oldest(ages);
    assert ip in order;
    var i :| 0 <= i < |order| && order[i] == ip;
    AheadIsPrefix(ages, i);
    if i >= limit {
      assert order[limit..][i - limit] == ip;
    }
    if ip in order[limit..] {
      var j :| limit <= j < |order| && order[j] == ip;
      AheadIsPrefix(ages, j);
    }
  }

  /** Convergence evicts every holder of an outranked active slot and touches no other row. */
  lemma ConvergeKeepsOldest(t: Table, guid: string, limit: nat, now: int, k: Key)
    ensures k in Converge(t, guid, limit, now).0 <==>
      k in t && !(k.guid == guid && k.ip in Ages(t, guid, now) && !Survives(t, guid, limit, now, k.ip))
    ensures k in Converge(t, guid, limit, now).0 ==> Converge(t, guid, limit, now).0[k] == t[k]
  {
    var ages := Ages(t, guid, now);
    var order := Oldest(ages);
    if k.ip in ages {
      if |order| <= limit {
        assert k.ip in order;
        var i :| 0 <= i < |order| && order[i] == k.ip;
        AheadIsPrefix(ages, i);
      } else {
        EvictedIffOutranked(t, guid, limit, now, k.ip);
      }
    } else {
      assert k.ip !in order;
    }
  }

  /** What is left afterwards: the `limit` oldest slots, with their ages. */
  lemma ConvergedAges(t: Table, guid: string, limit: nat, now: int)
    ensures var kept, after := Oldest(Ages(t, guid, now)), Converge(t, guid, limit, now);
      && after.1 == (if |kept| <= limit then |kept| else limit)
      && Oldest(Ages(after.0, guid, now)) == kept[..after.1]
  {
    var ages := Ages(t, guid, now);
    var order := Oldest(ages);
    if |order| <= limit {
      assert order[..|order|] == order;
    } else {
      var excess := Elems(order[limit..]);
      var ages' := Ages(DeleteIps(t, guid, excess), guid, now);
      forall ip ensures ip in ages' <==> ip in order[..limit] {
        SplitOrder(ages, limit, ip);
        KeptIp(t, guid, now, excess, ip);
      }
      forall ip | ip in ages' ensures ages'[ip] == ages[ip] {
        SplitOrder(ages, limit, ip);
        KeptAge(t, guid, now, excess, ip);
      }
      PrefixInOrder(ages, ages', limit);
      OrderIsUnique(ages', order[..limit]);
    }
  }

  lemma PrefixInOrder(ages: map<string, int>, ages': map<string, int>, limit: nat)
    requires limit <= |ages|
    requires forall ip :: ip in ages' <==> ip in Oldest(ages)[..limit]
    requires forall ip | ip in ages' :: ip in ages && ages'[ip] == ages[ip]
    ensures InOrder(ages', Oldest(ages)[..limit])
  {
    var order := Oldest(ages);
    OldestInOrder(ages);
    forall i, j | 0 <= i < j < limit ensures Precedes(ages', order[..limit][i], order[..limit][j]) {
      assert order[..limit][i] in order[..limit] && order[..limit][j] in order[..limit];
      assert Precedes(ages, order[i], order[j]);
    }
  }

  lemma KeptIp(t: Table, guid: string, now: int, excess: set<string>, ip: string)
    ensures ip in Ages(DeleteIps(t, guid, excess), guid, now) <==> ip in Ages(t, guid, now) && ip !in excess
  {
    if ip in ActiveIps(t, guid, now) && ip !in excess {
      var k :| k in t && k.guid == guid && t[k].expiresAt > now && k.ip == ip;
      assert k in DeleteIps(t, guid, excess);
    }
  }

  lemma KeptAge(t: Table, guid: string, now: int, excess: set<string>, ip: string)
    requires ip in Ages(t, guid, now) && ip !in excess
    requires ip in Ages(DeleteIps(t, guid, excess), guid, now)
    ensures Ages(DeleteIps(t, guid, excess), guid, now)[ip] == Ages(t, guid, now)[ip]
  {
    var t' := DeleteIps(t, guid, excess);
    assert Creations(t', guid, ip, now) == Creations(t, guid, ip, now) by {
      forall c | c in Creations(t, guid, ip, now) ensures c in Creations(t', guid, ip, now) {
        var k :| k in t && k.guid == guid && k.ip == ip && t[k].expiresAt > now && Stamp(t[k].createdAt) == c;
        assert k in t' && t'[k] == t[k];
      }
    }
  }

  lemma DeleteTwice(t: Table, guid: string, a: set<string>, b: set<string>)
    ensures DeleteIps(DeleteIps(t, guid, a), guid, b) == DeleteIps(t, guid, a + b)
  {
  }

  lemma ExcessAgain(order: seq<string>, l1: nat, l2: nat)
    requires l2 <= l1 <= |order|
    ensures Elems(order[l1..]) + Elems(order[..l1][l2..]) == Elems(order[l2..])
  {
    assert order[l2..] == order[..l1][l2..] + order[l1..];
  }

  /** Lowering the limit twice at one instant is lowering it to the smaller one. */
  lemma ConvergeComposes(t: Table, guid: string, l1: nat, l2: nat, now: int)
    ensures Converge(Converge(t, guid, l1, now).0, guid, l2, now)
         == Converge(t, guid, if l1 <= l2 then l1 else l2, now)
  {
    var order := Oldest(Ages(t, guid, now));
    var first := Converge(t, guid, l1, now);
    ConvergedAges(t, guid, l1, now);
    if |order| > l1 && l2 < l1 {
      assert |Oldest(Ages(first.0, guid, now))| == l1;
      DeleteTwice(t, guid, Elems(order[l1..]), Elems(order[..l1][l2..]));
      ExcessAgain(order, l1, l2);
    }
  }
}
