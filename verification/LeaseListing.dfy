/**
  The rows a snapshot of the lease table returns, ORDER BY ip, holder_key
  (internal/iplimit/coordinator.go).
*/
module LeaseListing {
  import opened Sequences
  import opened Ordering
  import opened LeaseTable

  datatype Holder = Holder(ip: string, holder: string, expiresAt: int)

  predicate KeyBelow(a: Key, b: Key) {
    if a.ip == b.ip then Below(a.holder, b.holder) else Below(a.ip, b.ip)
  }

  /** All keys belong to one client. */
  predicate OneClient(keys: set<Key>) {
    forall a, b | a in keys && b in keys :: a.guid == b.guid
  }

  lemma KeyBelowIsStrict(a: Key, b: Key)
    requires KeyBelow(a, b)
    ensures a != b && !KeyBelow(b, a)
  {
    if a.ip == b.ip {
      BelowIsStrict(a.holder, b.holder);
    } else {
      BelowIsStrict(a.ip, b.ip);
    }
  }

  lemma KeyBelowIsTransitive(a: Key, b: Key, c: Key)
    requires KeyBelow(a, b) && KeyBelow(b, c)
    ensures KeyBelow(a, c)
  {
    if a.ip == b.ip == c.ip {
      BelowIsTransitive(a.holder, b.holder, c.holder);
    } else if a.ip != b.ip && b.ip != c.ip {
      BelowIsTransitive(a.ip, b.ip, c.ip);
      BelowIsStrict(a.ip, b.ip);
    }
  }

  lemma KeyBelowIsTotal(a: Key, b: Key)
    requires a.guid == b.guid
    ensures a == b || KeyBelow(a, b) || KeyBelow(b, a)
  {
    BelowIsTotal(a.ip, b.ip);
    BelowIsTotal(a.holder, b.holder);
  }

  predicate IsFirstKey(keys: set<Key>, a: Key) {
    a in keys && forall b | b in keys :: b == a || KeyBelow(a, b)
  }

  lemma {:induction false} FirstKeyExists(keys: set<Key>)
    requires keys != {} && OneClient(keys)
    ensures exists a :: IsFirstKey(keys, a)
  {
    var x :| x in keys;
    var rest := keys - {x};
    assert forall b | b in keys :: b == x || b in rest;
    if rest == {} {
      assert IsFirstKey(keys, x);
    } else {
      FirstKeyExists(rest);
      var m :| IsFirstKey(rest, m);
      KeyBelowIsTotal(m, x);
      if KeyBelow(m, x) {
        assert IsFirstKey(keys, m);
      } else {
        forall b | b in keys ensures b == x || KeyBelow(x, b) {
          if b != x && b != m {
            KeyBelowIsTransitive(x, m, b);
          }
        }
        assert IsFirstKey(keys, x);
      }
    }
  }

  function FirstKey(keys: set<Key>): (a: Key)
    requires keys != {} && OneClient(keys)
    ensures IsFirstKey(keys, a)
  {
    FirstKeyExists(keys);
    assert forall a, b | IsFirstKey(keys, a) && IsFirstKey(keys, b) :: a == b by {
      forall a, b | IsFirstKey(keys, a) && IsFirstKey(keys, b) ensures a == b {
        if a != b {
          KeyBelowIsStrict(a, b);
        }
      }
    }
    var a :| a in keys && IsFirstKey(keys, a);
    a
  }

  /** The keys of one client, ORDER BY ip, holder_key. */
  function InKeyOrder(keys: set<Key>): (order: seq<Key>)
    requires OneClient(keys)
    ensures |order| == |keys|
    ensures forall k :: k in order <==> k in keys
  {
    if keys == {} then []
    else
      var first := FirstKey(keys);
      [first] + InKeyOrder(keys - {first})
  }

  predicate KeysSorted(order: seq<Key>) {
    forall i, j :: 0 <= i < j < |order| ==> KeyBelow(order[i], order[j])
  }

  /** The order is strict, and determined: any sorted listing of the keys is the one returned. */
  lemma {:induction false} KeyOrderIsUnique(keys: set<Key>, order: seq<Key>)
    requires OneClient(keys) && forall k :: k in order <==> k in keys
    ensures order == InKeyOrder(keys) <==> KeysSorted(order)
    decreases |keys|
  {
    if keys == {} {
      NoMembers(order);
    } else {
      InKeyOrderIsSorted(keys);
      if KeysSorted(order) {
        SortedStartsFirst(keys, order);
        KeyOrderIsUnique(keys - {order[0]}, order[1..]);
        TailIsSorted(order);
        assert order == [order[0]] + order[1..];
      }
    }
  }

  lemma TailIsSorted(order: seq<Key>)
    requires KeysSorted(order) && order != []
    ensures KeysSorted(order[1..])
  {
  }

  lemma SortedStartsFirst(keys: set<Key>, order: seq<Key>)
    requires OneClient(keys) && keys != {} && KeysSorted(order) && forall k :: k in order <==> k in keys
    ensures order != [] && order[0] == FirstKey(keys)
    ensures forall k :: k in order[1..] <==> k in keys - {order[0]}
  {
    assert FirstKey(keys) in order;
    var k :| 0 <= k < |order| && order[k] == FirstKey(keys);
    if k > 0 {
      assert order[0] in keys;
      KeyBelowIsStrict(order[0], order[k]);
    }
    forall j | 0 < j < |order| ensures order[j] != order[0] {
      KeyBelowIsStrict(order[0], order[j]);
    }
    assert order == [order[0]] + order[1..];
  }

  lemma {:induction false} InKeyOrderIsSorted(keys: set<Key>)
    requires OneClient(keys)
    ensures KeysSorted(InKeyOrder(keys))
  {
    if keys != {} {
      var first := FirstKey(keys);
      var order, tail := InKeyOrder(keys), InKeyOrder(keys - {first});
      InKeyOrderIsSorted(keys - {first});
      forall i, j | 0 <= i < j < |order| ensures KeyBelow(order[i], order[j]) {
        assert order[j] == tail[j - 1] && tail[j - 1] in tail;
      }
    }
  }

  function HolderAt(rows: Table): Key --> Holder {
    (k: Key) requires k in rows => Holder(k.ip, k.holder, rows[k].expiresAt)
  }

  /** What a snapshot returns for the rows of one client. */
  function Listed(rows: Table): (listed: seq<Holder>)
    requires OneClient(rows.Keys)
    ensures |listed| == |rows|
    ensures forall i | 0 <= i < |rows| ::
      InKeyOrder(rows.Keys)[i] in rows && listed[i] == HolderAt(rows)(InKeyOrder(rows.Keys)[i])
  {
    var order := InKeyOrder(rows.Keys);
    assert |rows.Keys| == |rows|;
    seq(|order|, i requires 0 <= i < |order| => assert order[i] in order; HolderAt(rows)(order[i]))
  }

  /** The loop that copies the rows into the result. */
  method ListRows(rows: Table) returns (out: seq<Holder>)
    requires OneClient(rows.Keys)
    ensures out == Listed(rows)
  {
    var order := InKeyOrder(rows.Keys);
    out := [];
    for i := 0 to |order|
      invariant out == Listed(rows)[..i]
    {
      var k := order[i];
      out := out + [Holder(k.ip, k.holder, rows[k].expiresAt)];
    }
  }

  /** It lists every row, and strictly ascending by address and holder, hence each once. */
  lemma ListedIsExact(rows: Table)
    requires OneClient(rows.Keys)
    ensures forall h :: h in Listed(rows) <==> exists k :: k in rows && h == Holder(k.ip, k.holder, rows[k].expiresAt)
    ensures HoldersSorted(Listed(rows))
  {
    var listed, order := Listed(rows), InKeyOrder(rows.Keys);
    forall k | k in rows ensures Holder(k.ip, k.holder, rows[k].expiresAt) in listed {
      assert k in order;
      var i :| 0 <= i < |order| && order[i] == k;
      assert listed[i] in listed;
    }
    ListedIsSorted(rows);
  }

  predicate HoldersSorted(listed: seq<Holder>) {
    forall i, j :: 0 <= i < j < |listed| ==>
      if listed[i].ip == listed[j].ip then Below(listed[i].holder, listed[j].holder)
        else Below(listed[i].ip, listed[j].ip)
  }

  lemma ListedIsSorted(rows: Table)
    requires OneClient(rows.Keys)
    ensures HoldersSorted(Listed(rows))
  {
    var listed, order := Listed(rows), InKeyOrder(rows.Keys);
    InKeyOrderIsSorted(rows.Keys);
    forall i, j | 0 <= i < j < |listed|
      ensures if listed[i].ip == listed[j].ip then Below(listed[i].holder, listed[j].holder)
        else Below(listed[i].ip, listed[j].ip)
    {
      assert KeyBelow(order[i], order[j]);
    }
  }
}
