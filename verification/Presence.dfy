/**
  The presence store of a running core (internal/xray/process.go): several independently
  pruned sources behind two cached lists.  Each operation is one critical section.
*/
module Presence {
  import opened Sequences
  import opened Ordering
  import opened Names
  import opened PresenceState

  datatype NodeId = NodeId(id: int)

  /** A raw user of the core's own snapshot. */
  datatype OnlineUser = OnlineUser(email: string, ips: seq<string>)

  /** Emails by the GUID of the node that hosts them. */
  type Tree = map<string, seq<string>>

  /** updateLastSeenEmails and updateLastSeenTags. */
  method UpdateLastSeen(lastSeen: Seen, raw: seq<string>, now: int) returns (r: Seen)
    ensures r == Report(lastSeen, Elems(raw), now)
  {
    r := lastSeen;
    assert Elems(raw[..0]) == {};
    ReportNothing(lastSeen, now);
    for i := 0 to |raw|
      invariant r == Report(lastSeen, Elems(raw[..i]), now)
    {
      assert raw[..i + 1] == raw[..i] + [raw[i]];
      assert Elems(raw[..i + 1]) == Elems(raw[..i]) + {raw[i]};
      ReportMore(lastSeen, Elems(raw[..i]), raw[i], now);
      var name := Trim(raw[i]);
      if name != "" {
        r := r[name := now];
      }
    }
    assert raw[..|raw|] == raw;
  }

  lemma ReportNothing(m: Seen, now: int)
    ensures Report(m, {}, now) == m
  {
  }

  lemma ReportMore(m: Seen, done: set<string>, raw: string, now: int)
    ensures Report(m, done + {raw}, now)
         == if Trim(raw) == "" then Report(m, done, now) else Report(m, done, now)[Trim(raw) := now]
  {
    assert Trimmed(done + {raw}) == Trimmed(done) + Trimmed({raw});
    assert Trimmed({raw}) == if Trim(raw) == "" then {} else {Trim(raw)};
  }

  /** pruneLastSeen: the map is emptied of stale entries in whatever order it yields them. */
  method PruneLastSeen(lastSeen: Seen, now: int, grace: int) returns (r: Seen)
    ensures r == Fresh(lastSeen, now, grace)
  {
    r := lastSeen;
    var todo := lastSeen.Keys;
    while todo != {}
      invariant todo <= lastSeen.Keys
      invariant r == map k | k in lastSeen && (k in todo || !Stale(lastSeen[k], now, grace)) :: lastSeen[k]
      decreases |todo|
    {
      var key :| key in todo;
      todo := todo - {key};
      if grace <= 0 || now - lastSeen[key] >= grace {
        r := r - {key};
      }
    }
  }

  /** normalizeOnlineEmails. */
  method NormalizeOnlineEmails(emails: seq<string>) returns (out: seq<string>)
    ensures Listing(out, Trimmed(Elems(emails)))
  {
    var seen, list := AddList(emails, {}, []);
    SortGivesListing(list);
    out := SortStrings(list);
  }

  class Process {
    var onlineClients: seq<string>
    var xrayOnlineClients: seq<string>
    var xrayOnlineExact: bool
    var legacyXrayLastOnline: Seen
    var auxiliaryLastOnline: Seen
    var localActiveInbounds: seq<string>
    var xrayInboundLastActive: Seen
    var auxiliaryInboundLastActive: Seen
    var nodeOnlineTrees: map<NodeId, Tree>
    var onlineUsersSnapshot: seq<OnlineUser>
    var onlineUsersSnapshotAt: int
    var onlineUsersSnapshotReady: bool

    function View(): Sources
      reads this`xrayOnlineClients, this`xrayOnlineExact, this`legacyXrayLastOnline, this`auxiliaryLastOnline,
            this`xrayInboundLastActive, this`auxiliaryInboundLastActive
    {
      Sources(xrayOnlineExact, Elems(xrayOnlineClients), legacyXrayLastOnline, auxiliaryLastOnline,
              xrayInboundLastActive, auxiliaryInboundLastActive)
    }

    /** Both caches list their sources, sorted and without duplicates. */
    ghost predicate Valid()
      reads this`onlineClients, this`xrayOnlineClients, this`xrayOnlineExact, this`legacyXrayLastOnline,
            this`auxiliaryLastOnline, this`localActiveInbounds, this`xrayInboundLastActive,
            this`auxiliaryInboundLastActive
    {
      Listing(onlineClients, OnlineNames(View())) && Listing(localActiveInbounds, ActiveTags(View()))
    }

    constructor ()
      ensures Valid() && View() == EMPTY && nodeOnlineTrees == map[] && !onlineUsersSnapshotReady
    {
      onlineClients, xrayOnlineClients, xrayOnlineExact := [], [], false;
      legacyXrayLastOnline, auxiliaryLastOnline := map[], map[];
      localActiveInbounds, xrayInboundLastActive, auxiliaryInboundLastActive := [], map[], map[];
      nodeOnlineTrees := map[];
      onlineUsersSnapshot, onlineUsersSnapshotAt, onlineUsersSnapshotReady := [], 0, false;
    }

    method RebuildLocalOnline() returns (changed: bool)
      modifies this`onlineClients
      ensures Listing(onlineClients, OnlineNames(View()))
      ensures changed <==> onlineClients != old(onlineClients)
    {
      var seen, out: seq<string> := {}, [];
      if xrayOnlineExact {
        seen, out := AddList(xrayOnlineClients, seen, out);
      } else {
        seen, out := AddKeys(legacyXrayLastOnline.Keys, seen, out);
      }
      seen, out := AddKeys(auxiliaryLastOnline.Keys, seen, out);
      SortGivesListing(out);
      out := SortStrings(out);
      assert Listing(out, OnlineNames(View()));
      if onlineClients == out {
        return false;
      }
      onlineClients := out;
      return true;
    }

    method RebuildActiveInbounds()
      modifies this`localActiveInbounds
      ensures Listing(localActiveInbounds, ActiveTags(View()))
    {
      var seen, active := AddKeys(xrayInboundLastActive.Keys, {}, []);
      seen, active := AddKeys(auxiliaryInboundLastActive.Keys, seen, active);
      SortGivesListing(active);
      localActiveInbounds := SortStrings(active);
    }

    /** replaceXrayOnlineSnapshotLocked. */
    method ReplaceLocked(next: seq<string>, now: int, grace: int, ghost emails: set<string>) returns (changed: bool)
      requires Elems(next) == Trimmed(emails)
      modifies this`onlineClients, this`xrayOnlineClients, this`xrayOnlineExact, this`legacyXrayLastOnline,
               this`auxiliaryLastOnline, this`localActiveInbounds, this`xrayInboundLastActive,
               this`auxiliaryInboundLastActive
      ensures Valid() && View() == Apply(old(View()), Replace(emails), now, grace)
      ensures changed <==> onlineClients != old(onlineClients)
    {
      xrayOnlineExact := true;
      xrayOnlineClients := next;
      legacyXrayLastOnline := map[];
      auxiliaryLastOnline := PruneLastSeen(auxiliaryLastOnline, now, grace);
      xrayInboundLastActive := PruneLastSeen(xrayInboundLastActive, now, grace);
      auxiliaryInboundLastActive := PruneLastSeen(auxiliaryInboundLastActive, now, grace);
      RebuildActiveInbounds();
      changed := RebuildLocalOnline();
    }

    method CommitXrayOnlineSnapshot(emails: seq<string>, users: seq<OnlineUser>, at: int, now: int, grace: int)
      returns (changed: bool)
      modifies this
      ensures Valid() && View() == Apply(old(View()), Replace(Elems(emails)), now, grace)
      ensures changed <==> onlineClients != old(onlineClients)
      ensures onlineUsersSnapshot == users && onlineUsersSnapshotAt == at && onlineUsersSnapshotReady
      ensures nodeOnlineTrees == old(nodeOnlineTrees)
    {
      var next := NormalizeOnlineEmails(emails);
      onlineUsersSnapshot, onlineUsersSnapshotAt, onlineUsersSnapshotReady := users, at, true;
      changed := ReplaceLocked(next, now, grace, Elems(emails));
    }

    method ReplaceXrayOnlineSnapshot(emails: seq<string>, now: int, grace: int) returns (changed: bool)
      modifies this
      ensures Valid() && View() == Apply(old(View()), Replace(Elems(emails)), now, grace)
      ensures changed <==> onlineClients != old(onlineClients)
      ensures nodeOnlineTrees == old(nodeOnlineTrees) && onlineUsersSnapshot == old(onlineUsersSnapshot)
      ensures onlineUsersSnapshotAt == old(onlineUsersSnapshotAt)
        && onlineUsersSnapshotReady == old(onlineUsersSnapshotReady)
    {
      var next := NormalizeOnlineEmails(emails);
      changed := ReplaceLocked(next, now, grace, Elems(emails));
    }

    method ClearXrayOnlineSnapshot(now: int, grace: int) returns (changed: bool)
      modifies this
      ensures Valid() && View() == Apply(old(View()), Replace({}), now, grace)
      ensures changed <==> onlineClients != old(onlineClients)
      ensures onlineUsersSnapshot == [] && onlineUsersSnapshotAt == 0 && !onlineUsersSnapshotReady
      ensures nodeOnlineTrees == old(nodeOnlineTrees)
    {
      onlineUsersSnapshot, onlineUsersSnapshotAt, onlineUsersSnapshotReady := [], 0, false;
      changed := ReplaceLocked([], now, grace, {});
    }

    method RefreshLegacyXrayOnline(activeEmails: seq<string>, activeInboundTags: seq<string>, now: int, grace: int)
      returns (changed: bool)
      modifies this`onlineClients, this`legacyXrayLastOnline, this`auxiliaryLastOnline,
               this`localActiveInbounds, this`xrayInboundLastActive, this`auxiliaryInboundLastActive
      ensures Valid()
      ensures View() == Apply(old(View()), RefreshLegacy(Elems(activeEmails), Elems(activeInboundTags)), now, grace)
      ensures changed <==> onlineClients != old(onlineClients)
    {
      if !xrayOnlineExact {
        legacyXrayLastOnline := UpdateLastSeen(legacyXrayLastOnline, activeEmails, now);
        legacyXrayLastOnline := PruneLastSeen(legacyXrayLastOnline, now, grace);
      } else {
        legacyXrayLastOnline := map[];
      }
      xrayInboundLastActive := UpdateLastSeen(xrayInboundLastActive, activeInboundTags, now);
      xrayInboundLastActive := PruneLastSeen(xrayInboundLastActive, now, grace);
      auxiliaryLastOnline := PruneLastSeen(auxiliaryLastOnline, now, grace);
      auxiliaryInboundLastActive := PruneLastSeen(auxiliaryInboundLastActive, now, grace);
      RebuildActiveInbounds();
      changed := RebuildLocalOnline();
    }

    method RefreshAuxiliaryOnline(activeEmails: seq<string>, activeInboundTags: seq<string>, now: int, grace: int)
      returns (changed: bool)
      modifies this`onlineClients, this`legacyXrayLastOnline, this`auxiliaryLastOnline,
               this`localActiveInbounds, this`xrayInboundLastActive, this`auxiliaryInboundLastActive
      ensures Valid()
      ensures View() == Apply(old(View()), RefreshAux(Elems(activeEmails), Elems(activeInboundTags)), now, grace)
      ensures changed <==> onlineClients != old(onlineClients)
    {
      auxiliaryLastOnline := UpdateLastSeen(auxiliaryLastOnline, activeEmails, now);
      auxiliaryInboundLastActive := UpdateLastSeen(auxiliaryInboundLastActive, activeInboundTags, now);
      auxiliaryLastOnline := PruneLastSeen(auxiliaryLastOnline, now, grace);
      auxiliaryInboundLastActive := PruneLastSeen(auxiliaryInboundLastActive, now, grace);
      if !xrayOnlineExact {
        legacyXrayLastOnline := PruneLastSeen(legacyXrayLastOnline, now, grace);
      }
      xrayInboundLastActive := PruneLastSeen(xrayInboundLastActive, now, grace);
      RebuildActiveInbounds();
      changed := RebuildLocalOnline();
    }

    method PruneLocalPresence(now: int, grace: int) returns (changed: bool)
      modifies this`onlineClients, this`legacyXrayLastOnline, this`auxiliaryLastOnline,
               this`localActiveInbounds, this`xrayInboundLastActive, this`auxiliaryInboundLastActive
      ensures Valid() && View() == Apply(old(View()), Prune, now, grace)
      ensures changed <==> onlineClients != old(onlineClients)
    {
      if !xrayOnlineExact {
        legacyXrayLastOnline := PruneLastSeen(legacyXrayLastOnline, now, grace);
      }
      auxiliaryLastOnline := PruneLastSeen(auxiliaryLastOnline, now, grace);
      xrayInboundLastActive := PruneLastSeen(xrayInboundLastActive, now, grace);
      auxiliaryInboundLastActive := PruneLastSeen(auxiliaryInboundLastActive, now, grace);
      RebuildActiveInbounds();
      changed := RebuildLocalOnline();
    }

    method SnapshotAuxiliaryPresence() returns (lastOnline: Seen, inboundLastActive: Seen)
      ensures lastOnline == auxiliaryLastOnline && inboundLastActive == auxiliaryInboundLastActive
    {
      lastOnline, inboundLastActive := auxiliaryLastOnline, auxiliaryInboundLastActive;
    }

    method RestoreAuxiliaryPresence(lastOnline: Seen, inboundLastActive: Seen, now: int, grace: int)
      returns (changed: bool)
      requires Valid()
      modifies this`onlineClients, this`auxiliaryLastOnline, this`localActiveInbounds, this`auxiliaryInboundLastActive
      ensures Valid() && View() == Apply(old(View()), Restore(lastOnline, inboundLastActive), now, grace)
      ensures changed <==> onlineClients != old(onlineClients)
    {
      if lastOnline == map[] && inboundLastActive == map[] {
        return false;
      }
      if lastOnline != map[] {
        auxiliaryLastOnline := lastOnline;
      }
      if inboundLastActive != map[] {
        auxiliaryInboundLastActive := inboundLastActive;
      }
      auxiliaryLastOnline := PruneLastSeen(auxiliaryLastOnline, now, grace);
      auxiliaryInboundLastActive := PruneLastSeen(auxiliaryInboundLastActive, now, grace);
      assert View() == Apply(old(View()), Restore(lastOnline, inboundLastActive), now, grace);
      RebuildActiveInbounds();
      changed := RebuildLocalOnline();
    }

    method SetNodeOnlineTree(node: NodeId, tree: Tree)
      modifies this`nodeOnlineTrees
      ensures nodeOnlineTrees == old(nodeOnlineTrees)[node := tree]
    {
      nodeOnlineTrees := nodeOnlineTrees[node := tree];
    }

    method ClearNodeOnlineClients(node: NodeId)
      modifies this`nodeOnlineTrees
      ensures nodeOnlineTrees == old(nodeOnlineTrees) - {node}
    {
      nodeOnlineTrees := nodeOnlineTrees - {node};
    }

    /** The local list first, then what remote nodes report; nobody twice, on either path. */
    method GetOnlineClients() returns (out: seq<string>)
      requires Valid()
      ensures Distinct(out) && onlineClients <= out
      ensures Elems(out) == Elems(onlineClients) + RemoteEmails(nodeOnlineTrees)
    {
      if nodeOnlineTrees == map[] {
        return onlineClients;
      }
      out := onlineClients;
      var nodes := nodeOnlineTrees.Keys;
      while nodes != {}
        invariant nodes <= nodeOnlineTrees.Keys
        invariant Distinct(out) && onlineClients <= out
        invariant Elems(out) == Elems(onlineClients) + RemoteEmails(nodeOnlineTrees - nodes)
        decreases |nodes|
      {
        var node :| node in nodes;
        RemoteGrows(nodeOnlineTrees, nodes, node);
        nodes := nodes - {node};
        out := AddTree(nodeOnlineTrees[node], out);
      }
      assert nodeOnlineTrees - nodes == nodeOnlineTrees;
    }

    /** Every node's emails under the GUID that hosts them, each once; nothing for an empty GUID or list. */
    method GetMergedNodeTrees() returns (out: Tree)
      ensures MergedFrom(out, nodeOnlineTrees)
    {
      out := map[];
      var nodes := nodeOnlineTrees.Keys;
      while nodes != {}
        invariant nodes <= nodeOnlineTrees.Keys
        invariant MergedFrom(out, nodeOnlineTrees - nodes)
        decreases |nodes|
      {
        var node :| node in nodes;
        var done := nodeOnlineTrees - nodes;
        assert nodeOnlineTrees - (nodes - {node}) == done[node := nodeOnlineTrees[node]];
        out := MergeTree(done, node, nodeOnlineTrees[node], out);
        nodes := nodes - {node};
      }
      assert nodeOnlineTrees - nodes == nodeOnlineTrees;
    }
  }

  /** The caches depend on the sources alone, not on the order in which maps yield their keys. */
  lemma CachesAreDetermined(p: Process, q: Process)
    requires p.Valid() && q.Valid() && p.View() == q.View()
    ensures p.onlineClients == q.onlineClients && p.localActiveInbounds == q.localActiveInbounds
  {
    ListingIsUnique(p.onlineClients, q.onlineClients, OnlineNames(p.View()));
    ListingIsUnique(p.localActiveInbounds, q.localActiveInbounds, ActiveTags(p.View()));
  }

  function TreeEmails(tree: Tree): set<string> {
    set guid, e | guid in tree && e in tree[guid] :: e
  }

  function RemoteEmails(trees: map<NodeId, Tree>): set<string> {
    set node, e | node in trees && e in TreeEmails(trees[node]) :: e
  }

  lemma RemoteGrows(trees: map<NodeId, Tree>, nodes: set<NodeId>, node: NodeId)
    requires nodes <= trees.Keys && node in nodes
    ensures RemoteEmails(trees - (nodes - {node})) == RemoteEmails(trees - nodes) + TreeEmails(trees[node])
  {
    var a, b := trees - (nodes - {node}), trees - nodes;
    forall e | e in RemoteEmails(b) ensures e in RemoteEmails(a) {
      var n :| n in b && e in TreeEmails(b[n]);
      assert n in a && a[n] == b[n];
    }
    forall e | e in TreeEmails(trees[node]) ensures e in RemoteEmails(a) {
      assert node in a && e in TreeEmails(a[node]);
    }
    forall e | e in RemoteEmails(a) ensures e in RemoteEmails(b) + TreeEmails(trees[node]) {
      var n :| n in a && e in TreeEmails(a[n]);
      if n != node {
        assert n in b && e in TreeEmails(b[n]);
      }
    }
  }

  /** Appends the emails not yet listed. */
  method AddEmails(emails: seq<string>, before: seq<string>) returns (out: seq<string>)
    requires Distinct(before)
    ensures Distinct(out) && before <= out && Elems(out) == Elems(before) + Elems(emails)
  {
    out := before;
    for i := 0 to |emails|
      invariant Distinct(out) && before <= out && Elems(out) == Elems(before) + Elems(emails[..i])
    {
      assert emails[..i + 1] == emails[..i] + [emails[i]];
      assert Elems(emails[..i + 1]) == Elems(emails[..i]) + {emails[i]};
      if emails[i] !in out {
        DistinctAppend(out, emails[i]);
        assert Elems(out + [emails[i]]) == Elems(out) + {emails[i]};
        out := out + [emails[i]];
      } else {
        assert emails[i] in Elems(out);
      }
    }
    assert emails[..|emails|] == emails;
  }

  method AddTree(tree: Tree, before: seq<string>) returns (out: seq<string>)
    requires Distinct(before)
    ensures Distinct(out) && before <= out && Elems(out) == Elems(before) + TreeEmails(tree)
  {
    out := before;
    var guids := tree.Keys;
    while guids != {}
      invariant guids <= tree.Keys
      invariant Distinct(out) && before <= out && Elems(out) == Elems(before) + TreeEmails(tree - guids)
      decreases |guids|
    {
      var guid :| guid in guids;
      TreeGrows(tree, guids, guid);
      guids := guids - {guid};
      out := AddEmails(tree[guid], out);
    }
    assert tree - guids == tree;
  }

  lemma TreeGrows(tree: Tree, guids: set<string>, guid: string)
    requires guids <= tree.Keys && guid in guids
    ensures TreeEmails(tree - (guids - {guid})) == TreeEmails(tree - guids) + Elems(tree[guid])
  {
    var a, b := tree - (guids - {guid}), tree - guids;
    forall e | e in TreeEmails(b) ensures e in TreeEmails(a) {
      var g :| g in b && e in b[g];
      assert g in a && a[g] == b[g];
    }
    forall e | e in tree[guid] ensures e in TreeEmails(a) {
      assert guid in a && e in a[guid];
    }
    forall e | e in TreeEmails(a) ensures e in TreeEmails(b) + Elems(tree[guid]) {
      var g :| g in a && e in a[g];
      if g != guid {
        assert g in b && e in b[g];
      }
    }
  }

  /** The emails any node reports under a GUID. */
  function HostedEmails(trees: map<NodeId, Tree>, guid: string): set<string> {
    set node, e | node in trees && guid in trees[node] && e in trees[node][guid] :: e
  }

  /** `out` lists exactly `emails` under a GUID, and nothing when there is nothing to list. */
  ghost predicate Hosts(out: Tree, guid: string, emails: set<string>) {
    && (guid in out <==> guid != "" && emails != {})
    && (guid in out ==> Distinct(out[guid]) && Elems(out[guid]) == emails)
  }

  ghost predicate MergedFrom(out: Tree, trees: map<NodeId, Tree>) {
    forall guid :: Hosts(out, guid, HostedEmails(trees, guid))
  }

  /** What a node's tree adds under one GUID. */
  function Contribution(tree: Tree, guid: string): set<string> {
    if guid in tree then Elems(tree[guid]) else {}
  }

  lemma HostedGrows(trees: map<NodeId, Tree>, node: NodeId, tree: Tree, guid: string)
    requires node !in trees
    ensures HostedEmails(trees[node := tree], guid) == HostedEmails(trees, guid) + Contribution(tree, guid)
  {
    var a := trees[node := tree];
    forall e | e in HostedEmails(trees, guid) ensures e in HostedEmails(a, guid) {
      var n :| n in trees && guid in trees[n] && e in trees[n][guid];
      assert a[n] == trees[n];
    }
    forall e | e in Contribution(tree, guid) ensures e in HostedEmails(a, guid) {
      assert a[node] == tree;
    }
  }

  lemma HostStep(out: Tree, hosted: set<string>, tree: Tree, guids: set<string>, guid: string, merged: seq<string>)
    requires guids <= tree.Keys && guid in guids && guid != "" && tree[guid] != []
    requires Hosts(out, guid, hosted + Contribution(tree - guids, guid))
    requires Distinct(merged) && Elems(merged) == Elems(if guid in out then out[guid] else []) + Elems(tree[guid])
    ensures Hosts(out[guid := merged], guid, hosted + Contribution(tree - (guids - {guid}), guid))
  {
    assert tree[guid][0] in Elems(tree[guid]);
    assert Contribution(tree - guids, guid) == {};
    assert Contribution(tree - (guids - {guid}), guid) == Elems(tree[guid]);
  }

  lemma NothingToAdd(hosted: set<string>, tree: Tree, guids: set<string>, guid: string, out: Tree)
    requires guids <= tree.Keys && guid in guids && (guid == "" || tree[guid] == [])
    requires Hosts(out, guid, hosted + Contribution(tree - guids, guid))
    ensures Hosts(out, guid, hosted + Contribution(tree - (guids - {guid}), guid))
  {
    if guid != "" {
      SkipStep(tree, guids, guid, guid);
    }
  }

  lemma SkipStep(tree: Tree, guids: set<string>, guid: string, other: string)
    requires guids <= tree.Keys && guid in guids
    requires other != guid || tree[guid] == []
    ensures Contribution(tree - (guids - {guid}), other) == Contribution(tree - guids, other)
  {
  }

  /** All GUIDs but those still to visit have this node's emails. */
  ghost predicate Merging(trees: map<NodeId, Tree>, tree: Tree, guids: set<string>, out: Tree) {
    forall g :: Hosts(out, g, HostedEmails(trees, g) + Contribution(tree - guids, g))
  }

  /** The turn of one GUID leaves the others as they were. */
  lemma OtherGuids(trees: map<NodeId, Tree>, tree: Tree, guids: set<string>, guid: string, was: Tree, out: Tree)
    requires guids <= tree.Keys && guid in guids && Merging(trees, tree, guids, was)
    requires forall g | g != guid :: (g in was <==> g in out) && (g in was ==> was[g] == out[g])
    requires Hosts(out, guid, HostedEmails(trees, guid) + Contribution(tree - (guids - {guid}), guid))
    ensures Merging(trees, tree, guids - {guid}, out)
  {
    forall g | g != guid ensures Hosts(out, g, HostedEmails(trees, g) + Contribution(tree - (guids - {guid}), g)) {
      SkipStep(tree, guids, guid, g);
      assert Hosts(was, g, HostedEmails(trees, g) + Contribution(tree - guids, g));
    }
  }

  method MergeGuid(ghost trees: map<NodeId, Tree>, tree: Tree, ghost guids: set<string>, guid: string, before: Tree)
    returns (out: Tree)
    requires guids <= tree.Keys && guid in guids && Merging(trees, tree, guids, before)
    ensures Merging(trees, tree, guids - {guid}, out)
  {
    out := before;
    ghost var hosted := HostedEmails(trees, guid);
    assert Hosts(before, guid, hosted + Contribution(tree - guids, guid));
    if guid != "" && |tree[guid]| > 0 {
      var merged := AddEmails(tree[guid], if guid in before then before[guid] else []);
      HostStep(before, hosted, tree, guids, guid, merged);
      out := before[guid := merged];
    } else {
      NothingToAdd(hosted, tree, guids, guid, before);
    }
    OtherGuids(trees, tree, guids, guid, before, out);
  }

  /** The merge of one node's tree; earlier nodes gave each GUID what `trees` hosts under it. */
  method MergeTree(ghost trees: map<NodeId, Tree>, ghost node: NodeId, tree: Tree, before: Tree) returns (out: Tree)
    requires node !in trees && MergedFrom(before, trees)
    ensures MergedFrom(out, trees[node := tree])
  {
    out := before;
    var guids := tree.Keys;
    assert forall g :: HostedEmails(trees, g) + Contribution(tree - guids, g) == HostedEmails(trees, g);
    while guids != {}
      invariant guids <= tree.Keys && Merging(trees, tree, guids, out)
      decreases |guids|
    {
      var guid :| guid in guids;
      out := MergeGuid(trees, tree, guids, guid, out);
      guids := guids - {guid};
    }
    MergedAll(trees, node, tree, guids, out);
  }

  lemma MergedAll(trees: map<NodeId, Tree>, node: NodeId, tree: Tree, guids: set<string>, out: Tree)
    requires node !in trees && guids == {} && Merging(trees, tree, guids, out)
    ensures MergedFrom(out, trees[node := tree])
  {
    var after := trees[node := tree];
    assert tree - guids == tree;
    forall g ensures Hosts(out, g, HostedEmails(after, g)) {
      HostedGrows(trees, node, tree, g);
      assert Hosts(out, g, HostedEmails(trees, g) + Contribution(tree - guids, g));
    }
  }
}
