/**
  Traffic of inbounds, outbounds and clients as differences of Xray's cumulative statistics
  (internal/xray/api.go, GetTraffic). The two regular expressions stay opaque: a statistic's
  name is of one kind or of none.
*/
module XrayStats {
  import opened Wrappers
  import opened Sequences

  datatype Stat = Stat(name: string, value: int)

  datatype Kind = InOut(isInbound: bool, tag: string, isDown: bool) | User(email: string, isDown: bool) | Unmatched

  type Classify = string -> Kind

  datatype TagTraffic = TagTraffic(isInbound: bool, up: int, down: int)

  datatype ClientTraffic = ClientTraffic(up: int, down: int)

  type Baselines = map<string, int>

  // ---------------------------------------------------------------- one response

  /** The growth since the baseline; a first sighting or a shrunken counter gives none. */
  function Growth(last: Baselines, s: Stat): Option<int> {
    if s.name in last && s.value >= last[s.name] then Some(s.value - last[s.name]) else None
  }

  /** The baselines after a response. */
  function Absorbed(last: Baselines, stats: seq<Stat>): Baselines {
    if stats == [] then last
    else Absorbed(last, stats[..|stats| - 1])[stats[|stats| - 1].name := stats[|stats| - 1].value]
  }

  function AddClient(clients: map<string, ClientTraffic>, email: string, isDown: bool,
                     value: int): map<string, ClientTraffic> {
    var t := if email in clients then clients[email] else ClientTraffic(0, 0);
    clients[email := if isDown then t.(down := value) else t.(up := value)]
  }

  function AddTag(tags: map<string, TagTraffic>, tag: string, isInbound: bool, isDown: bool,
                  value: int): map<string, TagTraffic> {
    if tag == "api" then tags
    else
      var t := if tag in tags then tags[tag] else TagTraffic(isInbound, 0, 0);
      tags[tag := if isDown then t.(down := value) else t.(up := value)]
  }

  /** The client traffic of a response. */
  function Clients(classify: Classify, last: Baselines, stats: seq<Stat>): map<string, ClientTraffic> {
    if stats == [] then map[]
    else
      var n := |stats| - 1;
      var front := Clients(classify, last, stats[..n]);
      match (Growth(Absorbed(last, stats[..n]), stats[n]), classify(stats[n].name))
      case (Some(d), User(email, isDown)) => AddClient(front, email, isDown, d)
      case _ => front
  }

  /** The inbound and outbound traffic of a response. */
  function Tags(classify: Classify, last: Baselines, stats: seq<Stat>): map<string, TagTraffic> {
    if stats == [] then map[]
    else
      var n := |stats| - 1;
      var front := Tags(classify, last, stats[..n]);
      match (Growth(Absorbed(last, stats[..n]), stats[n]), classify(stats[n].name))
      case (Some(d), InOut(isInbound, tag, isDown)) => AddTag(front, tag, isInbound, isDown, d)
      case _ => front
  }

  function NamesOf(stats: seq<Stat>): set<string> {
    set s | s in stats :: s.name
  }

  /** Baselines of vanished statistics go once the map has drifted past twice the live set. */
  function Pruned(last: Baselines, stats: seq<Stat>): Baselines {
    if |stats| > 0 && |last| > 2 * |stats| then map name | name in last && name in NamesOf(stats) :: last[name]
    else last
  }

  lemma {:induction false} AbsorbedNames(last: Baselines, stats: seq<Stat>)
    ensures Absorbed(last, stats).Keys == last.Keys + NamesOf(stats)
  {
    if stats != [] {
      var n := |stats| - 1;
      assert stats == stats[..n] + [stats[n]];
      AbsorbedNames(last, stats[..n]);
    }
  }

  class XrayAPI {
    var lastValues: Baselines

    constructor ()
      ensures lastValues == map[]
    {
      lastValues := map[];
    }

    /** Rebuilds the baselines from the response alone. */
    method Prune(stats: seq<Stat>)
      requires NamesOf(stats) <= lastValues.Keys
      modifies this
      ensures lastValues == Pruned(old(lastValues), stats)
    {
      if |stats| > 0 && |lastValues| > 2 * |stats| {
        var pruned: Baselines := map[];
        for i := 0 to |stats|
          invariant NamesOf(stats) <= lastValues.Keys && lastValues == old(lastValues)
          invariant pruned == map name | name in lastValues && name in NamesOf(stats[..i]) :: lastValues[name]
        {
          assert stats[i] in stats && stats[i].name in NamesOf(stats);
          assert stats[..i + 1] == stats[..i] + [stats[i]];
          pruned := pruned[stats[i].name := lastValues[stats[i].name]];
        }
        assert stats[..|stats|] == stats;
        lastValues := pruned;
      }
    }

    /** GetTraffic; `response` is None when the query failed. */
    method GetTraffic(response: Option<seq<Stat>>, classify: Classify)
      returns (r: Option<(map<string, TagTraffic>, map<string, ClientTraffic>)>)
      modifies this
      ensures response.None? ==> r.None? && lastValues == old(lastValues)
      ensures response.Some? ==>
        var stats := response.value;
        && r == Some((Tags(classify, old(lastValues), stats), Clients(classify, old(lastValues), stats)))
        && lastValues == Pruned(Absorbed(old(lastValues), stats), stats)
    {
      if response.None? {
        return None;
      }
      var stats := response.value;
      ghost var before := lastValues;
      var tags: map<string, TagTraffic>, clients: map<string, ClientTraffic> := map[], map[];
      for i := 0 to |stats|
        invariant lastValues == Absorbed(before, stats[..i])
        invariant tags == Tags(classify, before, stats[..i]) && clients == Clients(classify, before, stats[..i])
      {
        assert stats[..i + 1][..i] == stats[..i];
        var stat := stats[i];
        var growth := Growth(lastValues, stat);
        lastValues := lastValues[stat.name := stat.value];
        if growth.None? {
          continue;
        }
        match classify(stat.name)
        case InOut(isInbound, tag, isDown) => tags := AddTag(tags, tag, isInbound, isDown, growth.value);
        case User(email, isDown) => clients := AddClient(clients, email, isDown, growth.value);
        case Unmatched =>
      }
      assert stats[..|stats|] == stats;
      AbsorbedNames(before, stats);
      Prune(stats);
      r := Some((tags, clients));
    }
  }

  // ---------------------------------------------------------------- who gets what

  predicate DistinctNames(stats: seq<Stat>) {
    forall i, j :: 0 <= i < j < |stats| ==> stats[i].name != stats[j].name
  }

  lemma {:induction false} AbsorbedAt(last: Baselines, stats: seq<Stat>, name: string)
    requires DistinctNames(stats)
    ensures forall i | 0 <= i < |stats| && stats[i].name == name ::
      Get(Absorbed(last, stats), name) == Some(stats[i].value)
    ensures name !in NamesOf(stats) ==> Get(Absorbed(last, stats), name) == Get(last, name)
  {
    if stats != [] {
      var n := |stats| - 1;
      var front := stats[..n];
      AbsorbedAt(last, front, name);
      assert forall i | 0 <= i < n :: front[i] == stats[i];
      assert stats == front + [stats[n]];
    }
  }

  function Get(m: Baselines, name: string): Option<int> {
    if name in m then Some(m[name]) else None
  }

  /** What a response reports for a client in one direction; a missing record counts as zero. */
  function ClientAmount(clients: map<string, ClientTraffic>, email: string, isDown: bool): int {
    if email !in clients then 0 else if isDown then clients[email].down else clients[email].up
  }

  lemma AddClientCell(clients: map<string, ClientTraffic>, email: string, isDown: bool, value: int, other: string,
                      down: bool)
    ensures ClientAmount(AddClient(clients, email, isDown, value), other, down)
      == if email == other && isDown == down then value else ClientAmount(clients, other, down)
  {
  }

  lemma LastClientAmount(classify: Classify, last: Baselines, stats: seq<Stat>, email: string, isDown: bool)
    requires DistinctNames(stats) && stats != []
    ensures var n := |stats| - 1;
      var kind, growth := classify(stats[n].name), Growth(last, stats[n]);
      ClientAmount(Clients(classify, last, stats), email, isDown)
      == if growth.Some? && kind == User(email, isDown) then growth.value
         else ClientAmount(Clients(classify, last, stats[..n]), email, isDown)
  {
    var n := |stats| - 1;
    var front, kind, growth := stats[..n], classify(stats[n].name), Growth(last, stats[n]);
    assert forall i | 0 <= i < n :: front[i] == stats[i];
    assert stats[n].name !in NamesOf(front);
    AbsorbedAt(last, front, stats[n].name);
    if growth.Some? && kind.User? {
      AddClientCell(Clients(classify, last, front), kind.email, kind.isDown, growth.value, email, isDown);
    }
  }

  /** A client is reported exactly the growth of its statistic, wherever in the response it stands. */
  lemma {:induction false} ClientGetsItsGrowth(classify: Classify, last: Baselines, stats: seq<Stat>, k: nat)
    requires DistinctNames(stats) && k < |stats| && classify(stats[k].name).User?
    requires forall i | 0 <= i < |stats| && i != k :: classify(stats[i].name) != classify(stats[k].name)
    ensures var kind := classify(stats[k].name);
      ClientAmount(Clients(classify, last, stats), kind.email, kind.isDown)
      == match Growth(last, stats[k]) { case Some(d) => d case None => 0 }
  {
    var n := |stats| - 1;
    var front, kind := stats[..n], classify(stats[k].name);
    assert forall i | 0 <= i < n :: front[i] == stats[i];
    LastClientAmount(classify, last, stats, kind.email, kind.isDown);
    if k == n {
      NotMentioned(classify, last, front, kind);
    } else {
      ClientGetsItsGrowth(classify, last, front, k);
    }
  }

  lemma {:induction false} NotMentioned(classify: Classify, last: Baselines, stats: seq<Stat>, kind: Kind)
    requires kind.User? && forall i | 0 <= i < |stats| :: classify(stats[i].name) != kind
    ensures ClientAmount(Clients(classify, last, stats), kind.email, kind.isDown) == 0
  {
    if stats != [] {
      NotMentioned(classify, last, stats[..|stats| - 1], kind);
    }
  }

  function TagAmount(tags: map<string, TagTraffic>, tag: string, isDown: bool): int {
    if tag !in tags then 0 else if isDown then tags[tag].down else tags[tag].up
  }

  /** Inbounds and outbounds share one table keyed by tag alone. */
  predicate SameCell(a: Kind, b: Kind) {
    a.InOut? && b.InOut? && a.tag == b.tag && a.isDown == b.isDown
  }

  lemma AddTagCell(tags: map<string, TagTraffic>, tag: string, isInbound: bool, isDown: bool, value: int, cell: string,
                   down: bool)
    requires cell != "api"
    ensures TagAmount(AddTag(tags, tag, isInbound, isDown, value), cell, down)
      == if tag == cell && isDown == down then value else TagAmount(tags, cell, down)
  {
  }

  /** The last statistic of a response decides its own cell and no other. */
  lemma LastStatAmount(classify: Classify, last: Baselines, stats: seq<Stat>, tag: string, isDown: bool)
    requires DistinctNames(stats) && stats != [] && tag != "api"
    ensures var n := |stats| - 1;
      var kind, growth := classify(stats[n].name), Growth(last, stats[n]);
      TagAmount(Tags(classify, last, stats), tag, isDown)
      == if growth.Some? && kind.InOut? && kind.tag == tag && kind.isDown == isDown then growth.value
         else TagAmount(Tags(classify, last, stats[..n]), tag, isDown)
  {
    var n := |stats| - 1;
    var front, kind, growth := stats[..n], classify(stats[n].name), Growth(last, stats[n]);
    assert forall i | 0 <= i < n :: front[i] == stats[i];
    assert stats[n].name !in NamesOf(front);
    AbsorbedAt(last, front, stats[n].name);
    if growth.Some? && kind.InOut? {
      AddTagCell(Tags(classify, last, front), kind.tag, kind.isInbound, kind.isDown, growth.value, tag, isDown);
    }
  }

  /** What a response is worth to the inbound or outbound: a record counts for the kind on its label alone. */
  function Booked(tags: map<string, TagTraffic>, kind: Kind): int
    requires kind.InOut?
  {
    if kind.tag in tags && tags[kind.tag].isInbound == kind.isInbound then TagAmount(tags, kind.tag, kind.isDown) else 0
  }

  function Amount(growth: Option<int>): int {
    match growth case Some(d) => d case None => 0
  }

  /** The label of a record is the kind of some statistic of its tag. */
  lemma {:induction false} LabelComesFrom(classify: Classify, last: Baselines, stats: seq<Stat>, tag: string)
    requires tag in Tags(classify, last, stats)
    ensures exists m :: 0 <= m < |stats| && OfTag(classify, stats[m].name, tag)
              && classify(stats[m].name).isInbound == Tags(classify, last, stats)[tag].isInbound
  {
    var n := |stats| - 1;
    var front := stats[..n];
    if tag in Tags(classify, last, front) {
      LabelComesFrom(classify, last, front, tag);
      var m :| 0 <= m < n && OfTag(classify, front[m].name, tag)
               && classify(front[m].name).isInbound == Tags(classify, last, front)[tag].isInbound;
      assert stats[m] == front[m];
    } else {
      assert OfTag(classify, stats[n].name, tag);
    }
  }

  predicate OfTag(classify: Classify, name: string, tag: string) {
    classify(name).InOut? && classify(name).tag == tag
  }

  /**
    The record of a tag holds exactly the growth of the inbound or outbound, if no other statistic has its
    tag and direction; it is booked where it belongs, if no statistic of the other kind has its tag.
  */
  lemma TagGetsItsGrowth(classify: Classify, last: Baselines, stats: seq<Stat>, k: nat)
    requires DistinctNames(stats) && k < |stats| && Cell(classify, stats[k].name)
    requires forall i | 0 <= i < |stats| && i != k :: !SameCell(classify(stats[i].name), classify(stats[k].name))
    ensures var tags, kind := Tags(classify, last, stats), classify(stats[k].name);
      && TagAmount(tags, kind.tag, kind.isDown) == Amount(Growth(last, stats[k]))
      && (OneKind(classify, stats, kind) ==> Booked(tags, kind) == Amount(Growth(last, stats[k])))
  {
    CellHoldsGrowth(classify, last, stats, k);
    var tags, kind := Tags(classify, last, stats), classify(stats[k].name);
    if kind.tag in tags {
      LabelComesFrom(classify, last, stats, kind.tag);
    }
  }

  /** All statistics of the tag are of one kind, inbound or outbound. */
  predicate OneKind(classify: Classify, stats: seq<Stat>, kind: Kind)
    requires kind.InOut?
  {
    forall i | 0 <= i < |stats| && OfTag(classify, stats[i].name, kind.tag) ::
      classify(stats[i].name).isInbound == kind.isInbound
  }

  lemma {:induction false} CellHoldsGrowth(classify: Classify, last: Baselines, stats: seq<Stat>, k: nat)
    requires DistinctNames(stats) && k < |stats| && Cell(classify, stats[k].name)
    requires forall i | 0 <= i < |stats| && i != k :: !SameCell(classify(stats[i].name), classify(stats[k].name))
    ensures var kind := classify(stats[k].name);
      TagAmount(Tags(classify, last, stats), kind.tag, kind.isDown) == Amount(Growth(last, stats[k]))
  {
    var n := |stats| - 1;
    var front, kind := stats[..n], classify(stats[k].name);
    assert forall i | 0 <= i < n :: front[i] == stats[i];
    LastStatAmount(classify, last, stats, kind.tag, kind.isDown);
    if k == n {
      CellNotMentioned(classify, last, front, kind);
    } else {
      CellHoldsGrowth(classify, last, front, k);
    }
  }

  lemma {:induction false} CellNotMentioned(classify: Classify, last: Baselines, stats: seq<Stat>, kind: Kind)
    requires kind.InOut? && forall i | 0 <= i < |stats| :: !SameCell(classify(stats[i].name), kind)
    ensures TagAmount(Tags(classify, last, stats), kind.tag, kind.isDown) == 0
  {
    if stats != [] {
      CellNotMentioned(classify, last, stats[..|stats| - 1], kind);
    }
  }

  /** An inbound and an outbound of one name: the second overwrites the first. */
  lemma SharedTagOverwrites(classify: Classify)
    requires classify("i") == InOut(true, "x", true) && classify("o") == InOut(false, "x", true)
    ensures var last, stats: seq<Stat> := map["i" := 0, "o" := 0], [Stat("i", 5), Stat("o", 7)];
      && Growth(last, stats[0]) == Some(5)
      && TagAmount(Tags(classify, last, stats), "x", true) == 7
  {
    var last: Baselines, stats := map["i" := 0, "o" := 0], [Stat("i", 5), Stat("o", 7)];
    assert stats[..1] == [Stat("i", 5)] && stats[..1][..0] == [];
    assert Tags(classify, last, stats[..1]) == AddTag(map[], "x", true, true, 5);
    assert Absorbed(last, stats[..1]) == last["i" := 5];
  }

  /** An inbound uplink and an outbound downlink of one name: one record, labelled by the first to grow. */
  lemma SharedTagMislabels(classify: Classify)
    requires classify("i") == InOut(true, "x", false) && classify("o") == InOut(false, "x", true)
    ensures var last, stats: seq<Stat> := map["i" := 0, "o" := 0], [Stat("i", 5), Stat("o", 7)];
      var tags := Tags(classify, last, stats);
      && tags == map["x" := TagTraffic(true, 5, 7)]
      && Booked(tags, classify("o")) == 0 && Booked(tags, InOut(true, "x", true)) == 7
  {
    var last: Baselines, stats := map["i" := 0, "o" := 0], [Stat("i", 5), Stat("o", 7)];
    assert stats[..1] == [Stat("i", 5)] && stats[..1][..0] == [];
    assert Tags(classify, last, stats[..1]) == AddTag(map[], "x", true, false, 5);
    assert Absorbed(last, stats[..1]) == last["i" := 5];
  }

  predicate Cell(classify: Classify, name: string) {
    classify(name).InOut? && classify(name).tag != "api"
  }

  /**
    Every inbound and outbound but the api is booked, in each direction, the growth of its statistic,
    and nothing where it has none.
  */
  ghost predicate BooksAll(classify: Classify, last: Baselines, stats: seq<Stat>) {
    && (forall k | 0 <= k < |stats| && Cell(classify, stats[k].name) :: BooksOne(classify, last, stats, k))
    && (forall kind: Kind | kind.InOut? && kind.tag != "api" && Absent(classify, stats, kind) ::
          Booked(Tags(classify, last, stats), kind) == 0)
  }

  predicate BooksOne(classify: Classify, last: Baselines, stats: seq<Stat>, k: nat)
    requires k < |stats| && classify(stats[k].name).InOut?
  {
    Booked(Tags(classify, last, stats), classify(stats[k].name)) == Amount(Growth(last, stats[k]))
  }

  predicate Absent(classify: Classify, stats: seq<Stat>, kind: Kind) {
    forall i | 0 <= i < |stats| :: classify(stats[i].name) != kind
  }

  /** Names of one tag are all inbound or all outbound, and of different directions. */
  predicate OwnRecords(classify: Classify, names: seq<string>) {
    forall i, j | 0 <= i < j < |names| ::
      Cell(classify, names[i]) && OfTag(classify, names[j], classify(names[i]).tag) ==>
        && classify(names[i]).isInbound == classify(names[j]).isInbound
        && classify(names[i]).isDown != classify(names[j]).isDown
  }

  function NameOf(): Stat -> string {
    (s: Stat) => s.name
  }

  /** A response in which only the i-th of some statistics has grown, from zero to one. */
  function OneGrown(names: seq<string>, i: nat): (stats: seq<Stat>)
    ensures |stats| == |names| && forall k | 0 <= k < |names| :: stats[k] == Stat(names[k], if k == i then 1 else 0)
  {
    seq(|names|, k requires 0 <= k < |names| => Stat(names[k], if k == i then 1 else 0))
  }

  function AllZero(names: seq<string>): Baselines {
    map name | name in names :: 0
  }

  /** A later statistic of the same cell that did not grow hides one that did. */
  lemma {:induction false} LaterHidesEarlier(classify: Classify, last: Baselines, stats: seq<Stat>, i: nat, j: nat)
    requires DistinctNames(stats) && i < j < |stats| && Cell(classify, stats[i].name)
    requires SameCell(classify(stats[i].name), classify(stats[j].name))
    requires forall k | 0 <= k < |stats| && k != i :: Growth(last, stats[k]) == Some(0)
    ensures var kind := classify(stats[i].name); TagAmount(Tags(classify, last, stats), kind.tag, kind.isDown) == 0
  {
    var n := |stats| - 1;
    var front, kind := stats[..n], classify(stats[i].name);
    assert forall k | 0 <= k < n :: front[k] == stats[k];
    if j < n {
      LaterHidesEarlier(classify, last, front, i, j);
    }
    LastStatAmount(classify, last, stats, kind.tag, kind.isDown);
  }

  /**
    Statistics with these names are always all booked right exactly when any two of one tag are of one
    kind and of different directions.
  */
  lemma AllBookedIffOwnRecords(classify: Classify, names: seq<string>)
    requires Distinct(names)
    ensures (forall last, stats | Map(NameOf(), stats) == names :: BooksAll(classify, last, stats))
       <==> OwnRecords(classify, names)
  {
    if OwnRecords(classify, names) {
      forall last, stats | Map(NameOf(), stats) == names ensures BooksAll(classify, last, stats) {
        OwnRecordsBookAll(classify, names, last, stats);
      }
    } else {
      var i, j :| 0 <= i < j < |names| && Cell(classify, names[i])
                  && OfTag(classify, names[j], classify(names[i]).tag)
                  && (classify(names[i]).isInbound != classify(names[j]).isInbound
                      || classify(names[i]).isDown == classify(names[j]).isDown);
      if classify(names[i]).isDown == classify(names[j]).isDown {
        SharedCellMisbooks(classify, names, i, j);
      } else {
        SharedRecordMisbooks(classify, names, i, j);
      }
    }
  }

  lemma GrownOnce(classify: Classify, names: seq<string>, i: nat)
    requires Distinct(names) && i < |names|
    ensures var last, stats := AllZero(names), OneGrown(names, i);
      && Map(NameOf(), stats) == names && DistinctNames(stats)
      && forall k | 0 <= k < |names| :: Growth(last, stats[k]) == Some(if k == i then 1 else 0)
  {
    var stats, last := OneGrown(names, i), AllZero(names);
    assert forall k | 0 <= k < |names| :: stats[k].name == names[k] && names[k] in last;
  }

  lemma SharedCellMisbooks(classify: Classify, names: seq<string>, i: nat, j: nat)
    requires Distinct(names) && i < j < |names|
    requires Cell(classify, names[i]) && SameCell(classify(names[i]), classify(names[j]))
    ensures var last, stats := AllZero(names), OneGrown(names, i);
      Map(NameOf(), stats) == names && !BooksAll(classify, last, stats)
  {
    var stats, last := OneGrown(names, i), AllZero(names);
    GrownOnce(classify, names, i);
    LaterHidesEarlier(classify, last, stats, i, j);
    assert !BooksOne(classify, last, stats, i);
  }

  /** The label of a record does not depend on how much its statistics have grown. */
  lemma {:induction false} LabelIgnoresAmounts(classify: Classify, last: Baselines, stats: seq<Stat>, stats': seq<Stat>)
    requires |stats| == |stats'| && forall k | 0 <= k < |stats| :: stats[k].name == stats'[k].name
    requires DistinctNames(stats)
    requires forall k | 0 <= k < |stats| :: Growth(last, stats[k]).Some? && Growth(last, stats'[k]).Some?
    ensures var tags, tags' := Tags(classify, last, stats), Tags(classify, last, stats');
      tags.Keys == tags'.Keys && forall t | t in tags :: tags[t].isInbound == tags'[t].isInbound
  {
    if stats != [] {
      var n := |stats| - 1;
      var front, front' := stats[..n], stats'[..n];
      LabelIgnoresAmounts(classify, last, front, front');
      SeenBefore(last, stats);
      SeenBefore(last, stats');
    }
  }

  /** The last statistic of a response is compared with its baseline from before the response. */
  lemma SeenBefore(last: Baselines, stats: seq<Stat>)
    requires DistinctNames(stats) && stats != []
    ensures var n := |stats| - 1; Growth(Absorbed(last, stats[..n]), stats[n]) == Growth(last, stats[n])
  {
    var n := |stats| - 1;
    assert forall i | 0 <= i < n :: stats[..n][i] == stats[i];
    assert stats[n].name !in NamesOf(stats[..n]);
    AbsorbedAt(last, stats[..n], stats[n].name);
  }

  /** Of two kinds that share a record, the one that is not on its label loses its growth. */
  lemma SharedRecordMisbooks(classify: Classify, names: seq<string>, i: nat, j: nat)
    requires Distinct(names) && i < j < |names| && Cell(classify, names[i])
    requires OfTag(classify, names[j], classify(names[i]).tag)
    requires classify(names[i]).isInbound != classify(names[j]).isInbound
    ensures var last, a, b := AllZero(names), OneGrown(names, i), OneGrown(names, j);
      && Map(NameOf(), a) == names && Map(NameOf(), b) == names
      && !(BooksAll(classify, last, a) && BooksAll(classify, last, b))
  {
    var last, a, b, tag := AllZero(names), OneGrown(names, i), OneGrown(names, j), classify(names[i]).tag;
    GrownOnce(classify, names, i);
    GrownOnce(classify, names, j);
    LabelIgnoresAmounts(classify, last, a, b);
    var tags := Tags(classify, last, a);
    if tag in tags && tags[tag].isInbound == classify(names[i]).isInbound {
      OffTheLabel(classify, last, b, j);
    } else {
      OffTheLabel(classify, last, a, i);
    }
  }

  lemma OffTheLabel(classify: Classify, last: Baselines, stats: seq<Stat>, k: nat)
    requires k < |stats| && Cell(classify, stats[k].name) && Growth(last, stats[k]) == Some(1)
    requires var tags, kind := Tags(classify, last, stats), classify(stats[k].name);
      kind.tag !in tags || tags[kind.tag].isInbound != kind.isInbound
    ensures !BooksAll(classify, last, stats)
  {
    assert !BooksOne(classify, last, stats, k);
  }

  lemma OwnRecordsBookAll(classify: Classify, names: seq<string>, last: Baselines, stats: seq<Stat>)
    requires Distinct(names) && OwnRecords(classify, names) && Map(NameOf(), stats) == names
    ensures BooksAll(classify, last, stats)
  {
    assert forall k | 0 <= k < |stats| :: stats[k].name == names[k];
    forall k | 0 <= k < |stats| && Cell(classify, stats[k].name) ensures BooksOne(classify, last, stats, k) {
      forall m | 0 <= m < |stats| && m != k ensures !SameCell(classify(stats[m].name), classify(stats[k].name)) {
        if SameCell(classify(stats[m].name), classify(stats[k].name)) {
          OwnRecordsApart(classify, names, k, m);
        }
      }
      OwnRecordsOneKind(classify, names, stats, k);
      TagGetsItsGrowth(classify, last, stats, k);
    }
    forall kind: Kind | kind.InOut? && kind.tag != "api" && Absent(classify, stats, kind)
      ensures Booked(Tags(classify, last, stats), kind) == 0
    {
      AbsentIsNotBooked(classify, names, last, stats, kind);
    }
  }

  lemma OwnRecordsApart(classify: Classify, names: seq<string>, k: nat, m: nat)
    requires OwnRecords(classify, names) && k < |names| && m < |names| && k != m && Cell(classify, names[k])
    requires OfTag(classify, names[m], classify(names[k]).tag)
    ensures classify(names[k]).isInbound == classify(names[m]).isInbound
    ensures classify(names[k]).isDown != classify(names[m]).isDown
  {
    if k < m {
      assert Cell(classify, names[k]);
    } else {
      assert Cell(classify, names[m]);
    }
  }

  lemma OwnRecordsOneKind(classify: Classify, names: seq<string>, stats: seq<Stat>, k: nat)
    requires OwnRecords(classify, names) && Map(NameOf(), stats) == names
    requires k < |stats| && Cell(classify, stats[k].name)
    ensures OneKind(classify, stats, classify(stats[k].name))
  {
    forall i | 0 <= i < |stats| && OfTag(classify, stats[i].name, classify(stats[k].name).tag)
      ensures classify(stats[i].name).isInbound == classify(stats[k].name).isInbound
    {
      assert stats[i].name == names[i] && stats[k].name == names[k];
      if i != k {
        OwnRecordsApart(classify, names, k, i);
      }
    }
  }

  lemma AbsentIsNotBooked(classify: Classify, names: seq<string>, last: Baselines, stats: seq<Stat>, kind: Kind)
    requires OwnRecords(classify, names) && Map(NameOf(), stats) == names
    requires kind.InOut? && kind.tag != "api" && Absent(classify, stats, kind)
    ensures Booked(Tags(classify, last, stats), kind) == 0
  {
    var tags := Tags(classify, last, stats);
    if m :| 0 <= m < |stats| && SameCell(classify(stats[m].name), kind) {
      OwnRecordsOneKind(classify, names, stats, m);
      if kind.tag in tags {
        LabelComesFrom(classify, last, stats, kind.tag);
      }
    } else {
      CellNotMentioned(classify, last, stats, kind);
    }
  }

  // ---------------------------------------------------------------- one statistic over many responses

  function Find(stats: seq<Stat>, name: string): Option<int> {
    if stats == [] then None
    else if stats[|stats| - 1].name == name then Some(stats[|stats| - 1].value)
    else Find(stats[..|stats| - 1], name)
  }

  function CreditOf(base: Option<int>, now: Option<int>): nat {
    if base.Some? && now.Some? && now.value >= base.value then now.value - base.value else 0
  }

  /** All that is credited for one statistic over a run, with or without pruning. */
  function Credited(last: Baselines, responses: seq<seq<Stat>>, name: string, prune: bool): nat
    decreases |responses|
  {
    if responses == [] then 0
    else
      var absorbed := Absorbed(last, responses[0]);
      CreditOf(Get(last, name), Find(responses[0], name))
      + Credited(if prune then Pruned(absorbed, responses[0]) else absorbed, responses[1..], name, prune)
  }

  lemma {:induction false} AbsorbedFinds(last: Baselines, stats: seq<Stat>, name: string)
    ensures Get(Absorbed(last, stats), name) == if Find(stats, name).Some? then Find(stats, name) else Get(last, name)
    ensures Find(stats, name).Some? <==> name in NamesOf(stats)
  {
    if stats != [] {
      var n := |stats| - 1;
      assert stats == stats[..n] + [stats[n]];
      AbsorbedFinds(last, stats[..n], name);
    }
  }

  ghost predicate AlwaysPresent(responses: seq<seq<Stat>>, name: string) {
    forall i | 0 <= i < |responses| :: Find(responses[i], name).Some?
  }

  /** Pruning changes nothing for a statistic present in every response, whatever happens to the others. */
  lemma {:induction false} PruningIsInvisible(last: Baselines, last': Baselines, responses: seq<seq<Stat>>,
                                              name: string)
    requires AlwaysPresent(responses, name) && Get(last, name) == Get(last', name)
    ensures Credited(last, responses, name, true) == Credited(last', responses, name, false)
    decreases |responses|
  {
    if responses != [] {
      assert Find(responses[0], name).Some?;
      AbsorbedFinds(last, responses[0], name);
      AbsorbedFinds(last', responses[0], name);
      assert forall i | 0 <= i < |responses[1..]| :: responses[1..][i] == responses[i + 1];
      PruningIsInvisible(Pruned(Absorbed(last, responses[0]), responses[0]), Absorbed(last', responses[0]),
                         responses[1..], name);
    }
  }

  /** For any other statistic pruning can only forget: it never credits more. */
  lemma {:induction false} PruningOnlyForgets(last: Baselines, last': Baselines, responses: seq<seq<Stat>>,
                                              name: string)
    requires Get(last, name) == Get(last', name) || Get(last, name) == None
    ensures Credited(last, responses, name, true) <= Credited(last', responses, name, false)
    decreases |responses|
  {
    if responses != [] {
      AbsorbedFinds(last, responses[0], name);
      AbsorbedFinds(last', responses[0], name);
      PruningOnlyForgets(Pruned(Absorbed(last, responses[0]), responses[0]), Absorbed(last', responses[0]),
                         responses[1..], name);
    }
  }

  /** Traffic of the api tag is never reported. */
  lemma {:induction false} ApiIsNotReported(classify: Classify, last: Baselines, stats: seq<Stat>)
    ensures "api" !in Tags(classify, last, stats)
  {
    if stats != [] {
      ApiIsNotReported(classify, last, stats[..|stats| - 1]);
    }
  }

  /** Up to twice the response nothing is dropped; beyond, exactly what the response does not hold. */
  lemma PrunedNames(last: Baselines, stats: seq<Stat>, name: string)
    ensures name in Pruned(last, stats) <==>
      name in last && (|stats| == 0 || |last| <= 2 * |stats| || exists i :: 0 <= i < |stats| && stats[i].name == name)
    ensures name in Pruned(last, stats) ==> Pruned(last, stats)[name] == last[name]
  {
  }

  /** The map of baselines never outgrows twice the last response. */
  lemma PrunedIsSmall(last: Baselines, stats: seq<Stat>)
    requires |stats| > 0
    ensures |Pruned(last, stats)| <= 2 * |stats|
  {
    if |last| > 2 * |stats| {
      var p := Pruned(last, stats);
      assert p.Keys <= NamesOf(stats);
      FewNames(stats);
      SubsetSize(p.Keys, NamesOf(stats));
      assert |p| == |p.Keys|;
    }
  }

  lemma {:induction false} FewNames(stats: seq<Stat>)
    ensures |NamesOf(stats)| <= |stats|
  {
    if stats != [] {
      var n := |stats| - 1;
      FewNames(stats[..n]);
      assert stats == stats[..n] + [stats[n]];
      assert NamesOf(stats) == NamesOf(stats[..n]) + {stats[n].name};
    }
  }

  // ---------------------------------------------------------------- credits and real growth

  /** The values of a statistic in consecutive responses. */
  function Samples(responses: seq<seq<Stat>>, name: string): seq<int>
    requires AlwaysPresent(responses, name)
  {
    seq(|responses|, i requires 0 <= i < |responses| => Find(responses[i], name).value)
  }

  predicate NonDecreasing(s: seq<int>) {
    forall i :: 0 < i < |s| ==> s[i - 1] <= s[i]
  }

  /** Over a run in which it is always present and never shrinks, a statistic's credits telescope. */
  lemma {:induction false} CreditsTelescope(last: Baselines, responses: seq<seq<Stat>>, name: string)
    requires AlwaysPresent(responses, name) && responses != [] && NonDecreasing(Samples(responses, name))
    requires Get(last, name) == None || Get(last, name).value <= Samples(responses, name)[0]
    ensures var v := Samples(responses, name);
      Credited(last, responses, name, true)
      == v[|v| - 1] - (if Get(last, name).Some? then Get(last, name).value else v[0])
    decreases |responses|
  {
    var v, rest := Samples(responses, name), responses[1..];
    assert Find(responses[0], name) == Some(v[0]);
    AbsorbedFinds(last, responses[0], name);
    var next := Pruned(Absorbed(last, responses[0]), responses[0]);
    assert Get(next, name) == Some(v[0]);
    if rest != [] {
      assert forall i | 0 <= i < |rest| :: rest[i] == responses[i + 1];
      assert Samples(rest, name) == v[1..];
      assert v[1] == Samples(rest, name)[0];
      CreditsTelescope(next, rest, name);
    }
  }

  /**
    The i-th response is taken when `moved[i]` bytes have really passed. Between two responses a
    counter grows by no more than what passed in between; it may also start over or be missing.
  */
  ghost predicate Measures(responses: seq<seq<Stat>>, name: string, moved: seq<int>) {
    && |moved| == |responses|
    && forall i, j | 0 <= i < j < |responses| ::
      GrowsAtMost(Find(responses[i], name), Find(responses[j], name), moved[j] - moved[i])
  }

  predicate GrowsAtMost(before: Option<int>, now: Option<int>, amount: int) {
    amount >= 0 && (before.Some? && now.Some? ==> now.value - before.value <= amount)
  }

  /** Whatever is missing, restarted or pruned, a statistic is never credited more than what passed. */
  lemma {:induction false} NeverOverCredited(last: Baselines, start: int, responses: seq<seq<Stat>>, name: string,
                                             moved: seq<int>, prune: bool)
    requires Measures(responses, name, moved)
    requires forall i | 0 <= i < |responses| :: GrowsAtMost(Get(last, name), Find(responses[i], name), moved[i] - start)
    ensures Credited(last, responses, name, prune) <= if responses == [] then 0 else moved[|moved| - 1] - start
    decreases |responses|
  {
    if responses != [] {
      var absorbed, rest, later := Absorbed(last, responses[0]), responses[1..], moved[1..];
      var next := if prune then Pruned(absorbed, responses[0]) else absorbed;
      AbsorbedFinds(last, responses[0], name);
      assert GrowsAtMost(Get(last, name), Find(responses[0], name), moved[0] - start);
      var since := if Find(responses[0], name).Some? then moved[0] else start;
      assert Get(next, name) == None || Get(next, name) == Get(absorbed, name);
      forall i | 0 <= i < |rest| ensures GrowsAtMost(Get(next, name), Find(rest[i], name), later[i] - since) {
        assert rest[i] == responses[i + 1];
        assert GrowsAtMost(Find(responses[0], name), Find(responses[i + 1], name), moved[i + 1] - moved[0]);
        assert GrowsAtMost(Get(last, name), Find(responses[i + 1], name), moved[i + 1] - start);
      }
      RestMeasures(responses, name, moved);
      NeverOverCredited(next, since, rest, name, later, prune);
    }
  }

  lemma RestMeasures(responses: seq<seq<Stat>>, name: string, moved: seq<int>)
    requires responses != [] && Measures(responses, name, moved)
    ensures Measures(responses[1..], name, moved[1..])
  {
    var rest, later := responses[1..], moved[1..];
    forall i, j | 0 <= i < j < |rest|
      ensures GrowsAtMost(Find(rest[i], name), Find(rest[j], name), later[j] - later[i])
    {
      assert rest[i] == responses[i + 1] && rest[j] == responses[j + 1];
    }
  }
}
