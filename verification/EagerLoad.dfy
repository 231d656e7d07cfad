/** Eager loading: one query for the edges of many nodes, joined in memory through a map. */
module EagerLoad {
  import opened Text

  // ----- the database side

  /** A row with a foreign key, as one-to-many edges have on their far side. */
  datatype Link = Link(id: int, narFileID: int)

  const FK := "nar_file_id"

  /** Scanning a row with only these columns selected; no columns stands for all of them. */
  function Scan(row: Link, columns: seq<string>): Link {
    if columns == [] || FK in columns then row else row.(narFileID := 0)
  }

  /** Why the column is appended: a row scanned without it has lost its key. */
  lemma WithoutItsKey(row: Link)
    ensures Scan(row, ["id"]) == Link(row.id, 0)
    ensures Scan(row, AppendOnce(["id"], FK)) == row && Scan(row, []) == row
    ensures AppendOnce(["id"], FK) == ["id", "nar_file_id"]
  {
  }

  /** `WHERE nar_file_id IN (...)`. */
  function SelectIn(table: seq<Link>, keys: seq<int>): seq<Link> {
    if table == [] then []
    else SelectIn(table[..|table| - 1], keys)
           + if table[|table| - 1].narFileID in keys then [table[|table| - 1]] else []
  }

  function ScanAll(rows: seq<Link>, columns: seq<string>): (scanned: seq<Link>)
    ensures |scanned| == |rows|
  {
    seq(|rows|, i requires 0 <= i < |rows| => Scan(rows[i], columns))
  }

  /** `AppendFieldOnce`. */
  function AppendOnce(fields: seq<string>, field: string): seq<string> {
    if field in fields then fields else fields + [field]
  }

  // ----- the nested-loop join

  /** The rows with this key, in query order. */
  function Matching(rows: seq<Link>, key: int): seq<Link> {
    if rows == [] then []
    else Matching(rows[..|rows| - 1], key)
           + if rows[|rows| - 1].narFileID == key then [rows[|rows| - 1]] else []
  }

  class NarFile {
    const id: int
    var links: seq<Link>

    constructor (id: int)
      ensures this.id == id
    {
      this.id, links := id, [];
    }
  }

  function IdsOf(nodes: seq<NarFile>): (ids: seq<int>)
    ensures |ids| == |nodes| && forall i | 0 <= i < |nodes| :: ids[i] == nodes[i].id
  {
    seq(|nodes|, i requires 0 <= i < |nodes| => nodes[i].id)
  }

  /** No later node has the same ID. */
  predicate IsLast(ids: seq<int>, i: nat)
    requires i < |ids|
  {
    ids[i] !in ids[i + 1..]
  }

  /** What the join gives to node `i`. */
  function Share(ids: seq<int>, rows: seq<Link>, i: nat): seq<Link>
    requires i < |ids|
  {
    if IsLast(ids, i) then Matching(rows, ids[i]) else []
  }

  predicate AllMatched(ids: seq<int>, rows: seq<Link>) {
    forall r | 0 <= r < |rows| :: rows[r].narFileID in ids
  }

  lemma OneMoreRow(ids: seq<int>, rows: seq<Link>, r: nat, i: nat)
    requires r < |rows| && i < |ids|
    ensures Share(ids, rows[..r + 1], i)
         == Share(ids, rows[..r], i)
            + if IsLast(ids, i) && rows[r].narFileID == ids[i] then [rows[r]] else []
  {
    assert rows[..r + 1][..r] == rows[..r];
  }

  /** The join of `loadChunkLinks` over whatever neighbours the query returned. */
  method JoinLinks(nodes: seq<NarFile>, nodeids: map<int, NarFile>, neighbors: seq<Link>)
    returns (unexpected: Option<Link>)
    requires forall i, j | 0 <= i < j < |nodes| :: nodes[i] != nodes[j]
    requires Indexed(nodes, nodeids) && forall i | 0 <= i < |nodes| :: nodes[i].links == []
    modifies nodes
    ensures unexpected.None? <==> AllMatched(IdsOf(nodes), neighbors)
    ensures unexpected.None? ==>
      forall i | 0 <= i < |nodes| :: nodes[i].links == Share(IdsOf(nodes), neighbors, i)
    ensures unexpected.Some? ==> exists r | 0 <= r < |neighbors| ::
      && unexpected.value == neighbors[r] && neighbors[r].narFileID !in IdsOf(nodes)
      && AllMatched(IdsOf(nodes), neighbors[..r])
  {
    hide Share, Indexed, Matching;
    ghost var ids := IdsOf(nodes);
    NothingShared(ids);
    IndexedKeys(nodes, nodeids);
    for r := 0 to |neighbors|
      invariant AllMatched(ids, neighbors[..r])
      invariant forall i | 0 <= i < |nodes| :: nodes[i].links == Share(ids, neighbors[..r], i)
    {
      var n := neighbors[r];
      if n.narFileID !in nodeids {
        return Some(n);
      }
      var node := nodeids[n.narFileID];
      OneMoreRowForAll(nodes, nodeids, neighbors, r);
      node.links := node.links + [n];
    }
    assert neighbors[..|neighbors|] == neighbors;
    unexpected := None;
  }

  /** The map sends each ID to the last node that has it. */
  ghost predicate Indexed(nodes: seq<NarFile>, nodeids: map<int, NarFile>) {
    && (forall id :: id in nodeids <==> id in IdsOf(nodes))
    && (forall i | 0 <= i < |nodes| :: IsLast(IdsOf(nodes), i) ==> nodeids[nodes[i].id] == nodes[i])
    && (forall id | id in nodeids :: nodeids[id].id == id && nodeids[id] in nodes)
  }

  lemma IndexedKeys(nodes: seq<NarFile>, nodeids: map<int, NarFile>)
    requires Indexed(nodes, nodeids)
    ensures forall id :: id in nodeids <==> id in IdsOf(nodes)
    ensures forall id | id in nodeids :: nodeids[id] in nodes
  {
  }

  lemma NothingShared(ids: seq<int>)
    ensures forall i | 0 <= i < |ids| :: Share(ids, [], i) == []
  {
  }

  lemma OneMoreRowForAll(nodes: seq<NarFile>, nodeids: map<int, NarFile>, rows: seq<Link>, r: nat)
    requires forall a, b | 0 <= a < b < |nodes| :: nodes[a] != nodes[b]
    requires Indexed(nodes, nodeids) && r < |rows| && rows[r].narFileID in nodeids
    ensures var ids, node := IdsOf(nodes), nodeids[rows[r].narFileID];
      forall i | 0 <= i < |nodes| ::
        Share(ids, rows[..r + 1], i)
          == Share(ids, rows[..r], i) + (if nodes[i] == node then [rows[r]] else [])
  {
    var ids, node := IdsOf(nodes), nodeids[rows[r].narFileID];
    forall i | 0 <= i < |nodes|
      ensures Share(ids, rows[..r + 1], i)
           == Share(ids, rows[..r], i) + (if nodes[i] == node then [rows[r]] else [])
    {
      OneMoreRow(ids, rows, r, i);
      OneHolder(nodes, nodeids, rows[r].narFileID, i);
    }
  }

  lemma OneHolder(nodes: seq<NarFile>, nodeids: map<int, NarFile>, id: int, i: nat)
    requires forall a, b | 0 <= a < b < |nodes| :: nodes[a] != nodes[b]
    requires Indexed(nodes, nodeids) && id in nodeids && i < |nodes|
    ensures nodes[i] == nodeids[id] <==> IsLast(IdsOf(nodes), i) && nodes[i].id == id
  {
    var k := LastWith(IdsOf(nodes), id);
    assert nodeids[id] == nodes[k];
  }

  lemma {:induction false} LastWith(ids: seq<int>, id: int) returns (k: nat)
    requires id in ids
    ensures k < |ids| && ids[k] == id && IsLast(ids, k)
  {
    var n := |ids| - 1;
    if ids[n] == id {
      k := n;
    } else {
      assert ids == ids[..n] + [ids[n]];
      k := LastWith(ids[..n], id);
      assert ids[k + 1..] == ids[..n][k + 1..] + [ids[n]];
    }
  }

  /** `loadChunkLinks`: whatever columns the caller selected, the join over the one query agrees
      with comparing every node with every row of the table. */
  method LoadChunkLinks(nodes: seq<NarFile>, fields: seq<string>, table: seq<Link>)
    returns (unexpected: Option<Link>)
    requires forall i, j | 0 <= i < j < |nodes| :: nodes[i] != nodes[j]
    modifies nodes
    ensures unexpected.None?
    ensures forall i | 0 <= i < |nodes| :: nodes[i].links == Share(IdsOf(nodes), table, i)
  {
    var fks: seq<int> := [];
    var nodeids: map<int, NarFile> := map[];
    for i := 0 to |nodes|
      invariant fks == IdsOf(nodes[..i]) && Indexed(nodes[..i], nodeids)
      invariant forall k | 0 <= k < i :: nodes[k].links == []
    {
      IndexOneMore(nodes[..i], nodeids, nodes[i]);
      assert nodes[..i + 1] == nodes[..i] + [nodes[i]];
      fks := fks + [nodes[i].id];
      nodeids := nodeids[nodes[i].id := nodes[i]];
      nodes[i].links := [];
    }
    assert nodes[..|nodes|] == nodes;
    var columns := if |fields| > 0 then AppendOnce(fields, FK) else fields;
    var neighbors := ScanAll(SelectIn(table, fks), columns);
    assert neighbors == SelectIn(table, fks);
    SelectedMatch(table, fks);
    unexpected := JoinLinks(nodes, nodeids, neighbors);
    forall i | 0 <= i < |nodes| ensures Share(fks, neighbors, i) == Share(fks, table, i) {
      SelectKeeps(table, fks, fks[i]);
    }
  }

  lemma IndexOneMore(nodes: seq<NarFile>, nodeids: map<int, NarFile>, node: NarFile)
    requires Indexed(nodes, nodeids)
    ensures IdsOf(nodes + [node]) == IdsOf(nodes) + [node.id]
    ensures Indexed(nodes + [node], nodeids[node.id := node])
  {
    var ids, more := IdsOf(nodes), IdsOf(nodes + [node]);
    assert more == ids + [node.id];
    forall i | 0 <= i < |nodes| && IsLast(more, i) ensures IsLast(ids, i) && ids[i] != node.id {
      assert more[i + 1..] == ids[i + 1..] + [node.id];
    }
  }

  lemma {:induction false} SelectedMatch(table: seq<Link>, keys: seq<int>)
    ensures AllMatched(keys, SelectIn(table, keys))
  {
    if table != [] {
      SelectedMatch(table[..|table| - 1], keys);
    }
  }

  lemma {:induction false} SelectKeeps(table: seq<Link>, keys: seq<int>, key: int)
    requires key in keys
    ensures Matching(SelectIn(table, keys), key) == Matching(table, key)
  {
    if table != [] {
      var init, last := table[..|table| - 1], table[|table| - 1];
      SelectKeeps(init, keys, key);
      var some := SelectIn(init, keys);
      assert (some + [last])[..|some|] == some;
      assert some + [] == some;
    }
  }

  /** With distinct IDs every node gets all rows with its key; of nodes that share an ID only the
      last gets any. */
  lemma WhoGetsTheRows(ids: seq<int>, rows: seq<Link>, i: nat, j: nat)
    requires i < j < |ids|
    ensures (forall a, b | 0 <= a < b < |ids| :: ids[a] != ids[b]) ==>
      Share(ids, rows, i) == Matching(rows, ids[i])
    ensures ids[i] == ids[j] ==> Share(ids, rows, i) == []
  {
    assert ids[i + 1..][j - i - 1] == ids[j];
  }

  /** How many rows the first `n` nodes hold. */
  function Held(ids: seq<int>, rows: seq<Link>, n: nat): nat
    requires n <= |ids|
  {
    if n == 0 then 0 else Held(ids, rows, n - 1) + |Share(ids, rows, n - 1)|
  }

  /** No row is lost or doubled: duplicates among the nodes or not, the lists together are exactly
      as long as the rows that match some node. */
  lemma {:induction false} EveryRowIsHeldOnce(ids: seq<int>, rows: seq<Link>)
    requires AllMatched(ids, rows)
    ensures Held(ids, rows, |ids|) == |rows|
  {
    if rows == [] {
      HeldNothing(ids, |ids|);
    } else {
      var r := |rows| - 1;
      EveryRowIsHeldOnce(ids, rows[..r]);
      var k := LastWith(ids, rows[r].narFileID);
      HeldOneMore(ids, rows, k, |ids|);
    }
  }

  lemma {:induction false} HeldNothing(ids: seq<int>, n: nat)
    requires n <= |ids|
    ensures Held(ids, [], n) == 0
  {
    if n > 0 {
      HeldNothing(ids, n - 1);
    }
  }

  lemma {:induction false} HeldOneMore(ids: seq<int>, rows: seq<Link>, k: nat, n: nat)
    requires rows != [] && k < |ids| && n <= |ids|
    requires IsLast(ids, k) && ids[k] == rows[|rows| - 1].narFileID
    ensures Held(ids, rows, n) == Held(ids, rows[..|rows| - 1], n) + if k < n then 1 else 0
  {
    if n > 0 {
      HeldOneMore(ids, rows, k, n - 1);
      ShareOneMore(ids, rows, k, n - 1);
    }
  }

  lemma ShareOneMore(ids: seq<int>, rows: seq<Link>, k: nat, i: nat)
    requires rows != [] && k < |ids| && i < |ids|
    requires IsLast(ids, k) && ids[k] == rows[|rows| - 1].narFileID
    ensures |Share(ids, rows, i)| == |Share(ids, rows[..|rows| - 1], i)| + if k == i then 1 else 0
  {
    OneMoreRow(ids, rows, |rows| - 1, i);
    assert rows[..|rows|] == rows;
    if i != k {
      LastIsUnique(ids, k, i);
    }
  }

  lemma LastIsUnique(ids: seq<int>, a: nat, b: nat)
    requires a < |ids| && b < |ids| && a != b && IsLast(ids, a)
    ensures IsLast(ids, b) ==> ids[a] != ids[b]
  {
    var lo, hi := if a < b then a else b, if a < b then b else a;
    assert ids[hi] == ids[lo + 1..][hi - lo - 1];
  }

  // ----- many-to-one

  /** The entity object that the query returns for a row: nodes with one key share it. */
  class Entry {
    const id: int
    const data: string

    constructor (id: int, data: string)
      ensures this.id == id && this.data == data
    {
      this.id, this.data := id, data;
    }
  }

  function EntriesIn(table: seq<Entry>, keys: seq<int>): seq<Entry> {
    if table == [] then []
    else EntriesIn(table[..|table| - 1], keys)
           + if table[|table| - 1].id in keys then [table[|table| - 1]] else []
  }

  class Signature {
    const entryID: int
    var entry: Option<Entry>

    constructor (entryID: int)
      ensures this.entryID == entryID && entry == None
    {
      this.entryID, entry := entryID, None;
    }
  }

  function KeysOf(nodes: seq<Signature>): (keys: seq<int>)
    ensures |keys| == |nodes| && forall i | 0 <= i < |nodes| :: keys[i] == nodes[i].entryID
  {
    seq(|nodes|, i requires 0 <= i < |nodes| => nodes[i].entryID)
  }

  /** The keys without repetition, each where it first occurs. */
  function FirstOccurrences(keys: seq<int>): seq<int> {
    if keys == [] then []
    else
      var before := FirstOccurrences(keys[..|keys| - 1]);
      if keys[|keys| - 1] in before then before else before + [keys[|keys| - 1]]
  }

  lemma {:induction false} FirstOccurrencesIsASet(keys: seq<int>)
    ensures forall key :: key in FirstOccurrences(keys) <==> key in keys
    ensures forall i, j | 0 <= i < j < |FirstOccurrences(keys)| ::
      FirstOccurrences(keys)[i] != FirstOccurrences(keys)[j]
  {
    if keys != [] {
      FirstOccurrencesIsASet(keys[..|keys| - 1]);
      assert keys == keys[..|keys| - 1] + [keys[|keys| - 1]];
    }
  }

  /** Later keys come behind the ones seen before. */
  lemma {:induction false} FirstOccurrencesGrow(keys: seq<int>, more: seq<int>)
    ensures FirstOccurrences(keys) <= FirstOccurrences(keys + more)
  {
    if more == [] {
      assert keys + more == keys;
    } else {
      assert (keys + more)[..|keys + more| - 1] == keys + more[..|more| - 1];
      FirstOccurrencesGrow(keys, more[..|more| - 1]);
    }
  }

  ghost predicate UniqueIds(rows: seq<Entry>) {
    forall a, b | 0 <= a < b < |rows| :: rows[a].id != rows[b].id
  }

  /** The nested-loop answer: the entry with the key, and what was there before if there is none. */
  function Found(rows: seq<Entry>, key: int, before: Option<Entry>): Option<Entry> {
    if rows == [] then before
    else if rows[|rows| - 1].id == key then Some(rows[|rows| - 1])
    else Found(rows[..|rows| - 1], key, before)
  }

  lemma {:induction false} FoundIn(rows: seq<Entry>, key: int, before: Option<Entry>)
    requires UniqueIds(rows)
    ensures (exists e <- rows :: e.id == key) ==>
      Found(rows, key, before).Some? && Found(rows, key, before).value in rows
      && Found(rows, key, before).value.id == key
    ensures (forall e <- rows :: e.id != key) ==> Found(rows, key, before) == before
  {
    if rows != [] {
      var init := rows[..|rows| - 1];
      assert rows == init + [rows[|rows| - 1]];
      FoundIn(init, key, before);
    }
  }

  predicate HasEntry(rows: seq<Entry>, key: int) {
    exists r | 0 <= r < |rows| :: rows[r].id == key
  }

  /** Nodes whose key is there end up with the same object, whatever they held before. */
  lemma {:induction false} FoundIsShared(rows: seq<Entry>, key: int, x: Option<Entry>, y: Option<Entry>)
    requires HasEntry(rows, key)
    ensures Found(rows, key, x) == Found(rows, key, y)
  {
    var n := |rows| - 1;
    if rows[n].id != key {
      var r :| 0 <= r < |rows| && rows[r].id == key;
      assert rows[..n][r].id == key;
      FoundIsShared(rows[..n], key, x, y);
    }
  }

  lemma {:induction false} EntriesKeep(
      table: seq<Entry>, keys: seq<int>, key: int, before: Option<Entry>)
    requires key in keys
    ensures Found(EntriesIn(table, keys), key, before) == Found(table, key, before)
  {
    if table != [] {
      var init, last := table[..|table| - 1], table[|table| - 1];
      EntriesKeep(init, keys, key, before);
      var some := EntriesIn(init, keys);
      assert (some + [last])[..|some|] == some;
      assert some + [] == some;
    }
  }

  lemma {:induction false} EntriesMatch(table: seq<Entry>, keys: seq<int>)
    ensures forall e <- EntriesIn(table, keys) :: e.id in keys
  {
    if table != [] {
      EntriesMatch(table[..|table| - 1], keys);
    }
  }

  /** The groups hold every node under its key. */
  ghost predicate Grouped(nodes: seq<Signature>, groups: map<int, seq<Signature>>) {
    && (forall key :: key in groups <==> key in KeysOf(nodes))
    && (forall i | 0 <= i < |nodes| ::
          nodes[i].entryID in groups && nodes[i] in groups[nodes[i].entryID])
    && (forall key | key in groups :: forall n <- groups[key] :: n in nodes && n.entryID == key)
  }

  lemma NothingGrouped()
    ensures Grouped([], map[])
  {
  }

  lemma GroupOneMore(nodes: seq<Signature>, groups: map<int, seq<Signature>>, node: Signature,
                     group: seq<Signature>)
    requires Grouped(nodes, groups)
    requires group == if node.entryID in groups then groups[node.entryID] else []
    ensures KeysOf(nodes + [node]) == KeysOf(nodes) + [node.entryID]
    ensures Grouped(nodes + [node], groups[node.entryID := group + [node]])
    ensures node.entryID in groups <==> node.entryID in KeysOf(nodes)
  {
    assert KeysOf(nodes + [node]) == KeysOf(nodes) + [node.entryID];
  }

  /** Point every node of one group at its entry. */
  method AssignGroup(group: seq<Signature>, entry: Entry)
    modifies set n | n in group
    ensures forall n <- group :: n.entry == Some(entry)
  {
    for i := 0 to |group|
      invariant forall k | 0 <= k < i :: group[k].entry == Some(entry)
    {
      group[i].entry := Some(entry);
    }
  }

  /** The first loop of `loadBuildTraceEntry`: the keys to ask for, and who asked. */
  method GroupByKey(nodes: seq<Signature>) returns (ids: seq<int>, groups: map<int, seq<Signature>>)
    ensures ids == FirstOccurrences(KeysOf(nodes)) && Grouped(nodes, groups)
  {
    hide Grouped;
    ids, groups := [], map[];
    NothingGrouped();
    for i := 0 to |nodes|
      invariant ids == FirstOccurrences(KeysOf(nodes[..i])) && Grouped(nodes[..i], groups)
    {
      var fk := nodes[i].entryID;
      var group := if fk in groups then groups[fk] else [];
      FirstOccurrencesIsASet(KeysOf(nodes[..i]));
      GroupOneMore(nodes[..i], groups, nodes[i], group);
      assert nodes[..i + 1] == nodes[..i] + [nodes[i]];
      assert KeysOf(nodes[..i + 1])[..i] == KeysOf(nodes[..i]);
      if fk !in groups {
        ids := ids + [fk];
      }
      groups := groups[fk := group + [nodes[i]]];
    }
    assert nodes[..|nodes|] == nodes;
  }

  /** Its second loop, over whatever entries the query returned. */
  method AssignEntries(nodes: seq<Signature>, groups: map<int, seq<Signature>>, neighbors: seq<Entry>)
    returns (unexpected: Option<Entry>)
    requires Grouped(nodes, groups)
    modifies set n | n in nodes
    ensures unexpected.None? <==> forall r | 0 <= r < |neighbors| :: neighbors[r].id in KeysOf(nodes)
    ensures unexpected.None? ==>
      forall n <- nodes :: n.entry == Found(neighbors, n.entryID, old(n.entry))
  {
    for r := 0 to |neighbors|
      invariant forall q | 0 <= q < r :: neighbors[q].id in KeysOf(nodes)
      invariant forall n <- nodes :: n.entry == Found(neighbors[..r], n.entryID, old(n.entry))
    {
      var e := neighbors[r];
      if e.id !in groups {
        return Some(e);
      }
      var group := groups[e.id];
      assert forall i | 0 <= i < |group| :: group[i] in group && group[i] in nodes;
      AssignGroup(group, e);
      assert neighbors[..r + 1][..r] == neighbors[..r];
    }
    assert neighbors[..|neighbors|] == neighbors;
    unexpected := None;
  }

  /** `loadBuildTraceEntry`: one query for the distinct keys, and every node, also when it shares
      its key, ends up with the entry that has its key. */
  method LoadBuildTraceEntry(nodes: seq<Signature>, table: seq<Entry>)
    returns (ids: seq<int>, unexpected: Option<Entry>)
    requires UniqueIds(table)
    modifies nodes
    ensures ids == FirstOccurrences(KeysOf(nodes))
    ensures unexpected.None?
    ensures forall n <- nodes :: n.entry == Found(table, n.entryID, old(n.entry))
    // Nodes with one key share one object.
    ensures forall m <- nodes :: forall n <- nodes ::
      m.entryID == n.entryID && HasEntry(table, n.entryID) ==> m.entry == n.entry
  {
    var groups;
    ids, groups := GroupByKey(nodes);
    unexpected := None;
    FirstOccurrencesIsASet(KeysOf(nodes));
    assert nodes != [] ==> KeysOf(nodes)[0] in ids;
    if |ids| == 0 {
      return;
    }
    var neighbors := EntriesIn(table, ids);
    EntriesMatch(table, ids);
    unexpected := AssignEntries(nodes, groups, neighbors);
    forall n | n in nodes ensures n.entry == Found(table, n.entryID, old(n.entry)) {
      var i :| 0 <= i < |nodes| && nodes[i] == n;
      assert KeysOf(nodes)[i] in ids;
      EntriesKeep(table, ids, n.entryID, old(n.entry));
    }
    forall m, n | m in nodes && n in nodes && m.entryID == n.entryID && HasEntry(table, n.entryID)
      ensures m.entry == n.entry
    {
      FoundIsShared(table, n.entryID, old(m.entry), old(n.entry));
    }
  }
}
