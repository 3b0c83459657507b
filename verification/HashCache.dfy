/** The chained hash table of the cache in arkhipov/32: nodes linked from an array of bucket heads, refining a map from
    keys to items. */
module HashCache {
  import opened CacheHash

  datatype Option<+T> = None | Some(value: T)

  datatype Status = Initial | InProcess | Settled

  class CacheItem {
    const key: Key
    var lastVisited: int
    var status: Status

    constructor (key: Key, now: int)
      ensures this.key == key && lastVisited == now && status == Initial
    {
      this.key := key;
      lastVisited := now;
      status := Initial;
    }
  }

  // ---------- the table as sequences of items ----------

  /** One chain holds distinct keys, all of its bucket. */
  ghost predicate ValidChain(items: seq<CacheItem>, bucket: nat, size: nat) {
    && size > 0
    && (forall i :: 0 <= i < |items| ==> Hash(items[i].key, size) == bucket)
    && (forall i, j :: 0 <= i < j < |items| ==> items[i].key != items[j].key)
  }

  ghost predicate ValidTable(table: seq<seq<CacheItem>>) {
    forall b :: 0 <= b < |table| ==> ValidChain(table[b], b, |table|)
  }

  ghost predicate Stored(table: seq<seq<CacheItem>>, x: CacheItem) {
    exists b :: 0 <= b < |table| && x in table[b]
  }

  function Find(items: seq<CacheItem>, key: Key): (r: Option<CacheItem>)
    ensures r.Some? ==> r.value in items && r.value.key == key
    ensures r.None? ==> forall x :: x in items ==> x.key != key
  {
    if items == [] then None else if items[0].key == key then Some(items[0]) else Find(items[1..], key)
  }

  /** The hash of the key is a bucket number. */
  predicate Hashed(key: Key, size: nat) {
    size > 0 && Hash(key, size) >= 0
  }

  function Bucket(key: Key, size: nat): (h: nat)
    requires Hashed(key, size)
    ensures h < size
  {
    Hash(key, size)
  }

  function Lookup(table: seq<seq<CacheItem>>, key: Key): Option<CacheItem>
    requires Hashed(key, |table|)
  {
    Find(table[Bucket(key, |table|)], key)
  }

  function Inserted(table: seq<seq<CacheItem>>, x: CacheItem): seq<seq<CacheItem>>
    requires Hashed(x.key, |table|)
  {
    var h := Bucket(x.key, |table|);
    table[h := table[h] + [x]]
  }

  /** Looking in one bucket finds whatever the table stores under the key. */
  lemma LookupIsMap(table: seq<seq<CacheItem>>, key: Key, x: CacheItem)
    requires ValidTable(table) && Hashed(key, |table|)
    ensures Lookup(table, key) == Some(x) <==> Stored(table, x) && x.key == key
  {
    if Stored(table, x) && x.key == key {
      var b :| 0 <= b < |table| && x in table[b];
      OnlyOne(table[b], b, |table|, x);
    }
  }

  lemma {:induction false} OnlyOne(items: seq<CacheItem>, bucket: nat, size: nat, x: CacheItem)
    requires ValidChain(items, bucket, size) && x in items
    ensures Hash(x.key, size) == bucket && Find(items, x.key) == Some(x)
  {
    if items[0] != x {
      OnlyOne(items[1..], bucket, size, x);
    }
  }

  /** Inserting binds the new key and leaves every other key as it was. */
  lemma InsertIsMapUpdate(table: seq<seq<CacheItem>>, x: CacheItem, key: Key)
    requires ValidTable(table) && Hashed(x.key, |table|) && Hashed(key, |table|) && Lookup(table, x.key).None?
    ensures ValidTable(Inserted(table, x))
    ensures Lookup(Inserted(table, x), key) == if key == x.key then Some(x) else Lookup(table, key)
  {
    FindInAppended(table[Bucket(x.key, |table|)], x, key);
  }

  lemma {:induction false} FindInAppended(items: seq<CacheItem>, x: CacheItem, key: Key)
    ensures Find(items + [x], key) ==
            if Find(items, key).Some? then Find(items, key) else if x.key == key then Some(x) else None
  {
    if items != [] {
      assert (items + [x])[1..] == items[1..] + [x];
      FindInAppended(items[1..], x, key);
    }
  }

  // ---------- cleaning ----------

  /** Not visited for longer than `timeout`, and not being filled. */
  predicate Expired(x: CacheItem, now: int, timeout: int)
    reads x
  {
    now - x.lastVisited > timeout && x.status != InProcess
  }

  ghost function Members(table: seq<seq<CacheItem>>): set<CacheItem> {
    set b, i | 0 <= b < |table| && 0 <= i < |table[b]| :: table[b][i]
  }

  ghost function ExpiredIn(table: seq<seq<CacheItem>>, now: int, timeout: int): set<CacheItem>
    reads Members(table)
  {
    set x | x in Members(table) && Expired(x, now, timeout)
  }

  ghost predicate DeadAre(items: seq<CacheItem>, dead: set<CacheItem>, now: int, timeout: int)
    reads items
  {
    forall i :: 0 <= i < |items| ==> (items[i] in dead <==> Expired(items[i], now, timeout))
  }

  lemma ExpiredAre(table: seq<seq<CacheItem>>, now: int, timeout: int)
    ensures forall b :: 0 <= b < |table| ==> DeadAre(table[b], ExpiredIn(table, now, timeout), now, timeout)
  {
    forall b, i | 0 <= b < |table| && 0 <= i < |table[b]|
      ensures table[b][i] in Members(table)
    {
    }
  }

  /** The items that are not in `dead`, in their order. */
  ghost function Survivors(items: seq<CacheItem>, dead: set<CacheItem>): seq<CacheItem> {
    if items == [] then []
    else
      var rest, x := items[..|items| - 1], items[|items| - 1];
      Survivors(rest, dead) + if x in dead then [] else [x]
  }

  lemma SurvivorsStep(items: seq<CacheItem>, k: nat, dead: set<CacheItem>)
    requires k < |items|
    ensures Survivors(items[..k + 1], dead) == Survivors(items[..k], dead) + if items[k] in dead then [] else [items[k]]
  {
    assert items[..k + 1][..k] == items[..k];
  }

  /** Cleaning keeps exactly the items that are not dead. */
  lemma {:induction false} SurvivorsAre(items: seq<CacheItem>, dead: set<CacheItem>, x: CacheItem)
    ensures x in Survivors(items, dead) <==> x in items && x !in dead
  {
    if items != [] {
      var rest, y := items[..|items| - 1], items[|items| - 1];
      SurvivorsAre(rest, dead, x);
      assert items == rest + [y];
    }
  }

  /** `places` are increasing places of `whole` that hold `part`. */
  ghost predicate InOrder(part: seq<CacheItem>, whole: seq<CacheItem>, places: seq<nat>) {
    && |places| == |part|
    && (forall i :: 0 <= i < |places| ==> places[i] < |whole| && whole[places[i]] == part[i])
    && (forall i, j :: 0 <= i < j < |places| ==> places[i] < places[j])
  }

  /** It keeps them in their order. */
  lemma {:induction false} SurvivorsInOrder(items: seq<CacheItem>, dead: set<CacheItem>) returns (places: seq<nat>)
    ensures InOrder(Survivors(items, dead), items, places)
  {
    if items == [] {
      places := [];
    } else {
      var rest, y := items[..|items| - 1], items[|items| - 1];
      places := SurvivorsInOrder(rest, dead);
      assert forall i :: 0 <= i < |rest| ==> items[i] == rest[i];
      if y !in dead {
        places := places + [|rest|];
      }
    }
  }

  lemma SurvivorsValid(items: seq<CacheItem>, dead: set<CacheItem>, bucket: nat, size: nat)
    requires ValidChain(items, bucket, size)
    ensures ValidChain(Survivors(items, dead), bucket, size) && |Survivors(items, dead)| <= |items|
  {
    var places := SurvivorsInOrder(items, dead);
    var part := Survivors(items, dead);
    forall i, j | 0 <= i < j < |part|
      ensures part[i].key != part[j].key
    {
      assert part[i] == items[places[i]] && part[j] == items[places[j]];
    }
    Increasing(places, |items|);
  }

  lemma {:induction false} Increasing(places: seq<nat>, n: nat)
    requires forall i :: 0 <= i < |places| ==> places[i] < n
    requires forall i, j :: 0 <= i < j < |places| ==> places[i] < places[j]
    ensures |places| <= n
  {
    if places != [] {
      Increasing(places[..|places| - 1], places[|places| - 1]);
    }
  }

  ghost function Cleaned(table: seq<seq<CacheItem>>, dead: set<CacheItem>): (r: seq<seq<CacheItem>>)
    ensures |r| == |table| && forall b :: 0 <= b < |table| ==> r[b] == Survivors(table[b], dead)
  {
    seq(|table|, b requires 0 <= b < |table| => Survivors(table[b], dead))
  }

  /** The first `n` buckets cleaned. */
  ghost function CleanedTo(table: seq<seq<CacheItem>>, n: nat, dead: set<CacheItem>): seq<seq<CacheItem>> {
    seq(|table|, b requires 0 <= b < |table| => if b < n then Survivors(table[b], dead) else table[b])
  }

  /** An item stays if it was visited no longer than `timeout` ago or is being filled, and no other does. */
  lemma StaysIfFresh(table: seq<seq<CacheItem>>, dead: set<CacheItem>, now: int, timeout: int)
    requires dead == ExpiredIn(table, now, timeout)
    ensures forall b, x :: 0 <= b < |table| && x in table[b] ==>
              (x in Cleaned(table, dead)[b] <==> now - x.lastVisited <= timeout || x.status == InProcess)
  {
    ExpiredAre(table, now, timeout);
    forall b, x | 0 <= b < |table| && x in table[b]
      ensures x in Cleaned(table, dead)[b] <==> now - x.lastVisited <= timeout || x.status == InProcess
    {
      SurvivorsAre(table[b], dead, x);
      var i :| 0 <= i < |table[b]| && table[b][i] == x;
    }
  }

  lemma CleanNext(table: seq<seq<CacheItem>>, n: nat, dead: set<CacheItem>)
    requires n < |table|
    ensures CleanedTo(table, n, dead)[n] == table[n]
    ensures CleanedTo(table, n + 1, dead) == CleanedTo(table, n, dead)[n := Survivors(table[n], dead)]
  {
  }

  lemma CleanEnds(table: seq<seq<CacheItem>>, dead: set<CacheItem>)
    ensures CleanedTo(table, 0, dead) == table && CleanedTo(table, |table|, dead) == Cleaned(table, dead)
  {
  }

  lemma CleanedValid(table: seq<seq<CacheItem>>, dead: set<CacheItem>)
    requires ValidTable(table)
    ensures ValidTable(Cleaned(table, dead))
    ensures forall b :: 0 <= b < |table| ==> |Cleaned(table, dead)[b]| <= |table[b]|
  {
    forall b | 0 <= b < |table|
      ensures ValidChain(Cleaned(table, dead)[b], b, |table|) && |Cleaned(table, dead)[b]| <= |table[b]|
    {
      SurvivorsValid(table[b], dead, b, |table|);
    }
  }

  /** Cleaning unbinds exactly the keys of dead items. */
  lemma CleanIsMapRemoval(table: seq<seq<CacheItem>>, dead: set<CacheItem>, key: Key)
    requires ValidTable(table) && Hashed(key, |table|)
    ensures ValidTable(Cleaned(table, dead))
    ensures var was := Lookup(table, key);
            Lookup(Cleaned(table, dead), key) == if was.Some? && was.value in dead then None else was
  {
    CleanedValid(table, dead);
    var h := Bucket(key, |table|);
    FindSurvivor(table[h], dead, h, |table|, key);
  }

  lemma FindSurvivor(items: seq<CacheItem>, dead: set<CacheItem>, bucket: nat, size: nat, key: Key)
    requires ValidChain(items, bucket, size)
    ensures var was := Find(items, key);
            Find(Survivors(items, dead), key) == if was.Some? && was.value in dead then None else was
  {
    var part := Survivors(items, dead);
    SurvivorsValid(items, dead, bucket, size);
    forall x
      ensures x in part <==> x in items && x !in dead
    {
      SurvivorsAre(items, dead, x);
    }
    var was, found := Find(items, key), Find(part, key);
    if found.Some? {
      OnlyOne(items, bucket, size, found.value);
    }
  }

  // ---------- any number of calls ----------

  /** What one call does to the table: a hit or a full bucket nothing, a miss an insertion, a cleaning what it removes. */
  datatype Change = Same | Insert(item: CacheItem) | Clean(dead: set<CacheItem>)

  ghost function Changed(table: seq<seq<CacheItem>>, change: Change): (r: seq<seq<CacheItem>>)
    requires change.Insert? ==> Hashed(change.item.key, |table|)
    ensures |r| == |table|
  {
    match change
    case Same => table
    case Insert(y) => Inserted(table, y)
    case Clean(dead) => Cleaned(table, dead)
  }

  /** An insertion is of a key that is not there. */
  ghost predicate Allowed(table: seq<seq<CacheItem>>, change: Change) {
    change.Insert? ==> Hashed(change.item.key, |table|) && Lookup(table, change.item.key).None?
  }

  ghost predicate Changes(table: seq<seq<CacheItem>>, changes: seq<Change>)
    decreases |changes|
  {
    changes != [] ==>
      var change := changes[0];
      && Allowed(table, change)
      && Changes(Changed(table, change), changes[1..])
  }

  ghost function After(table: seq<seq<CacheItem>>, changes: seq<Change>): (r: seq<seq<CacheItem>>)
    requires Changes(table, changes)
    ensures |r| == |table|
    decreases |changes|
  {
    if changes == [] then table else After(Changed(table, changes[0]), changes[1..])
  }

  /** Through any calls a key keeps the item it was given, until a cleaning removes that item, and no longer. */
  lemma {:induction false} SameItemUntilRemoved(table: seq<seq<CacheItem>>, changes: seq<Change>, key: Key, x: CacheItem)
    requires ValidTable(table) && Changes(table, changes) && Hashed(key, |table|) && Lookup(table, key) == Some(x)
    requires forall i :: 0 <= i < |changes| && changes[i].Insert? ==> changes[i].item != x
    ensures ValidTable(After(table, changes))
    ensures Lookup(After(table, changes), key) == Some(x) <==>
            forall i :: 0 <= i < |changes| && changes[i].Clean? ==> x !in changes[i].dead
    decreases |changes|
  {
    if changes != [] {
      var change, next := changes[0], Changed(table, changes[0]);
      match change {
        case Same =>
        case Insert(y) => InsertIsMapUpdate(table, y, key);
        case Clean(dead) => CleanIsMapRemoval(table, dead, key);
      }
      if change.Clean? && x in change.dead {
        GoneForGood(next, changes[1..], key, x);
      } else {
        SameItemUntilRemoved(next, changes[1..], key, x);
      }
    }
  }

  /** A removed item does not come back. */
  lemma {:induction false} GoneForGood(table: seq<seq<CacheItem>>, changes: seq<Change>, key: Key, x: CacheItem)
    requires ValidTable(table) && Changes(table, changes) && Hashed(key, |table|) && Lookup(table, key) != Some(x)
    requires forall i :: 0 <= i < |changes| && changes[i].Insert? ==> changes[i].item != x
    ensures ValidTable(After(table, changes)) && Lookup(After(table, changes), key) != Some(x)
    decreases |changes|
  {
    if changes != [] {
      match changes[0] {
        case Same =>
        case Insert(y) => InsertIsMapUpdate(table, y, key);
        case Clean(dead) => CleanIsMapRemoval(table, dead, key);
      }
      GoneForGood(Changed(table, changes[0]), changes[1..], key, x);
    }
  }

  lemma {:induction false} OneMoreChange(table: seq<seq<CacheItem>>, changes: seq<Change>, change: Change)
    requires Changes(table, changes) && Allowed(After(table, changes), change)
    ensures Changes(table, changes + [change])
    ensures After(table, changes + [change]) == Changed(After(table, changes), change)
    decreases |changes|
  {
    if changes != [] {
      assert (changes + [change])[1..] == changes[1..] + [change];
      OneMoreChange(Changed(table, changes[0]), changes[1..], change);
    } else {
      assert (changes + [change])[1..] == [];
    }
  }

  /** Changes one after the other. */
  lemma {:induction false} LaterChanges(table: seq<seq<CacheItem>>, changes: seq<Change>, k: nat)
    requires Changes(table, changes) && k <= |changes|
    ensures Changes(table, changes[..k]) && Changes(After(table, changes[..k]), changes[k..])
    ensures After(table, changes) == After(After(table, changes[..k]), changes[k..])
    decreases k
  {
    if k > 0 {
      assert changes[..k][1..] == changes[1..][..k - 1] && changes[1..][k - 1..] == changes[k..];
      LaterChanges(Changed(table, changes[0]), changes[1..], k - 1);
    } else {
      assert changes[0..] == changes;
    }
  }

  function EmptyTable(size: nat): seq<seq<CacheItem>> {
    seq(size, _ => [])
  }

  /** The changes have made this table of the empty one. */
  ghost predicate Made(table: seq<seq<CacheItem>>, size: nat, changes: seq<Change>) {
    Changes(EmptyTable(size), changes) && After(EmptyTable(size), changes) == table
  }

  // ---------- the table in memory ----------

  class CacheNode {
    var next: CacheNode?
    const value: CacheItem
    /** The bucket whose chain the node is in. */
    ghost const home: nat

    constructor (value: CacheItem, ghost home: nat)
      ensures next == null && this.value == value && this.home == home
    {
      next := null;
      this.value := value;
      this.home := home;
    }
  }

  function NodeAt(nodes: seq<CacheNode>, i: nat): CacheNode? {
    if i < |nodes| then nodes[i] else null
  }

  // Named so that they are looked at only where a proof says so.

  predicate Apart(nodes: seq<CacheNode>, i: int, j: int) {
    0 <= i < j < |nodes| ==> nodes[i] != nodes[j]
  }

  ghost predicate Linked(nodes: seq<CacheNode>, i: int)
    reads nodes
  {
    0 <= i < |nodes| ==> nodes[i].next == NodeAt(nodes, i + 1)
  }

  /** `nodes` are a bucket head and the nodes linked from it. */
  ghost predicate IsChain(nodes: seq<CacheNode>)
    reads nodes
  {
    nodes != [] && (forall i :: Linked(nodes, i)) && (forall i, j :: Apart(nodes, i, j))
  }

  ghost predicate AtHome(nodes: seq<CacheNode>, home: nat) {
    forall i :: 0 <= i < |nodes| ==> nodes[i].home == home
  }

  ghost predicate Within(nodes: seq<CacheNode>, own: set<CacheNode>) {
    forall i :: 0 <= i < |nodes| ==> nodes[i] in own
  }

  /** The items of a chain: the head carries none. */
  function Values(nodes: seq<CacheNode>): (r: seq<CacheItem>)
    requires nodes != []
    ensures |r| == |nodes| - 1 && forall i :: 0 <= i < |r| ==> r[i] == nodes[i + 1].value
  {
    seq(|nodes| - 1, i requires 0 <= i < |nodes| - 1 => nodes[i + 1].value)
  }

  lemma OneNode(node: CacheNode)
    requires node.next == null
    ensures IsChain([node]) && Values([node]) == []
  {
  }

  /** Links a new node behind the last of a chain. */
  method Append(head: CacheNode, item: CacheItem, ghost nodes: seq<CacheNode>, ghost home: nat)
    returns (node: CacheNode)
    requires IsChain(nodes) && head == nodes[0]
    modifies nodes
    ensures fresh(node) && node.home == home && IsChain(nodes + [node]) && Values(nodes + [node]) == Values(nodes) + [item]
  {
    var cursor := head;
    ghost var i := 0;
    while cursor.next != null
      invariant i < |nodes| && cursor == nodes[i]
      decreases |nodes| - i
    {
      assert Linked(nodes, i);
      cursor := cursor.next;
      i := i + 1;
    }
    assert Linked(nodes, i);
    node := new CacheNode(item, home);
    forall j | 0 <= j < i
      ensures nodes[j] != cursor && nodes[j].next == nodes[j + 1]
    {
      assert Apart(nodes, j, i) && Linked(nodes, j);
    }
    cursor.next := node;
    forall j, k
      ensures Apart(nodes + [node], j, k)
    {
      assert Apart(nodes, j, k);
    }
  }

  /** The item of the chain with this key, or null. */
  method FindItem(head: CacheNode, key: Key, ghost nodes: seq<CacheNode>) returns (item: CacheItem?)
    requires IsChain(nodes) && head == nodes[0]
    ensures var found := Find(Values(nodes), key); if found.None? then item == null else item == found.value
  {
    ghost var items, i := Values(nodes), 0;
    assert Linked(nodes, 0);
    var cursor := head.next;
    while cursor != null
      invariant i <= |items| && cursor == NodeAt(nodes, i + 1) && Find(items, key) == Find(items[i..], key)
      decreases |nodes| - i
    {
      FindStep(items, i, key);
      assert Linked(nodes, i + 1);
      var value := cursor.value;
      var equal := StrEquals(value.key, key);
      if equal {
        return value;
      }
      cursor := cursor.next;
      i := i + 1;
    }
    return null;
  }

  lemma FindStep(items: seq<CacheItem>, i: nat, key: Key)
    requires i < |items|
    ensures Find(items[i..], key) == if items[i].key == key then Some(items[i]) else Find(items[i + 1..], key)
  {
    assert items[i..][1..] == items[i + 1..];
  }

  /** Unlinks the node after `prev`. */
  method Unlink(prev: CacheNode, cursor: CacheNode, ghost nodes: seq<CacheNode>, ghost i: nat,
                ghost own: set<CacheNode>)
    returns (ghost chain: seq<CacheNode>)
    requires IsChain(nodes) && i + 1 < |nodes| && prev == nodes[i] && cursor == nodes[i + 1] && Within(nodes, own)
    modifies prev`next
    ensures IsChain(chain) && |chain| == |nodes| - 1 && chain[i] == prev && chain[0] == nodes[0] && Within(chain, own)
    ensures Values(chain) == Values(nodes)[..i] + Values(nodes)[i + 1..]
  {
    forall j | 0 <= j < |nodes|
      ensures (j != i ==> nodes[j] != prev) && nodes[j].next == NodeAt(nodes, j + 1)
    {
      assert Apart(nodes, i, j) && Apart(nodes, j, i) && Linked(nodes, j);
    }
    prev.next := cursor.next;
    chain := nodes[..i + 1] + nodes[i + 2..];
    forall j, k
      ensures Apart(chain, j, k)
    {
      assert Apart(nodes, if j <= i then j else j + 1, if k <= i then k else k + 1);
    }
  }

  /** After `k` of the items: the first `i` of `values` are what they leave, the others are still to come. */
  ghost predicate Swept(items: seq<CacheItem>, k: nat, values: seq<CacheItem>, i: nat, dead: set<CacheItem>) {
    && k <= |items| && i <= |values| && |values| - i == |items| - k
    && values[..i] == Survivors(items[..k], dead) && values[i..] == items[k..]
  }

  lemma SweptNext(items: seq<CacheItem>, k: nat, values: seq<CacheItem>, i: nat, dead: set<CacheItem>)
    requires Swept(items, k, values, i, dead) && i < |values|
    ensures values[i] == items[k]
    ensures if items[k] in dead then Swept(items, k + 1, values[..i] + values[i + 1..], i, dead)
            else Swept(items, k + 1, values, i + 1, dead)
  {
    SurvivorsStep(items, k, dead);
    assert values[i..][0] == items[k..][0];
    assert values[i..][1..] == values[i + 1..] && items[k..][1..] == items[k + 1..];
  }

  lemma SweptAll(items: seq<CacheItem>, k: nat, values: seq<CacheItem>, i: nat, dead: set<CacheItem>)
    requires Swept(items, k, values, i, dead) && i == |values|
    ensures values == Survivors(items, dead)
  {
    assert items[..k] == items && values[..i] == values;
  }

  /** The counts after a chain has got `n` items. A chain without a count stays empty. */
  function Recount(counts: seq<int>, b: nat, n: nat): seq<int> {
    if b < |counts| then counts[b := n] else counts
  }

  /** The count of a chain is its length; a chain without a count is empty. */
  ghost predicate CountIs(counts: seq<int>, b: nat, n: nat) {
    if b < |counts| then counts[b] == n else n == 0
  }

  /** What a pass over one chain is about. */
  datatype CleaningPass = CleaningPass(head: CacheNode, own: set<CacheNode>, items: seq<CacheItem>, dead: set<CacheItem>)

  /** After `k` items the chain is `chain`, and the pass stands behind its node `i`. */
  ghost predicate Sweeping(t: CleaningPass, prev: CacheNode, cursor: CacheNode?, chain: seq<CacheNode>, i: nat, k: nat)
    reads chain
  {
    && IsChain(chain) && chain[0] == t.head && Within(chain, t.own)
    && i < |chain| && prev == chain[i] && cursor == NodeAt(chain, i + 1)
    && Swept(t.items, k, Values(chain), i, t.dead)
  }

  /** One turn of the pass: unlinks the node at the cursor if its item has expired, and moves on. */
  method Turn(prev0: CacheNode, cursor0: CacheNode, counts: array<int>, b: nat, now: int, timeout: int,
              ghost t: CleaningPass, ghost nodes: seq<CacheNode>, ghost i0: nat, ghost k: nat)
    returns (prev: CacheNode, cursor: CacheNode?, expired: bool, ghost chain: seq<CacheNode>, ghost i: nat)
    requires Sweeping(t, prev0, cursor0, nodes, i0, k) && b < counts.Length && counts[b] == |Values(nodes)|
    requires k < |t.items| && (t.items[k] in t.dead <==> Expired(t.items[k], now, timeout))
    modifies prev0`next, counts
    ensures Sweeping(t, prev, cursor, chain, i, k + 1) && |chain| == |nodes| - (if expired then 1 else 0)
    ensures counts[..] == old(counts[..])[b := |Values(chain)|]
  {
    SweptNext(t.items, k, Values(nodes), i0, t.dead);
    assert Linked(nodes, i0 + 1);
    chain, i, cursor := nodes, i0 + 1, cursor0;
    var item := cursor.value;
    expired := now - item.lastVisited > timeout && item.status != InProcess;
    if expired {
      chain := Unlink(prev0, cursor, nodes, i0, t.own);
      i := i0;
      counts[b] := counts[b] - 1;
      cursor := prev0;
    }
    assert Linked(chain, i);
    prev := cursor;
    cursor := cursor.next;
  }

  /** Unlinks the expired items of a chain, in one pass, and counts them off. */
  method Sweep(head: CacheNode, counts: array<int>, b: nat, now: int, timeout: int,
               ghost nodes: seq<CacheNode>, ghost own: set<CacheNode>, ghost dead: set<CacheItem>)
    returns (deleted: nat, ghost chain: seq<CacheNode>)
    requires IsChain(nodes) && head == nodes[0] && Within(nodes, own) && CountIs(counts[..], b, |Values(nodes)|)
    requires DeadAre(Values(nodes), dead, now, timeout)
    modifies own, counts
    ensures IsChain(chain) && chain[0] == head && Within(chain, own)
    ensures Values(chain) == Survivors(Values(nodes), dead)
    ensures counts[..] == Recount(old(counts[..]), b, |Values(chain)|) && deleted == |Values(nodes)| - |Values(chain)|
  {
    ghost var t, was := CleaningPass(head, own, Values(nodes), dead), counts[..];
    ghost var k: nat, i: nat := 0, 0;
    chain := nodes;
    assert Linked(nodes, 0);
    var prev := head;
    var cursor := prev.next;
    deleted := 0;
    while cursor != null
      invariant Sweeping(t, prev, cursor, chain, i, k) && deleted == |t.items| - |Values(chain)|
      invariant CountIs(was, b, |t.items|) && counts[..] == Recount(was, b, |Values(chain)|)
      invariant DeadAre(t.items, dead, now, timeout)
      decreases |t.items| - k
    {
      var expired;
      prev, cursor, expired, chain, i := Turn(prev, cursor, counts, b, now, timeout, t, chain, i, k);
      if expired {
        deleted := deleted + 1;
      }
      k := k + 1;
    }
    SweptAll(t.items, k, Values(chain), i, dead);
  }

  class Cache {
    const size: nat
    const bucketCapacity: nat
    const buckets: array<CacheNode?>
    const bucketsSize: array<int>
    /** For each bucket the nodes of its chain, the head first, and the items they carry. */
    ghost var chains: seq<seq<CacheNode>>
    ghost var table: seq<seq<CacheItem>>
    ghost var nodes: set<CacheNode>
    /** What the calls have done to the table so far. */
    ghost var changes: seq<Change>

    ghost predicate Bucketed(b: nat)
      requires b < |chains| && b < |table| && b < buckets.Length
      reads this`chains, this`table, this`nodes, buckets, nodes
    {
      && Within(chains[b], nodes) && AtHome(chains[b], b) && IsChain(chains[b])
      && chains[b][0] == buckets[b] && Values(chains[b]) == table[b]
    }

    ghost predicate Sizes()
      reads this`chains, this`table
    {
      size == buckets.Length == |chains| == |table| && bucketCapacity == bucketsSize.Length
    }

    ghost predicate Shape()
      reads this`chains, this`table, this`nodes, buckets, bucketsSize, nodes
    {
      Sizes() && forall b :: 0 <= b < size ==> Bucketed(b)
    }

    /** The counts are the lengths of the chains, and no chain is longer than `bucketCapacity`. */
    ghost predicate Counted()
      reads this`chains, this`table, bucketsSize
    {
      Sizes() && forall b :: 0 <= b < size ==> CountIs(bucketsSize[..], b, |table[b]|) && |table[b]| <= bucketCapacity
    }

    ghost predicate Ready()
      reads this`chains, this`table, this`nodes, buckets, bucketsSize, nodes
    {
      Shape() && Counted()
    }


    ghost predicate Known(table: seq<seq<CacheItem>>, changes: seq<Change>) {
      ValidTable(table) && Made(table, size, changes)
    }

    /** Besides, every item is in the bucket of its hash, keys are unique, and the table is what the calls have made. */
    ghost predicate Valid()
      reads this, buckets, bucketsSize, nodes
    {
      Ready() && Known(table, changes)
    }

    /** Through any calls between two moments, a key keeps its item until a cleaning removes it, and no longer. */
    twostate lemma KeepsItem(key: Key, x: CacheItem)
      requires old(Valid()) && Valid() && old(changes) <= changes && Fits(key) && old(Lookup(table, key)) == Some(x)
      requires forall i :: |old(changes)| <= i < |changes| && changes[i].Insert? ==> changes[i].item != x
      ensures Lookup(table, key) == Some(x) <==>
              forall i :: |old(changes)| <= i < |changes| && changes[i].Clean? ==> x !in changes[i].dead
    {
      var k := |old(changes)|;
      LaterChanges(EmptyTable(size), changes, k);
      assert changes[..k] == old(changes);
      SameItemUntilRemoved(old(table), changes[k..], key, x);
      assert forall i :: 0 <= i < |changes| - k ==> changes[k..][i] == changes[k + i];
      assert forall i :: k <= i < |changes| ==> changes[i] == changes[k..][i - k];
    }

    /** The key hashes to a bucket that has a count. */
    predicate Fits(key: Key) {
      Hashed(key, size) && Hash(key, size) < bucketCapacity
    }

    /** An empty table. */
    constructor (size: nat, bucketCapacity: nat)
      ensures Valid() && this.size == size && this.bucketCapacity == bucketCapacity
      ensures table == EmptyTable(size) && changes == [] && fresh(nodes) && fresh(buckets) && fresh(bucketsSize)
    {
      this.size, this.bucketCapacity := size, bucketCapacity;
      buckets, bucketsSize := new CacheNode?[size](_ => null), new int[bucketCapacity](_ => 0);
      chains, table, nodes, changes := [], [], {}, [];
      new;
      for i := 0 to size
        invariant |chains| == |table| == i && fresh(nodes) && changes == []
        invariant forall b :: 0 <= b < i ==> chains[b] == [buckets[b]] && Alone(buckets[b], b) && table[b] == []
        invariant forall b :: 0 <= b < bucketCapacity ==> bucketsSize[b] == 0
      {
        var lock := new CacheItem([], 0);
        var head := new CacheNode(lock, i);
        buckets[i] := head;
        chains, table, nodes := chains + [[head]], table + [[]], nodes + {head};
      }
      forall b | 0 <= b < size
        ensures Bucketed(b)
      {
        OneNode(buckets[b]);
      }
    }

    ghost predicate Alone(head: CacheNode?, b: nat)
      reads this`nodes, head
    {
      head != null && head.next == null && head.home == b && head in nodes
    }

    /** Records the chain that a bucket has now. */
    ghost method Rechain(h: nat, chain: seq<CacheNode>)
      requires Sizes() && h < size && IsChain(chain) && AtHome(chain, h) && chain[0] == buckets[h]
      requires forall b :: 0 <= b < size && b != h ==> Bucketed(b)
      modifies this`chains, this`table, this`nodes
      ensures Shape() && table == old(table)[h := Values(chain)]
      ensures nodes == old(nodes) + set n | n in chain
    {
      nodes := nodes + set n | n in chain;
      chains := chains[h := chain];
      table := table[h := Values(chain)];
      forall b | 0 <= b < size
        ensures Bucketed(b)
      {
        assert b != h ==> old(Bucketed(b));
      }
    }

    /** Links a new node for the item at the end of a bucket. */
    method Link(hash: nat, item: CacheItem)
      requires Shape() && hash < size
      modifies this`chains, this`table, this`nodes, nodes
      ensures Shape() && fresh(nodes - old(nodes)) && table == old(table)[hash := old(table)[hash] + [item]]
    {
      assert Bucketed(hash);
      var node := Append(buckets[hash], item, chains[hash], hash);
      forall b | 0 <= b < size && b != hash
        ensures Bucketed(b)
      {
        assert old(Bucketed(b));
      }
      Rechain(hash, chains[hash] + [node]);
    }

    /** Records what the call under way is about to do. */
    ghost method Record(change: Change)
      modifies this`changes
      ensures changes == old(changes) + [change]
      ensures old(Made(table, size, changes)) && Allowed(table, change) ==> Made(Changed(table, change), size, changes)
    {
      if Made(table, size, changes) && Allowed(table, change) {
        OneMoreChange(EmptyTable(size), changes, change);
      }
      changes := changes + [change];
    }

    ghost method RecordSame()
      modifies this`changes
      ensures changes == old(changes) + [Same] && (old(Valid()) ==> Valid())
    {
      Record(Same);
    }

    ghost method RecordInsert(item: CacheItem)
      requires Hashed(item.key, |table|)
      modifies this`changes
      ensures changes == old(changes) + [Insert(item)]
      ensures old(Known(table, changes) && Lookup(table, item.key).None?) ==> Known(Inserted(table, item), changes)
    {
      if Known(table, changes) && Lookup(table, item.key).None? {
        InsertIsMapUpdate(table, item, item.key);
      }
      Record(Insert(item));
    }

    method InsertCacheItem(item: CacheItem) returns (error: bool)
      requires Ready() && Fits(item.key)
      modifies this`chains, this`table, this`nodes, this`changes, bucketsSize, nodes
      ensures Ready() && fresh(nodes - old(nodes))
      ensures changes == old(changes) + [if error then Same else Insert(item)]
      ensures old(Valid() && Lookup(table, item.key).None?) ==> Valid()
      ensures error <==> old(|table[Bucket(item.key, size)]|) == bucketCapacity
      ensures table == if error then old(table) else Inserted(old(table), item)
    {
      var hash := GetHash(item.key, size);
      assert hash == Bucket(item.key, size);
      if bucketsSize[hash] >= bucketCapacity {
        Record(Same);
        return true;
      }
      RecordInsert(item);
      bucketsSize[hash] := bucketsSize[hash] + 1;
      Link(hash, item);
      error := false;
    }

    /** The second half of `GetOrCreateCacheItem`, for a key that is not there. */
    method TryToCreate(key: Key, now: int) returns (item: CacheItem?)
      requires Valid() && Fits(key) && Lookup(table, key).None?
      modifies this`chains, this`table, this`nodes, this`changes, bucketsSize, nodes
      ensures Valid() && fresh(nodes - old(nodes))
      ensures if old(|table[Bucket(key, size)]|) == bucketCapacity
              then item == null && table == old(table) && changes == old(changes) + [Same]
              else item != null && fresh(item) && item.key == key && item.lastVisited == now && item.status == Initial
                   && table == Inserted(old(table), item) && changes == old(changes) + [Insert(item)]
    {
      item := new CacheItem(key, now);
      var error := InsertCacheItem(item);
      if error {
        return null;
      }
    }

    method GetOrCreateCacheItem(key: Key, now: int) returns (item: CacheItem?)
      requires Valid() && CString(key) && Fits(key)
      modifies this`chains, this`table, this`nodes, this`changes, bucketsSize, nodes, Members(table)`lastVisited
      ensures Valid() && fresh(nodes - old(nodes))
      ensures match old(Lookup(table, key))
              case Some(x) => item == x && x.lastVisited == now && table == old(table) && changes == old(changes) + [Same]
              case None =>
                if old(|table[Bucket(key, size)]|) == bucketCapacity
                then item == null && table == old(table) && changes == old(changes) + [Same]
                else item != null && fresh(item) && item.key == key && item.lastVisited == now && item.status == Initial
                     && table == Inserted(old(table), item) && changes == old(changes) + [Insert(item)]
      ensures forall x: CacheItem | old(allocated(x)) && x != item :: x.lastVisited == old(x.lastVisited)
    {
      var hash := GetHash(key, size);
      assert hash == Bucket(key, size) && Bucketed(hash);
      item := FindItem(buckets[hash], key, chains[hash]);
      if item != null {
        RecordSame();
        item.lastVisited := now;
        return item;
      }
      item := TryToCreate(key, now);
    }

    method CleanBucket(b: nat, now: int, timeout: int, ghost dead: set<CacheItem>) returns (deleted: nat)
      requires Ready() && b < size && DeadAre(table[b], dead, now, timeout)
      modifies this`chains, this`table, this`nodes, bucketsSize, nodes
      ensures Ready() && nodes == old(nodes)
      ensures table == old(table)[b := Survivors(old(table)[b], dead)] && deleted == Stock(old(table)) - Stock(table)
    {
      StockUpdate(table, b, Survivors(table[b], dead));
      assert Bucketed(b);
      ghost var chain;
      ghost var own := set n | n in chains[b];
      deleted, chain := Sweep(buckets[b], bucketsSize, b, now, timeout, chains[b], own, dead);
      forall a | 0 <= a < size && a != b
        ensures Bucketed(a)
      {
        assert old(Bucketed(a));
      }
      Rechain(b, chain);
    }

    method CleanBuckets(now: int, timeout: int, ghost dead: set<CacheItem>) returns (deletedNodes: nat)
      requires Ready() && forall b :: 0 <= b < size ==> DeadAre(table[b], dead, now, timeout)
      modifies this`chains, this`table, this`nodes, bucketsSize, nodes
      ensures Ready() && nodes == old(nodes) && table == Cleaned(old(table), dead)
      ensures deletedNodes == Stock(old(table)) - Stock(table)
    {
      ghost var was := table;
      CleanEnds(was, dead);
      deletedNodes := 0;
      for i := 0 to size
        invariant Ready() && nodes == old(nodes) && table == CleanedTo(was, i, dead)
        invariant forall b :: 0 <= b < size ==> DeadAre(was[b], dead, now, timeout)
        invariant deletedNodes == Stock(was) - Stock(table)
      {
        CleanNext(was, i, dead);
        var deleted := CleanBucket(i, now, timeout, dead);
        deletedNodes := deletedNodes + deleted;
      }
    }

    method LookupAndClean(now: int, timeout: int) returns (deletedNodes: nat)
      requires Valid()
      modifies this`chains, this`table, this`nodes, this`changes, bucketsSize, nodes
      ensures Valid() && nodes == old(nodes) && table == Cleaned(old(table), old(ExpiredIn(table, now, timeout)))
      ensures changes == old(changes) + [Clean(old(ExpiredIn(table, now, timeout)))]
      ensures forall b, x :: 0 <= b < size && x in old(table)[b] ==>
                (x in table[b] <==> now - x.lastVisited <= timeout || x.status == InProcess)
      ensures deletedNodes == Stock(old(table)) - Stock(table)
    {
      ghost var dead := ExpiredIn(table, now, timeout);
      CleanedValid(table, dead);
      Record(Clean(dead));
      ExpiredAre(table, now, timeout);
      StaysIfFresh(table, dead, now, timeout);
      deletedNodes := CleanBuckets(now, timeout, dead);
    }
  }

  /** How many items a table stores. */
  ghost function Stock(table: seq<seq<CacheItem>>): nat {
    if table == [] then 0 else Stock(table[..|table| - 1]) + |table[|table| - 1]|
  }

  lemma {:induction false} StockUpdate(table: seq<seq<CacheItem>>, b: nat, items: seq<CacheItem>)
    requires b < |table|
    ensures Stock(table[b := items]) == Stock(table) - |table[b]| + |items|
  {
    var last := |table| - 1;
    if b < last {
      StockUpdate(table[..last], b, items);
      assert table[b := items][..last] == table[..last][b := items];
    } else {
      assert table[b := items][..last] == table[..last];
    }
  }
}
