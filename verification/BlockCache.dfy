/** The read block cache with its two eviction policies, against a log of what was done to it. */
module BlockCache {
  import opened Bytes

  datatype Policy = Fifo | Lru

  /** White space as Unicode defines it. */
  predicate IsSpace(c: char) {
    var n := c as int;
    || 9 <= n <= 13 || n == 0x20 || n == 0x85 || n == 0xA0 || n == 0x1680 || 0x2000 <= n <= 0x200A
    || n == 0x2028 || n == 0x2029 || n == 0x202F || n == 0x205F || n == 0x3000
  }

  function TrimStart(s: string): string { if s != "" && IsSpace(s[0]) then TrimStart(s[1..]) else s }

  function TrimEnd(s: string): string { if s != "" && IsSpace(s[|s| - 1]) then TrimEnd(s[..|s| - 1]) else s }

  function Lowered(s: string): string {
    seq(|s|, i requires 0 <= i < |s| => if 'A' <= s[i] <= 'Z' then s[i] - 'A' + 'a' else s[i])
  }

  /** Any name but that of LRU means FIFO. */
  function ParsePolicy(name: string): Policy { if Lowered(TrimEnd(TrimStart(name))) == "lru" then Lru else Fifo }

  lemma {:induction false} StartTrimmed(pre: string, s: string)
    requires (forall c | c in pre :: IsSpace(c)) && s != "" && !IsSpace(s[0])
    ensures TrimStart(pre + s) == s
  {
    if pre == "" {
      assert pre + s == s;
    } else {
      assert (pre + s)[1..] == pre[1..] + s;
      StartTrimmed(pre[1..], s);
    }
  }

  lemma {:induction false} EndTrimmed(s: string, post: string)
    requires (forall c | c in post :: IsSpace(c)) && s != "" && !IsSpace(s[|s| - 1])
    ensures TrimEnd(s + post) == s
  {
    if post == "" {
      assert s + post == s;
    } else {
      var n := |post| - 1;
      assert (s + post)[..|s + post| - 1] == s + post[..n];
      EndTrimmed(s, post[..n]);
    }
  }

  /** The name is read in any case and with any white space around it. */
  lemma PolicyByName(pre: string, word: string, post: string)
    requires (forall c | c in pre :: IsSpace(c)) && forall c | c in post :: IsSpace(c)
    requires word != "" && !IsSpace(word[0]) && !IsSpace(word[|word| - 1])
    ensures ParsePolicy(pre + word + post).Lru? <==> Lowered(word) == "lru"
  {
    assert pre + word + post == pre + (word + post);
    StartTrimmed(pre, word + post);
    EndTrimmed(word, post);
  }

  lemma LruExample()
    ensures ParsePolicy("\tLRU ") == Lru
  {
    assert "\tLRU " == "\t" + "LRU" + " " && Lowered("LRU") == "lru";
    PolicyByName("\t", "LRU", " ");
  }

  lemma FifoExample()
    ensures ParsePolicy("mru") == Fifo
  {
    assert "mru" == "" + "mru" + "" && Lowered("mru")[0] == 'm';
    PolicyByName("", "mru", "");
  }

  datatype Event = Put(key: Key, data: Block) | Hit(key: Key) | Evict(key: Key) | DropFile(file: nat) | DropAll

  /** What a key holds according to the log: the last value put, unless it was removed since. */
  ghost function Value(log: seq<Event>, key: Key): Option<Block> {
    if log == [] then None
    else
      var before := log[..|log| - 1];
      match log[|log| - 1]
      case Put(k, data) => if k == key then Some(data) else Value(before, key)
      case Hit(_) => Value(before, key)
      case Evict(k) => if k == key then None else Value(before, key)
      case DropFile(file) => if key.0 == file then None else Value(before, key)
      case DropAll => None
  }

  /** When a key became the newest: FIFO counts the put that made it resident, LRU the last put or hit. */
  ghost function Age(policy: Policy, log: seq<Event>, key: Key): (r: nat)
    ensures r <= |log|
  {
    if log == [] then 0
    else
      var before := log[..|log| - 1];
      match log[|log| - 1]
      case Put(k, _) => if k == key && (policy.Lru? || Value(before, key).None?) then |log|
                        else Age(policy, before, key)
      case Hit(k) => if k == key && policy.Lru? then |log| else Age(policy, before, key)
      case _ => Age(policy, before, key)
  }

  /** The keys from oldest to newest, each once. */
  ghost predicate OldestFirst(policy: Policy, log: seq<Event>, order: seq<Key>) {
    forall a, b | 0 <= a < b < |order| :: Age(policy, log, order[a]) < Age(policy, log, order[b])
  }

  /** The order lists exactly the resident keys, and every resident value is the last one put. */
  ghost predicate Follows(policy: Policy, log: seq<Event>, order: seq<Key>, entries: map<Key, Block>) {
    && OldestFirst(policy, log, order)
    && (forall key :: key in order <==> key in entries)
    && Holds(log, entries)
  }

  /** The log leaves exactly these entries. */
  ghost predicate Holds(log: seq<Event>, entries: map<Key, Block>) {
    forall key :: Value(log, key) == if key in entries then Some(entries[key]) else None
  }

  lemma {:induction false} AfterEvent(policy: Policy, log: seq<Event>, e: Event, key: Key)
    ensures e.Put? && e.key == key ==> Value(log + [e], key) == Some(e.data)
    ensures (e.Evict? && e.key == key) || (e.DropFile? && e.file == key.0) || e.DropAll? ==> Value(log + [e], key).None?
    ensures (e.Hit? || (e.Put? && e.key != key) || (e.Evict? && e.key != key) || (e.DropFile? && e.file != key.0)) ==>
              Value(log + [e], key) == Value(log, key)
    ensures Age(policy, log + [e], key)
         == if (e.Put? && e.key == key && (policy.Lru? || Value(log, key).None?))
               || (e.Hit? && e.key == key && policy.Lru?)
            then |log| + 1 else Age(policy, log, key)
  {
  }

  lemma {:induction false} SameAges(policy: Policy, log: seq<Event>, e: Event, order: seq<Key>)
    requires OldestFirst(policy, log, order)
    requires forall key | key in order :: Age(policy, log + [e], key) == Age(policy, log, key)
    ensures OldestFirst(policy, log + [e], order)
  {
  }

  /** The listing without one key. */
  function Without(order: seq<Key>, key: Key): seq<Key> {
    if order == [] then []
    else if order[0] == key then Without(order[1..], key)
    else [order[0]] + Without(order[1..], key)
  }

  function WithoutFile(order: seq<Key>, file: nat): seq<Key> {
    if order == [] then []
    else if order[0].0 == file then WithoutFile(order[1..], file)
    else [order[0]] + WithoutFile(order[1..], file)
  }

  lemma {:induction false} WithoutKeepsOrder(policy: Policy, log: seq<Event>, order: seq<Key>, key: Key)
    requires OldestFirst(policy, log, order)
    ensures OldestFirst(policy, log, Without(order, key))
    ensures forall k :: k in Without(order, key) <==> k in order && k != key
  {
    if order != [] {
      WithoutKeepsOrder(policy, log, order[1..], key);
      if order[0] != key { PrependOldest(policy, log, order, Without(order[1..], key)); }
    }
  }

  lemma {:induction false} WithoutFileKeepsOrder(policy: Policy, log: seq<Event>, order: seq<Key>, file: nat)
    requires OldestFirst(policy, log, order)
    ensures OldestFirst(policy, log, WithoutFile(order, file))
    ensures forall k :: k in WithoutFile(order, file) <==> k in order && k.0 != file
  {
    if order != [] {
      WithoutFileKeepsOrder(policy, log, order[1..], file);
      if order[0].0 != file { PrependOldest(policy, log, order, WithoutFile(order[1..], file)); }
    }
  }

  lemma {:induction false} PrependOldest(policy: Policy, log: seq<Event>, order: seq<Key>, rest: seq<Key>)
    requires order != [] && OldestFirst(policy, log, order) && OldestFirst(policy, log, rest)
    requires forall k | k in rest :: k in order[1..]
    ensures OldestFirst(policy, log, [order[0]] + rest)
  {
    forall b | 0 <= b < |rest| ensures Age(policy, log, order[0]) < Age(policy, log, rest[b]) {
      assert rest[b] in order[1..];
      var m :| 0 <= m < |order| - 1 && order[1..][m] == rest[b];
      assert order[m + 1] == rest[b];
    }
  }

  /** The order after a key was renewed. */
  lemma {:induction false} Renewed(policy: Policy, log: seq<Event>, order: seq<Key>, e: Event)
    requires OldestFirst(policy, log, order)
    requires (e.Put? && (policy.Lru? || Value(log, e.key).None?)) || (e.Hit? && policy.Lru?)
    ensures OldestFirst(policy, log + [e], Without(order, e.key) + [e.key])
    ensures forall k :: k in Without(order, e.key) + [e.key] <==> k in order || k == e.key
  {
    WithoutKeepsOrder(policy, log, order, e.key);
    var rest := Without(order, e.key);
    forall k | k in rest ensures Age(policy, log + [e], k) == Age(policy, log, k) { AfterEvent(policy, log, e, k); }
    SameAges(policy, log, e, rest);
    AfterEvent(policy, log, e, e.key);
    forall a | 0 <= a < |rest| ensures Age(policy, log + [e], rest[a]) <= |log| { assert rest[a] in rest; }
  }

  lemma {:induction false} ListingSize(policy: Policy, log: seq<Event>, order: seq<Key>, entries: map<Key, Block>)
    requires OldestFirst(policy, log, order) && forall key :: key in order <==> key in entries
    ensures |entries| == |order|
    decreases |order|
  {
    if order == [] {
      assert entries == map[];
    } else {
      var rest := entries - {order[0]};
      assert rest.Keys == entries.Keys - {order[0]};
      TailLists(policy, log, order);
      ListingSize(policy, log, order[1..], rest);
    }
  }

  lemma {:induction false} TailLists(policy: Policy, log: seq<Event>, order: seq<Key>)
    requires order != [] && OldestFirst(policy, log, order)
    ensures OldestFirst(policy, log, order[1..])
    ensures forall key :: key in order[1..] <==> key in order && key != order[0]
  {
  }

  ghost function Puts(file: nat, blocks: seq<(nat, Block)>): seq<Event> {
    seq(|blocks|, n requires 0 <= n < |blocks| => Put((file, blocks[n].0), blocks[n].1))
  }

  /** Whatever went is older than whatever stayed. */
  ghost predicate KeepsNewest(policy: Policy, log: seq<Event>, before: map<Key, Block>, after: map<Key, Block>) {
    forall gone, kept | gone in before && gone !in after && kept in after ::
      Age(policy, log, gone) < Age(policy, log, kept)
  }

  /** Only evictions happened, and they made nothing newer or older. */
  ghost predicate OnlyEvictions(policy: Policy, before: seq<Event>, after: seq<Event>) {
    && before <= after && (forall n | |before| <= n < |after| :: after[n].Evict?)
    && (forall key :: Age(policy, after, key) == Age(policy, before, key))
  }

  /** What an eviction down to a limit does: the newest keys stay, with their values, as many as fit. */
  ghost predicate EvictedTo(policy: Policy, before: seq<Event>, after: seq<Event>, all: map<Key, Block>,
                            kept: map<Key, Block>, limit: nat) {
    && OnlyEvictions(policy, before, after) && Holds(before, all) && Holds(after, kept)
    && |kept| == Min(limit, |all|) && KeepsNewest(policy, before, all, kept)
    && (forall key | key in kept :: key in all && kept[key] == all[key])
  }

  datatype Op =
    | GetOp(key: Key)
    | InsertOp(file: nat, blocks: seq<(nat, Block)>, limit: nat)
    | ClearFileOp(file: nat)
    | ClearAllOp

  /** One operation, in terms of the log alone. */
  ghost predicate Performed(policy: Policy, before: seq<Event>, op: Op, hit: Option<Block>, after: seq<Event>) {
    match op
    case GetOp(key) => hit == Value(before, key) && after == if hit.Some? then before + [Hit(key)] else before
    case InsertOp(file, blocks, limit) =>
      exists all, kept :: EvictedTo(policy, before + Puts(file, blocks), after, all, kept, limit)
    case ClearFileOp(file) => after == before + [DropFile(file)]
    case ClearAllOp => after == before + [DropAll]
  }

  lemma {:induction false} Popped(policy: Policy, log: seq<Event>, order: seq<Key>, entries: map<Key, Block>)
    requires Follows(policy, log, order, entries) && order != []
    ensures Follows(policy, log + [Evict(order[0])], order[1..], entries - {order[0]})
    ensures forall k :: Age(policy, log + [Evict(order[0])], k) == Age(policy, log, k)
  {
  }

  lemma {:induction false} FileDropped(policy: Policy, log: seq<Event>, order: seq<Key>, entries: map<Key, Block>,
                                       file: nat)
    requires Follows(policy, log, order, entries)
    ensures Follows(policy, log + [DropFile(file)], WithoutFile(order, file),
                    map key | key in entries && key.0 != file :: entries[key])
  {
    var e := DropFile(file);
    WithoutFileKeepsOrder(policy, log, order, file);
    forall k
      ensures Value(log + [e], k) == if k.0 == file then None else Value(log, k)
    {
      AfterEvent(policy, log, e, k);
    }
    forall k ensures Age(policy, log + [e], k) == Age(policy, log, k) { AfterEvent(policy, log, e, k); }
    SameAges(policy, log, e, WithoutFile(order, file));
  }

  lemma {:induction false} EvictOne(policy: Policy, before: seq<Event>, log: seq<Event>, order: seq<Key>,
                                    all: map<Key, Block>, entries: map<Key, Block>)
    requires OnlyEvictions(policy, before, log) && KeepsNewest(policy, before, all, entries)
    requires Follows(policy, log, order, entries) && order != []
    ensures OnlyEvictions(policy, before, log + [Evict(order[0])])
    ensures KeepsNewest(policy, before, all, entries - {order[0]})
  {
    Popped(policy, log, order, entries);
    OldestIsOlder(policy, log, order, entries);
  }

  lemma {:induction false} PutHolds(policy: Policy, log: seq<Event>, entries: map<Key, Block>, key: Key, data: Block)
    requires Holds(log, entries)
    ensures Holds(log + [Put(key, data)], entries[key := data])
  {
    forall k ensures Value(log + [Put(key, data)], k) == if k == key then Some(data) else Value(log, k) {
      AfterEvent(policy, log, Put(key, data), k);
    }
  }

  lemma {:induction false} PutKeepsPlace(policy: Policy, log: seq<Event>, order: seq<Key>, key: Key, data: Block)
    requires OldestFirst(policy, log, order) && policy.Fifo? && Value(log, key).Some?
    ensures OldestFirst(policy, log + [Put(key, data)], order)
  {
    var e := Put(key, data);
    forall k | k in order ensures Age(policy, log + [e], k) == Age(policy, log, k) {
      AfterEvent(policy, log, e, k);
    }
    SameAges(policy, log, e, order);
  }

  lemma {:induction false} PutFollows(policy: Policy, log: seq<Event>, order: seq<Key>, entries: map<Key, Block>,
                                      key: Key, data: Block)
    requires Follows(policy, log, order, entries)
    ensures Follows(policy, log + [Put(key, data)],
                    if policy.Lru? || key !in entries then Without(order, key) + [key] else order,
                    entries[key := data])
  {
    PutHolds(policy, log, entries, key, data);
    if policy.Lru? || key !in entries {
      Renewed(policy, log, order, Put(key, data));
    } else {
      PutKeepsPlace(policy, log, order, key, data);
    }
  }

  class ReadBlockCache {
    const policy: Policy
    var entries: map<Key, Block>
    /** Oldest key first; the linked map of the LRU form keeps the same order inside. */
    var order: seq<Key>
    ghost var log: seq<Event>

    ghost predicate Valid()
      reads this
    {
      Follows(policy, log, order, entries)
    }

    constructor (name: string)
      ensures Valid() && entries == map[] && log == [] && policy == ParsePolicy(name)
    {
      policy, entries, order, log := ParsePolicy(name), map[], [], [];
    }

    /** A hit returns the last value put; under LRU it also makes the key the newest. */
    method Get(file: nat, i: nat) returns (r: Option<Block>)
      requires Valid()
      modifies this`order, this`log
      ensures Valid()
      ensures r == Value(old(log), (file, i)) && (r.Some? <==> (file, i) in entries)
      ensures log == if r.Some? then old(log) + [Hit((file, i))] else old(log)
    {
      var key := (file, i);
      if key !in entries { return None; }
      ghost var e := Hit(key);
      forall k ensures Value(log + [e], k) == Value(log, k) { AfterEvent(policy, log, e, k); }
      if policy.Lru? {
        Renewed(policy, log, order, e);
        order := Without(order, key) + [key];
      } else {
        forall k | k in order
          ensures Age(policy, log + [e], k) == Age(policy, log, k)
        {
          AfterEvent(policy, log, e, k);
        }
        SameAges(policy, log, e, order);
      }
      log := log + [e];
      return Some(entries[key]);
    }

    /** Inserts one block; FIFO keeps the place of a resident key, LRU renews it. */
    method PutBlock(key: Key, data: Block)
      requires Valid()
      modifies this
      ensures Valid() && log == old(log) + [Put(key, data)]
      ensures entries == old(entries)[key := data]
    {
      PutFollows(policy, log, order, entries, key, data);
      if policy.Lru? || key !in entries { order := Without(order, key) + [key]; }
      log := log + [Put(key, data)];
      entries := entries[key := data];
    }

    method PopOldest()
      requires Valid() && order != []
      modifies this
      ensures Valid() && log == old(log) + [Evict(old(order[0]))]
      ensures order == old(order[1..]) && entries == old(entries) - {old(order[0])}
      ensures forall key :: Age(policy, log, key) == Age(policy, old(log), key)
    {
      Popped(policy, log, order, entries);
      log := log + [Evict(order[0])];
      entries := entries - {order[0]};
      order := order[1..];
    }

    /** Drops the oldest keys until the limit holds: what stays is newer than what went, and as
        much stays as the limit allows. */
    method EvictTo(limit: nat)
      requires Valid()
      modifies this
      ensures Valid()
      ensures EvictedTo(policy, old(log), log, old(entries), entries, limit)
    {
      ListingSize(policy, log, order, entries);
      while |entries| > limit
        invariant Valid() && |entries| == |order| <= |old(entries)|
        invariant |entries| >= Min(limit, |old(entries)|)
        invariant forall key | key in entries :: key in old(entries) && entries[key] == old(entries)[key]
        invariant OnlyEvictions(policy, old(log), log) && KeepsNewest(policy, old(log), old(entries), entries)
      {
        EvictOne(policy, old(log), log, order, old(entries), entries);
        PopOldest();
        ListingSize(policy, log, order, entries);
      }
    }

    /** After an insert the cache is within its limit, holds the last values put, and has kept
        exactly the newest of its old and new keys. */
    method InsertMany(file: nat, blocks: seq<(nat, Block)>, limit: nat)
      requires Valid()
      modifies this
      ensures Valid() && |entries| <= limit
      ensures exists all :: EvictedTo(policy, old(log) + Puts(file, blocks), log, all, entries, limit)
    {
      for n := 0 to |blocks|
        invariant Valid() && log == old(log) + Puts(file, blocks[..n])
      {
        PutBlock((file, blocks[n].0), blocks[n].1);
        assert Puts(file, blocks[..n + 1]) == Puts(file, blocks[..n]) + [Put((file, blocks[n].0), blocks[n].1)];
      }
      assert blocks[..|blocks|] == blocks;
      EvictTo(limit);
    }

    method ClearFile(file: nat)
      requires Valid()
      modifies this
      ensures Valid() && log == old(log) + [DropFile(file)]
      ensures entries == map key | key in old(entries) && key.0 != file :: old(entries)[key]
    {
      FileDropped(policy, log, order, entries, file);
      entries := map key | key in entries && key.0 != file :: entries[key];
      order := WithoutFile(order, file);
      log := log + [DropFile(file)];
    }

    method ClearAll()
      requires Valid()
      modifies this
      ensures Valid() && entries == map[] && log == old(log) + [DropAll]
    {
      entries, order, log := map[], [], log + [DropAll];
    }

    /** One operation of a run. */
    method Perform(op: Op) returns (hit: Option<Block>)
      requires Valid()
      modifies this
      ensures Valid() && Performed(policy, old(log), op, hit, log)
    {
      hit := None;
      match op
      case GetOp(key) => hit := Get(key.0, key.1);
      case InsertOp(file, blocks, limit) => InsertMany(file, blocks, limit);
      case ClearFileOp(file) => ClearFile(file);
      case ClearAllOp => ClearAll();
    }

    /** Over every sequence of operations, each one does what the log of all before it says: a hit
        returns the last value put, and an insert keeps the newest keys by insertion or use. */
    method Run(ops: seq<Op>) returns (hits: seq<Option<Block>>, ghost logs: seq<seq<Event>>)
      requires Valid()
      modifies this
      ensures Valid() && |hits| == |ops| && |logs| == |ops| + 1 && logs[0] == old(log) && logs[|ops|] == log
      ensures forall n | 0 <= n < |ops| :: Performed(policy, logs[n], ops[n], hits[n], logs[n + 1])
    {
      hits, logs := [], [log];
      for n := 0 to |ops|
        invariant Valid() && |hits| == n && |logs| == n + 1 && logs[0] == old(log) && logs[n] == log
        invariant forall m | 0 <= m < n :: Performed(policy, logs[m], ops[m], hits[m], logs[m + 1])
      {
        var hit := Perform(ops[n]);
        hits, logs := hits + [hit], logs + [log];
      }
    }
  }

  lemma {:induction false} OldestIsOlder(policy: Policy, log: seq<Event>, order: seq<Key>, entries: map<Key, Block>)
    requires Follows(policy, log, order, entries) && order != []
    ensures forall kept | kept in entries && kept != order[0] :: Age(policy, log, order[0]) < Age(policy, log, kept)
  {
  }

  /** Resident keys never share an age, so the order is free of duplicates. */
  lemma {:induction false} OrderHasNoDuplicates(policy: Policy, log: seq<Event>, order: seq<Key>,
                                                entries: map<Key, Block>)
    requires Follows(policy, log, order, entries)
    ensures forall a, b | 0 <= a < b < |order| :: order[a] != order[b]
    ensures |entries| == |order|
  {
    ListingSize(policy, log, order, entries);
    forall a, b | 0 <= a < b < |order| ensures order[a] != order[b] {
      assert Age(policy, log, order[a]) < Age(policy, log, order[b]);
    }
  }
}
