/**
 The write path of the v6 database: a batch of handles is reduced to the records whose cache key is
 new, those are written, the cache learns their row ids, and every handle gets the id cached for its
 key. A created row gets the next id; nothing else of the database is modelled.
 */
module IdCache {
  import opened Prelude

  type ID = nat

  datatype Key = Key(table: string, key: string)

  /** The id cache by table and cache key, the rows written so far, and the next row id. */
  datatype State = State(idKeys: map<string, map<string, ID>>, rows: map<ID, Key>, next: ID)

  const START := State(map[], map[], 1)

  function Find(idKeys: map<string, map<string, ID>>, table: string, key: string): (id: Option<ID>) {
    if table in idKeys && key in idKeys[table] then Some(idKeys[table][key]) else None
  }

  function SetEntry(idKeys: map<string, map<string, ID>>, table: string, key: string, id: ID)
    : (r: map<string, map<string, ID>>)
  {
    idKeys[table := (if table in idKeys then idKeys[table] else map[])[key := id]]
  }

  // ----- batches as functions

  function Create(s: State, table: string, key: string): (r: State) {
    State(SetEntry(s.idKeys, table, key, s.next), s.rows[s.next := Key(table, key)], s.next + 1)
  }

  /** One handle: only an unknown key creates a row. */
  function AddKey(s: State, table: string, key: string): (r: State) {
    if Find(s.idKeys, table, key).Some? then s else Create(s, table, key)
  }

  /** A batch is its handles one after the other. */
  function Batch(s: State, table: string, keys: seq<string>): (r: State) {
    if keys == [] then s else AddKey(Batch(s, table, keys[..|keys| - 1]), table, keys[|keys| - 1])
  }

  /** What every write keeps: a key is cached with an id exactly when the row of that id is its row. */
  ghost predicate Consistent(s: State) {
    && s.next > 0
    && (forall id :: id in s.rows ==> 0 < id < s.next)
    && (forall t, k, id :: Find(s.idKeys, t, k) == Some(id) <==> id in s.rows && s.rows[id] == Key(t, k))
  }

  /** Ids that were cached stay as they are and rows stay as they are. */
  ghost predicate Extends(s: State, s': State) {
    && (forall t, k :: Find(s.idKeys, t, k).Some? ==> Find(s'.idKeys, t, k) == Find(s.idKeys, t, k))
    && (forall id :: id in s.rows ==> id in s'.rows && s'.rows[id] == s.rows[id])
  }

  lemma FindAfterSet(idKeys: map<string, map<string, ID>>, table: string, key: string, id: ID, t: string, k: string)
    ensures Find(SetEntry(idKeys, table, key, id), t, k) ==
            if t == table && k == key then Some(id) else Find(idKeys, t, k)
  {
  }

  lemma CreateKeepsConsistent(s: State, table: string, key: string)
    requires Consistent(s) && Find(s.idKeys, table, key).None?
    ensures Consistent(Create(s, table, key)) && Extends(s, Create(s, table, key))
  {
    var s' := Create(s, table, key);
    forall t, k ensures Find(s'.idKeys, t, k) == if t == table && k == key then Some(s.next) else Find(s.idKeys, t, k) {
      FindAfterSet(s.idKeys, table, key, s.next, t, k);
    }
    forall t, k, id ensures Find(s'.idKeys, t, k) == Some(id) <==> id in s'.rows && s'.rows[id] == Key(t, k) {
      assert Find(s.idKeys, t, k) == Some(id) <==> id in s.rows && s.rows[id] == Key(t, k);
    }
  }

  lemma {:induction false} BatchKeepsConsistent(s: State, table: string, keys: seq<string>)
    requires Consistent(s)
    ensures Consistent(Batch(s, table, keys)) && Extends(s, Batch(s, table, keys))
    ensures forall i :: 0 <= i < |keys| ==> Find(Batch(s, table, keys).idKeys, table, keys[i]).Some?
  {
    if keys != [] {
      var front, last := keys[..|keys| - 1], keys[|keys| - 1];
      BatchKeepsConsistent(s, table, front);
      var mid := Batch(s, table, front);
      if Find(mid.idKeys, table, last).None? { CreateKeepsConsistent(mid, table, last); }
      forall i | 0 <= i < |keys| ensures Find(Batch(s, table, keys).idKeys, table, keys[i]).Some? {
        if i < |keys| - 1 { assert keys[i] == front[i]; }
      }
    }
  }

  datatype Write = Write(table: string, keys: seq<string>)

  function Writes(s: State, ws: seq<Write>): (r: State) {
    if ws == [] then s
    else Batch(Writes(s, ws[..|ws| - 1]), ws[|ws| - 1].table, ws[|ws| - 1].keys)
  }

  /** Across any sequence of write batches the cache and the rows agree. */
  lemma {:induction false} WritesAreConsistent(ws: seq<Write>)
    ensures Consistent(Writes(START, ws))
  {
    if ws != [] {
      WritesAreConsistent(ws[..|ws| - 1]);
      BatchKeepsConsistent(Writes(START, ws[..|ws| - 1]), ws[|ws| - 1].table, ws[|ws| - 1].keys);
    }
  }

  lemma {:induction false} WritesFind(ws: seq<Write>, table: string, key: string)
    ensures Find(Writes(START, ws).idKeys, table, key).Some? <==> WrittenBy(ws, table, key)
  {
    if ws != [] {
      var front, last := ws[..|ws| - 1], ws[|ws| - 1];
      WritesFind(front, table, key);
      BatchWritesItsKeys(Writes(START, front), last.table, last.keys, table, key);
      WrittenBySnoc(ws, table, key);
    }
  }

  /** The rows that hold a key. */
  ghost function RowsOf(s: State, key: Key): (ids: set<ID>) {
    set id | id in s.rows && s.rows[id] == key
  }

  /**
   Across any sequence of write batches a key gets exactly one row if some batch contains it and
   none otherwise, and the id cached for it is the id of that row.
   */
  lemma OneRowPerKey(ws: seq<Write>, table: string, key: string)
    ensures var s := Writes(START, ws);
            && (Find(s.idKeys, table, key).Some? <==> WrittenBy(ws, table, key))
            && RowsOf(s, Key(table, key)) ==
               (if WrittenBy(ws, table, key) then {Find(s.idKeys, table, key).value} else {})
  {
    var s := Writes(START, ws);
    WritesAreConsistent(ws);
    WritesFind(ws, table, key);
    forall id ensures id in RowsOf(s, Key(table, key)) <==> Find(s.idKeys, table, key) == Some(id) {
    }
  }

  ghost predicate WrittenBy(ws: seq<Write>, table: string, key: string) {
    exists i :: 0 <= i < |ws| && ws[i].table == table && key in ws[i].keys
  }

  lemma WrittenBySnoc(ws: seq<Write>, table: string, key: string)
    requires ws != []
    ensures WrittenBy(ws, table, key) <==>
            || WrittenBy(ws[..|ws| - 1], table, key)
            || (ws[|ws| - 1].table == table && key in ws[|ws| - 1].keys)
  {
  }

  lemma {:induction false} BatchWritesItsKeys(s: State, table: string, keys: seq<string>, t: string, k: string)
    ensures Find(Batch(s, table, keys).idKeys, t, k).Some? <==>
            Find(s.idKeys, t, k).Some? || (t == table && k in keys)
  {
    if keys != [] {
      var front, last := keys[..|keys| - 1], keys[|keys| - 1];
      BatchWritesItsKeys(s, table, front, t, k);
      assert keys == front + [last];
    }
  }

  // ----- what a batch writes at once

  /** The keys of a batch that are not cached, without repetitions, in order. */
  function NewKeys(s: State, table: string, keys: seq<string>): (r: seq<string>) {
    if keys == [] then []
    else
      var r, last := NewKeys(s, table, keys[..|keys| - 1]), keys[|keys| - 1];
      if last in r || Find(s.idKeys, table, last).Some? then r else r + [last]
  }

  predicate Distinct(keys: seq<string>) {
    forall i, j :: 0 <= i < j < |keys| ==> keys[i] != keys[j]
  }

  lemma {:induction false} NewKeysAreDistinct(s: State, table: string, keys: seq<string>)
    ensures Distinct(NewKeys(s, table, keys))
  {
    if keys != [] {
      var r, last := NewKeys(s, table, keys[..|keys| - 1]), keys[|keys| - 1];
      NewKeysAreDistinct(s, table, keys[..|keys| - 1]);
      if last !in r { DistinctSnoc(r, last); }
    }
  }

  lemma DistinctSnoc(keys: seq<string>, k: string)
    requires Distinct(keys) && k !in keys
    ensures Distinct(keys + [k])
  {
  }

  function CreateAll(s: State, table: string, keys: seq<string>): (r: State)
    ensures r.next == s.next + |keys|
  {
    if keys == [] then s else Create(CreateAll(s, table, keys[..|keys| - 1]), table, keys[|keys| - 1])
  }

  lemma {:induction false} CreateAllFinds(s: State, table: string, keys: seq<string>, k: string)
    ensures Find(CreateAll(s, table, keys).idKeys, table, k).Some? <==>
            Find(s.idKeys, table, k).Some? || k in keys
  {
    if keys != [] {
      CreateAllFinds(s, table, keys[..|keys| - 1], k);
      assert keys == keys[..|keys| - 1] + [keys[|keys| - 1]];
    }
  }

  /** Writing the new keys in one go is the same as adding the handles one by one. */
  lemma {:induction false} BatchIsCreateAll(s: State, table: string, keys: seq<string>)
    ensures Batch(s, table, keys) == CreateAll(s, table, NewKeys(s, table, keys))
  {
    if keys != [] {
      var front, last := keys[..|keys| - 1], keys[|keys| - 1];
      BatchIsCreateAll(s, table, front);
      var r := NewKeys(s, table, front);
      CreateAllFinds(s, table, r, last);
      assert (r + [last])[..|r|] == r;
    }
  }

  /** The id cached for a newly created key counts up from the next id. */
  lemma {:induction false} CreateAllIds(s: State, table: string, keys: seq<string>, i: nat)
    requires i < |keys| && Distinct(keys)
    ensures Find(CreateAll(s, table, keys).idKeys, table, keys[i]) == Some(s.next + i)
  {
    if i < |keys| - 1 {
      CreateAllIds(s, table, keys[..|keys| - 1], i);
    }
  }

  // ----- the code

  /** A row to be: what cacheKey, tableName, rowID and setRowID say about it. */
  class Record {
    const key: string
    var id: ID

    constructor (key: string)
      ensures this.key == key && id == 0
    {
      this.key, id := key, 0;
    }
  }

  class Database {
    var next: ID
    var rows: map<ID, Key>

    /** Creating a row assigns the next id to the record. */
    method Create(table: string, r: Record)
      modifies this, r
      ensures r.id == old(next) && next == old(next) + 1
      ensures rows == old(rows)[old(next) := Key(table, r.key)]
    {
      r.id := next;
      rows := rows[next := Key(table, r.key)];
      next := next + 1;
    }
  }

  class Cache {
    var idKeys: map<string, map<string, ID>>

    method GetID(table: string, r: Record) returns (id: ID, found: bool)
      ensures found <==> Find(idKeys, table, r.key).Some?
      ensures found ==> Find(idKeys, table, r.key) == Some(id)
    {
      if table in idKeys {
        if r.key in idKeys[table] { return idKeys[table][r.key], true; }
        return 0, false;
      }
      return 0, false;
    }

    method SetIDEntry(table: string, r: Record)
      modifies this
      ensures idKeys == SetEntry(old(idKeys), table, r.key, r.id)
    {
      if table !in idKeys { idKeys := idKeys[table := map[]]; }
      var entries: map<string, ID> := idKeys[table];
      entries := entries[r.key := r.id];
      idKeys := idKeys[table := entries];
    }
  }

  function KeysOf(records: seq<Record>): (keys: seq<string>)
    ensures |keys| == |records| && forall i :: 0 <= i < |records| ==> keys[i] == records[i].key
  {
    seq(|records|, i requires 0 <= i < |records| => records[i].key)
  }

  ghost function StateOf(db: Database, cache: Cache): (s: State)
    reads db, cache
  {
    State(cache.idKeys, db.rows, db.next)
  }

  method CreateRows(db: Database, table: string, final: seq<Record>, ghost s: State)
    requires Distinct(KeysOf(final)) && s.rows == db.rows && s.next == db.next
    modifies db, set r | r in final
    ensures db.next == s.next + |final| && db.rows == CreateAll(s, table, KeysOf(final)).rows
    ensures forall j :: 0 <= j < |final| ==> final[j].id == s.next + j
  {
    ghost var keys := KeysOf(final);
    var i := 0;
    while i < |final|
      invariant 0 <= i <= |final|
      invariant db.next == s.next + i && db.rows == CreateAll(s, table, keys[..i]).rows
      invariant forall j :: 0 <= j < i ==> final[j].id == s.next + j
    {
      assert keys[..i + 1][..i] == keys[..i];
      db.Create(table, final[i]);
      i := i + 1;
    }
    assert keys[..i] == keys;
  }

  method FillCache(cache: Cache, table: string, final: seq<Record>, ghost s: State)
    requires s.idKeys == cache.idKeys && forall j :: 0 <= j < |final| ==> final[j].id == s.next + j
    modifies cache
    ensures cache.idKeys == CreateAll(s, table, KeysOf(final)).idKeys
  {
    ghost var keys := KeysOf(final);
    var i := 0;
    while i < |final|
      invariant 0 <= i <= |final|
      invariant cache.idKeys == CreateAll(s, table, keys[..i]).idKeys
    {
      assert keys[..i + 1][..i] == keys[..i];
      cache.SetIDEntry(table, final[i]);
      i := i + 1;
    }
    assert keys[..i] == keys;
  }

  /** Write the new records, then tell the cache their ids. */
  method WriteRecords(db: Database, cache: Cache, table: string, final: seq<Record>)
    requires Distinct(KeysOf(final))
    modifies db, cache, set r | r in final
    ensures StateOf(db, cache) == CreateAll(old(StateOf(db, cache)), table, KeysOf(final))
    ensures forall i :: 0 <= i < |final| ==> Find(cache.idKeys, table, final[i].key) == Some(final[i].id)
  {
    ghost var s, keys := StateOf(db, cache), KeysOf(final);
    CreateRows(db, table, final, s);
    FillCache(cache, table, final, s);
    forall j | 0 <= j < |final| ensures Find(cache.idKeys, table, final[j].key) == Some(final[j].id) {
      CreateAllIds(s, table, keys, j);
    }
  }

  /** The records filed under any key of the map. */
  ghost predicate FiledIn(skipped: map<string, seq<Record>>, r: Record) {
    r.key in skipped && r in skipped[r.key]
  }

  ghost predicate FiledByKey(skipped: map<string, seq<Record>>, items: seq<Record>) {
    forall k, r :: k in skipped && r in skipped[k] ==> r.key == k && r in items
  }

  /** Give the records of one key the id cached for it. */
  method FillBatch(cache: Cache, table: string, k: string, batch: seq<Record>) returns (ok: bool)
    requires forall r :: r in batch ==> r.key == k
    modifies set r | r in batch
    ensures ok <== Find(cache.idKeys, table, k).Some?
    ensures ok ==> forall r :: r in batch ==> Find(cache.idKeys, table, k) == Some(r.id)
  {
    var i := 0;
    while i < |batch|
      invariant 0 <= i <= |batch|
      invariant forall j :: 0 <= j < i ==> Find(cache.idKeys, table, k) == Some(batch[j].id)
    {
      var id, found := cache.GetID(table, batch[i]);
      if !found { return false; }
      batch[i].id := id;
      i := i + 1;
    }
    return true;
  }

  /** Give every filed record the id cached for its key; false is the "unable to find ID" error. */
  method BackFill(cache: Cache, table: string, skipped: map<string, seq<Record>>, ghost items: seq<Record>)
    returns (ok: bool)
    requires FiledByKey(skipped, items)
    modifies set r | r in items
    ensures ok <== forall k :: k in skipped ==> Find(cache.idKeys, table, k).Some?
    ensures ok ==> forall r :: r in items ==>
                     (FiledIn(skipped, r) ==> Find(cache.idKeys, table, r.key) == Some(r.id))
                     && (!FiledIn(skipped, r) ==> r.id == old(r.id))
  {
    var todo := skipped.Keys;
    while todo != {}
      invariant todo <= skipped.Keys
      invariant forall r :: r in items && FiledIn(skipped, r) && r.key !in todo ==>
                              Find(cache.idKeys, table, r.key) == Some(r.id)
      invariant forall r :: r in items && !FiledIn(skipped, r) ==> r.id == old(r.id)
      decreases todo
    {
      var k :| k in todo;
      ok := FillBatch(cache, table, k, skipped[k]);
      if !ok { return; }
      todo := todo - {k};
    }
    return true;
  }

  function Append(m: map<string, seq<Record>>, k: string, r: Record): (m': map<string, seq<Record>>) {
    m[k := (if k in m then m[k] else []) + [r]]
  }

  /** What the first loop has sorted out among the records seen so far. */
  ghost predicate Parted(s: State, table: string, seen: seq<Record>, final: seq<Record>, skipped: map<string, seq<Record>>) {
    && KeysOf(final) == NewKeys(s, table, KeysOf(seen))
    && (forall r :: r in final ==> r in seen)
    && FiledByKey(skipped, seen)
    && (forall k :: k in skipped ==> k in KeysOf(final) || Find(s.idKeys, table, k).Some?)
    && (forall r :: r in seen ==> r in final || FiledIn(skipped, r))
  }

  lemma PartSkip(s: State, table: string, seen: seq<Record>, final: seq<Record>, skipped: map<string, seq<Record>>, r: Record)
    requires Parted(s, table, seen, final, skipped)
    requires r.key in KeysOf(final) || Find(s.idKeys, table, r.key).Some?
    ensures Parted(s, table, seen + [r], final, Append(skipped, r.key, r))
  {
    KeysOfAppend(seen, r);
    NextKey(s, table, KeysOf(seen), r.key);
    FilingMore(skipped, seen, r);
  }

  lemma FiledBySnoc(skipped: map<string, seq<Record>>, items: seq<Record>, r: Record)
    requires FiledByKey(skipped, items)
    ensures FiledByKey(skipped, items + [r])
  {
  }

  lemma PartWrite(s: State, table: string, seen: seq<Record>, final: seq<Record>, skipped: map<string, seq<Record>>, r: Record)
    requires Parted(s, table, seen, final, skipped)
    requires r.key !in KeysOf(final) && Find(s.idKeys, table, r.key).None?
    ensures Parted(s, table, seen + [r], final + [r], skipped)
  {
    KeysOfAppend(seen, r);
    KeysOfAppend(final, r);
    NextKey(s, table, KeysOf(seen), r.key);
    forall k | k in skipped ensures k in KeysOf(final + [r]) || Find(s.idKeys, table, k).Some? {
      assert KeysOf(final) <= KeysOf(final + [r]);
    }
    FiledBySnoc(skipped, seen, r);
  }

  /** The records to write and the records whose key is cached or written already. */
  method Partition(cache: Cache, table: string, items: seq<Record>, ghost s: State)
    returns (finalWrites: seq<Record>, skipped: map<string, seq<Record>>)
    requires s.idKeys == cache.idKeys
    ensures Parted(s, table, items, finalWrites, skipped)
  {
    skipped, finalWrites := map[], [];
    var usedKeys: set<string> := {};
    var i := 0;
    while i < |items|
      invariant 0 <= i <= |items|
      invariant Parted(s, table, items[..i], finalWrites, skipped)
      invariant forall k :: k in usedKeys <==> k in KeysOf(finalWrites)
    {
      var p := items[i];
      assert items[..i + 1] == items[..i] + [p];
      var _, cached := cache.GetID(table, p);
      if p.key in usedKeys || p.key in skipped || cached {
        PartSkip(s, table, items[..i], finalWrites, skipped, p);
        skipped := Append(skipped, p.key, p);
      } else {
        PartWrite(s, table, items[..i], finalWrites, skipped, p);
        KeysOfAppend(finalWrites, p);
        finalWrites := finalWrites + [p];
        usedKeys := usedKeys + {p.key};
      }
      i := i + 1;
    }
    assert items[..i] == items;
  }

  lemma KeysOfAppend(records: seq<Record>, r: Record)
    ensures KeysOf(records + [r]) == KeysOf(records) + [r.key]
  {
  }

  /**
   createRecordsWithCache: the batch is written, every handle ends with the id cached for its key,
   and the "unable to find ID" error does not occur.
   */
  method CreateRecordsWithCache(db: Database, cache: Cache, table: string, items: seq<Record>) returns (ok: bool)
    modifies db, cache, set r | r in items
    ensures ok
    ensures StateOf(db, cache) == Batch(old(StateOf(db, cache)), table, KeysOf(items))
    ensures forall i :: 0 <= i < |items| ==> Find(cache.idKeys, table, items[i].key) == Some(items[i].id)
  {
    ghost var s := StateOf(db, cache);
    var finalWrites, skipped := Partition(cache, table, items, s);
    BatchIsCreateAll(s, table, KeysOf(items));
    NewKeysAreDistinct(s, table, KeysOf(items));
    WriteRecords(db, cache, table, finalWrites);
    forall k | k in skipped ensures Find(cache.idKeys, table, k).Some? {
      CreateAllFinds(s, table, KeysOf(finalWrites), k);
    }
    ok := BackFill(cache, table, skipped, items);
    forall i | 0 <= i < |items| ensures Find(cache.idKeys, table, items[i].key) == Some(items[i].id) {
      assert items[i] in items;
      if !FiledIn(skipped, items[i]) { assert items[i] in finalWrites; }
    }
  }

  /** A package or CPE handle that refers to a record by foreign key. */
  class Handle {
    const ref: Record?
    var fk: ID

    constructor (ref: Record?)
      ensures this.ref == ref && fk == 0
    {
      this.ref, fk := ref, 0;
    }
  }

  /** The records the first handles refer to, in order. */
  function RefsUpTo(handles: seq<Handle>, n: nat): (refs: seq<Record>)
    requires n <= |handles|
  {
    if n == 0 then []
    else if handles[n - 1].ref == null then RefsUpTo(handles, n - 1)
    else RefsUpTo(handles, n - 1) + [handles[n - 1].ref]
  }

  function Refs(handles: seq<Handle>): (refs: seq<Record>) {
    RefsUpTo(handles, |handles|)
  }

  lemma {:induction false} RefsHold(handles: seq<Handle>, n: nat, i: nat)
    requires i < n <= |handles| && handles[i].ref != null
    ensures handles[i].ref in RefsUpTo(handles, n)
  {
    if i < n - 1 { RefsHold(handles, n - 1, i); }
  }

  /** What the first loop has gathered from the records seen so far. */
  ghost predicate Gathered(s: State, table: string, seen: seq<Record>, final: seq<Record>, filed: map<string, seq<Record>>) {
    && KeysOf(final) == NewKeys(s, table, KeysOf(seen))
    && (forall r :: r in final ==> r in seen && r.key in filed)
    && FiledByKey(filed, seen)
    && (forall r :: r in seen ==> FiledIn(filed, r))
    && (forall k :: k in filed ==> k in KeysOf(final) || Find(s.idKeys, table, k).Some?)
  }

  lemma GatherStart(s: State, table: string)
    ensures Gathered(s, table, [], [], map[])
  {
    assert KeysOf([]) == [];
  }

  lemma GatherCached(s: State, table: string, seen: seq<Record>, final: seq<Record>, filed: map<string, seq<Record>>, r: Record)
    requires Gathered(s, table, seen, final, filed)
    requires Find(s.idKeys, table, r.key).Some? || r.key in filed
    ensures Gathered(s, table, seen + [r], final, Append(filed, r.key, r))
  {
    KeysOfAppend(seen, r);
    NextKey(s, table, KeysOf(seen), r.key);
    FilingMore(filed, seen, r);
  }

  lemma GatherNew(s: State, table: string, seen: seq<Record>, final: seq<Record>, filed: map<string, seq<Record>>, r: Record)
    requires Gathered(s, table, seen, final, filed)
    requires Find(s.idKeys, table, r.key).None? && r.key !in filed
    ensures Gathered(s, table, seen + [r], final + [r], Append(filed, r.key, r))
  {
    KeysOfAppend(seen, r);
    KeysOfAppend(final, r);
    NextKey(s, table, KeysOf(seen), r.key);
    FilingMore(filed, seen, r);
  }

  /** The foreign key is the id cached for the record's key, if there is one. */
  predicate KnowsCached(idKeys: map<string, map<string, ID>>, table: string, ref: Record?, fk: ID) {
    ref != null && Find(idKeys, table, ref.key).Some? ==> Find(idKeys, table, ref.key) == Some(fk)
  }

  /** One handle of the first loop. */
  method CollectOne(cache: Cache, table: string, p: Handle, final: seq<Record>, filed: map<string, seq<Record>>,
                    ghost seen: seq<Record>, ghost s: State)
    returns (final': seq<Record>, filed': map<string, seq<Record>>)
    requires s.idKeys == cache.idKeys && Gathered(s, table, seen, final, filed)
    modifies if p.ref == null then {} else {p}
    ensures Gathered(s, table, if p.ref == null then seen else seen + [p.ref], final', filed')
    ensures KnowsCached(s.idKeys, table, p.ref, p.fk)
  {
    final', filed' := final, filed;
    if p.ref != null {
      var existing, cached := cache.GetID(table, p.ref);
      if cached {
        p.fk := existing;
        GatherCached(s, table, seen, final, filed, p.ref);
      } else if p.ref.key !in filed {
        GatherNew(s, table, seen, final, filed, p.ref);
        final' := final + [p.ref];
      } else {
        GatherCached(s, table, seen, final, filed, p.ref);
      }
      filed' := Append(filed, p.ref.key, p.ref);
    }
  }

  /** Where the first loop stands after n handles. */
  ghost predicate Collected(s: State, table: string, packages: seq<Handle>, n: nat, final: seq<Record>, filed: map<string, seq<Record>>)
    requires n <= |packages|
    reads packages
  {
    && Gathered(s, table, RefsUpTo(packages, n), final, filed)
    && forall j :: 0 <= j < n ==> KnowsCached(s.idKeys, table, packages[j].ref, packages[j].fk)
  }

  /** One round with the handles before it. */
  method CollectNext(cache: Cache, table: string, packages: seq<Handle>, i: nat, final: seq<Record>,
                     filed: map<string, seq<Record>>, ghost s: State)
    returns (final': seq<Record>, filed': map<string, seq<Record>>)
    requires s.idKeys == cache.idKeys && i < |packages|
    requires Collected(s, table, packages, i, final, filed)
    modifies if packages[i].ref == null then {} else {packages[i]}
    ensures Collected(s, table, packages, i + 1, final', filed')
  {
    final', filed' := CollectOne(cache, table, packages[i], final, filed, RefsUpTo(packages, i), s);
    forall j | 0 <= j <= i ensures KnowsCached(s.idKeys, table, packages[j].ref, packages[j].fk) {
      if packages[j] != packages[i] {
        assert KnowsCached(s.idKeys, table, packages[j].ref, old(packages[j].fk));
      }
    }
  }

  /** The first loop: the records to write, all records by key, and the ids known already. */
  method CollectReferences(cache: Cache, table: string, packages: seq<Handle>, ghost s: State)
    returns (final: seq<Record>, byCacheKey: map<string, seq<Record>>)
    requires s.idKeys == cache.idKeys
    modifies set p | p in packages && p.ref != null
    ensures Collected(s, table, packages, |packages|, final, byCacheKey)
  {
    final, byCacheKey := [], map[];
    GatherStart(s, table);
    var i := 0;
    while i < |packages|
      invariant 0 <= i <= |packages| && s.idKeys == cache.idKeys
      invariant Collected(s, table, packages, i, final, byCacheKey)
    {
      final, byCacheKey := CollectNext(cache, table, packages, i, final, byCacheKey, s);
      i := i + 1;
    }
  }

  lemma NextKey(s: State, table: string, keys: seq<string>, k: string)
    ensures NewKeys(s, table, keys + [k]) ==
            if k in NewKeys(s, table, keys) || Find(s.idKeys, table, k).Some? then NewKeys(s, table, keys)
            else NewKeys(s, table, keys) + [k]
  {
    assert (keys + [k])[..|keys|] == keys;
  }

  lemma FilingMore(filed: map<string, seq<Record>>, items: seq<Record>, p: Record)
    requires FiledByKey(filed, items)
    ensures FiledByKey(Append(filed, p.key, p), items + [p]) && FiledIn(Append(filed, p.key, p), p)
    ensures forall r :: FiledIn(filed, r) ==> FiledIn(Append(filed, p.key, p), r)
  {
    assert FiledByKey(filed, items + [p]);
  }

  method SetForeignKeys(packages: seq<Handle>)
    modifies set p | p in packages && p.ref != null
    ensures forall i :: 0 <= i < |packages| && packages[i].ref != null ==> packages[i].fk == packages[i].ref.id
  {
    var i := 0;
    while i < |packages|
      invariant 0 <= i <= |packages|
      invariant forall j :: 0 <= j < i && packages[j].ref != null ==> packages[j].fk == packages[j].ref.id
    {
      if packages[i].ref != null { packages[i].fk := packages[i].ref.id; }
      i := i + 1;
    }
  }

  /** Write what was gathered and give every gathered record the id cached for its key. */
  method WriteGathered(db: Database, cache: Cache, table: string, final: seq<Record>, filed: map<string, seq<Record>>,
                       ghost refs: seq<Record>)
    requires Gathered(StateOf(db, cache), table, refs, final, filed)
    modifies db, cache, set r | r in refs
    ensures StateOf(db, cache) == Batch(old(StateOf(db, cache)), table, KeysOf(refs))
    ensures forall r :: r in refs ==> Find(cache.idKeys, table, r.key) == Some(r.id)
  {
    ghost var s := StateOf(db, cache);
    BatchIsCreateAll(s, table, KeysOf(refs));
    NewKeysAreDistinct(s, table, KeysOf(refs));
    WriteRecords(db, cache, table, final);
    forall k | k in filed ensures Find(cache.idKeys, table, k).Some? {
      CreateAllFinds(s, table, KeysOf(final), k);
    }
    var ok := BackFill(cache, table, filed, refs);
  }

  /** Nothing to write means that every key is cached and the batch changes nothing. */
  lemma NothingNew(s: State, table: string, refs: seq<Record>, filed: map<string, seq<Record>>, r: Record)
    requires Gathered(s, table, refs, [], filed)
    ensures Batch(s, table, KeysOf(refs)) == s
    ensures r in refs ==> Find(s.idKeys, table, r.key).Some?
  {
    BatchIsCreateAll(s, table, KeysOf(refs));
    assert KeysOf([]) == [];
    if r in refs { assert FiledIn(filed, r); }
  }

  /**
   addOsFromPackages and addCPEs: the batch of referenced records is written, and every handle with
   a reference ends with the foreign key that is cached for its own key.
   */
  method AddReferences(db: Database, cache: Cache, table: string, packages: seq<Handle>)
    modifies db, cache, (set p | p in packages && p.ref != null), (set r | r in Refs(packages))
    ensures StateOf(db, cache) == Batch(old(StateOf(db, cache)), table, KeysOf(Refs(packages)))
    ensures forall i :: 0 <= i < |packages| && packages[i].ref != null ==>
                          Find(cache.idKeys, table, packages[i].ref.key) == Some(packages[i].fk)
    ensures forall i :: 0 <= i < |packages| && packages[i].ref == null ==> packages[i].fk == old(packages[i].fk)
  {
    ghost var s, refs := StateOf(db, cache), Refs(packages);
    forall i | 0 <= i < |packages| && packages[i].ref != null ensures packages[i].ref in refs {
      RefsHold(packages, |packages|, i);
    }
    var final, byCacheKey := CollectReferences(cache, table, packages, s);
    if |final| == 0 {
      assert final == [];
      forall r: Record {
        NothingNew(s, table, refs, byCacheKey, r);
      }
      return;
    }
    WriteGathered(db, cache, table, final, byCacheKey, refs);
    SetForeignKeys(packages);
  }

  // ----- blobs

  class Blob {
    const value: string
    var id: ID

    constructor (value: string)
      ensures this.value == value && id == 0
    {
      this.value, id := value, 0;
    }
  }

  /** The digest index and the stored values. */
  datatype Blobs = Blobs(idsByDigest: map<string, ID>, values: map<ID, string>, next: ID)

  /** Every indexed digest leads to a stored value with that digest. */
  ghost predicate BlobsConsistent(digest: string -> string, b: Blobs) {
    && b.next > 0
    && (forall id :: id in b.values ==> 0 < id < b.next)
    && (forall d :: d in b.idsByDigest ==> b.idsByDigest[d] in b.values && digest(b.values[b.idsByDigest[d]]) == d)
    && (forall id :: id in b.values ==> digest(b.values[id]) in b.idsByDigest && b.idsByDigest[digest(b.values[id])] == id)
  }

  /** The index leads from the digest of the value to the id. */
  predicate Holds(digest: string -> string, ids: map<string, ID>, value: string, id: ID) {
    digest(value) in ids && ids[digest(value)] == id
  }

  ghost predicate KeepsIds(before: map<string, ID>, after: map<string, ID>) {
    forall d :: d in before ==> d in after && after[d] == before[d]
  }

  function AddValue(digest: string -> string, b: Blobs, value: string): (r: Blobs) {
    var d := digest(value);
    if d in b.idsByDigest && b.idsByDigest[d] != 0 then b
    else Blobs(b.idsByDigest[d := b.next], b.values[b.next := value], b.next + 1)
  }

  class BlobStore {
    var idsByDigest: map<string, ID>
    var values: map<ID, string>
    var next: ID

    ghost function State(): (b: Blobs)
      reads this
    {
      Blobs(idsByDigest, values, next)
    }

    constructor ()
      ensures State() == Blobs(map[], map[], 1)
    {
      idsByDigest, values, next := map[], map[], 1;
    }

    /** addBlobs for one blob. */
    method AddBlob(digest: string -> string, v: Blob)
      requires BlobsConsistent(digest, State())
      modifies this, v
      ensures State() == AddValue(digest, old(State()), v.value)
      ensures BlobsConsistent(digest, State()) && KeepsIds(old(idsByDigest), idsByDigest)
      ensures Holds(digest, idsByDigest, v.value, v.id)
    {
      var d := digest(v.value);
      if d in idsByDigest && idsByDigest[d] != 0 {
        v.id := idsByDigest[d];
        return;
      }
      v.id := next;
      values := values[next := v.value];
      next := next + 1;
      if v.id != 0 { idsByDigest := idsByDigest[d := v.id]; }
    }

    /** addBlobs: equal digests share one id, the one indexed for the digest. */
    method AddBlobs(digest: string -> string, blobs: seq<Blob>)
      requires BlobsConsistent(digest, State())
      modifies this, set v | v in blobs
      ensures BlobsConsistent(digest, State()) && KeepsIds(old(idsByDigest), idsByDigest)
      ensures forall i :: 0 <= i < |blobs| ==> Holds(digest, idsByDigest, blobs[i].value, blobs[i].id)
    {
      var i := 0;
      while i < |blobs|
        invariant 0 <= i <= |blobs| && BlobsConsistent(digest, State())
        invariant KeepsIds(old(idsByDigest), idsByDigest)
        invariant forall j :: 0 <= j < i ==> Holds(digest, idsByDigest, blobs[j].value, blobs[j].id)
      {
        ghost var before := idsByDigest;
        label Before:
        AddBlob(digest, blobs[i]);
        forall j | 0 <= j < i ensures Holds(digest, idsByDigest, blobs[j].value, blobs[j].id) {
          assert Holds(digest, before, blobs[j].value, old@Before(blobs[j].id));
        }
        i := i + 1;
      }
    }
  }

  function AddValues(digest: string -> string, b: Blobs, vs: seq<string>): (r: Blobs) {
    if vs == [] then b else AddValue(digest, AddValues(digest, b, vs[..|vs| - 1]), vs[|vs| - 1])
  }

  lemma {:induction false} AddValuesConsistent(digest: string -> string, vs: seq<string>)
    ensures var b := AddValues(digest, Blobs(map[], map[], 1), vs);
            && BlobsConsistent(digest, b)
            && forall i :: 0 <= i < |vs| ==> digest(vs[i]) in b.idsByDigest
  {
    if vs != [] {
      AddValuesConsistent(digest, vs[..|vs| - 1]);
    }
  }

  /**
   Over any sequence of stored values: reading a value back through the id of its digest gives the
   same value for all of them exactly when the digest tells the stored values apart.
   */
  lemma {:induction false} BlobsReadBack(digest: string -> string, vs: seq<string>)
    ensures var b := AddValues(digest, Blobs(map[], map[], 1), vs);
            && (forall i :: 0 <= i < |vs| ==> digest(vs[i]) in b.idsByDigest && b.idsByDigest[digest(vs[i])] in b.values)
            && ((forall i :: 0 <= i < |vs| ==> b.values[b.idsByDigest[digest(vs[i])]] == vs[i]) <==>
                forall i, j :: 0 <= i < |vs| && 0 <= j < |vs| && digest(vs[i]) == digest(vs[j]) ==> vs[i] == vs[j])
  {
    var b := AddValues(digest, Blobs(map[], map[], 1), vs);
    AddValuesConsistent(digest, vs);
    StoredValuesAreGiven(digest, vs);
    forall i | 0 <= i < |vs| ensures b.idsByDigest[digest(vs[i])] in b.values {
    }
    if forall i, j :: 0 <= i < |vs| && 0 <= j < |vs| && digest(vs[i]) == digest(vs[j]) ==> vs[i] == vs[j] {
      forall i | 0 <= i < |vs| ensures b.values[b.idsByDigest[digest(vs[i])]] == vs[i] {
        var id := b.idsByDigest[digest(vs[i])];
        var j :| 0 <= j < |vs| && vs[j] == b.values[id];
      }
    }
  }

  lemma {:induction false} StoredValuesAreGiven(digest: string -> string, vs: seq<string>)
    ensures forall id :: id in AddValues(digest, Blobs(map[], map[], 1), vs).values ==>
                           AddValues(digest, Blobs(map[], map[], 1), vs).values[id] in vs
  {
    if vs != [] {
      StoredValuesAreGiven(digest, vs[..|vs| - 1]);
      assert vs == vs[..|vs| - 1] + [vs[|vs| - 1]];
    }
  }
}
