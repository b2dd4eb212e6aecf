/**
  The browser-side record store holding the live feeds: an object store with
  in-line key `id` and a key generator (`autoIncrement: true`). It is modelled
  as a map from keys to records plus the key generator's current number. The
  store semantics the page relies on are those of the W3C Indexed Database
  API: generated keys start at 1 and only grow (section 2.11, "Key
  generators"), deleting an absent key is not an error, and a cursor opened
  with the default direction "next" visits records in ascending key order
  (section 2.10, "Cursor").
 */
module FeedStore {

  /** A saved feed: what the form submits. The creation timestamp is not modelled. */
  datatype Feed = Feed(name: string, url: string)

  /** One record as a cursor delivers it: its key and its value. */
  datatype Entry = Entry(key: nat, feed: Feed)

  /** The object store: its records and the key generator's current number. */
  datatype Store = Store(records: map<nat, Feed>, nextId: nat)

  /** The first key a fresh key generator hands out. */
  const FirstKey: nat := 1

  /** Key generator invariant: every stored key was generated, so lies below the current number. */
  ghost predicate Valid(s: Store) {
    FirstKey <= s.nextId && forall k :: k in s.records ==> FirstKey <= k < s.nextId
  }

  /** A freshly created object store. */
  function Create(): (s: Store)
    ensures Valid(s) && |s.records| == 0
  {
    Store(map[], FirstKey)
  }

  /**
    `store.add(entry)`: the key generator supplies the key, which no stored
    record has and which exceeds every stored key; the record is stored under it.
   */
  function Insert(s: Store, f: Feed): (r: (Store, nat))
    requires Valid(s)
    ensures Valid(r.0)
    ensures r.1 !in s.records && forall k :: k in s.records ==> k < r.1
    ensures r.0.records.Keys == s.records.Keys + {r.1} && r.0.records[r.1] == f
    ensures forall k :: k in s.records ==> r.0.records[k] == s.records[k]
    ensures s.nextId < r.0.nextId
  {
    (Store(s.records[s.nextId := f], s.nextId + 1), s.nextId)
  }

  /** `store.delete(id)`: removes that key if present; an absent key is not an error. */
  function Delete(s: Store, id: nat): (r: Store)
    ensures Valid(s) ==> Valid(r)
    ensures r.records.Keys == s.records.Keys - {id}
    ensures forall k :: k in r.records ==> r.records[k] == s.records[k]
    ensures r.nextId == s.nextId
  {
    Store(s.records - {id}, s.nextId)
  }

  /** Entries with strictly ascending keys. */
  ghost predicate Ascending(es: seq<Entry>) {
    forall i, j :: 0 <= i < j < |es| ==> es[i].key < es[j].key
  }

  /** Every entry is a record of `m`, with the value `m` holds for it. */
  ghost predicate EntriesOf(es: seq<Entry>, m: map<nat, Feed>) {
    forall i :: 0 <= i < |es| ==> es[i].key in m && m[es[i].key] == es[i].feed
  }

  /** The records of `m` with keys in [lo, hi), in ascending key order. */
  function ScanRange(m: map<nat, Feed>, lo: nat, hi: nat): seq<Entry>
    decreases hi - lo
  {
    if hi <= lo then []
    else if lo in m then [Entry(lo, m[lo])] + ScanRange(m, lo + 1, hi)
    else ScanRange(m, lo + 1, hi)
  }

  /** A range scan lists only records of `m`, with their values, keys inside the range. */
  lemma {:induction false} ScanRangeSound(m: map<nat, Feed>, lo: nat, hi: nat)
    ensures var r := ScanRange(m, lo, hi);
      EntriesOf(r, m) && forall i :: 0 <= i < |r| ==> lo <= r[i].key < hi
    decreases hi - lo
  {
    if lo < hi {
      ScanRangeSound(m, lo + 1, hi);
      var rest := ScanRange(m, lo + 1, hi);
      if lo in m {
        var r := ScanRange(m, lo, hi);
        assert forall i :: 1 <= i < |r| ==> r[i] == rest[i - 1];
      }
    }
  }

  /** A range scan lists keys in strictly ascending order. */
  lemma {:induction false} ScanRangeAscending(m: map<nat, Feed>, lo: nat, hi: nat)
    ensures Ascending(ScanRange(m, lo, hi))
    decreases hi - lo
  {
    if lo < hi {
      ScanRangeAscending(m, lo + 1, hi);
      ScanRangeSound(m, lo + 1, hi);
      var rest := ScanRange(m, lo + 1, hi);
      if lo in m {
        var r := ScanRange(m, lo, hi);
        forall i, j | 0 <= i < j < |r|
          ensures r[i].key < r[j].key
        {
          assert r[j] == rest[j - 1];
          if 0 < i {
            assert r[i] == rest[i - 1];
          }
        }
      }
    }
  }

  /** A range scan lists every record of `m` whose key lies in the range. */
  lemma {:induction false} ScanRangeComplete(m: map<nat, Feed>, lo: nat, hi: nat)
    ensures forall k :: k in m && lo <= k < hi ==> Entry(k, m[k]) in ScanRange(m, lo, hi)
    decreases hi - lo
  {
    if lo < hi {
      ScanRangeComplete(m, lo + 1, hi);
    }
  }

  /**
    A full cursor scan in direction "next": every record exactly once, in
    ascending key order.
   */
  function Scan(s: Store): (r: seq<Entry>)
    requires Valid(s)
    ensures Ascending(r) && EntriesOf(r, s.records)
    ensures forall k :: k in s.records ==> Entry(k, s.records[k]) in r
  {
    ScanRangeSound(s.records, FirstKey, s.nextId);
    ScanRangeAscending(s.records, FirstKey, s.nextId);
    ScanRangeComplete(s.records, FirstKey, s.nextId);
    ScanRange(s.records, FirstKey, s.nextId)
  }

  /** Scanning one key further appends that key's record, if there is one. */
  lemma {:induction false} ScanRangeExtend(m: map<nat, Feed>, lo: nat, hi: nat)
    requires lo <= hi
    ensures ScanRange(m, lo, hi + 1)
         == ScanRange(m, lo, hi) + (if hi in m then [Entry(hi, m[hi])] else [])
    decreases hi - lo
  {
    if lo < hi {
      ScanRangeExtend(m, lo + 1, hi);
    }
  }

  /** Records at or beyond `hi` do not affect a scan of [lo, hi). */
  lemma {:induction false} ScanRangeIgnoresBeyond(m: map<nat, Feed>, k: nat, f: Feed, lo: nat, hi: nat)
    requires hi <= k
    ensures ScanRange(m[k := f], lo, hi) == ScanRange(m, lo, hi)
    decreases hi - lo
  {
    if lo < hi {
      ScanRangeIgnoresBeyond(m, k, f, lo + 1, hi);
    }
  }

  /** A scan after an insertion is the earlier scan with the new record last. */
  lemma ScanAfterInsert(s: Store, f: Feed)
    requires Valid(s)
    ensures var (s', id) := Insert(s, f);
      Scan(s') == Scan(s) + [Entry(id, f)]
  {
    var (s', id) := Insert(s, f);
    ScanRangeExtend(s'.records, FirstKey, s.nextId);
    ScanRangeIgnoresBeyond(s.records, s.nextId, f, FirstKey, s.nextId);
  }

  /** Deleting is idempotent: deleting the same key twice is deleting it once. */
  lemma DeleteIdempotent(s: Store, id: nat)
    ensures Delete(Delete(s, id), id) == Delete(s, id)
  {
  }

  /** Deleting a key that is not stored leaves the store as it was. */
  lemma DeleteAbsent(s: Store, id: nat)
    requires id !in s.records
    ensures Delete(s, id) == s
  {
    assert s.records - {id} == s.records;
  }
}
