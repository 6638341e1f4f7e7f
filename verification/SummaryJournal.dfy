/**
  The journals kept in the summary blocks of two open logs: a short list of
  entries, at most one for each key, that takes precedence over a table on pages.
 */
module SummaryJournal {

  datatype JEntry<T> = JEntry(key: nat, val: T)

  ghost predicate Unique<T>(j: seq<JEntry<T>>) {
    forall i, k :: 0 <= i < k < |j| ==> j[i].key != j[k].key
  }

  /** lookup_journal_in_cursum without allocation: the first entry of a key, or the length. */
  function Find<T>(j: seq<JEntry<T>>, key: nat): (i: nat)
    ensures i <= |j| && (i < |j| ==> j[i].key == key)
    ensures forall k :: 0 <= k < i ==> j[k].key != key
  {
    if j == [] || j[0].key == key then 0
    else
      var i := Find(j[1..], key);
      assert forall k :: 0 < k < i + 1 ==> j[k].key == j[1..][k - 1].key;
      i + 1
  }

  /** What is known of a key: its journal entry, or what the page says. */
  function Get<T>(j: seq<JEntry<T>>, key: nat, page: T): T {
    var i := Find(j, key);
    if i < |j| then j[i].val else page
  }

  /** Storing an entry: in place, or at the end. */
  function Put<T>(j: seq<JEntry<T>>, key: nat, val: T): (r: seq<JEntry<T>>)
    ensures |j| <= |r| <= |j| + 1
  {
    var i := Find(j, key);
    if i < |j| then j[i := JEntry(key, val)] else j + [JEntry(key, val)]
  }

  lemma FindIs<T>(j: seq<JEntry<T>>, key: nat, i: nat)
    requires i < |j| && j[i].key == key && Unique(j)
    ensures Find(j, key) == i
  {
  }

  lemma PutKeys<T>(j: seq<JEntry<T>>, key: nat, val: T)
    requires Unique(j)
    ensures Unique(Put(j, key, val))
    ensures forall i :: 0 <= i < |Put(j, key, val)| ==>
              Put(j, key, val)[i].key == if i < |j| then j[i].key else key
  {
  }

  /** A stored entry is found, and the others are found as before. */
  lemma PutGet<T>(j: seq<JEntry<T>>, key: nat, val: T, k: nat, page: T)
    requires Unique(j)
    ensures Get(Put(j, key, val), k, page) == if k == key then val else Get(j, k, page)
  {
    var r, i := Put(j, key, val), Find(j, k);
    PutKeys(j, key, val);
    if k == key {
      FindIs(r, key, Find(j, key));
    } else if i < |j| {
      FindIs(r, k, i);
    } else {
      assert Find(r, k) == |r|;
    }
  }
}
