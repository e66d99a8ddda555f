/**
 * The deduplication step of the change feed (`fetch_changes_since`): the
 * records returned by a "created OR updated OR closed since" query may hold
 * several versions of one service request, and the client collapses them to
 * one record per `unique_key` in a dictionary `seen`, keeping the version
 * with the greatest `resolution_action_updated_date`.
 */
module Dedup {
  import opened Records
  import opened Strings

  /**
   * The distinct grouping keys of the first `n` records in order of first
   * appearance. This is the key order of the insertion-ordered dictionary
   * `seen` after `n` records, and so the order of `list(seen.values())`.
   */
  function KeysBefore(records: seq<Record>, n: nat): seq<string>
    requires n <= |records|
  {
    if n == 0 then []
    else
      var keys := KeysBefore(records, n - 1);
      var k := GroupKey(records[n - 1]);
      if k.Some? && k.value !in keys then keys + [k.value] else keys
  }

  /** The distinct grouping keys of all `records` in order of first appearance. */
  function FirstKeys(records: seq<Record>): seq<string> {
    KeysBefore(records, |records|)
  }

  /**
   * Among the first `n` records, record `j` is the version kept for its key:
   * it has a key, every earlier record with that key has a strictly older
   * update date, and no later one has a newer update date. In other words,
   * `j` is the first record of its key whose update date is maximal.
   */
  ghost predicate WinsWithin(records: seq<Record>, n: int, j: int)
    requires 0 <= n <= |records|
  {
    && 0 <= j < n
    && GroupKey(records[j]).Some?
    && (forall i :: 0 <= i < j && GroupKey(records[i]) == GroupKey(records[j]) ==>
          Less(UpdatedDate(records[i]), UpdatedDate(records[j])))
    && (forall i :: j < i < n && GroupKey(records[i]) == GroupKey(records[j]) ==>
          LessEq(UpdatedDate(records[i]), UpdatedDate(records[j])))
  }

  ghost predicate Kept(records: seq<Record>, j: int) {
    WinsWithin(records, |records|, j)
  }

  /**
   * `deduped` is what `fetch_changes_since` returns for `records`: one record
   * per key, in first-appearance order of the keys, each the kept version.
   */
  ghost predicate IsDeduplication(records: seq<Record>, deduped: seq<Record>) {
    var keys := FirstKeys(records);
    && |deduped| == |keys|
    && forall p :: 0 <= p < |deduped| ==>
         && GroupKey(deduped[p]) == Some(keys[p])
         && exists j :: Kept(records, j) && deduped[p] == records[j]
  }

  lemma {:induction false} KeysBeforeMembership(records: seq<Record>, n: nat, k: string)
    requires n <= |records|
    ensures k in KeysBefore(records, n) <==>
            exists i :: 0 <= i < n && GroupKey(records[i]) == Some(k)
  {
    if n > 0 {
      KeysBeforeMembership(records, n - 1, k);
    }
  }

  lemma FirstKeysMembership(records: seq<Record>, k: string)
    ensures k in FirstKeys(records) <==>
            exists i :: 0 <= i < |records| && GroupKey(records[i]) == Some(k)
  {
    KeysBeforeMembership(records, |records|, k);
  }

  lemma {:induction false} KeysBeforeDistinct(records: seq<Record>, n: nat)
    requires n <= |records|
    ensures forall p, q :: 0 <= p < q < |KeysBefore(records, n)| ==>
              KeysBefore(records, n)[p] != KeysBefore(records, n)[q]
  {
    if n > 0 {
      KeysBeforeDistinct(records, n - 1);
    }
  }

  lemma FirstKeysDistinct(records: seq<Record>)
    ensures forall p, q :: 0 <= p < q < |FirstKeys(records)| ==>
              FirstKeys(records)[p] != FirstKeys(records)[q]
  {
    KeysBeforeDistinct(records, |records|);
  }

  lemma {:induction false} KeysBeforeLength(records: seq<Record>, n: nat)
    requires n <= |records|
    ensures |KeysBefore(records, n)| <= n
  {
    if n > 0 {
      KeysBeforeLength(records, n - 1);
    }
  }

  /**
   * The keys of `seen` after the first `n` records: `order` lists them in
   * insertion order, and `at` has the same keys as `seen`.
   */
  ghost predicate SeenKeys(records: seq<Record>, n: int, seen: map<string, Record>,
                           order: seq<string>, at: map<string, int>)
  {
    && 0 <= n <= |records|
    && order == KeysBefore(records, n)
    && seen.Keys == at.Keys
    && (forall k :: k in seen <==> k in order)
  }

  /** Each key of `seen` maps to the version kept so far, found at index `at[k]`. */
  ghost predicate SeenVersions(records: seq<Record>, n: int, seen: map<string, Record>,
                               at: map<string, int>)
  {
    && 0 <= n <= |records|
    && seen.Keys == at.Keys
    && forall k :: k in at ==>
         && WinsWithin(records, n, at[k])
         && GroupKey(records[at[k]]) == Some(k)
         && seen[k] == records[at[k]]
  }

  /**
   * The loop of `fetch_changes_since` over the fetched records. The dict
   * `seen` is modelled by the map `seen` together with `order`, the order in
   * which its keys were first inserted (replacing a value keeps its place).
   */
  method DeduplicateByKey(records: seq<Record>) returns (deduped: seq<Record>)
    ensures IsDeduplication(records, deduped)
  {
    var seen: map<string, Record> := map[];
    var order: seq<string> := [];
    ghost var at: map<string, int> := map[];
    for i := 0 to |records|
      invariant SeenKeys(records, i, seen, order, at)
      invariant SeenVersions(records, i, seen, at)
    {
      var record := records[i];
      var key := record.uniqueKey;
      if key.Some? && key.value != "" {
        var k := key.value;
        assert GroupKey(records[i]) == Some(k);
        if k !in seen {
          FirstSeenKeys(records, i, seen, order, at);
          FirstSeenVersions(records, i, seen, order, at);
          seen := seen[k := record];
          order := order + [k];
          at := at[k := i];
        } else {
          SeenAgainKeys(records, i, seen, order, at);
          var existing := seen[k];
          if Less(UpdatedDate(existing), UpdatedDate(record)) {
            NewerVersionWins(records, i, seen, at);
            seen := seen[k := record];
            at := at[k := i];
          } else {
            OlderVersionSkipped(records, i, seen, at);
          }
        }
      } else {
        assert GroupKey(records[i]).None?;
        KeylessSkipped(records, i, seen, at);
      }
    }
    deduped := seq(|order|, p requires 0 <= p < |order| => seen[order[p]]);
    forall p | 0 <= p < |deduped|
      ensures exists j :: Kept(records, j) && deduped[p] == records[j]
    {
      assert Kept(records, at[order[p]]);
    }
  }

  /** A record whose key is not yet in the dictionary adds that key at the end of the key order. */
  lemma FirstSeenKeys(records: seq<Record>, n: int, seen: map<string, Record>,
                      order: seq<string>, at: map<string, int>)
    requires n < |records| && SeenKeys(records, n, seen, order, at)
    requires GroupKey(records[n]).Some? && GroupKey(records[n]).value !in seen
    ensures SeenKeys(records, n + 1, seen[GroupKey(records[n]).value := records[n]],
                     order + [GroupKey(records[n]).value], at[GroupKey(records[n]).value := n])
  {
  }

  /** A record whose key is already in the dictionary leaves the key order as it is. */
  lemma SeenAgainKeys(records: seq<Record>, n: int, seen: map<string, Record>,
                      order: seq<string>, at: map<string, int>)
    requires n < |records| && SeenKeys(records, n, seen, order, at)
    requires GroupKey(records[n]).Some? && GroupKey(records[n]).value in seen
    ensures SeenKeys(records, n + 1, seen, order, at)
    ensures SeenKeys(records, n + 1, seen[GroupKey(records[n]).value := records[n]],
                     order, at[GroupKey(records[n]).value := n])
  {
  }

  /** A record without a key leaves the dictionary as it is. */
  lemma KeylessSkipped(records: seq<Record>, n: int, seen: map<string, Record>,
                       at: map<string, int>)
    requires n < |records| && SeenVersions(records, n, seen, at)
    requires GroupKey(records[n]).None?
    ensures SeenVersions(records, n + 1, seen, at)
  {
    forall k | k in at
      ensures WinsWithin(records, n + 1, at[k])
    {
      OtherKeyUnaffected(records, n, at[k]);
    }
  }

  /** A record whose key is not yet in the dictionary is kept as that key's version. */
  lemma FirstSeenVersions(records: seq<Record>, n: int, seen: map<string, Record>,
                          order: seq<string>, at: map<string, int>)
    requires n < |records| && SeenKeys(records, n, seen, order, at)
    requires SeenVersions(records, n, seen, at)
    requires GroupKey(records[n]).Some? && GroupKey(records[n]).value !in seen
    ensures SeenVersions(records, n + 1, seen[GroupKey(records[n]).value := records[n]],
                         at[GroupKey(records[n]).value := n])
  {
    var k := GroupKey(records[n]).value;
    KeysBeforeMembership(records, n, k);
    assert WinsWithin(records, n + 1, n);
    forall k' | k' in at
      ensures WinsWithin(records, n + 1, at[k'])
    {
      OtherKeyUnaffected(records, n, at[k']);
    }
  }

  /** A record no newer than the kept version of its key is dropped. */
  lemma OlderVersionSkipped(records: seq<Record>, n: int, seen: map<string, Record>,
                            at: map<string, int>)
    requires n < |records| && SeenVersions(records, n, seen, at)
    requires GroupKey(records[n]).Some? && GroupKey(records[n]).value in seen
    requires !Less(UpdatedDate(seen[GroupKey(records[n]).value]), UpdatedDate(records[n]))
    ensures SeenVersions(records, n + 1, seen, at)
  {
    forall k | k in at
      ensures WinsWithin(records, n + 1, at[k])
    {
      if GroupKey(records[n]) != GroupKey(records[at[k]]) {
        OtherKeyUnaffected(records, n, at[k]);
      } else {
        OlderIndexLoses(records, n, at[k]);
      }
    }
  }

  /** A record of another key does not change which version of a key wins. */
  lemma OtherKeyUnaffected(records: seq<Record>, n: int, j: int)
    requires 0 <= n < |records| && WinsWithin(records, n, j)
    requires GroupKey(records[n]) != GroupKey(records[j])
    ensures WinsWithin(records, n + 1, j)
  {
  }

  /** A record no newer than the kept version `j` of its key leaves `j` the winner. */
  lemma OlderIndexLoses(records: seq<Record>, n: int, j: int)
    requires 0 <= n < |records| && WinsWithin(records, n, j)
    requires !Less(UpdatedDate(records[j]), UpdatedDate(records[n]))
    ensures WinsWithin(records, n + 1, j)
  {
  }

  /** A record strictly newer than the kept version `j` of its key wins. */
  lemma NewerIndexWins(records: seq<Record>, n: int, j: int)
    requires 0 <= n < |records| && WinsWithin(records, n, j)
    requires GroupKey(records[n]) == GroupKey(records[j])
    requires Less(UpdatedDate(records[j]), UpdatedDate(records[n]))
    ensures WinsWithin(records, n + 1, n)
  {
    forall i | 0 <= i < n && GroupKey(records[i]) == GroupKey(records[n])
      ensures Less(UpdatedDate(records[i]), UpdatedDate(records[n]))
    {
      if i < j {
        LessTransitive(UpdatedDate(records[i]), UpdatedDate(records[j]), UpdatedDate(records[n]));
      } else if j < i {
        LessEqLessTransitive(UpdatedDate(records[i]), UpdatedDate(records[j]), UpdatedDate(records[n]));
      }
    }
  }

  /** A strictly newer record replaces the kept version of its key, in place. */
  lemma NewerVersionWins(records: seq<Record>, n: int, seen: map<string, Record>,
                         at: map<string, int>)
    requires n < |records| && SeenVersions(records, n, seen, at)
    requires GroupKey(records[n]).Some? && GroupKey(records[n]).value in seen
    requires Less(UpdatedDate(seen[GroupKey(records[n]).value]), UpdatedDate(records[n]))
    ensures SeenVersions(records, n + 1, seen[GroupKey(records[n]).value := records[n]],
                         at[GroupKey(records[n]).value := n])
  {
    var k := GroupKey(records[n]).value;
    NewerIndexWins(records, n, at[k]);
    forall k' | k' in at && k' != k
      ensures WinsWithin(records, n + 1, at[k'])
    {
      OtherKeyUnaffected(records, n, at[k']);
    }
  }

  /** The kept version of a key has an update date no older than any version of that key. */
  lemma KeptIsLatest(records: seq<Record>, j: int, i: int)
    requires Kept(records, j)
    requires 0 <= i < |records| && GroupKey(records[i]) == GroupKey(records[j])
    ensures LessEq(UpdatedDate(records[i]), UpdatedDate(records[j]))
  {
    if i < j {
      LessAsymmetric(UpdatedDate(records[i]), UpdatedDate(records[j]));
    } else if i == j {
      LessIrreflexive(UpdatedDate(records[i]));
    }
  }

  /**
   * Keys in the deduplicated list are present and unique, every output
   * record is an input record, and the output is no longer than the input.
   */
  lemma DeduplicatedKeysUnique(records: seq<Record>, deduped: seq<Record>)
    requires IsDeduplication(records, deduped)
    ensures forall p, q :: 0 <= p < q < |deduped| ==> deduped[p].uniqueKey != deduped[q].uniqueKey
    ensures forall p :: 0 <= p < |deduped| ==> Truthy(deduped[p].uniqueKey) && deduped[p] in records
    ensures |deduped| <= |records|
  {
    var keys := FirstKeys(records);
    FirstKeysDistinct(records);
    KeysBeforeLength(records, |records|);
    forall p, q | 0 <= p < q < |deduped|
      ensures deduped[p].uniqueKey != deduped[q].uniqueKey
    {
      assert GroupKey(deduped[p]) == Some(keys[p]);
      assert GroupKey(deduped[q]) == Some(keys[q]);
    }
    forall p | 0 <= p < |deduped|
      ensures Truthy(deduped[p].uniqueKey) && deduped[p] in records
    {
      assert GroupKey(deduped[p]) == Some(keys[p]);
      var j :| Kept(records, j) && deduped[p] == records[j];
    }
  }

  /** Every input record with a key is represented in the output by a record of that key. */
  lemma DeduplicationCoversKeys(records: seq<Record>, deduped: seq<Record>)
    requires IsDeduplication(records, deduped)
    ensures forall i :: 0 <= i < |records| && Truthy(records[i].uniqueKey) ==>
              exists p :: 0 <= p < |deduped| && deduped[p].uniqueKey == records[i].uniqueKey
  {
    var keys := FirstKeys(records);
    forall i | 0 <= i < |records| && Truthy(records[i].uniqueKey)
      ensures exists p :: 0 <= p < |deduped| && deduped[p].uniqueKey == records[i].uniqueKey
    {
      var k := records[i].uniqueKey.value;
      FirstKeysMembership(records, k);
      var p :| 0 <= p < |keys| && keys[p] == k;
      assert GroupKey(deduped[p]) == Some(k);
    }
  }

  /** Each output record is the latest version of its key among the inputs. */
  lemma DeduplicationKeepsLatest(records: seq<Record>, deduped: seq<Record>)
    requires IsDeduplication(records, deduped)
    ensures forall p, i ::
              (0 <= p < |deduped| && 0 <= i < |records| &&
               records[i].uniqueKey == deduped[p].uniqueKey) ==>
              LessEq(UpdatedDate(records[i]), UpdatedDate(deduped[p]))
  {
    forall p, i | 0 <= p < |deduped| && 0 <= i < |records| &&
        records[i].uniqueKey == deduped[p].uniqueKey
      ensures LessEq(UpdatedDate(records[i]), UpdatedDate(deduped[p]))
    {
      var j :| Kept(records, j) && deduped[p] == records[j];
      KeptIsLatest(records, j, i);
    }
  }

  /**
   * The description above leaves no freedom: two deduplications of the same
   * records are equal, including which of several equally recent versions
   * is kept (the first one seen).
   */
  lemma DeduplicationIsUnique(records: seq<Record>, a: seq<Record>, b: seq<Record>)
    requires IsDeduplication(records, a) && IsDeduplication(records, b)
    ensures a == b
  {
    forall p | 0 <= p < |a|
      ensures a[p] == b[p]
    {
      var ja :| Kept(records, ja) && a[p] == records[ja];
      var jb :| Kept(records, jb) && b[p] == records[jb];
      assert ja == jb;
    }
  }

  /** On a tie in update date the record seen first is kept. */
  lemma TieKeepsFirstSeen(first: Record, second: Record, deduped: seq<Record>)
    requires GroupKey(first).Some? && GroupKey(first) == GroupKey(second)
    requires UpdatedDate(first) == UpdatedDate(second)
    requires IsDeduplication([first, second], deduped)
    ensures deduped == [first]
  {
    var records := [first, second];
    assert KeysBefore(records, 1) == [GroupKey(first).value];
    assert FirstKeys(records) == [GroupKey(first).value];
    LessIrreflexive(UpdatedDate(first));
    var j :| Kept(records, j) && deduped[0] == records[j];
    assert j == 0;
  }
}
