/**
 * The `data_map` of `FileFillerService.fill_document`
 * (backend/app/services/file_filler_service.py): a Python `dict[str, str]`, kept as
 * its entries in insertion order. Assigning to a key already present replaces its
 * value where it stands; a new key goes at the end.
 */
module DataMaps {
  import opened Wrappers
  import opened Schemas

  type DataMap = seq<(string, string)>

  /** No key appears twice, as in a dictionary. */
  predicate UniqueKeys(m: DataMap)
  {
    forall i, j :: 0 <= i < j < |m| ==> m[i].0 != m[j].0
  }

  /** The position of the entry for `k`, if there is one. */
  function Find(m: DataMap, k: string): (r: Option<nat>)
    ensures r.Some? ==> r.value < |m| && m[r.value].0 == k
    ensures r.None? ==> forall i :: 0 <= i < |m| ==> m[i].0 != k
  {
    if |m| == 0 then None
    else if m[|m| - 1].0 == k then Some(|m| - 1)
    else Find(m[..|m| - 1], k)
  }

  /** `k in m`. */
  predicate HasKey(m: DataMap, k: string)
  {
    Find(m, k).Some?
  }

  /** `m[k]`, or None when `k not in m`. */
  function Get(m: DataMap, k: string): Option<string>
  {
    match Find(m, k)
    case Some(i) => Some(m[i].1)
    case None => None
  }

  /** `m[k] = v`. */
  function Put(m: DataMap, k: string, v: string): DataMap
  {
    match Find(m, k)
    case Some(i) => m[i := (k, v)]
    case None => m + [(k, v)]
  }

  /** In a map without repeated keys, the entry found for `k` is the only one. */
  lemma FindUnique(m: DataMap, k: string, i: nat)
    requires UniqueKeys(m) && i < |m| && m[i].0 == k
    ensures Find(m, k) == Some(i)
  {
  }

  /**
   * `m[k] = v` leaves a dictionary without repeated keys, maps `k` to `v`, leaves every
   * other key's value alone, and keeps the order: the keys stay where they were and a
   * new key comes last.
   */
  lemma PutCorrect(m: DataMap, k: string, v: string)
    requires UniqueKeys(m)
    ensures UniqueKeys(Put(m, k, v))
    ensures Get(Put(m, k, v), k) == Some(v)
    ensures forall k' :: k' != k ==> Get(Put(m, k, v), k') == Get(m, k')
    ensures |Put(m, k, v)| == if HasKey(m, k) then |m| else |m| + 1
    ensures forall i :: 0 <= i < |m| ==> Put(m, k, v)[i].0 == m[i].0
    ensures !HasKey(m, k) ==> Put(m, k, v)[|m|] == (k, v)
  {
    var r := Put(m, k, v);
    match Find(m, k)
    case Some(i) =>
      FindUnique(r, k, i);
      forall k' | k' != k ensures Get(r, k') == Get(m, k') {
        match Find(m, k')
        case Some(j) =>
          FindUnique(r, k', j);
        case None =>
      }
    case None =>
      FindUnique(r, k, |m|);
      forall k' | k' != k ensures Get(r, k') == Get(m, k') {
        match Find(m, k')
        case Some(j) =>
          FindUnique(r, k', j);
        case None =>
          assert forall i :: 0 <= i < |r| ==> r[i].0 != k';
      }
  }

  /**
   * `{item.key: str(item.value) for item in results if item.value is not None}`,
   * one result at a time from the left.
   */
  function BuildDataMap(results: seq<FieldResult>): DataMap
  {
    if |results| == 0 then []
    else
      var m := BuildDataMap(results[..|results| - 1]);
      var last := results[|results| - 1];
      if last.value.Null? then m else Put(m, last.key, Str(last.value))
  }

  /** Some result at or after position `from` has key `k` and a value. */
  predicate SetLater(results: seq<FieldResult>, k: string, from: int)
  {
    exists j :: from <= j < |results| && 0 <= j && results[j].key == k && !results[j].value.Null?
  }

  /**
   * The data map has no repeated key, and it holds exactly the keys of the results
   * whose value is not None.
   */
  lemma {:induction false} BuildDataMapKeys(results: seq<FieldResult>)
    ensures UniqueKeys(BuildDataMap(results))
    ensures forall k :: HasKey(BuildDataMap(results), k) <==> SetLater(results, k, 0)
  {
    if |results| > 0 {
      var init := results[..|results| - 1];
      var last := results[|results| - 1];
      BuildDataMapKeys(init);
      var m := BuildDataMap(init);
      if !last.value.Null? {
        PutCorrect(m, last.key, Str(last.value));
      }
      forall k ensures HasKey(BuildDataMap(results), k) <==> SetLater(results, k, 0) {
        if SetLater(init, k, 0) {
          var j :| 0 <= j < |init| && init[j].key == k && !init[j].value.Null?;
          assert results[j] == init[j];
        }
        if SetLater(results, k, 0) && (k != last.key || last.value.Null?) {
          var j :| 0 <= j < |results| && results[j].key == k && !results[j].value.Null?;
          assert j < |init| && init[j] == results[j];
        }
        if !last.value.Null? {
          assert Get(BuildDataMap(results), last.key).Some?;
          if k != last.key {
            assert Get(BuildDataMap(results), k) == Get(m, k);
          }
        }
      }
    }
  }

  /**
   * A later result overwrites an earlier one: the key of the result at position `i`
   * maps to `str` of its value unless a result after it with the same key has a value.
   */
  lemma {:induction false} BuildDataMapLastWins(results: seq<FieldResult>, i: nat)
    requires i < |results| && !results[i].value.Null?
    requires !SetLater(results, results[i].key, i + 1)
    ensures Get(BuildDataMap(results), results[i].key) == Some(Str(results[i].value))
  {
    var init := results[..|results| - 1];
    var last := results[|results| - 1];
    var k := results[i].key;
    BuildDataMapKeys(init);
    var m := BuildDataMap(init);
    if i == |results| - 1 {
      PutCorrect(m, k, Str(last.value));
    } else {
      assert init[i] == results[i];
      BuildDataMapLastWins(init, i);
      if !last.value.Null? {
        PutCorrect(m, last.key, Str(last.value));
      }
    }
  }
}
