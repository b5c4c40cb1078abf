/**
 * The snapshot of known videos: a dictionary from post id to record that,
 * like a Python `dict`, remembers the order in which its keys were first
 * inserted. Overwriting a key keeps its position; a new key goes last.
 * The merge writes every scraped record over the entry for its id.
 */
module Snapshot {
  import opened Extract

  /** `keys` lists the keys in insertion order; `entries` holds the values. */
  datatype Dict = Dict(keys: seq<string>, entries: map<string, Record>)

  /** Keys are listed once each, and exactly the keys of `entries` are listed. */
  ghost predicate Valid(d: Dict) {
    && (forall i, j :: 0 <= i < j < |d.keys| ==> d.keys[i] != d.keys[j])
    && (forall k :: k in d.entries <==> k in d.keys)
  }

  const Empty: Dict := Dict([], map[])

  /** `d[k] = v`: the value for `k` becomes `v`, a new key takes the last position. */
  function Put(d: Dict, k: string, v: Record): (r: Dict)
    ensures r.entries == d.entries[k := v]
    ensures k in d.entries ==> r.keys == d.keys
    ensures k !in d.entries ==> r.keys == d.keys + [k]
    ensures Valid(d) ==> Valid(r)
  {
    if k in d.entries then Dict(d.keys, d.entries[k := v])
    else Dict(d.keys + [k], d.entries[k := v])
  }

  /** The ids of a sequence of records. */
  function Ids(items: seq<Record>): (ids: set<string>)
    ensures forall i :: 0 <= i < |items| ==> items[i].id in ids
    ensures forall k :: k in ids ==> exists i :: 0 <= i < |items| && items[i].id == k
  {
    if items == [] then {} else Ids(items[..|items| - 1]) + {items[|items| - 1].id}
  }

  /** Every record of `items` written over `d`, first to last. */
  function MergeAll(d: Dict, items: seq<Record>): (r: Dict)
    ensures Valid(d) ==> Valid(r)
    ensures r.entries.Keys == d.entries.Keys + Ids(items)
  {
    if items == [] then d
    else
      var last := items[|items| - 1];
      Put(MergeAll(d, items[..|items| - 1]), last.id, last)
  }

  /** The dictionary's values in key order: `list(d.values())`. */
  function Values(d: Dict): (vs: seq<Record>)
    requires Valid(d)
    ensures |vs| == |d.keys|
    ensures forall i :: 0 <= i < |d.keys| ==> vs[i] == d.entries[d.keys[i]]
  {
    seq(|d.keys|, i requires 0 <= i < |d.keys| => d.entries[d.keys[i]])
  }

  /**
   * The merge loop: `for item in items: d[item['id']] = item`. Also builds
   * the initial snapshot from the saved list, starting from `Empty`.
   */
  method Merge(d0: Dict, items: seq<Record>) returns (d: Dict)
    ensures d == MergeAll(d0, items)
  {
    d := d0;
    var i := 0;
    while i < |items|
      invariant 0 <= i <= |items|
      invariant d == MergeAll(d0, items[..i])
    {
      MergeAllSnoc(d0, items, i);
      d := Put(d, items[i].id, items[i]);
      i := i + 1;
    }
    assert items[..i] == items;
  }

  /** One more loop step writes the next record over the merge so far. */
  lemma MergeAllSnoc(d0: Dict, items: seq<Record>, i: int)
    requires 0 <= i < |items|
    ensures MergeAll(d0, items[..i + 1]) == Put(MergeAll(d0, items[..i]), items[i].id, items[i])
  {
    assert items[..i + 1][..i] == items[..i];
  }

  // ---------------------------------------------------------------------------
  // What the merge does to each key

  /** The last record of `items` carrying id `k`. */
  function LastWith(items: seq<Record>, k: string): (r: Record)
    requires k in Ids(items)
    ensures r.id == k
    ensures exists i :: 0 <= i < |items| && items[i] == r && forall j :: i < j < |items| ==> items[j].id != k
  {
    var last := items[|items| - 1];
    if last.id == k then last
    else
      assert k in Ids(items[..|items| - 1]);
      var r := LastWith(items[..|items| - 1], k);
      assert forall j :: 0 <= j < |items| - 1 ==> items[..|items| - 1][j] == items[j];
      r
  }

  /** A scraped id maps to the last scraped record carrying it. */
  lemma {:induction false} MergeLastWins(d: Dict, items: seq<Record>, k: string)
    requires k in Ids(items)
    ensures MergeAll(d, items).entries[k] == LastWith(items, k)
  {
    var init := items[..|items| - 1];
    if items[|items| - 1].id != k {
      assert k in Ids(init);
      MergeLastWins(d, init, k);
    }
  }

  /** A key no scraped record carries keeps its prior record. */
  lemma {:induction false} MergeUntouched(d: Dict, items: seq<Record>, k: string)
    requires k in d.entries && k !in Ids(items)
    ensures MergeAll(d, items).entries[k] == d.entries[k]
  {
    if items != [] {
      var init := items[..|items| - 1];
      assert k !in Ids(init);
      MergeUntouched(d, init, k);
    }
  }

  /** Merging records whose ids are all present already keeps the key order. */
  lemma {:induction false} MergePresentKeys(d: Dict, items: seq<Record>)
    requires Ids(items) <= d.entries.Keys
    ensures MergeAll(d, items).keys == d.keys
  {
    if items != [] {
      var init := items[..|items| - 1];
      assert Ids(init) <= Ids(items);
      MergePresentKeys(d, init);
    }
  }

  /** Merging the same records a second time changes nothing. */
  lemma MergeIdempotent(d: Dict, items: seq<Record>)
    ensures MergeAll(MergeAll(d, items), items) == MergeAll(d, items)
  {
    var once := MergeAll(d, items);
    var twice := MergeAll(once, items);
    MergePresentKeys(once, items);
    forall k | k in twice.entries
      ensures twice.entries[k] == once.entries[k]
    {
      if k in Ids(items) {
        MergeLastWins(once, items, k);
        MergeLastWins(d, items, k);
      } else {
        MergeUntouched(once, items, k);
      }
    }
  }

  /** Each entry's record carries its key as id, in the saved list's snapshot and after every merge. */
  lemma MergeKeepsIds(d: Dict, items: seq<Record>)
    requires forall k :: k in d.entries ==> d.entries[k].id == k
    ensures var r := MergeAll(d, items); forall k :: k in r.entries ==> r.entries[k].id == k
  {
    var r := MergeAll(d, items);
    forall k | k in r.entries
      ensures r.entries[k].id == k
    {
      if k in Ids(items) {
        MergeLastWins(d, items, k);
      } else {
        MergeUntouched(d, items, k);
      }
    }
  }
}
