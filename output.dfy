/**
 * The order in which records are saved: `sorted(data, key=lambda x:
 * (x['page'], -int(x['id'])))`, page ascending, then numeric id
 * descending, stable for equal keys. A non-numeric id makes `int()` raise
 * and nothing is saved.
 */
module Output {
  import opened Wrappers
  import opened PyNum
  import opened Extract

  /** A record with its sort key `(page, -int(id))`. */
  datatype Entry = Entry(page: int, negId: int, record: Record)

  /** Lexicographic order of sort keys. */
  predicate KeyLe(a: Entry, b: Entry) {
    a.page < b.page || (a.page == b.page && a.negId <= b.negId)
  }

  /** The entry's key is the one computed from its record. */
  predicate WellKeyed(e: Entry) {
    ParseInt(e.record.id).Some? && e.page == e.record.page && e.negId == -ParseInt(e.record.id).value
  }

  predicate SortedByKey(s: seq<Entry>) {
    forall i, j :: 0 <= i < j < |s| ==> KeyLe(s[i], s[j])
  }

  /** The sort key of every record, or `None` when some id is not an integer. */
  function Keyed(data: seq<Record>): (r: Option<seq<Entry>>)
    ensures r.None? <==> exists i :: 0 <= i < |data| && ParseInt(data[i].id).None?
    ensures r.Some? ==> Records(r.value) == data
    ensures r.Some? ==> forall e :: e in r.value ==> WellKeyed(e)
  {
    if forall i :: 0 <= i < |data| ==> ParseInt(data[i].id).Some? then
      var es := seq(|data|, i requires 0 <= i < |data| => Entry(data[i].page, -ParseInt(data[i].id).value, data[i]));
      assert Records(es) == data;
      Some(es)
    else None
  }

  /** Places `e` before the first entry whose key is not below its own. */
  function Insert(e: Entry, s: seq<Entry>): (r: seq<Entry>)
    ensures multiset(r) == multiset{e} + multiset(s)
    ensures SortedByKey(s) ==> SortedByKey(r)
  {
    if s == [] || KeyLe(e, s[0]) then
      assert SortedByKey(s) ==> SortedByKey([e] + s) by {
        if SortedByKey(s) && s != [] {
          assert forall j :: 0 <= j < |s| ==> KeyLe(e, s[j]) by {
            assert forall j :: 0 <= j < |s| ==> KeyLe(s[0], s[j]);
          }
          SortedCons(e, s);
        }
      }
      [e] + s
    else
      var t := Insert(e, s[1..]);
      assert s == [s[0]] + s[1..];
      assert SortedByKey(s) ==> SortedByKey([s[0]] + t) by {
        if SortedByKey(s) {
          forall j | 0 <= j < |t|
            ensures KeyLe(s[0], t[j])
          {
            assert t[j] in multiset(t);
            if t[j] != e {
              assert t[j] in multiset(s[1..]);
              var k :| 0 <= k < |s[1..]| && s[1..][k] == t[j];
              assert s[k + 1] == t[j];
            }
          }
          SortedCons(s[0], t);
        }
      }
      [s[0]] + t
  }

  lemma SortedCons(x: Entry, t: seq<Entry>)
    requires SortedByKey(t) && forall j :: 0 <= j < |t| ==> KeyLe(x, t[j])
    ensures SortedByKey([x] + t)
  {
    forall i, j | 0 <= i < j < |t| + 1
      ensures KeyLe(([x] + t)[i], ([x] + t)[j])
    {
      if i > 0 {
        assert ([x] + t)[i] == t[i - 1];
      }
      assert ([x] + t)[j] == t[j - 1];
    }
  }

  /** Stable insertion sort by key. */
  function SortEntries(s: seq<Entry>): (r: seq<Entry>)
    ensures multiset(r) == multiset(s)
    ensures SortedByKey(r)
  {
    if s == [] then []
    else
      assert s == [s[0]] + s[1..];
      Insert(s[0], SortEntries(s[1..]))
  }

  function Records(s: seq<Entry>): (rs: seq<Record>)
    ensures |rs| == |s| && forall i :: 0 <= i < |s| ==> rs[i] == s[i].record
  {
    if s == [] then [] else [s[0].record] + Records(s[1..])
  }

  /** What `save_data` writes, or `None` when computing the sort key raises. */
  function SaveOrder(data: seq<Record>): (r: Option<seq<Record>>)
    ensures r.None? <==> exists i :: 0 <= i < |data| && ParseInt(data[i].id).None?
  {
    match Keyed(data)
    case None => None
    case Some(es) => Some(Records(SortEntries(es)))
  }

  /** The records on page `p` whose id is the integer `n`, in order. */
  function Having(rs: seq<Record>, p: int, n: int): (hs: seq<Record>)
    ensures |hs| <= |rs|
    ensures forall r :: r in hs ==> r in rs && r.page == p && ParseInt(r.id) == Some(n)
  {
    if rs == [] then []
    else (if rs[0].page == p && ParseInt(rs[0].id) == Some(n) then [rs[0]] else []) + Having(rs[1..], p, n)
  }

  lemma {:induction false} InsertRecords(e: Entry, s: seq<Entry>)
    ensures multiset(Records(Insert(e, s))) == multiset{e.record} + multiset(Records(s))
  {
    if s != [] && !KeyLe(e, s[0]) {
      InsertRecords(e, s[1..]);
      assert Records(s) == [s[0].record] + Records(s[1..]);
    }
  }

  lemma {:induction false} SortRecords(s: seq<Entry>)
    ensures multiset(Records(SortEntries(s))) == multiset(Records(s))
  {
    if s != [] {
      SortRecords(s[1..]);
      InsertRecords(s[0], SortEntries(s[1..]));
    }
  }

  lemma HavingCons(r: Record, rs: seq<Record>, p: int, n: int)
    ensures Having([r] + rs, p, n) == Having([r], p, n) + Having(rs, p, n)
  {
    assert ([r] + rs)[1..] == rs;
    assert [r][1..] == [];
  }

  /** Two records with the same key have entries with the same key, and are never out of order. */
  lemma HavingOrdered(e: Entry, x: Entry, p: int, n: int)
    requires WellKeyed(e) && WellKeyed(x) && !KeyLe(e, x)
    ensures Having([e.record], p, n) == [] || Having([x.record], p, n) == []
  {
    assert [e.record][1..] == [] && [x.record][1..] == [];
  }

  lemma SwapEmpty(a: seq<Record>, b: seq<Record>, c: seq<Record>)
    requires a == [] || b == []
    ensures b + (a + c) == a + (b + c)
  {
    if a == [] {
      assert a + c == c && a + (b + c) == b + c;
    } else {
      assert b + (a + c) == a + c && b + c == c;
    }
  }

  /** Inserting never moves an entry past another with the same key. */
  lemma {:induction false} HavingInsert(e: Entry, s: seq<Entry>, p: int, n: int)
    requires WellKeyed(e) && forall x :: x in s ==> WellKeyed(x)
    ensures Having(Records(Insert(e, s)), p, n) == Having([e.record], p, n) + Having(Records(s), p, n)
  {
    if s == [] || KeyLe(e, s[0]) {
      assert Records([e] + s) == [e.record] + Records(s);
      HavingCons(e.record, Records(s), p, n);
    } else {
      var t := Insert(e, s[1..]);
      assert Insert(e, s) == [s[0]] + t;
      assert s[0] in s;
      assert forall x :: x in s[1..] ==> x in s;
      var a, b, c := Having([e.record], p, n), Having([s[0].record], p, n), Having(Records(s[1..]), p, n);
      HavingInsert(e, s[1..], p, n);
      assert Records([s[0]] + t) == [s[0].record] + Records(t);
      HavingCons(s[0].record, Records(t), p, n);
      assert Having(Records(Insert(e, s)), p, n) == b + (a + c);
      assert Records(s) == [s[0].record] + Records(s[1..]);
      HavingCons(s[0].record, Records(s[1..]), p, n);
      assert Having(Records(s), p, n) == b + c;
      HavingOrdered(e, s[0], p, n);
      SwapEmpty(a, b, c);
    }
  }

  lemma {:induction false} SortHaving(s: seq<Entry>, p: int, n: int)
    requires forall x :: x in s ==> WellKeyed(x)
    ensures Having(Records(SortEntries(s)), p, n) == Having(Records(s), p, n)
  {
    if s != [] {
      var t := SortEntries(s[1..]);
      assert forall x :: x in s[1..] ==> x in s;
      SortHaving(s[1..], p, n);
      assert forall x :: x in t ==> x in multiset(s[1..]);
      HavingInsert(s[0], t, p, n);
      assert Records(s) == [s[0].record] + Records(s[1..]);
      HavingCons(s[0].record, Records(s[1..]), p, n);
    }
  }

  /** Page ascending, then integer id descending. */
  predicate SavedInOrder(rs: seq<Record>) {
    && (forall i :: 0 <= i < |rs| ==> ParseInt(rs[i].id).Some?)
    && (forall i, j :: 0 <= i < j < |rs| ==>
          rs[i].page < rs[j].page
          || (rs[i].page == rs[j].page && ParseInt(rs[i].id).value >= ParseInt(rs[j].id).value))
  }

  lemma SortedRecords(es: seq<Entry>)
    requires SortedByKey(es) && forall i :: 0 <= i < |es| ==> WellKeyed(es[i])
    ensures SavedInOrder(Records(es))
  {
  }

  /** The saved records are exactly the given ones, each as often. */
  lemma SaveOrderPermutation(data: seq<Record>)
    requires SaveOrder(data).Some?
    ensures multiset(SaveOrder(data).value) == multiset(data)
  {
    SortRecords(Keyed(data).value);
  }

  /** Saved by page ascending, then by integer id descending. */
  lemma SaveOrderSorted(data: seq<Record>)
    requires SaveOrder(data).Some?
    ensures SavedInOrder(SaveOrder(data).value)
  {
    var es := Keyed(data).value;
    var sorted := SortEntries(es);
    assert forall i :: 0 <= i < |sorted| ==> sorted[i] in multiset(es);
    SortedRecords(sorted);
  }

  /** The sort is stable: records with the same key keep their relative order. */
  lemma SaveOrderStable(data: seq<Record>, p: int, n: int)
    requires SaveOrder(data).Some?
    ensures Having(SaveOrder(data).value, p, n) == Having(data, p, n)
  {
    SortHaving(Keyed(data).value, p, n);
  }
}
