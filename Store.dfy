/**
 * The collection's operations as functions of the map from key to record,
 * with the properties the interpreter relies on.
 */
module Store {
  import opened Wrappers
  import opened Entities

  /** A non-empty set of keys has an element. */
  lemma NonEmptyKeys(s: set<int>)
    requires s != {}
    ensures exists k :: k in s
  {
    if forall k :: k !in s {
      assert false;
    }
  }

  /** `update(id, m)`: `m` takes the id `id` and replaces every record whose id is `id`. */
  function UpdatedById(ms: map<int, Marine>, id: int, m: Marine): map<int, Marine>
  {
    map k | k in ms :: if ms[k].id == id then m.(id := id) else ms[k]
  }

  /** `removeLower(t)` with `t.health == h`: drops every record strictly less healthy than `h`. */
  function RemovedLower(ms: map<int, Marine>, h: real): map<int, Marine>
  {
    map k | k in ms && !(ms[k].health < h) :: ms[k]
  }

  /** `removeLowerKey(key)`: drops every entry whose key is strictly less than `key`. */
  function RemovedLowerKey(ms: map<int, Marine>, key: int): map<int, Marine>
  {
    map k | k in ms && !(k < key) :: ms[k]
  }

  /** `replaceIfLower(key, m)`: the record at `key` is replaced only by a strictly less healthy one. */
  function ReplacedIfLower(ms: map<int, Marine>, key: int, m: Marine): map<int, Marine>
    requires key in ms
  {
    if m.health < ms[key].health then ms[key := m] else ms
  }

  lemma UpdateEffect(ms: map<int, Marine>, id: int, m: Marine)
    ensures var r := UpdatedById(ms, id, m);
            && r.Keys == ms.Keys
            && (forall k :: k in ms && ms[k].id == id ==> r[k] == m.(id := id))
            && (forall k :: k in ms && ms[k].id != id ==> r[k] == ms[k])
  {
  }

  /** Updating twice with the same id and record is updating once. */
  lemma UpdateIdempotent(ms: map<int, Marine>, id: int, m: Marine)
    ensures UpdatedById(UpdatedById(ms, id, m), id, m) == UpdatedById(ms, id, m)
  {
  }

  /** Inserting at a key that is not present and then removing that key restores the collection. */
  lemma InsertThenRemove(ms: map<int, Marine>, key: int, m: Marine)
    requires key !in ms
    ensures ms[key := m] - {key} == ms
  {
  }

  /** Exactly the entries at least as healthy as the threshold remain, unchanged. */
  lemma RemoveLowerEffect(ms: map<int, Marine>, h: real)
    ensures var r := RemovedLower(ms, h);
            && (forall k :: k in r <==> k in ms && ms[k].health >= h)
            && (forall k :: k in r ==> r[k] == ms[k])
  {
  }

  lemma RemoveLowerIdempotent(ms: map<int, Marine>, h: real)
    ensures RemovedLower(RemovedLower(ms, h), h) == RemovedLower(ms, h)
  {
  }

  /** Exactly the keys not below `key` remain, with their records. */
  lemma RemoveLowerKeyEffect(ms: map<int, Marine>, key: int)
    ensures var r := RemovedLowerKey(ms, key);
            && r.Keys == (set k | k in ms && k >= key)
            && (forall k :: k in r ==> r[k] == ms[k])
  {
  }

  /** `remove_lower_key 5` on keys {1, 3, 5, 7} leaves {5, 7}. */
  lemma RemoveLowerKeyScenario(ms: map<int, Marine>)
    requires ms.Keys == {1, 3, 5, 7}
    ensures RemovedLowerKey(ms, 5).Keys == {5, 7}
  {
    var r := RemovedLowerKey(ms, 5);
    assert 5 in r && 7 in r;
    assert forall k :: k in r ==> k == 5 || k == 7;
  }

  /** The health at `key` never increases, and no other entry changes. */
  lemma ReplaceIfLowerEffect(ms: map<int, Marine>, key: int, m: Marine)
    requires key in ms
    ensures var r := ReplacedIfLower(ms, key, m);
            && r.Keys == ms.Keys
            && r[key].health <= ms[key].health
            && (r[key] == m || r[key] == ms[key])
            && (m.health < ms[key].health ==> r[key] == m)
            && (r[key] != ms[key] ==> m.health < ms[key].health)
            && (forall k :: k in ms && k != key ==> r[k] == ms[k])
  {
  }

  /**
   * What `removeLower` and `removeLowerKey` do as written: they remove from
   * the map while a stream walks its key set. The walk runs to its end, so
   * every removal takes effect, and then the key set reports that the map was
   * structurally changed under it by throwing, unless nothing was removed.
   */
  datatype StreamRemoval =
    | Finished(rest: map<int, Marine>)
    | ConcurrentModification(rest: map<int, Marine>)

  function RemoveLowerAsWritten(ms: map<int, Marine>, h: real): (r: StreamRemoval)
    ensures r.rest == RemovedLower(ms, h)
  {
    var rest := RemovedLower(ms, h);
    if rest == ms then Finished(rest) else ConcurrentModification(rest)
  }

  function RemoveLowerKeyAsWritten(ms: map<int, Marine>, key: int): (r: StreamRemoval)
    ensures r.rest == RemovedLowerKey(ms, key)
  {
    var rest := RemovedLowerKey(ms, key);
    if rest == ms then Finished(rest) else ConcurrentModification(rest)
  }

  /** As written, `remove_lower` throws as soon as one record is less healthy than the threshold. */
  lemma RemoveLowerAsWrittenThrows(ms: map<int, Marine>, key: int, h: real)
    requires key in ms && ms[key].health < h
    ensures RemoveLowerAsWritten(ms, h).ConcurrentModification?
  {
    assert key !in RemovedLower(ms, h);
  }

  /** As written, `remove_lower` completes normally when no record is less healthy than the threshold. */
  lemma RemoveLowerAsWrittenCompletes(ms: map<int, Marine>, h: real)
    requires forall k :: k in ms ==> !(ms[k].health < h)
    ensures RemoveLowerAsWritten(ms, h).Finished?
  {
    var rest := RemovedLower(ms, h);
    assert forall k :: k in ms ==> k in rest;
    assert rest.Keys == ms.Keys;
  }

  /** As written, `remove_lower_key` completes normally when no key is below the threshold. */
  lemma RemoveLowerKeyAsWrittenCompletes(ms: map<int, Marine>, key: int)
    requires forall k :: k in ms ==> !(k < key)
    ensures RemoveLowerKeyAsWritten(ms, key).Finished?
  {
    assert RemovedLowerKey(ms, key).Keys == ms.Keys;
  }

  /** As written, `remove_lower_key` throws as soon as one key is below the threshold. */
  lemma RemoveLowerKeyAsWrittenThrows(ms: map<int, Marine>, key: int, k: int)
    requires k in ms && k < key
    ensures RemoveLowerKeyAsWritten(ms, key).ConcurrentModification?
  {
    assert k !in RemovedLowerKey(ms, key);
  }

  /** The distinct creation dates of the collection. */
  function Dates(ms: map<int, Marine>): set<Date>
  {
    set k | k in ms :: ms[k].creationDate
  }

  /** The keys whose record was created at `d`. */
  function KeysOn(ms: map<int, Marine>, d: Date): set<int>
  {
    set k | k in ms && ms[k].creationDate == d
  }

  /** `groupCountingByCreationDate`: for each creation date present, how many records carry it. */
  function GroupCountingByCreationDate(ms: map<int, Marine>): (r: map<Date, nat>)
    ensures r.Keys == Dates(ms)
    ensures forall d :: d in r ==> r[d] > 0
  {
    forall d | d in Dates(ms)
      ensures |KeysOn(ms, d)| > 0
    {
      var k :| k in ms && ms[k].creationDate == d;
      assert k in KeysOn(ms, d);
    }
    map d | d in Dates(ms) :: |KeysOn(ms, d)|
  }

  /** The sum of the counts of a grouping. */
  ghost function SumCounts(g: map<Date, nat>): nat
    decreases |g|
  {
    if g == map[] then 0
    else
      var d :| d in g;
      g[d] + SumCounts(g - {d})
  }

  lemma {:induction false} SumCountsRemove(g: map<Date, nat>, d: Date)
    requires d in g
    ensures SumCounts(g) == g[d] + SumCounts(g - {d})
    decreases |g|
  {
    var e :| e in g && SumCounts(g) == g[e] + SumCounts(g - {e});
    if e != d {
      SumCountsRemove(g - {e}, d);
      SumCountsRemove(g - {d}, e);
      assert g - {e} - {d} == g - {d} - {e};
    }
  }

  /** Removing the entry at `k` takes exactly `k` out of the keys created on its date. */
  lemma KeysOnRemove(ms: map<int, Marine>, k: int, e: Date)
    requires k in ms
    ensures ms[k].creationDate == e ==> KeysOn(ms, e) == KeysOn(ms - {k}, e) + {k} && k !in KeysOn(ms - {k}, e)
    ensures ms[k].creationDate != e ==> KeysOn(ms, e) == KeysOn(ms - {k}, e)
  {
  }

  /** Removing one entry lowers the count of its date by one and leaves every other count alone. */
  lemma GroupRemove(ms: map<int, Marine>, k: int)
    requires k in ms
    ensures var d := ms[k].creationDate;
            var g := GroupCountingByCreationDate(ms);
            var g' := GroupCountingByCreationDate(ms - {k});
            && d in g
            && g - {d} == g' - {d}
            && g[d] == (if d in g' then g'[d] else 0) + 1
  {
    var rest := ms - {k};
    var d := ms[k].creationDate;
    var g := GroupCountingByCreationDate(ms);
    var g' := GroupCountingByCreationDate(rest);
    forall e | e != d
      ensures KeysOn(ms, e) == KeysOn(rest, e)
      ensures e in Dates(ms) <==> e in Dates(rest)
    {
      KeysOnRemove(ms, k, e);
      if e in Dates(ms) {
        var j :| j in ms && ms[j].creationDate == e;
        assert j in rest;
      }
    }
    assert (g - {d}).Keys == (g' - {d}).Keys;
    KeysOnRemove(ms, k, d);
    if d !in g' {
      assert KeysOn(rest, d) == {} by {
        forall j | j in rest ensures rest[j].creationDate != d {
          assert rest[j].creationDate in Dates(rest);
        }
      }
    }
  }

  /** The group counts add up to the size of the collection. */
  lemma {:induction false} GroupCountsSumToSize(ms: map<int, Marine>)
    ensures SumCounts(GroupCountingByCreationDate(ms)) == |ms|
    decreases |ms|
  {
    if ms != map[] {
      NonEmptyKeys(ms.Keys);
      var k :| k in ms;
      var rest := ms - {k};
      var d := ms[k].creationDate;
      var g := GroupCountingByCreationDate(ms);
      var g' := GroupCountingByCreationDate(rest);
      assert |rest| == |ms| - 1 by { assert rest.Keys == ms.Keys - {k}; }
      GroupCountsSumToSize(rest);
      GroupRemove(ms, k);
      SumCountsRemove(g, d);
      if d in g' {
        SumCountsRemove(g', d);
      } else {
        assert g' - {d} == g';
      }
    }
  }

  /** Why a query could not complete. */
  datatype QueryError = NullCategory

  /**
   * `filterGreaterThanCategory(c)`: the entries whose category's ordinal is
   * greater than `c`'s. The source reads the ordinal of every record's
   * category, so a record without one makes the query fail.
   */
  function FilterGreaterThanCategory(ms: map<int, Marine>, c: Category): (r: Result<map<int, Marine>, QueryError>)
    ensures r.Failure? <==> exists k :: k in ms && ms[k].category.None?
  {
    if exists k :: k in ms && ms[k].category.None? then Failure(NullCategory)
    else Success(map k | k in ms && Ordinal(ms[k].category.value) > Ordinal(c) :: ms[k])
  }

  /** Exactly the entries of a strictly higher category are selected, unchanged, and never one of category `c` itself. */
  lemma FilterEffect(ms: map<int, Marine>, c: Category)
    requires forall k :: k in ms ==> ms[k].category.Some?
    ensures var r := FilterGreaterThanCategory(ms, c);
            && r.Success?
            && (forall k :: k in r.value <==> k in ms && Ordinal(ms[k].category.value) > Ordinal(c))
            && (forall k :: k in r.value ==> r.value[k] == ms[k] && ms[k].category != Some(c))
  {
  }

  /** Raising the threshold category can only shrink the selection. */
  lemma FilterAntitone(ms: map<int, Marine>, lo: Category, hi: Category)
    requires forall k :: k in ms ==> ms[k].category.Some?
    requires Ordinal(lo) <= Ordinal(hi)
    ensures FilterGreaterThanCategory(ms, hi).value.Keys <= FilterGreaterThanCategory(ms, lo).value.Keys
  {
  }

  /** A collection holding a record without category makes the query fail, whatever else it holds. */
  lemma FilterWithNullCategoryFails(ms: map<int, Marine>, key: int, c: Category)
    requires key in ms && ms[key].category.None?
    ensures FilterGreaterThanCategory(ms, c) == Failure(NullCategory)
  {
  }

  /** `max(id)` over the collection, or 0 when it is empty: the value the id counter is seeded with. */
  predicate IsMaxId(ms: map<int, Marine>, r: int)
  {
    if ms == map[] then r == 0
    else (exists k :: k in ms && ms[k].id == r) && forall k :: k in ms ==> ms[k].id <= r
  }

  method MaxId(ms: map<int, Marine>) returns (r: int)
    ensures IsMaxId(ms, r)
  {
    r := 0;
    var pending := ms.Keys;
    while pending != {}
      invariant pending <= ms.Keys
      invariant pending == ms.Keys ==> r == 0
      invariant pending != ms.Keys ==>
                  (exists k :: k in ms && k !in pending && ms[k].id == r) &&
                  forall k :: k in ms && k !in pending ==> ms[k].id <= r
      decreases pending
    {
      NonEmptyKeys(pending);
      var k :| k in pending;
      if pending == ms.Keys || ms[k].id > r {
        r := ms[k].id;
      }
      pending := pending - {k};
    }
  }

  /** Health never decreases along the sequence. */
  predicate AscendingByHealth(s: seq<(int, Marine)>)
  {
    forall i, j :: 0 <= i < j < |s| ==> s[i].1.health <= s[j].1.health
  }

  /** `s` lists every entry of `ms` exactly once, unchanged, with health non-decreasing. */
  predicate SortedListing(s: seq<(int, Marine)>, ms: map<int, Marine>)
  {
    && AscendingByHealth(s)
    && multiset(KeysOf(s)) == multiset(ms.Keys)
    && forall x :: x in s ==> x.0 in ms && ms[x.0] == x.1
  }

  function KeysOf(s: seq<(int, Marine)>): seq<int>
  {
    if s == [] then [] else [s[0].0] + KeysOf(s[1..])
  }

  /** Places `e` in front of the first entry that is at least as healthy. */
  function InsertByHealth(s: seq<(int, Marine)>, e: (int, Marine)): seq<(int, Marine)>
  {
    if s == [] || e.1.health <= s[0].1.health then [e] + s
    else [s[0]] + InsertByHealth(s[1..], e)
  }

  /** Insertion adds exactly `e`. */
  lemma {:induction false} InsertByHealthMembers(s: seq<(int, Marine)>, e: (int, Marine))
    ensures forall x :: x in InsertByHealth(s, e) <==> x in s || x == e
  {
    if s != [] && e.1.health > s[0].1.health {
      InsertByHealthMembers(s[1..], e);
      assert s == [s[0]] + s[1..];
    }
  }

  /** Insertion adds exactly the key of `e`. */
  lemma {:induction false} InsertByHealthKeys(s: seq<(int, Marine)>, e: (int, Marine))
    ensures multiset(KeysOf(InsertByHealth(s, e))) == multiset(KeysOf(s)) + multiset{e.0}
  {
    var r := InsertByHealth(s, e);
    assert r[1..] == if s == [] || e.1.health <= s[0].1.health then s else InsertByHealth(s[1..], e);
    if s != [] && e.1.health > s[0].1.health {
      InsertByHealthKeys(s[1..], e);
    }
  }

  /** Insertion into a sequence ascending by health keeps it ascending. */
  lemma {:induction false} InsertByHealthAscending(s: seq<(int, Marine)>, e: (int, Marine))
    requires AscendingByHealth(s)
    ensures AscendingByHealth(InsertByHealth(s, e))
  {
    var r := InsertByHealth(s, e);
    if s != [] && e.1.health > s[0].1.health {
      var t := InsertByHealth(s[1..], e);
      InsertByHealthAscending(s[1..], e);
      InsertByHealthMembers(s[1..], e);
      assert r == [s[0]] + t;
      forall x | x in t
        ensures s[0].1.health <= x.1.health
      {
        if x != e {
          var j :| 0 <= j < |s[1..]| && s[1..][j] == x;
          assert s[j + 1] == x;
        }
      }
      forall i, j | 0 <= i < j < |r|
        ensures r[i].1.health <= r[j].1.health
      {
        if i == 0 {
          assert r[j] == t[j - 1];
        } else {
          assert r[i] == t[i - 1] && r[j] == t[j - 1];
        }
      }
    }
  }

  /** Moving one pending key to the done side adds it once to the keys done. */
  lemma TakeKey(all: set<int>, pending: set<int>, k: int)
    requires k in pending && pending <= all
    ensures multiset(all - (pending - {k})) == multiset(all - pending) + multiset{k}
  {
    assert all - (pending - {k}) == (all - pending) + {k};
  }

  /**
   * `printAscending`: every entry exactly once, ordered by health. Entries of
   * equal health come in an order the method does not fix, as the source's
   * hash-map iteration does not.
   */
  method SortByHealth(ms: map<int, Marine>) returns (r: seq<(int, Marine)>)
    ensures AscendingByHealth(r)
    ensures multiset(KeysOf(r)) == multiset(ms.Keys)
    ensures forall x :: x in r ==> x.0 in ms && ms[x.0] == x.1
  {
    r := [];
    var pending := ms.Keys;
    while pending != {}
      invariant pending <= ms.Keys
      invariant AscendingByHealth(r)
      invariant multiset(KeysOf(r)) == multiset(ms.Keys - pending)
      invariant forall x :: x in r ==> x.0 in ms && ms[x.0] == x.1
      decreases pending
    {
      NonEmptyKeys(pending);
      var k :| k in pending;
      InsertByHealthAscending(r, (k, ms[k]));
      InsertByHealthMembers(r, (k, ms[k]));
      InsertByHealthKeys(r, (k, ms[k]));
      r := InsertByHealth(r, (k, ms[k]));
      TakeKey(ms.Keys, pending, k);
      pending := pending - {k};
    }
  }
}
