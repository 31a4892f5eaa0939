/**
 The ordered key-value store: a map from strings to strings, and an iterator that visits the keys of a range in
 ascending order.  A caller's callback is a function on an accumulator; asking to escape ends the iteration.
 */
module KeyValueStore {
  import opened Lexicographic
  import opened Wrappers

  type Store = map<string, string>

  // ---------------------------------------------------------------- keys in ascending order

  ghost predicate Least(key: string, keys: set<string>) {
    key in keys && forall k <- keys :: k == key || Before(key, k)
  }

  lemma {:induction false} HasLeast(keys: set<string>)
    requires keys != {}
    ensures exists k :: Least(k, keys)
    decreases |keys|
  {
    var key :| key in keys;
    var least := key;
    if keys != {key} {
      assert keys - {key} != {} by {
        assert keys == (keys - {key}) + {key};
      }
      HasLeast(keys - {key});
      var rest :| Least(rest, keys - {key});
      BeforeTotal(key, rest);
      if Before(rest, key) {
        least := rest;
      } else {
        forall k <- keys ensures k == key || Before(key, k) {
          if k != key && k != rest {
            BeforeTransitive(key, rest, k);
          }
        }
      }
    }
    assert Least(least, keys);
  }

  lemma LeastUnique(a: string, b: string, keys: set<string>)
    requires Least(a, keys) && Least(b, keys)
    ensures a == b
  {
    if a != b {
      BeforeAsymmetric(a, b);
    }
  }

  lemma LeastAlone(key: string)
    ensures Least(key, {key})
  {}

  lemma LeastWith(k: string, least: string, keys: set<string>)
    requires Least(least, keys)
    ensures Least(if Before(k, least) then k else least, keys + {k})
  {
    hide Before;
    BeforeTotal(k, least);
    if Before(k, least) {
      forall x <- keys ensures Before(k, x) {
        if x != least {
          BeforeTransitive(k, least, x);
        }
      }
    }
  }

  /** The keys in ascending order: see `AscendingIsSorted`. */
  ghost function Ascending(keys: set<string>): (s: seq<string>)
    ensures |s| == |keys|
    ensures forall k :: k in s <==> k in keys
  {
    if keys == {} then
      []
    else
      HasLeast(keys);
      var least :| Least(least, keys);
      [least] + Ascending(keys - {least})
  }

  lemma FirstOfAscending(key: string, keys: set<string>)
    requires Least(key, keys)
    ensures Ascending(keys) == [key] + Ascending(keys - {key})
  {
    HasLeast(keys);
    var least := Ascending(keys)[0];
    assert Least(least, keys);
    LeastUnique(key, least, keys);
  }

  lemma TakeLeast(keys: set<string>) returns (least: string)
    requires keys != {}
    ensures least in keys && Ascending(keys) == [least] + Ascending(keys - {least})
    ensures forall k <- keys - {least} :: Before(least, k)
  {
    HasLeast(keys);
    least :| Least(least, keys);
    FirstOfAscending(least, keys);
  }

  lemma {:induction false} AscendingIsSorted(keys: set<string>, i: nat, j: nat)
    requires i < j < |keys|
    ensures Before(Ascending(keys)[i], Ascending(keys)[j])
    decreases |keys|
  {
    hide Before, Ascending;
    var least := TakeLeast(keys);
    var rest := keys - {least};
    if i == 0 {
      assert Ascending(rest)[j - 1] in rest;
    } else {
      AscendingIsSorted(rest, i - 1, j - 1);
    }
  }

  /** The keys of a range, its end excluded. */
  ghost function InRange(keys: set<string>, start: string, end: string): set<string> {
    set k <- keys | !Before(k, start) && Before(k, end)
  }

  /** What a scan of the range visits, in order. */
  ghost function Scan(keys: set<string>, start: string, end: string): seq<string> {
    Ascending(InRange(keys, start, end))
  }

  // ---------------------------------------------------------------- prefixes

  /** `prefix:rest` */
  function Joined(prefix: string, rest: string): string {
    prefix + ":" + rest
  }

  /**
   The strings from `prefix:` up to and without `prefix;` are exactly those that begin with `prefix:`, as `;` follows
   `:` immediately.
   */
  lemma PrefixRange(prefix: string, key: string)
    ensures !Before(key, prefix + ":") && Before(key, prefix + ";") <==> prefix + ":" <= key
  {
    var start, end := prefix + ":", prefix + ";";
    if start <= key {
      if Before(key, start) {
        BeforeIrreflexive(key, start);
      }
      assert key[..|prefix|] == prefix && key[|prefix|] == ':';
      assert PartsAt(key, end, |prefix|);
    } else if Before(key, end) && !Before(key, start) {
      var d: nat :| PartsAt(key, end, d);
      if d < |prefix| {
        assert PartsAt(key, start, d);
      } else {
        assert |key| > |prefix| ==> key[|prefix|] <= ':';
        assert |key| == |prefix| ==> PartsAt(key, start, |prefix|);
        assert |key| > |prefix| && key[|prefix|] < ':' ==> PartsAt(key, start, |prefix|);
      }
    }
  }

  /** All keys that begin with `prefix:`. */
  function WithPrefix(keys: set<string>, prefix: string): set<string> {
    set k <- keys | prefix + ":" <= k
  }

  /** The scan of a prefix visits exactly the keys that begin with `prefix:`. */
  lemma PrefixScan(keys: set<string>, prefix: string)
    ensures Scan(keys, prefix + ":", prefix + ";") == Ascending(WithPrefix(keys, prefix))
  {
    forall k <- keys ensures !Before(k, prefix + ":") && Before(k, prefix + ";") <==> prefix + ":" <= k {
      PrefixRange(prefix, k);
    }
    assert InRange(keys, prefix + ":", prefix + ";") == WithPrefix(keys, prefix);
  }

  predicate ColonFree(s: string) {
    ':' !in s
  }

  /** A key gives back a colon-free prefix and what follows it. */
  lemma JoinedInjective(p: string, a: string, q: string, b: string)
    requires ColonFree(p) && ColonFree(q) && Joined(p, a) == Joined(q, b)
    ensures p == q && a == b
  {
    var k := Joined(p, a);
    assert k[|p|] == ':' && k[|q|] == ':';
    assert forall i | 0 <= i < |p| :: k[i] == p[i];
    assert forall i | 0 <= i < |q| :: k[i] == q[i];
    assert |p| == |q|;
    assert p == k[..|p|] == q;
    assert a == k[|p| + 1..] == b;
  }

  /** What follows the first colon of a key. */
  function AfterColon(key: string): (rest: string)
    requires ':' in key
    ensures exists p :: ColonFree(p) && key == Joined(p, rest)
  {
    if key[0] == ':' then
      assert key == Joined("", key[1..]);
      key[1..]
    else
      var rest := AfterColon(key[1..]);
      assert key == [key[0]] + key[1..];
      assert forall p :: [key[0]] + Joined(p, rest) == Joined([key[0]] + p, rest);
      rest
  }

  lemma AfterColonOfJoined(prefix: string, rest: string)
    requires ColonFree(prefix)
    ensures ':' in Joined(prefix, rest) && AfterColon(Joined(prefix, rest)) == rest
  {
    var key := Joined(prefix, rest);
    assert key[|prefix|] == ':';
    var p :| ColonFree(p) && key == Joined(p, AfterColon(key));
    JoinedInjective(prefix, rest, p, AfterColon(key));
  }

  // ---------------------------------------------------------------- callbacks

  datatype Step<A> = Step(acc: A, escape: bool)

  /** The visits of `keys` in turn, up to an escape. */
  function FoldUntil<A>(visit: (A, string) -> Step<A>, acc: A, keys: seq<string>): A {
    if keys == [] then acc
    else
      var step := visit(acc, keys[0]);
      if step.escape then step.acc else FoldUntil(visit, step.acc, keys[1..])
  }

  /** What the callback of an iteration from an offset counts. */
  datatype Window<A> = Window(offsetSeen: nat, limitSeen: nat, anySeen: bool, acc: A)

  function FromOffset<A>(offset: nat, limit: nat, visit: (A, string) -> Step<A>)
    : (Window<A>, string) -> Step<Window<A>>
  {
    (w: Window<A>, key: string) =>
      if w.offsetSeen + 1 <= offset then
        Step(w.(offsetSeen := w.offsetSeen + 1), false)
      else if w.limitSeen + 1 > limit then
        Step(Window(w.offsetSeen + 1, w.limitSeen + 1, true, w.acc), true)
      else
        var step := visit(w.acc, key);
        Step(Window(w.offsetSeen + 1, w.limitSeen + 1, true, step.acc), step.escape)
  }

  function FromFirst<A>(limit: nat, visit: (A, string) -> Step<A>): (Window<A>, string) -> Step<Window<A>> {
    (w: Window<A>, key: string) =>
      if w.limitSeen + 1 > limit then
        Step(Window(w.offsetSeen, w.limitSeen + 1, true, w.acc), true)
      else
        var step := visit(w.acc, key);
        Step(Window(w.offsetSeen, w.limitSeen + 1, true, step.acc), step.escape)
  }

  function Min(a: nat, b: nat): nat {
    if a < b then a else b
  }

  /** The elements from position `offset`, at most `limit` of them. */
  function Page<T>(s: seq<T>, offset: nat, limit: nat): seq<T> {
    s[Min(offset, |s|)..][..Min(limit, |s| - Min(offset, |s|))]
  }

  /** A page holds the elements from its offset on, in their order: as many as are asked for, or as there are. */
  lemma PageHolds<T>(s: seq<T>, offset: nat, limit: nat)
    ensures offset >= |s| ==> Page(s, offset, limit) == []
    ensures offset < |s| ==> |Page(s, offset, limit)| == if offset + limit <= |s| then limit else |s| - offset
    ensures forall i | 0 <= i < |Page(s, offset, limit)| ::
              offset + i < |s| && Page(s, offset, limit)[i] == s[offset + i]
  {}

  lemma {:induction false} FromFirstTakes<A>(limit: nat, visit: (A, string) -> Step<A>, w: Window<A>, keys: seq<string>)
    requires w.limitSeen <= limit
    ensures var w' := FoldUntil(FromFirst(limit, visit), w, keys);
      && w'.acc == FoldUntil(visit, w.acc, Page(keys, 0, limit - w.limitSeen))
      && (w'.anySeen <==> w.anySeen || keys != [])
    decreases |keys|
  {
    if keys != [] && w.limitSeen < limit {
      var step := visit(w.acc, keys[0]);
      var page := Page(keys, 0, limit - w.limitSeen);
      assert page[0] == keys[0] && page[1..] == Page(keys[1..], 0, limit - w.limitSeen - 1);
      if !step.escape {
        FromFirstTakes(limit, visit, Window(w.offsetSeen, w.limitSeen + 1, true, step.acc), keys[1..]);
      }
    }
  }

  /** Past the offset, counting the offset no longer matters. */
  lemma {:induction false} OffsetPassed<A>(offset: nat, limit: nat, visit: (A, string) -> Step<A>, w: Window<A>,
      v: Window<A>, keys: seq<string>)
    requires w.offsetSeen >= offset && w.limitSeen == v.limitSeen && w.anySeen == v.anySeen && w.acc == v.acc
    ensures var w' := FoldUntil(FromOffset(offset, limit, visit), w, keys);
      var v' := FoldUntil(FromFirst(limit, visit), v, keys);
      w'.acc == v'.acc && w'.anySeen == v'.anySeen
    decreases |keys|
  {
    if keys != [] && w.limitSeen < limit {
      var step := visit(w.acc, keys[0]);
      if !step.escape {
        OffsetPassed(offset, limit, visit, FromOffset(offset, limit, visit)(w, keys[0]).acc,
            FromFirst(limit, visit)(v, keys[0]).acc, keys[1..]);
      }
    }
  }

  /** An iteration from an offset visits that page of the scan, and reports whether the scan reaches past the offset. */
  lemma {:induction false} FromOffsetVisitsPage<A>(offset: nat, limit: nat, visit: (A, string) -> Step<A>, w: Window<A>,
                                                   keys: seq<string>)
    requires w.offsetSeen <= offset && w.limitSeen == 0 && !w.anySeen
    ensures var w' := FoldUntil(FromOffset(offset, limit, visit), w, keys);
      && w'.acc == FoldUntil(visit, w.acc, Page(keys, offset - w.offsetSeen, limit))
      && (w'.anySeen <==> |keys| > offset - w.offsetSeen)
    decreases |keys|
  {
    if keys == [] {
    } else if w.offsetSeen < offset {
      FromOffsetVisitsPage(offset, limit, visit, w.(offsetSeen := w.offsetSeen + 1), keys[1..]);
      assert Page(keys[1..], offset - w.offsetSeen - 1, limit) == Page(keys, offset - w.offsetSeen, limit);
    } else {
      OffsetPassed(offset, limit, visit, w, w, keys);
      FromFirstTakes(limit, visit, w, keys);
    }
  }

  // ---------------------------------------------------------------- listings

  /** The id in a key: what follows its first colon. */
  function IdOf(key: string): string {
    if ':' in key then AfterColon(key) else key
  }

  function IdsOf(keys: seq<string>): seq<string> {
    seq(|keys|, i requires 0 <= i < |keys| => IdOf(keys[i]))
  }

  /** The callback of the listings. */
  function CollectId(ids: seq<string>, key: string): Step<seq<string>> {
    Step(ids + [IdOf(key)], false)
  }

  lemma {:induction false} CollectsIds(ids: seq<string>, keys: seq<string>)
    ensures FoldUntil(CollectId, ids, keys) == ids + IdsOf(keys)
    decreases |keys|
  {
    if keys != [] {
      CollectsIds(ids + [IdOf(keys[0])], keys[1..]);
    }
  }

  /** The ids under a prefix. */
  ghost function IdSet(keys: set<string>, prefix: string): set<string> {
    set k <- keys | prefix + ":" <= k :: k[|prefix| + 1..]
  }

  lemma IdSetMembers(keys: set<string>, prefix: string, id: string)
    ensures id in IdSet(keys, prefix) <==> Joined(prefix, id) in keys
  {
    var key := Joined(prefix, id);
    assert prefix + ":" <= key && key[|prefix| + 1..] == id;
    if id in IdSet(keys, prefix) {
      var k :| k in keys && prefix + ":" <= k && k[|prefix| + 1..] == id;
      assert k == (prefix + ":") + id;
    }
  }

  ghost predicate Sorted(s: seq<string>) {
    forall i, j :: 0 <= i < j < |s| ==> Before(s[i], s[j])
  }

  /** A sorted list is determined by its elements. */
  lemma {:induction false} SortedIsAscending(s: seq<string>, keys: set<string>)
    requires Sorted(s) && forall k :: k in s <==> k in keys
    ensures s == Ascending(keys)
    decreases |s|
  {
    hide Before;
    if s == [] {
      assert keys == {};
    } else {
      assert Least(s[0], keys);
      FirstOfAscending(s[0], keys);
      forall k ensures k in s[1..] <==> k in keys - {s[0]} {
        if k in s[1..] {
          BeforeIrreflexive(s[0], k);
        }
      }
      SortedIsAscending(s[1..], keys - {s[0]});
    }
  }

  /** For a colon-free prefix, the ids of the keys a scan of the prefix visits are its ids in ascending order. */
  lemma ScanListsIds(keys: set<string>, prefix: string)
    requires ColonFree(prefix)
    ensures IdsOf(Ascending(WithPrefix(keys, prefix))) == Ascending(IdSet(keys, prefix))
  {
    var s := Ascending(WithPrefix(keys, prefix));
    var ids := IdsOf(s);
    forall i | 0 <= i < |s| ensures s[i] in keys && s[i] == Joined(prefix, ids[i]) {
      assert s[i] in s;
      assert s[i] == Joined(prefix, s[i][|prefix| + 1..]);
      AfterColonOfJoined(prefix, s[i][|prefix| + 1..]);
    }
    forall i, j | 0 <= i < j < |ids| ensures Before(ids[i], ids[j]) {
      AscendingIsSorted(WithPrefix(keys, prefix), i, j);
      BeforeWithPrefix(prefix + ":", ids[i], ids[j]);
    }
    forall id ensures id in ids <==> id in IdSet(keys, prefix) {
      IdSetMembers(keys, prefix, id);
      if Joined(prefix, id) in keys {
        assert Joined(prefix, id) in s;
        var i :| 0 <= i < |s| && s[i] == Joined(prefix, id);
        assert ids[i] == id by {
          AfterColonOfJoined(prefix, id);
        }
      }
    }
    SortedIsAscending(ids, IdSet(keys, prefix));
  }

  /** The listing of a prefix's ids, as the callbacks collect them. */
  lemma ListsIds(keys: set<string>, prefix: string, offset: nat, limit: nat)
    requires ColonFree(prefix)
    ensures FoldUntil(CollectId, [], Ascending(WithPrefix(keys, prefix))) == Ascending(IdSet(keys, prefix))
    ensures FoldUntil(CollectId, [], Page(Ascending(WithPrefix(keys, prefix)), offset, limit)) ==
            Page(Ascending(IdSet(keys, prefix)), offset, limit)
  {
    hide FoldUntil, Ascending, WithPrefix, IdSet, IdsOf, Page;
    var s := Ascending(WithPrefix(keys, prefix));
    CollectsIds([], s);
    CollectsIds([], Page(s, offset, limit));
    ScanListsIds(keys, prefix);
    PageOfIds(s, offset, limit);
  }

  lemma PageOfIds(keys: seq<string>, offset: nat, limit: nat)
    ensures IdsOf(Page(keys, offset, limit)) == Page(IdsOf(keys), offset, limit)
  {
    hide IdOf;
  }

  /** The listing from an id on: the ids not before it. */
  lemma ListsIdsFrom(keys: set<string>, prefix: string, member: string, limit: nat)
    requires ColonFree(prefix)
    ensures FoldUntil(CollectId, [], Page(Scan(keys, Joined(prefix, member), prefix + ";"), 0, limit)) ==
            Page(Ascending(NotBefore(IdSet(keys, prefix), member)), 0, limit)
  {
    var start := Joined(prefix, member);
    var later := NotBefore(WithPrefix(keys, prefix), start);
    MemberScan(keys, prefix, member);
    assert WithPrefix(later, prefix) == later;
    ListsIds(later, prefix, 0, limit);
    forall id ensures id in IdSet(later, prefix) <==> id in NotBefore(IdSet(keys, prefix), member) {
      IdSetMembers(later, prefix, id);
      IdSetMembers(keys, prefix, id);
      BeforeWithPrefix(prefix + ":", id, member);
      assert prefix + ":" <= Joined(prefix, id);
    }
    assert IdSet(later, prefix) == NotBefore(IdSet(keys, prefix), member);
  }

  function Filter(p: string -> bool, s: seq<string>): seq<string> {
    if s == [] then [] else (if p(s[0]) then [s[0]] else []) + Filter(p, s[1..])
  }

  lemma {:induction false} FilterAscending(p: string -> bool, keys: set<string>)
    ensures Filter(p, Ascending(keys)) == Ascending(set k <- keys | p(k))
    decreases |keys|
  {
    hide Before, Ascending;
    var kept := set k <- keys | p(k);
    if keys == {} {
      assert kept == {} && |Ascending(keys)| == 0 == |Ascending(kept)|;
    } else {
      var least := TakeLeast(keys);
      FilterAscending(p, keys - {least});
      var rest := set k <- keys - {least} | p(k);
      if p(least) {
        assert kept - {least} == rest;
        assert Least(least, kept);
        FirstOfAscending(least, kept);
      } else {
        assert kept == rest;
      }
    }
  }

  /** The callback of the deletes: takes the key out of the store. */
  function DropKey(db: Store, key: string): Step<Store> {
    Step(db - {key}, false)
  }

  lemma {:induction false} DropsKeys(db: Store, keys: seq<string>)
    ensures FoldUntil(DropKey, db, keys) == db - (set k <- keys)
    decreases |keys|
  {
    if keys != [] {
      DropsKeys(db - {keys[0]}, keys[1..]);
      assert (set k <- keys) == {keys[0]} + set k <- keys[1..];
    }
  }

  // ---------------------------------------------------------------- paging

  /** The pages of size `size` from an offset on, up to the first empty one, put together. */
  ghost function AllPages<T>(s: seq<T>, offset: nat, size: nat): seq<T>
    requires size >= 1
    decreases |s| - offset
  {
    var page := Page(s, offset, size);
    if page == [] then [] else page + AllPages(s, offset + size, size)
  }

  lemma {:induction false} PagesRebuild<T>(s: seq<T>, offset: nat, size: nat)
    requires size >= 1 && offset <= |s|
    ensures AllPages(s, offset, size) == s[offset..]
    decreases |s| - offset
  {
    if offset < |s| {
      var next := offset + size;
      if next <= |s| {
        PagesRebuild(s, next, size);
        assert s[offset..] == s[offset..next] + s[next..];
      } else {
        assert Page(s, next, size) == [];
      }
    }
  }

  /** The keys from a given one on. */
  ghost function NotBefore(keys: set<string>, key: string): set<string> {
    set k <- keys | !Before(k, key)
  }

  /** An iteration from a member scans the keys of the prefix from the member's key on, whether or not that is one. */
  lemma MemberScan(keys: set<string>, prefix: string, member: string)
    ensures Scan(keys, Joined(prefix, member), prefix + ";")
        == Ascending(NotBefore(WithPrefix(keys, prefix), Joined(prefix, member)))
  {
    var start := Joined(prefix, member);
    forall k <- keys ensures !Before(k, start) && Before(k, prefix + ";") <==> prefix + ":" <= k && !Before(k, start) {
      PrefixRange(prefix, k);
      PrefixRange(prefix, start);
      if !Before(k, start) && Before(k, prefix + ":") {
        assert !Before(start, prefix + ":");
        BeforeTotal(k, start);
        if Before(start, k) {
          BeforeTransitive(start, k, prefix + ":");
        }
      }
    }
    assert InRange(keys, start, prefix + ";") == NotBefore(WithPrefix(keys, prefix), start);
  }

  /** From the element at position `i` on: the rest of the list, that element included. */
  lemma {:induction false} FromElementOn(keys: set<string>, i: nat)
    requires i < |keys|
    ensures Ascending(NotBefore(keys, Ascending(keys)[i])) == Ascending(keys)[i..]
    decreases |keys|
  {
    hide Before, Ascending;
    var least := TakeLeast(keys);
    var rest, x := keys - {least}, Ascending(keys)[i];
    if i == 0 {
      forall k <- keys ensures !Before(k, least) {
        if k == least {
          BeforeNotItself(k);
        } else {
          BeforeAsymmetric(least, k);
        }
      }
      assert NotBefore(keys, least) == keys;
    } else {
      FromElementOn(rest, i - 1);
      assert x == Ascending(rest)[i - 1] && x in Ascending(rest);
      assert NotBefore(keys, x) == NotBefore(rest, x);
    }
  }

  // ---------------------------------------------------------------- the handle

  class RockHandle {
    var db: Store

    constructor ()
      ensures db == map[]
    {
      db := map[];
    }

    method Put(key: string, value: string)
      modifies this
      ensures db == old(db)[key := value]
    {
      db := db[key := value];
    }

    method Get(key: string) returns (result: Option<string>)
      ensures result == if key in db then Some(db[key]) else None
    {
      result := if key in db then Some(db[key]) else None;
    }

    method Exists(key: string) returns (found: bool)
      ensures found <==> key in db
    {
      found := key in db;
    }

    method Del(key: string) returns (existed: bool)
      modifies this
      ensures existed <==> key in old(db)
      ensures db == old(db) - {key}
    {
      if key !in db {
        return false;
      }
      db := db - {key};
      return true;
    }

    /** Where an iterator over the given keys stands after a seek: at the least of them, if any. */
    static method Seek(keys: set<string>) returns (key: Option<string>)
      ensures key.None? <==> keys == {}
      ensures key.Some? ==> Least(key.value, keys)
    {
      hide Before, Least;
      key := None;
      var rest := keys;
      ghost var seen: set<string> := {};
      while rest != {}
        invariant seen + rest == keys
        invariant if key.None? then seen == {} else seen != {} && Least(key.value, seen)
        decreases |rest|
      {
        var k :| k in rest;
        rest := rest - {k};
        if key.None? {
          LeastAlone(k);
          key := Some(k);
        } else {
          LeastWith(k, key.value, seen);
          if Less(k, key.value) {
            key := Some(k);
          }
        }
        seen := seen + {k};
      }
    }

    /** Visits the keys of the range in ascending order until the callback escapes; any effect is in the accumulator. */
    method IterRange<A>(start: string, end: string, init: A, visit: (A, string) -> Step<A>)
      returns (foundAny: bool, acc: A)
      ensures foundAny <==> Scan(db.Keys, start, end) != []
      ensures acc == FoldUntil(visit, init, Scan(db.Keys, start, end))
    {
      foundAny, acc := false, init;
      var ahead := set k <- db.Keys | !Less(k, start);
      ghost var left := InRange(db.Keys, start, end);
      ghost var all := Ascending(left);
      var at := Seek(ahead);
      hide Before, Ascending;
      while at.Some? && Less(at.value, end)
        invariant if at.None? then ahead == {} else Least(at.value, ahead)
        invariant left == set k <- ahead | Before(k, end)
        invariant FoldUntil(visit, acc, Ascending(left)) == FoldUntil(visit, init, all)
        invariant foundAny || left == InRange(db.Keys, start, end)
        invariant foundAny ==> all != []
        decreases |ahead|
      {
        foundAny := true;
        var key := at.value;
        assert Least(key, left);
        FirstOfAscending(key, left);
        var step := visit(acc, key);
        acc := step.acc;
        if step.escape {
          return;
        }
        ahead, left := ahead - {key}, left - {key};
        at := Seek(ahead);
      }
      NoneLeft(at, ahead, left, end);
    }

    method IterPrefix<A>(prefix: string, init: A, visit: (A, string) -> Step<A>) returns (foundAny: bool, acc: A)
      ensures foundAny <==> WithPrefix(db.Keys, prefix) != {}
      ensures acc == FoldUntil(visit, init, Ascending(WithPrefix(db.Keys, prefix)))
    {
      PrefixScan(db.Keys, prefix);
      foundAny, acc := IterRange(prefix + ":", prefix + ";", init, visit);
    }

    method IterPrefixFromOffset<A>(prefix: string, offset: nat, limitCount: nat, init: A, visit: (A, string) -> Step<A>)
      returns (anySeen: bool, acc: A)
      ensures anySeen <==> |WithPrefix(db.Keys, prefix)| > offset
      ensures acc == FoldUntil(visit, init, Page(Ascending(WithPrefix(db.Keys, prefix)), offset, limitCount))
    {
      PrefixScan(db.Keys, prefix);
      var w := Window(0, 0, false, init);
      FromOffsetVisitsPage(offset, limitCount, visit, w, Scan(db.Keys, prefix + ":", prefix + ";"));
      var _, w' := IterRange(prefix + ":", prefix + ";", w, FromOffset(offset, limitCount, visit));
      anySeen, acc := w'.anySeen, w'.acc;
    }

    method IterPrefixFromMember<A>(prefix: string, member: string, limitCount: nat, init: A,
        visit: (A, string) -> Step<A>)
      returns (anySeen: bool, acc: A)
      ensures anySeen <==> Scan(db.Keys, Joined(prefix, member), prefix + ";") != []
      ensures acc == FoldUntil(visit, init, Page(Scan(db.Keys, Joined(prefix, member), prefix + ";"), 0, limitCount))
    {
      var w := Window(0, 0, false, init);
      FromFirstTakes(limitCount, visit, w, Scan(db.Keys, Joined(prefix, member), prefix + ";"));
      var _, w' := IterRange(Joined(prefix, member), prefix + ";", w, FromFirst(limitCount, visit));
      anySeen, acc := w'.anySeen, w'.acc;
    }
  }

  lemma NoneLeft(at: Option<string>, ahead: set<string>, left: set<string>, end: string)
    requires if at.None? then ahead == {} else Least(at.value, ahead) && !Before(at.value, end)
    requires left == set k <- ahead | Before(k, end)
    ensures left == {}
  {
    if left != {} {
      var k :| k in left;
      if k != at.value {
        BeforeTransitive(at.value, k, end);
      }
    }
  }
}
