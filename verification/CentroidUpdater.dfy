/**
 One run of the updater: it pages through the ids of a centroid's documents, loads each page in batches, adds up what
 it loads and saves the sum.

 Consecutive batches share an index, and so do consecutive pages; a page after the first is processed only if full.
 `Occurrences` counts exactly how often each document is loaded, and `EachOnceIffSmall` says when that is once.
 */
module CentroidUpdater {
  import opened KeyValueStore
  import opened Persistence
  import opened Scoring
  import opened Wrappers
  import Freshness

  // ---------------------------------------------------------------- what a run loads

  /**
   A load of the document at one position of the centroid's list; if it is missing, another position may be blamed.
   */
  datatype Load = Load(at: nat, blamed: nat)

  /** The loads of a batch, on a page that begins at position `base`: the blamed id is counted from the page's start. */
  function BatchLoads(base: nat, docNum: nat, last: nat): seq<Load>
    requires docNum <= last
  {
    seq(last - docNum + 1, i requires i >= 0 => Load(base + docNum + i, base + i))
  }

  /** The loads of a page of `size` ids, from the batch at `docNum` on. */
  function PageLoads(base: nat, size: nat, batch: nat, docNum: nat): seq<Load>
    requires batch >= 1
    decreases size - docNum
  {
    if docNum >= size then []
    else BatchLoads(base, docNum, Min(size - 1, docNum + batch)) + PageLoads(base, size, batch, docNum + batch)
  }

  /** The loads of a run, from the page at position `base` on, of `n` ids that are left there. */
  function RunLoads(base: nat, n: nat, page: nat, batch: nat): seq<Load>
    requires page >= 2 && batch >= 1
    decreases n
  {
    if n == 0 then []
    else
      var rest := n - (Min(n, page) - 1);
      PageLoads(base, Min(n, page), batch, 0)
      + if Min(rest, page) >= page then RunLoads(base + page - 1, rest, page, batch) else []
  }

  // ---------------------------------------------------------------- how often each document is loaded

  function Occurrences(loads: seq<Load>, at: nat): nat {
    if loads == [] then 0 else (if loads[0].at == at then 1 else 0) + Occurrences(loads[1..], at)
  }

  lemma {:induction false} OccurrencesConcat(a: seq<Load>, b: seq<Load>, at: nat)
    ensures Occurrences(a + b, at) == Occurrences(a, at) + Occurrences(b, at)
    decreases |a|
  {
    if a == [] {
      assert a + b == b;
    } else {
      assert (a + b)[1..] == a[1..] + b;
      OccurrencesConcat(a[1..], b, at);
    }
  }

  /** A list of loads at consecutive positions has each of them once. */
  lemma {:induction false} ConsecutiveOccurrences(loads: seq<Load>, first: nat, at: nat)
    requires forall k | 0 <= k < |loads| :: loads[k].at == first + k
    ensures Occurrences(loads, at) == if first <= at < first + |loads| then 1 else 0
    decreases |loads|
  {
    if loads != [] {
      ConsecutiveOccurrences(loads[1..], first + 1, at);
    }
  }

  /** How often position `d` of a processed page is loaded: once, or twice where two batches meet. */
  function Share(batch: nat, d: nat): nat
    requires batch >= 1
  {
    if d > 0 && d % batch == 0 then 2 else 1
  }

  lemma {:induction false} PageOccurrences(base: nat, size: nat, batch: nat, docNum: nat, d: nat)
    requires batch >= 1 && docNum % batch == 0
    ensures Occurrences(PageLoads(base, size, batch, docNum), base + d) ==
            if d < docNum || size <= d then 0 else if d == docNum then 1 else Share(batch, d)
    decreases size - docNum
  {
    if docNum < size {
      var last := Min(size - 1, docNum + batch);
      NextMultiple(docNum, batch, d);
      ConsecutiveOccurrences(BatchLoads(base, docNum, last), base + docNum, base + d);
      PageOccurrences(base, size, batch, docNum + batch, d);
      OccurrencesConcat(BatchLoads(base, docNum, last), PageLoads(base, size, batch, docNum + batch), base + d);
    }
  }

  lemma NextMultiple(m: nat, batch: nat, d: nat)
    requires batch >= 1 && m % batch == 0
    ensures (m + batch) % batch == 0
    ensures m < d < m + batch ==> d % batch != 0
  {
    assert m == batch * (m / batch);
    assert (m + batch) == batch * (m / batch + 1);
    MultipleMod(batch, m / batch + 1, 0);
    if m < d < m + batch {
      MultipleMod(batch, m / batch, d - m);
    }
  }

  lemma MultipleMod(b: nat, q: nat, r: nat)
    requires r < b
    ensures (b * q + r) % b == r && (b * q + r) / b == q
  {
    var x := b * q + r;
    DivisionUnique(b, q, r, x / b, x % b);
  }

  lemma DivisionUnique(b: nat, q: nat, r: nat, q': nat, r': nat)
    requires r < b && r' < b && b * q + r == b * q' + r'
    ensures q == q' && r == r'
  {
    if q < q' {
      ScaledGap(b, q, q');
    } else if q' < q {
      ScaledGap(b, q', q);
    }
  }

  lemma ScaledGap(b: nat, q: nat, q': nat)
    requires q < q'
    ensures b * q + b <= b * q'
  {
    AtLeastFactor(b, q' - q);
    assert b * q' == b * q + b * (q' - q);
  }

  lemma AtLeastFactor(b: nat, k: nat)
    requires k >= 1
    ensures b * k >= b
  {}

  /** Whether the page with the given number is processed: the first, and then those that are full. */
  predicate Processed(n: nat, page: nat, number: nat)
    requires page >= 2
  {
    number == 0 || (page - 1) * number + page <= n
  }

  /**
   How often the document at position `at` of `n` is loaded.  Page number j holds the positions from (page - 1) * j on,
   so a position that is a positive multiple of page - 1 is the first of one page and the last of the one before.
   */
  function Expected(n: nat, page: nat, batch: nat, at: nat): nat
    requires page >= 2 && batch >= 1
  {
    ExpectedOn(n, page, batch, at / (page - 1), at % (page - 1))
  }

  function ExpectedOn(n: nat, page: nat, batch: nat, number: nat, d: nat): nat
    requires page >= 2 && batch >= 1
  {
    (if Processed(n, page, number) then Share(batch, d) else 0)
    + if d == 0 && number > 0 && Processed(n, page, number - 1) then Share(batch, page - 1) else 0
  }

  /** A full page ahead of `n - (page - 1)` positions: what is expected of those is shifted by a page. */
  lemma ExpectedShifts(n: nat, page: nat, batch: nat, at: nat)
    requires page >= 2 && batch >= 1 && n >= page - 1 + page
    ensures at < page - 1 ==> Expected(n, page, batch, at) == Share(batch, at)
    ensures at >= page - 1 ==>
              Expected(n, page, batch, at) ==
              Expected(n - (page - 1), page, batch, at - (page - 1))
              + if at == page - 1 then Share(batch, page - 1) else 0
  {
    hide Share;
    var w := page - 1;
    var number, d := at / w, at % w;
    assert at == w * number + d;
    if at < w {
      SmallQuotient(at, w);
    } else {
      NextPage(page, at);
      ProcessedShifts(n, page, number);
      if number >= 2 {
        ProcessedShifts(n, page, number - 1);
        ScaledGap(w, 1, number);
      } else {
        assert w * number == w;
      }
    }
  }

  lemma SmallQuotient(x: nat, w: nat)
    requires x < w
    ensures x / w == 0 && x % w == x
  {}

  lemma NextPage(page: nat, at: nat)
    requires page >= 2 && at >= page - 1
    ensures at / (page - 1) >= 1
    ensures (at - (page - 1)) / (page - 1) == at / (page - 1) - 1 && (at - (page - 1)) % (page - 1) == at % (page - 1)
  {
    var w := page - 1;
    var q, r := at / w, at % w;
    assert at == w * q + r;
    assert q >= 1;
    assert at - w == w * (q - 1) + r;
    MultipleMod(w, q - 1, r);
  }

  lemma ProcessedShifts(n: nat, page: nat, number: nat)
    requires page >= 2 && n >= page - 1 + page && number >= 1
    ensures Processed(n, page, number) <==> Processed(n - (page - 1), page, number - 1)
  {
    assert (page - 1) * number == (page - 1) * (number - 1) + (page - 1);
  }

  lemma RunUnfolds(base: nat, n: nat, page: nat, batch: nat)
    requires page >= 2 && batch >= 1 && n > 0
    ensures n < page - 1 + page ==> RunLoads(base, n, page, batch) == PageLoads(base, Min(n, page), batch, 0)
    ensures n >= page - 1 + page ==>
              RunLoads(base, n, page, batch) ==
              PageLoads(base, page, batch, 0) + RunLoads(base + (page - 1), n - (page - 1), page, batch)
  {
    hide PageLoads;
  }

  /** How often a run loads each position of the list. */
  lemma {:induction false} RunOccurrences(base: nat, n: nat, page: nat, batch: nat, at: nat)
    requires page >= 2 && batch >= 1 && at < n
    ensures Occurrences(RunLoads(base, n, page, batch), base + at) == Expected(n, page, batch, at)
    decreases n
  {
    hide Expected, Occurrences, PageLoads, RunLoads, Share;
    var w := page - 1;
    RunUnfolds(base, n, page, batch);
    PageOccurrences(base, Min(n, page), batch, 0, at);
    ShareSmall(batch, 0);
    if n >= w + page {
      OccurrencesConcat(PageLoads(base, page, batch, 0), RunLoads(base + w, n - w, page, batch), base + at);
      ExpectedShifts(n, page, batch, at);
      if at >= w {
        RunOccurrences(base + w, n - w, page, batch, at - w);
      } else {
        LoadsFromBase(base + w, n - w, page, batch, base + at);
      }
    } else {
      ExpectedOnePage(n, page, batch, at);
    }
  }

  lemma ShareSmall(batch: nat, d: nat)
    requires batch >= 1 && (d == 0 || d < batch)
    ensures Share(batch, d) == 1
  {
    if d > 0 {
      SmallQuotient(d, batch);
    }
  }

  /** No load comes before the page where it starts. */
  lemma {:induction false} LoadsFromBase(base: nat, n: nat, page: nat, batch: nat, at: nat)
    requires page >= 2 && batch >= 1 && at < base
    ensures Occurrences(RunLoads(base, n, page, batch), at) == 0
    decreases n
  {
    if n > 0 {
      var size := Min(n, page);
      var rest := n - (size - 1);
      PageLoadsFromBase(base, size, batch, 0, at);
      if rest >= page {
        LoadsFromBase(base + page - 1, rest, page, batch, at);
        OccurrencesConcat(PageLoads(base, size, batch, 0), RunLoads(base + page - 1, rest, page, batch), at);
      } else {
        assert RunLoads(base, n, page, batch) == PageLoads(base, size, batch, 0);
      }
    }
  }

  lemma {:induction false} PageLoadsFromBase(base: nat, size: nat, batch: nat, docNum: nat, at: nat)
    requires batch >= 1 && at < base
    ensures Occurrences(PageLoads(base, size, batch, docNum), at) == 0
    decreases size - docNum
  {
    if docNum < size {
      var last := Min(size - 1, docNum + batch);
      ConsecutiveOccurrences(BatchLoads(base, docNum, last), base + docNum, at);
      PageLoadsFromBase(base, size, batch, docNum + batch, at);
      OccurrencesConcat(BatchLoads(base, docNum, last), PageLoads(base, size, batch, docNum + batch), at);
    }
  }

  /** With fewer than two full pages, only the first is processed. */
  lemma ExpectedOnePage(n: nat, page: nat, batch: nat, at: nat)
    requires page >= 2 && batch >= 1 && at < n < page - 1 + page
    ensures Expected(n, page, batch, at) == if at >= page then 0 else if at == 0 then 1 else Share(batch, at)
  {
    var w := page - 1;
    var q, d := at / w, at % w;
    assert at == w * q + d;
    if q >= 2 {
      ScaledGap(w, 1, q);
    }
    hide Share;
    assert Share(batch, 0) == 1 by {
      ShareSmall(batch, 0);
    }
    assert w * q == if q == 0 then 0 else w;
  }

  /** Every document is loaded exactly once just when there are no more of them than a page or a batch holds. */
  lemma EachOnceIffSmall(n: nat, page: nat, batch: nat)
    requires page >= 2 && batch >= 1
    ensures (forall at: nat | at < n :: Occurrences(RunLoads(0, n, page, batch), at) == 1) <==> n <= page && n <= batch
  {
    var w := page - 1;
    forall at: nat | at < n ensures Occurrences(RunLoads(0, n, page, batch), at) == Expected(n, page, batch, at) {
      RunOccurrences(0, n, page, batch, at);
    }
    hide Occurrences, RunLoads, Expected, Share;
    if n <= page && n <= batch {
      forall at: nat | at < n ensures Expected(n, page, batch, at) == 1 {
        ExpectedOnePage(n, page, batch, at);
        ShareSmall(batch, at);
      }
    } else {
      var at;
      if batch < page {
        at := batch;
        TwiceWhereBatchesMeet(n, page, batch);
      } else {
        at := NotOnceBetweenPages(n, page, batch);
      }
      assert Occurrences(RunLoads(0, n, page, batch), at) != 1;
    }
  }

  lemma TwiceWhereBatchesMeet(n: nat, page: nat, batch: nat)
    requires page >= 2 && 1 <= batch < page && batch < n
    ensures Expected(n, page, batch, batch) >= 2
  {
    var w := page - 1;
    assert Share(batch, batch) == 2;
    if batch < w {
      SmallQuotient(batch, w);
    } else {
      assert batch / w == 1 && batch % w == 0;
    }
  }

  lemma NotOnceBetweenPages(n: nat, page: nat, batch: nat) returns (at: nat)
    requires page >= 2 && batch >= page && n > page
    ensures at < n && Expected(n, page, batch, at) != 1
  {
    var w := page - 1;
    if n >= w + page {
      at := w;
      assert w / w == 1 && w % w == 0;
      assert w * 1 == w;
      ShareSmall(batch, 0);
      ShareSmall(batch, w);
    } else {
      at := page;
      ExpectedOnePage(n, page, batch, at);
    }
  }

  // ---------------------------------------------------------------- which document is blamed

  predicate BlamesItself(loads: seq<Load>) {
    forall load <- loads :: load.blamed == load.at
  }

  lemma {:induction false} SmallPagesBlame(base: nat, n: nat, page: nat, batch: nat)
    requires page >= 2 && batch >= 1 && Min(n, page) <= batch
    ensures BlamesItself(RunLoads(base, n, page, batch))
    decreases n
  {
    hide RunLoads, PageLoads;
    if n == 0 {
      NoRun(base, page, batch);
    } else {
      RunUnfolds(base, n, page, batch);
      OneBatch(base, Min(n, page), batch);
      assert BlamesItself(BatchLoads(base, 0, Min(n, page) - 1));
      hide BlamesItself, BatchLoads;
      if n >= page - 1 + page {
        SmallPagesBlame(base + (page - 1), n - (page - 1), page, batch);
      }
    }
  }

  lemma NoRun(base: nat, page: nat, batch: nat)
    requires page >= 2 && batch >= 1
    ensures RunLoads(base, 0, page, batch) == []
  {}

  lemma OneBatch(base: nat, size: nat, batch: nat)
    requires 1 <= size <= batch
    ensures PageLoads(base, size, batch, 0) == BatchLoads(base, 0, size - 1)
  {
    assert PageLoads(base, size, batch, batch) == [];
  }

  lemma SecondBatchBlames(n: nat, page: nat, batch: nat)
    requires page >= 2 && 1 <= batch < Min(n, page)
    ensures Load(batch, 0) in RunLoads(0, n, page, batch)
  {
    var size := Min(n, page);
    var first, second := BatchLoads(0, 0, batch), BatchLoads(0, batch, Min(size - 1, batch + batch));
    var rest := PageLoads(0, size, batch, batch + batch);
    assert PageLoads(0, size, batch, batch) == second + rest;
    assert PageLoads(0, size, batch, 0) == first + (second + rest);
    assert second[0] == Load(batch, 0);
    assert Load(batch, 0) in PageLoads(0, size, batch, 0);
    RunUnfolds(0, n, page, batch);
  }

  /**
   A missing document is the one asked to be removed, whatever documents are missing, just when a page holds no more
   than a batch: from the second batch on, the position is counted from the start of the page instead.
   */
  lemma BlameIffOneBatch(n: nat, page: nat, batch: nat)
    requires page >= 2 && batch >= 1
    ensures BlamesItself(RunLoads(0, n, page, batch)) <==> n <= batch || page <= batch
  {
    if Min(n, page) <= batch {
      SmallPagesBlame(0, n, page, batch);
    } else {
      SecondBatchBlames(n, page, batch);
    }
  }

  /** A run over few documents loads each of them, in order. */
  lemma SmallRun(n: nat, page: nat, batch: nat)
    requires page >= 2 && batch >= 1 && n <= page && n <= batch
    ensures RunLoads(0, n, page, batch) == seq(n, i requires i >= 0 => Load(i, i))
  {
    if n > 0 {
      RunUnfolds(0, n, page, batch);
      OneBatch(0, n, batch);
    }
  }

  // ---------------------------------------------------------------- what the loads find

  predicate Inside(loads: seq<Load>, n: nat) {
    forall load <- loads :: load.at < n && load.blamed < n
  }

  /** The documents that the loads find, in order. */
  function Loaded(db: Store, decode: string -> Document, ids: seq<string>, loads: seq<Load>): seq<Document>
    requires Inside(loads, |ids|)
  {
    if loads == [] then []
    else
      var key := Key(Documents, ids[loads[0].at]);
      (if key in db then [decode(db[key])] else []) + Loaded(db, decode, ids, loads[1..])
  }

  /** The ids asked to be removed, in order. */
  function Blamed(db: Store, ids: seq<string>, loads: seq<Load>): seq<string>
    requires Inside(loads, |ids|)
  {
    if loads == [] then []
    else
      (if Key(Documents, ids[loads[0].at]) in db then [] else [ids[loads[0].blamed]]) + Blamed(db, ids, loads[1..])
  }

  lemma InsideConcat(a: seq<Load>, b: seq<Load>, n: nat)
    requires Inside(a, n) && Inside(b, n)
    ensures Inside(a + b, n)
  {}

  lemma {:induction false} LoadedConcat(db: Store, decode: string -> Document, ids: seq<string>, a: seq<Load>,
      b: seq<Load>)
    requires Inside(a, |ids|) && Inside(b, |ids|) && Inside(a + b, |ids|)
    ensures Loaded(db, decode, ids, a + b) == Loaded(db, decode, ids, a) + Loaded(db, decode, ids, b)
    decreases |a|
  {
    hide Key;
    if a == [] {
      assert a + b == b;
    } else {
      assert (a + b)[1..] == a[1..] + b;
      LoadedConcat(db, decode, ids, a[1..], b);
    }
  }

  lemma {:induction false} BlamedConcat(db: Store, ids: seq<string>, a: seq<Load>, b: seq<Load>)
    requires Inside(a, |ids|) && Inside(b, |ids|) && Inside(a + b, |ids|)
    ensures Blamed(db, ids, a + b) == Blamed(db, ids, a) + Blamed(db, ids, b)
    decreases |a|
  {
    hide Key;
    if a == [] {
      assert a + b == b;
    } else {
      assert (a + b)[1..] == a[1..] + b;
      BlamedConcat(db, ids, a[1..], b);
    }
  }

  /** After the loads: what was added to the documents before, and whose removal was asked for. */
  predicate Progress(db: Store, decode: string -> Document, ids: seq<string>, loads: seq<Load>, before: seq<Document>,
                     docs: seq<Document>, removals: seq<string>) {
    Inside(loads, |ids|) && docs == before + Loaded(db, decode, ids, loads) && removals == Blamed(db, ids, loads)
  }

  lemma NoProgress(db: Store, decode: string -> Document, ids: seq<string>, docs: seq<Document>)
    ensures Progress(db, decode, ids, [], docs, docs, [])
  {}

  lemma ProgressOne(db: Store, decode: string -> Document, ids: seq<string>, load: Load, docs: seq<Document>)
    requires load.at < |ids| && load.blamed < |ids|
    ensures var key := Key(Documents, ids[load.at]);
      if key in db then Progress(db, decode, ids, [load], docs, docs + [decode(db[key])], [])
      else Progress(db, decode, ids, [load], docs, docs, [ids[load.blamed]])
  {
    hide Key;
    assert [load][1..] == [];
    NothingLoaded(db, decode, ids);
  }

  lemma NothingLoaded(db: Store, decode: string -> Document, ids: seq<string>)
    ensures Loaded(db, decode, ids, []) == [] && Blamed(db, ids, []) == []
  {}

  lemma ProgressMore(db: Store, decode: string -> Document, ids: seq<string>, before: seq<Document>, done: seq<Load>,
                     mid: seq<Document>, asked: seq<string>, loads: seq<Load>, docs: seq<Document>,
                         removals: seq<string>)
    requires Progress(db, decode, ids, done, before, mid, asked)
        && Progress(db, decode, ids, loads, mid, docs, removals)
    ensures Progress(db, decode, ids, done + loads, before, docs, asked + removals)
  {
    hide Loaded, Blamed, Inside;
    InsideConcat(done, loads, |ids|);
    LoadedConcat(db, decode, ids, done, loads);
    BlamedConcat(db, ids, done, loads);
  }

  function Answer(db: Store, id: string): Option<string> {
    if Key(Documents, id) in db then Some(db[Key(Documents, id)]) else None
  }

  // ---------------------------------------------------------------- what the removals do

  /** The store after the removals a run asked for. */
  function Removed(db: Store, centroid: string, documents: seq<string>): Store
    decreases |documents|
  {
    if documents == [] then db
    else Removed(RemoveDocumentFromCentroid(db, centroid, documents[0]).db, centroid, documents[1..])
  }

  predicate AllColonFree(ids: seq<string>) {
    forall id <- ids :: ColonFree(id)
  }

  /**
   The removal of an existing document takes out its two keys with the centroid, and no removal does anything else.
   */
  lemma {:induction false} RemovedEffect(db: Store, centroid: string, documents: seq<string>, f: Family, a: string)
    requires ColonFree(centroid) && AllColonFree(documents) && Clean(f) && Key(Centroids, centroid) in db
    ensures Key(f, a) in Removed(db, centroid, documents) <==>
            && Key(f, a) in db
            && !(f == Forward(centroid) && a in documents && Key(Documents, a) in db)
            && !(f.Reverse? && a == centroid && f.id in documents && Key(Documents, f.id) in db)
    decreases |documents|
  {
    hide Key, ColonFree, RemoveDocumentFromCentroid;
    if documents != [] {
      var e := RemovedDocument(centroid, documents[0]);
      var db1 := Next(db, e);
      assert ColonFree(documents[0]);
      EventEffect(db, e, f, a);
      EventEffect(db, e, Centroids, centroid);
      EventEffect(db, e, Documents, a);
      if f.Reverse? {
        EventEffect(db, e, Documents, f.id);
      }
      RemovedEffect(db1, centroid, documents[1..], f, a);
    }
  }

  lemma {:induction false} RemovedLast(db: Store, centroid: string, documents: seq<string>, d: string)
    ensures Removed(db, centroid, documents + [d])
         == RemoveDocumentFromCentroid(Removed(db, centroid, documents), centroid, d).db
    decreases |documents|
  {
    hide RemoveDocumentFromCentroid;
    if documents == [] {
      assert (documents + [d])[1..] == [];
    } else {
      assert (documents + [d])[1..] == documents[1..] + [d];
      RemovedLast(RemoveDocumentFromCentroid(db, centroid, documents[0]).db, centroid, documents[1..], d);
    }
  }

  /** Removals only take keys out. */
  lemma {:induction false} RemovedIsPart(db: Store, centroid: string, documents: seq<string>, key: string)
    requires key in Removed(db, centroid, documents)
    ensures key in db && Removed(db, centroid, documents)[key] == db[key]
    decreases |documents|
  {
    hide Key;
    if documents != [] {
      RemovedIsPart(RemoveDocumentFromCentroid(db, centroid, documents[0]).db, centroid, documents[1..], key);
    }
  }

  /** So a load does not see them. */
  lemma AnswerStays(db: Store, centroid: string, documents: seq<string>, id: string)
    requires ColonFree(centroid) && AllColonFree(documents) && Key(Centroids, centroid) in db
    ensures Answer(Removed(db, centroid, documents), id) == Answer(db, id)
  {
    hide Key, ColonFree, Removed;
    RemovedEffect(db, centroid, documents, Documents, id);
    if Key(Documents, id) in db {
      RemovedIsPart(db, centroid, documents, Key(Documents, id));
    }
  }

  lemma {:induction false} RemovedMissing(db: Store, centroid: string, documents: seq<string>)
    requires forall d <- documents :: Key(Documents, d) !in db
    ensures Removed(db, centroid, documents) == db
    decreases |documents|
  {
    hide Key;
    if documents != [] {
      assert Key(Documents, documents[0]) !in db;
      RemovedMissing(db, centroid, documents[1..]);
    }
  }

  lemma {:induction false} BlamedOnes(db: Store, ids: seq<string>, loads: seq<Load>, d: string)
    requires Inside(loads, |ids|) && d in Blamed(db, ids, loads)
    ensures d in ids
    ensures BlamesItself(loads) ==> Key(Documents, d) !in db
    decreases |loads|
  {
    hide Key;
    if d != ids[loads[0].blamed] || Key(Documents, ids[loads[0].at]) in db {
      BlamedOnes(db, ids, loads[1..], d);
    } else {
      assert loads[0] in loads;
    }
  }

  /** Each load is at or before a position, and the one blamed is not after it. */
  predicate Behind(loads: seq<Load>, bound: nat) {
    forall load <- loads :: load.blamed <= load.at <= bound
  }

  lemma {:induction false} PageBehind(base: nat, size: nat, batch: nat, docNum: nat)
    requires batch >= 1 && size >= 1
    ensures Behind(PageLoads(base, size, batch, docNum), base + size - 1)
    decreases size - docNum
  {
    if docNum < size {
      PageBehind(base, size, batch, docNum + batch);
    }
  }

  /** An existing document whose removal is asked for comes before the last position loaded. */
  lemma {:induction false} BlamedBehind(db: Store, ids: seq<string>, loads: seq<Load>, bound: nat, d: string)
    requires Inside(loads, |ids|) && Behind(loads, bound) && bound < |ids|
    requires d in Blamed(db, ids, loads) && Key(Documents, d) in db
    ensures d in ids[..bound]
    decreases |loads|
  {
    hide Key;
    if d != ids[loads[0].blamed] || Key(Documents, ids[loads[0].at]) in db {
      BlamedBehind(db, ids, loads[1..], bound, d);
    } else {
      assert loads[0] in loads;
      assert ids[..bound][loads[0].blamed] == d;
    }
  }

  /** Whichever of those removals have been carried out, the list from that position on is the same. */
  lemma ListStays(db: Store, centroid: string, loads: seq<Load>, bound: nat, last: nat, landed: seq<string>)
    requires var all := Ids(db, Forward(centroid));
      && Inside(loads, |all|) && Behind(loads, bound) && bound <= last < |all| && AllColonFree(all)
      && forall d <- landed :: d in Blamed(db, all, loads)
    requires ColonFree(centroid) && Key(Centroids, centroid) in db
    ensures AllColonFree(landed)
    ensures var all := Ids(db, Forward(centroid));
      IdsFrom(Removed(db, centroid, landed), Forward(centroid), all[last]) == all[last..]
  {
    hide ColonFree, Removed, Blamed, Ascending, IdSet, Inside, Behind, Prefix, Joined;
    var all, p := Ids(db, Forward(centroid)), Prefix(Forward(centroid));
    forall d <- landed ensures d in all {
      BlamedOnes(db, all, loads, d);
    }
    var db' := Removed(db, centroid, landed);
    var ids, ids' := IdSet(db.Keys, p), IdSet(db'.Keys, p);
    forall d ensures d in NotBefore(ids', all[last]) <==> d in NotBefore(ids, all[last]) {
      IdSetMembers(db.Keys, p, d);
      IdSetMembers(db'.Keys, p, d);
      RemovedEffect(db, centroid, landed, Forward(centroid), d);
      if d in landed && Key(Documents, d) in db {
        BlamedBehind(db, all, loads, bound, d);
        var k :| 0 <= k < bound && all[k] == d;
        AscendingIsSorted(ids, k, last);
      }
    }
    assert NotBefore(ids', all[last]) == NotBefore(ids, all[last]);
    IdsFromIsSuffix(db, Forward(centroid), last);
  }

  lemma MembersAreColonFree(db: Store, centroidId: string)
    requires Anchored(db) && ColonFree(centroidId)
    ensures forall d <- Ids(db, Forward(centroidId)) :: ColonFree(d) && Key(Forward(centroidId), d) in db
    ensures forall d :: Key(Forward(centroidId), d) in db ==> d in Ids(db, Forward(centroidId))
  {
    hide ColonFree, Ascending, IdSet;
    forall d ensures d in Ids(db, Forward(centroidId)) <==> Key(Forward(centroidId), d) in db {
      IdSetMembers(db.Keys, Prefix(Forward(centroidId)), d);
    }
  }

  // ---------------------------------------------------------------- the run

  datatype Centroid = Centroid(scores: Vector, magnitudeSquared: real, documentWeight: nat)

  /** What a run saves, and whose removal it asks for on the way. */
  datatype Run = Saved(centroid: Centroid, removals: seq<string>) | CentroidGone

  /**
   The updater sends each removal as soon as it misses a document; nobody else changes the store meanwhile.  What it
   loads and lists is the same whether a removal has been carried out or not: see `AnswerStays` and `ListStays`.
   */
  class Updater {
    const persistence: SyncPersistence
    const centroidId: string
    const decode: string -> Document
    const encode: Centroid -> string

    constructor (persistence: SyncPersistence, centroidId: string, decode: string -> Document,
        encode: Centroid -> string)
      ensures this.persistence == persistence && this.centroidId == centroidId
      ensures this.decode == decode && this.encode == encode
    {
      this.persistence, this.centroidId, this.decode, this.encode := persistence, centroidId, decode, encode;
    }

    /** The store is what it was at the beginning, with the removals sent so far carried out. */
    ghost predicate Sent(db: Store, sent: seq<string>)
      reads persistence.rock
    {
      && persistence.rock.db == Removed(db, centroidId, sent) && AllColonFree(sent)
      && ColonFree(centroidId) && Key(Centroids, centroidId) in db
    }

    /** The requests of a batch, answered in their order. */
    method Request(ids: seq<string>, docNum: nat, last: nat, ghost db: Store, ghost sent: seq<string>)
      returns (answers: seq<Option<string>>)
      requires docNum <= last < |ids| && Sent(db, sent)
      ensures |answers| == last - docNum + 1
      ensures forall k | 0 <= k < |answers| :: answers[k] == Answer(db, ids[docNum + k])
    {
      hide Key, Removed, ColonFree;
      answers := [];
      for i := docNum to last + 1
        invariant |answers| == i - docNum
        invariant forall k | 0 <= k < |answers| :: answers[k] == Answer(db, ids[docNum + k])
      {
        AnswerStays(db, centroidId, sent, ids[i]);
        var data := persistence.rock.Get(Key(Documents, ids[i]));
        answers := answers + [data];
      }
    }

    /** Adds a document that was found, or has a document removed in place of one that was missed. */
    method AddOrRemove(answer: Option<string>, blamed: string, accumulator: DocumentAccumulator, ghost db: Store,
        ghost sent: seq<string>, ghost all: seq<string>, ghost load: Load)
      returns (removals: seq<string>)
      requires Sent(db, sent) && AllColonFree(all)
      requires load.at < |all| && load.blamed < |all| && answer == Answer(db, all[load.at])
      requires blamed == all[load.blamed]
      requires accumulator.Valid() && !accumulator.moved
      modifies accumulator, persistence.rock
      ensures accumulator.Valid() && !accumulator.moved && Sent(db, sent + removals)
      ensures Progress(db, decode, all, [load], old(accumulator.docs), accumulator.docs, removals)
    {
      hide Key, Progress, AddsUp, Removed, ColonFree, RemoveDocumentFromCentroid;
      ProgressOne(db, decode, all, load, accumulator.docs);
      if answer.None? {
        RemovedLast(db, centroidId, sent, blamed);
        var _ := persistence.RemoveFromCentroid(centroidId, blamed);
        return [blamed];
      }
      assert sent + [] == sent;
      accumulator.AddDocument(decode(answer.value));
      return [];
    }

    /** Loads a batch, then adds what it found and has removed what it missed. */
    method Batch(ids: seq<string>, docNum: nat, last: nat, accumulator: DocumentAccumulator, ghost db: Store,
        ghost sent: seq<string>, ghost all: seq<string>, ghost base: nat)
      returns (removals: seq<string>)
      requires Sent(db, sent) && AllColonFree(all)
      requires docNum <= last < |ids| && base + |ids| <= |all| && ids == all[base..base + |ids|]
      requires accumulator.Valid() && !accumulator.moved
      modifies accumulator, persistence.rock
      ensures accumulator.Valid() && !accumulator.moved && Sent(db, sent + removals)
      ensures Progress(db, decode, all, BatchLoads(base, docNum, last), old(accumulator.docs), accumulator.docs,
                       removals)
    {
      hide Answer, Progress, AddsUp, Sent, AllColonFree;
      ghost var loads, before := BatchLoads(base, docNum, last), accumulator.docs;
      var answers := Request(ids, docNum, last, db, sent);
      removals := [];
      assert sent + [] == sent;
      NoProgress(db, decode, all, before);
      for i := 0 to |answers|
        invariant accumulator.Valid() && !accumulator.moved && Sent(db, sent + removals)
        invariant Progress(db, decode, all, loads[..i], before, accumulator.docs, removals)
      {
        ghost var mid := accumulator.docs;
        var asked := AddOrRemove(answers[i], ids[i], accumulator, db, sent + removals, all, loads[i]);
        ProgressMore(db, decode, all, before, loads[..i], mid, removals, [loads[i]], accumulator.docs, asked);
        assert sent + removals + asked == sent + (removals + asked);
        removals := removals + asked;
        assert loads[..i + 1] == loads[..i] + [loads[i]];
      }
      assert loads[..|loads|] == loads;
    }

    /** The loop over the batches of a page. */
    method Page(ids: seq<string>, batch: nat, accumulator: DocumentAccumulator, ghost db: Store,
        ghost sent: seq<string>, ghost all: seq<string>, ghost base: nat)
      returns (removals: seq<string>)
      requires Sent(db, sent) && AllColonFree(all)
      requires batch >= 1 && ids != [] && base + |ids| <= |all| && ids == all[base..base + |ids|]
      requires accumulator.Valid() && !accumulator.moved
      modifies accumulator, persistence.rock
      ensures accumulator.Valid() && !accumulator.moved && Sent(db, sent + removals)
      ensures Progress(db, decode, all, PageLoads(base, |ids|, batch, 0), old(accumulator.docs), accumulator.docs,
                       removals)
    {
      hide Key, Progress, BatchLoads, AddsUp, Sent, AllColonFree;
      ghost var before, done := accumulator.docs, [];
      removals := [];
      assert sent + [] == sent;
      NoProgress(db, decode, all, before);
      var docNum := 0;
      while docNum < |ids|
        invariant done + PageLoads(base, |ids|, batch, docNum) == PageLoads(base, |ids|, batch, 0)
        invariant accumulator.Valid() && !accumulator.moved && Sent(db, sent + removals)
        invariant Progress(db, decode, all, done, before, accumulator.docs, removals)
        decreases |ids| - docNum
      {
        ghost var mid, asked := accumulator.docs, removals;
        var last := Min(|ids| - 1, docNum + batch);
        var missed := Batch(ids, docNum, last, accumulator, db, sent + removals, all, base);
        assert sent + asked + missed == sent + (asked + missed);
        removals := removals + missed;
        ProgressMore(db, decode, all, before, done, mid, asked, BatchLoads(base, docNum, last), accumulator.docs,
                     missed);
        done := done + BatchLoads(base, docNum, last);
        docNum := docNum + batch;
      }
      assert done == PageLoads(base, |ids|, batch, 0);
    }

    /** The body of the loop over the pages: asks for the next page, then processes this one. */
    method PageAndNext(ids: seq<string>, page: nat, batch: nat, accumulator: DocumentAccumulator, ghost db: Store,
        ghost sent: seq<string>, ghost done: seq<Load>, ghost base: nat)
      returns (next: seq<string>, removals: seq<string>)
      requires page >= 2 && batch >= 1 && Sent(db, sent)
      requires var all := Ids(db, Forward(centroidId));
        && AllColonFree(all) && IsPage(all, base, page, ids)
        && Inside(done, |all|) && Behind(done, base) && sent == Blamed(db, all, done)
      requires accumulator.Valid() && !accumulator.moved
      modifies accumulator, persistence.rock
      ensures accumulator.Valid() && !accumulator.moved && Sent(db, sent + removals)
      ensures var all := Ids(db, Forward(centroidId));
        && Progress(db, decode, all, PageLoads(base, |ids|, batch, 0), old(accumulator.docs), accumulator.docs,
                    removals)
        && IsPage(all, base + |ids| - 1, page, next)
    {
      hide Key, Ids, IdsFrom, Progress, PageLoads, KeyValueStore.Page, AddsUp, Removed, Blamed, Inside, Behind;
      ghost var all := Ids(db, Forward(centroidId));
      NextPageFollows(all, base, page, ids);
      ListStays(db, centroidId, done, base, base + |ids| - 1, sent);
      var found := persistence.ListCentroidDocumentRangeFromDocumentId(centroidId, ids[|ids| - 1], page);
      next := found.value;
      removals := Page(ids, batch, accumulator, db, sent, all, base);
    }

    /** The loop over the pages of an existing centroid, from its first page on. */
    method Pages(first: seq<string>, page: nat, batch: nat, accumulator: DocumentAccumulator)
      returns (removals: seq<string>)
      requires page >= 2 && batch >= 1 && Sent(persistence.rock.db, [])
      requires AllColonFree(Ids(persistence.rock.db, Forward(centroidId)))
      requires first == KeyValueStore.Page(Ids(persistence.rock.db, Forward(centroidId)), 0, page)
      requires accumulator.Valid() && !accumulator.moved
      modifies accumulator, persistence.rock
      ensures accumulator.Valid() && !accumulator.moved && Sent(old(persistence.rock.db), removals)
      ensures var db := old(persistence.rock.db);
        var all := Ids(db, Forward(centroidId));
        Progress(db, decode, all, RunLoads(0, |all|, page, batch), old(accumulator.docs), accumulator.docs, removals)
    {
      hide Key, Ids, KeyValueStore.Page, Midway, Progress, RunLoads, AddsUp, Sent, AllColonFree;
      ghost var db, all, before := persistence.rock.db, Ids(persistence.rock.db, Forward(centroidId)), accumulator.docs;
      ghost var at := Place([], 0);
      var idSet := first;
      removals := [];
      Begins(db, decode, all, page, batch, before);
      if |idSet| > 0 {
        var more := true;
        while more
          invariant Midway(db, decode, all, page, batch, at, more, idSet, before, accumulator.docs, removals)
          invariant accumulator.Valid() && !accumulator.moved && Sent(db, removals)
          invariant at.base <= |all|
          decreases more, |all| - at.base
        {
          ghost var mid, asked := accumulator.docs, removals;
          MidwayPage(db, decode, all, page, batch, at, idSet, before, mid, asked);
          var next, missed := PageAndNext(idSet, page, batch, accumulator, db, removals, at.done, at.base);
          removals := removals + missed;
          at := Further(db, decode, all, page, batch, at, idSet, next, before, mid, accumulator.docs, asked, missed);
          idSet := next;
          more := |idSet| >= page;
        }
        Ends(db, decode, all, page, batch, at, idSet, before, accumulator.docs, removals);
      }
    }

    /** The run; at its end the centroid is as it was, so what was added up is saved. */
    method Run(page: nat, batch: nat) returns (run: Run)
      requires page >= 2 && batch >= 1 && ColonFree(centroidId)
      requires AllColonFree(Ids(persistence.rock.db, Forward(centroidId)))
      modifies persistence.rock
      ensures run.CentroidGone? <==> Key(Centroids, centroidId) !in old(persistence.rock.db)
      ensures run.CentroidGone? ==> persistence.rock.db == old(persistence.rock.db)
      ensures run.Saved? ==> IsResult(old(persistence.rock.db), centroidId, decode, page, batch, run)
      ensures run.Saved? ==>
                persistence.rock.db == SaveCentroid(Removed(old(persistence.rock.db), centroidId, run.removals),
                                                    centroidId, encode(run.centroid))
    {
      hide Key, Ids, Square, AddDocuments, Progress, IsResult, RunLoads, AllColonFree, SaveCentroid;
      ghost var db := persistence.rock.db;
      var exists_ := persistence.DoesCentroidExist(centroidId);
      if !exists_ {
        return CentroidGone;
      }
      var first := persistence.ListCentroidDocumentRangeFromOffset(centroidId, 0, page);
      var accumulator := new DocumentAccumulator();
      NothingSent(db);
      var removals := Pages(first.value, page, batch, accumulator);
      ResultOfProgress(db, centroidId, decode, page, batch, accumulator.docs, removals);
      var squared := accumulator.GetMagnitudeSquared();
      var count := accumulator.GetCount();
      var scores := accumulator.GetScores();
      RemovedEffect(db, centroidId, removals, Centroids, centroidId);
      exists_ := persistence.DoesCentroidExist(centroidId);
      if !exists_ {
        return CentroidGone;
      }
      var centroid := Centroid(scores, squared, count);
      persistence.SaveCentroidData(centroidId, encode(centroid));
      return Saved(centroid, removals);
    }

    lemma NothingSent(db: Store)
      requires persistence.rock.db == db && ColonFree(centroidId) && Key(Centroids, centroidId) in db
      ensures Sent(db, [])
    {}
  }

  /** The ids of a list from a position on, cut off at the size of a page. */
  ghost predicate IsPage(all: seq<string>, base: nat, page: nat, ids: seq<string>) {
    base < |all| && |ids| == Min(page, |all| - base) && ids == all[base..base + |ids|]
  }

  lemma ResultOfProgress(db: Store, centroidId: string, decode: string -> Document, page: nat, batch: nat,
      docs: seq<Document>, removals: seq<string>)
    requires page >= 2 && batch >= 1
    requires var all := Ids(db, Forward(centroidId));
        Progress(db, decode, all, RunLoads(0, |all|, page, batch), [], docs, removals)
    ensures IsResult(db, centroidId, decode, page, batch,
                     Saved(Centroid(AddDocuments(map[], docs), Square(AddDocuments(map[], docs)), |docs|), removals))
  {
    hide Ids, RunLoads, Loaded, Blamed, AddDocuments, Square, Inside;
    ghost var all := Ids(db, Forward(centroidId));
    ghost var found := Loaded(db, decode, all, RunLoads(0, |all|, page, batch));
    assert [] + found == found;
  }

  /** The loads done and the position of the page at hand. */
  datatype Place = Place(done: seq<Load>, base: nat)

  /** The state of a run between two pages: the page at hand, what is ahead and what has been done. */
  ghost predicate Midway(db: Store, decode: string -> Document, all: seq<string>, page: nat, batch: nat, at: Place,
      more: bool, ids: seq<string>, before: seq<Document>, docs: seq<Document>, removals: seq<string>)
    requires page >= 2 && batch >= 1
  {
    && (more ==> IsPage(all, at.base, page, ids))
    && Ahead(at.done, at.base, more, |all|, page, batch) && Behind(at.done, at.base)
    && Progress(db, decode, all, at.done, before, docs, removals)
  }

  lemma Begins(db: Store, decode: string -> Document, all: seq<string>, page: nat, batch: nat, docs: seq<Document>)
    requires page >= 2 && batch >= 1
    ensures var ids := KeyValueStore.Page(all, 0, page);
      if ids == [] then Progress(db, decode, all, RunLoads(0, |all|, page, batch), docs, docs, [])
      else Midway(db, decode, all, page, batch, Place([], 0), true, ids, docs, docs, [])
  {
    NoProgress(db, decode, all, docs);
    FirstPage(all, page);
  }

  lemma MidwayPage(db: Store, decode: string -> Document, all: seq<string>, page: nat, batch: nat, at: Place,
      ids: seq<string>, before: seq<Document>, docs: seq<Document>, removals: seq<string>)
    requires page >= 2 && batch >= 1 && Midway(db, decode, all, page, batch, at, true, ids, before, docs, removals)
    ensures IsPage(all, at.base, page, ids) && Inside(at.done, |all|) && Behind(at.done, at.base)
    ensures removals == Blamed(db, all, at.done)
  {}

  lemma Further(db: Store, decode: string -> Document, all: seq<string>, page: nat, batch: nat, at: Place,
      ids: seq<string>,
                next: seq<string>, before: seq<Document>, mid: seq<Document>, docs: seq<Document>, asked: seq<string>,
                missed: seq<string>) returns (at': Place)
    requires page >= 2 && batch >= 1 && Midway(db, decode, all, page, batch, at, true, ids, before, mid, asked)
    requires IsPage(all, at.base, page, ids) && IsPage(all, at.base + |ids| - 1, page, next)
    requires Progress(db, decode, all, PageLoads(at.base, |ids|, batch, 0), mid, docs, missed)
    ensures Midway(db, decode, all, page, batch, at', |next| >= page, next, before, docs, asked + missed)
    ensures at'.base <= |all| && (|next| >= page ==> |all| - at'.base < |all| - at.base)
  {
    hide Progress, PageLoads, RunLoads;
    var loads := PageLoads(at.base, |ids|, batch, 0);
    ProgressMore(db, decode, all, before, at.done, mid, asked, loads, docs, missed);
    PageDone(at.done, at.base, all, page, batch, ids, next);
    PageBehind(at.base, |ids|, batch, 0);
    at' := Place(at.done + loads, at.base + |ids| - 1);
  }

  lemma Ends(db: Store, decode: string -> Document, all: seq<string>, page: nat, batch: nat, at: Place,
      ids: seq<string>, before: seq<Document>, docs: seq<Document>, removals: seq<string>)
    requires page >= 2 && batch >= 1 && Midway(db, decode, all, page, batch, at, false, ids, before, docs, removals)
    ensures Progress(db, decode, all, RunLoads(0, |all|, page, batch), before, docs, removals)
  {
    hide Progress;
    assert at.done + [] == at.done;
  }

  /** What is done and what is ahead make up the run. */
  predicate Ahead(done: seq<Load>, base: nat, more: bool, n: nat, page: nat, batch: nat)
    requires page >= 2 && batch >= 1
  {
    base <= n && RunLoads(0, n, page, batch) == done + if more then RunLoads(base, n - base, page, batch) else []
  }

  /** A page further on: more is ahead just when the next page is full. */
  lemma PageDone(done: seq<Load>, base: nat, all: seq<string>, page: nat, batch: nat, ids: seq<string>,
      next: seq<string>)
    requires page >= 2 && batch >= 1 && Ahead(done, base, true, |all|, page, batch)
    requires IsPage(all, base, page, ids) && IsPage(all, base + |ids| - 1, page, next)
    ensures Ahead(done + PageLoads(base, |ids|, batch, 0), base + |ids| - 1, |next| >= page, |all|, page, batch)
    ensures |next| >= page ==> |all| - (base + |ids| - 1) < |all| - base
  {
    hide PageLoads, RunLoads;
    RunUnfolds(base, |all| - base, page, batch);
  }

  lemma FirstPage(all: seq<string>, page: nat)
    requires page >= 2
    ensures var ids := KeyValueStore.Page(all, 0, page); if ids == [] then all == [] else IsPage(all, 0, page, ids)
  {}

  /** The page asked for after a page begins with that page's last id. */
  lemma NextPageFollows(all: seq<string>, base: nat, page: nat, ids: seq<string>)
    requires page >= 2 && IsPage(all, base, page, ids)
    ensures var last := base + |ids| - 1;
      && last < |all| && ids[|ids| - 1] == all[last] && (|ids| == page ==> last > base)
      && IsPage(all, last, page, KeyValueStore.Page(all[last..], 0, page))
  {}

  /** The saved centroid adds up the documents found by the loads of the run. */
  ghost predicate IsResult(db: Store, centroidId: string, decode: string -> Document, page: nat, batch: nat, run: Run)
    requires page >= 2 && batch >= 1 && run.Saved?
  {
    var all := Ids(db, Forward(centroidId));
    var loads := RunLoads(0, |all|, page, batch);
    && Inside(loads, |all|)
    && var docs := Loaded(db, decode, all, loads);
    && run.centroid == Centroid(AddDocuments(map[], docs), Square(AddDocuments(map[], docs)), |docs|)
    && run.removals == Blamed(db, all, loads)
  }

  // ---------------------------------------------------------------- what the run is worth

  /** Those of the listed documents that exist, in order. */
  function Existing(db: Store, decode: string -> Document, ids: seq<string>): seq<Document> {
    if ids == [] then []
    else
      (if Key(Documents, ids[0]) in db then [decode(db[Key(Documents, ids[0])])] else [])
      + Existing(db, decode, ids[1..])
  }

  function Missing(db: Store, ids: seq<string>): seq<string> {
    if ids == [] then [] else (if Key(Documents, ids[0]) in db then [] else [ids[0]]) + Missing(db, ids[1..])
  }

  lemma {:induction false} EachOnce(db: Store, decode: string -> Document, ids: seq<string>, loads: seq<Load>, k: nat)
    requires |loads| == |ids| && k <= |ids| && forall i | 0 <= i < |ids| :: loads[i] == Load(i, i)
    ensures Inside(loads[k..], |ids|)
    ensures Loaded(db, decode, ids, loads[k..]) == Existing(db, decode, ids[k..])
    ensures Blamed(db, ids, loads[k..]) == Missing(db, ids[k..])
    decreases |ids| - k
  {
    hide Key;
    if k < |ids| {
      EachOnce(db, decode, ids, loads, k + 1);
      assert loads[k..][1..] == loads[k + 1..] && ids[k..][1..] == ids[k + 1..];
    }
  }

  /**
   Of a centroid that fits in a page and in a batch, the run saves the sum of its existing documents, each once, and
   asks for the removal of exactly those that are missing.
   */
  lemma SmallCentroidIsSum(db: Store, centroidId: string, decode: string -> Document, page: nat, batch: nat, run: Run)
    requires page >= 2 && batch >= 1 && run.Saved? && IsResult(db, centroidId, decode, page, batch, run)
    requires |Ids(db, Forward(centroidId))| <= page && |Ids(db, Forward(centroidId))| <= batch
    ensures var docs := Existing(db, decode, Ids(db, Forward(centroidId)));
      run.centroid == Centroid(AddDocuments(map[], docs), Square(AddDocuments(map[], docs)), |docs|)
    ensures run.removals == Missing(db, Ids(db, Forward(centroidId)))
  {
    hide Key, Ids, RunLoads, AddDocuments, Square, Loaded, Blamed, Existing, Missing;
    var all := Ids(db, Forward(centroidId));
    var loads := RunLoads(0, |all|, page, batch);
    SmallRun(|all|, page, batch);
    EachOnce(db, decode, all, loads, 0);
    assert loads[0..] == loads && all[0..] == all;
  }

  lemma {:induction false} BlamedContains(db: Store, ids: seq<string>, loads: seq<Load>, load: Load)
    requires Inside(loads, |ids|) && load in loads && Key(Documents, ids[load.at]) !in db
    ensures ids[load.blamed] in Blamed(db, ids, loads)
    decreases |loads|
  {
    hide Key;
    if loads[0] != load {
      BlamedContains(db, ids, loads[1..], load);
    }
  }

  /**
   When the first document past the first batch is missing, the run asks for the removal of the centroid's first one.
   */
  lemma MisaimedRemoval(db: Store, centroidId: string, decode: string -> Document, page: nat, batch: nat, run: Run)
    requires page >= 2 && batch >= 1 && run.Saved? && IsResult(db, centroidId, decode, page, batch, run)
    requires batch < Min(|Ids(db, Forward(centroidId))|, page)
    requires Key(Documents, Ids(db, Forward(centroidId))[batch]) !in db
    ensures Ids(db, Forward(centroidId))[0] in run.removals
  {
    hide Key, Ids, RunLoads, Loaded, Blamed, AddDocuments, Square;
    var all := Ids(db, Forward(centroidId));
    SecondBatchBlames(|all|, page, batch);
    BlamedContains(db, all, RunLoads(0, |all|, page, batch), Load(batch, 0));
  }

  // ---------------------------------------------------------------- the saved scores, in closed form

  /**
   How often the document at a position is loaded: once where its page is processed, which is the first page or a full
   one, and once more where a batch ends and the next begins; a position where two pages meet is counted for both.
   */
  lemma LoadedHowOften(n: nat, page: nat, batch: nat, at: nat)
    requires page >= 2 && batch >= 1 && at < n
    ensures var number, d := at / (page - 1), at % (page - 1);
      Occurrences(RunLoads(0, n, page, batch), at) ==
      (if number == 0 || (page - 1) * number + page <= n then (if d > 0 && d % batch == 0 then 2 else 1) else 0)
      + if d == 0 && number > 0 && (number == 1 || (page - 1) * (number - 1) + page <= n)
        then (if (page - 1) % batch == 0 then 2 else 1) else 0
  {
    RunOccurrences(0, n, page, batch, at);
  }

  /** The score of a word in the document stored under an id, 0 if there is none. */
  function ScoreIn(db: Store, decode: string -> Document, word: string): string -> real {
    id => if Key(Documents, id) in db then Total(decode(db[Key(Documents, id)]), word) else 0.0
  }

  /** The sum over the first `n` positions of how often each is loaded times what it counts. */
  function SumLoaded(loads: seq<Load>, ids: seq<string>, n: nat, f: string -> real): real
    requires n <= |ids|
  {
    if n == 0 then 0.0 else SumLoaded(loads, ids, n - 1, f) + Times(Occurrences(loads, n - 1) as real, f(ids[n - 1]))
  }

  lemma TimesNextNumber(k: nat, x: real)
    ensures Times((1 + k) as real, x) == Times(k as real, x) + x && Times(0.0, x) == 0.0
  {}

  lemma {:induction false} SumOfNoLoads(ids: seq<string>, n: nat, f: string -> real)
    requires n <= |ids|
    ensures SumLoaded([], ids, n, f) == 0.0
    decreases n
  {
    hide Times;
    if n > 0 {
      SumOfNoLoads(ids, n - 1, f);
      TimesNextNumber(0, f(ids[n - 1]));
    }
  }

  /** One more load counts what is at its position. */
  lemma {:induction false} SumOfOneMore(loads: seq<Load>, ids: seq<string>, n: nat, f: string -> real)
    requires n <= |ids| && loads != [] && loads[0].at < |ids|
    ensures SumLoaded(loads, ids, n, f)
         == SumLoaded(loads[1..], ids, n, f) + if loads[0].at < n then f(ids[loads[0].at]) else 0.0
    decreases n
  {
    hide Times;
    if n > 0 {
      SumOfOneMore(loads, ids, n - 1, f);
      TimesNextNumber(Occurrences(loads[1..], n - 1), f(ids[n - 1]));
    }
  }

  lemma {:induction false} ScoresOfLoads(db: Store, decode: string -> Document, ids: seq<string>, loads: seq<Load>,
      scores: Vector, word: string)
    requires Inside(loads, |ids|)
    ensures At(AddDocuments(scores, Loaded(db, decode, ids, loads)), word)
         == At(scores, word) + SumLoaded(loads, ids, |ids|, ScoreIn(db, decode, word))
    decreases |loads|
  {
    hide Key, AddWords, Times;
    if loads == [] {
      SumOfNoLoads(ids, |ids|, ScoreIn(db, decode, word));
    } else {
      assert loads[0] in loads;
      SumOfOneMore(loads, ids, |ids|, ScoreIn(db, decode, word));
      var key := Key(Documents, ids[loads[0].at]);
      if key in db {
        var doc := decode(db[key]);
        AddWordsAt(scores, doc, word);
        var rest := Loaded(db, decode, ids, loads[1..]);
        assert ([doc] + rest)[1..] == rest;
        ScoresOfLoads(db, decode, ids, loads[1..], AddWords(scores, doc), word);
      } else {
        assert [] + Loaded(db, decode, ids, loads[1..]) == Loaded(db, decode, ids, loads[1..]);
        ScoresOfLoads(db, decode, ids, loads[1..], scores, word);
      }
    }
  }

  lemma {:induction false} NumberOfLoads(db: Store, decode: string -> Document, ids: seq<string>, loads: seq<Load>)
    requires Inside(loads, |ids|)
    ensures |Loaded(db, decode, ids, loads)| as real == SumLoaded(loads, ids, |ids|, OneIfThere(db))
    decreases |loads|
  {
    hide Key, Times;
    if loads == [] {
      SumOfNoLoads(ids, |ids|, OneIfThere(db));
    } else {
      assert loads[0] in loads;
      SumOfOneMore(loads, ids, |ids|, OneIfThere(db));
      NumberOfLoads(db, decode, ids, loads[1..]);
    }
  }

  function OneIfThere(db: Store): string -> real {
    id => if Key(Documents, id) in db then 1.0 else 0.0
  }

  /**
   The saved centroid scores a word with the sum, over its listed documents that exist, of how often the document is
   loaded times the score the document gives the word; its weight is how many loads found a document; and its
   squared magnitude is the sum of the squares of those scores.
   */
  lemma SavedScores(db: Store, centroidId: string, decode: string -> Document, page: nat, batch: nat, run: Run,
      word: string)
    requires page >= 2 && batch >= 1 && run.Saved? && IsResult(db, centroidId, decode, page, batch, run)
    ensures var all := Ids(db, Forward(centroidId));
      var loads := RunLoads(0, |all|, page, batch);
      && At(run.centroid.scores, word) == SumLoaded(loads, all, |all|, ScoreIn(db, decode, word))
      && run.centroid.documentWeight as real == SumLoaded(loads, all, |all|, OneIfThere(db))
      && run.centroid.magnitudeSquared == Dot(run.centroid.scores, run.centroid.scores)
  {
    hide Ids, RunLoads, Key, Loaded, AddDocuments, Sum, SumLoaded;
    var all := Ids(db, Forward(centroidId));
    var loads := RunLoads(0, |all|, page, batch);
    ScoresOfLoads(db, decode, all, loads, map[], word);
    NumberOfLoads(db, decode, all, loads);
  }

  // ---------------------------------------------------------------- what the removals come to

  /** The removals change the store if and only if one of them names a document that exists. */
  lemma RemovalsActIffMisaimed(db: Store, centroidId: string, decode: string -> Document, page: nat, batch: nat,
      run: Run)
    requires page >= 2 && batch >= 1 && run.Saved? && IsResult(db, centroidId, decode, page, batch, run)
    requires Anchored(db) && ColonFree(centroidId) && Key(Centroids, centroidId) in db
    ensures Removed(db, centroidId, run.removals) != db <==> exists d <- run.removals :: Key(Documents, d) in db
    ensures |Ids(db, Forward(centroidId))| <= batch || page <= batch ==> Removed(db, centroidId, run.removals) == db
  {
    hide Key, Ids, RunLoads, Loaded, Blamed, AddDocuments, Square, ColonFree, Removed, Inside, Anchored, BlamesItself;
    var all := Ids(db, Forward(centroidId));
    var loads := RunLoads(0, |all|, page, batch);
    BlameIffOneBatch(|all|, page, batch);
    MembersAreColonFree(db, centroidId);
    forall d <- run.removals ensures d in all && (BlamesItself(loads) ==> Key(Documents, d) !in db) {
      BlamedOnes(db, all, loads, d);
    }
    if d :| d in run.removals && Key(Documents, d) in db {
      RemovedEffect(db, centroidId, run.removals, Forward(centroidId), d);
    } else {
      RemovedMissing(db, centroidId, run.removals);
    }
  }

  /**
   So the run cleans up nothing and may do harm: the missing document stays listed, while the centroid's first
   document, which exists, is no longer a member.
   */
  lemma MisaimedRemovalEndsMembership(db: Store, centroidId: string, decode: string -> Document, page: nat, batch: nat,
                                      run: Run)
    requires page >= 2 && batch >= 1 && run.Saved? && IsResult(db, centroidId, decode, page, batch, run)
    requires Anchored(db) && ColonFree(centroidId) && Key(Centroids, centroidId) in db
    requires batch < Min(|Ids(db, Forward(centroidId))|, page)
    requires var all := Ids(db, Forward(centroidId)); Key(Documents, all[batch]) !in db && Key(Documents, all[0]) in db
    ensures var all, db' := Ids(db, Forward(centroidId)), Removed(db, centroidId, run.removals);
      && Key(Forward(centroidId), all[0]) in db && Key(Forward(centroidId), all[0]) !in db'
      && Key(Reverse(all[0]), centroidId) !in db'
      && Key(Documents, all[0]) in db'
      && Key(Forward(centroidId), all[batch]) in db'
  {
    hide Key, Ids, RunLoads, Loaded, Blamed, AddDocuments, Square, ColonFree, Removed, Inside, Anchored;
    var all := Ids(db, Forward(centroidId));
    MembersAreColonFree(db, centroidId);
    MisaimedRemoval(db, centroidId, decode, page, batch, run);
    forall d <- run.removals ensures d in all {
      BlamedOnes(db, all, RunLoads(0, |all|, page, batch), d);
    }
    RemovedEffect(db, centroidId, run.removals, Forward(centroidId), all[0]);
    RemovedEffect(db, centroidId, run.removals, Reverse(all[0]), centroidId);
    RemovedEffect(db, centroidId, run.removals, Documents, all[0]);
    RemovedEffect(db, centroidId, run.removals, Forward(centroidId), all[batch]);
  }

  // ---------------------------------------------------------------- for which sizes runs aim well

  /** A store and a run on it, of a centroid with at most `limit` documents. */
  ghost predicate RunOf(db: Store, centroidId: string, limit: nat, page: nat, batch: nat, run: Run)
    requires page >= 2 && batch >= 1
  {
    && Anchored(db) && ColonFree(centroidId) && Key(Centroids, centroidId) in db
    && |Ids(db, Forward(centroidId))| <= limit
    && run.Saved? && exists decode :: IsResult(db, centroidId, decode, page, batch, run)
  }

  /** Whatever documents are missing, the removals of a run change nothing. */
  ghost predicate RunsAimed(limit: nat, page: nat, batch: nat)
    requires page >= 2 && batch >= 1
  {
    forall db, centroidId, run | RunOf(db, centroidId, limit, page, batch, run) ::
      Removed(db, centroidId, run.removals) == db
  }

  /**
   The removals of a run never change the store, whatever documents are missing, if and only if one batch covers a page
   or the whole centroid.
   */
  lemma RunsAimedIff(limit: nat, page: nat, batch: nat)
    requires page >= 2 && batch >= 1
    ensures RunsAimed(limit, page, batch) <==> limit <= batch || page <= batch
  {
    hide Anchored, ColonFree, Key, Ids, IsResult, Removed;
    if limit <= batch || page <= batch {
      forall db, centroidId, run | RunOf(db, centroidId, limit, page, batch, run)
        ensures Removed(db, centroidId, run.removals) == db
      {
        var decode :| IsResult(db, centroidId, decode, page, batch, run);
        RemovalsActIffMisaimed(db, centroidId, decode, page, batch, run);
      }
    } else {
      var centroidId := Named(1);
      NamedIsColonFree(1);
      var db, run := RunMisaims(centroidId, limit, page, batch);
    }
  }

  /** A centroid of one document more than a batch holds, the last of which is deleted. */
  lemma RunMisaims(centroidId: string, limit: nat, page: nat, batch: nat) returns (db: Store, run: Run)
    requires page >= 2 && batch >= 1 && limit > batch && page > batch && ColonFree(centroidId)
    ensures RunOf(db, centroidId, limit, page, batch, run) && Removed(db, centroidId, run.removals) != db
  {
    hide Anchored, ColonFree, Key, Ids, IsResult, Removed;
    var full := Fill(centroidId, batch + 1);
    db := WithoutMember(full, centroidId, batch);
    run := ResultExists(db, centroidId, page, batch);
    var decode :| IsResult(db, centroidId, decode, page, batch, run);
    var all := Ids(db, Forward(centroidId));
    assert all[batch] in all && all[0] in all;
    MisaimedRemovalEndsMembership(db, centroidId, decode, page, batch, run);
  }

  /** Deleting the document at a position leaves the list as it is. */
  lemma WithoutMember(db: Store, centroidId: string, i: nat) returns (db': Store)
    requires Anchored(db) && ColonFree(centroidId) && Key(Centroids, centroidId) in db
    requires 0 < i < |Ids(db, Forward(centroidId))|
    requires forall d <- Ids(db, Forward(centroidId)) :: Key(Documents, d) in db
    ensures Anchored(db') && Key(Centroids, centroidId) in db'
    ensures var all := Ids(db, Forward(centroidId));
      Ids(db', Forward(centroidId)) == all && Key(Documents, all[i]) !in db' && Key(Documents, all[0]) in db'
  {
    hide Anchored, ColonFree, Next, Ascending, IdSet, Prefix;
    var all := Ids(db, Forward(centroidId));
    var e := DeletedDocument(all[i]);
    MembersAreColonFree(db, centroidId);
    assert all[i] in all && all[0] in all;
    AscendingIsSorted(IdSet(db.Keys, Prefix(Forward(centroidId))), 0, i);
    db' := Next(db, e);
    KeepsAnchored(db, e);
    EventEffect(db, e, Centroids, centroidId);
    EventEffect(db, e, Documents, all[i]);
    EventEffect(db, e, Documents, all[0]);
    SameIds(db, db', centroidId, e);
  }

  lemma SameIds(db: Store, db': Store, centroidId: string, e: Event)
    requires e.DeletedDocument? && Allowed(e) && db' == Next(db, e) && ColonFree(centroidId)
    ensures Ids(db', Forward(centroidId)) == Ids(db, Forward(centroidId))
  {
    hide ColonFree, Next, Ascending, IdSet, Prefix, Joined;
    var p := Prefix(Forward(centroidId));
    forall d ensures d in IdSet(db'.Keys, p) <==> d in IdSet(db.Keys, p) {
      IdSetMembers(db.Keys, p, d);
      IdSetMembers(db'.Keys, p, d);
      EventEffect(db, e, Forward(centroidId), d);
    }
    assert IdSet(db'.Keys, p) == IdSet(db.Keys, p);
  }

  function Named(n: nat): string {
    seq(n, _ => 'a')
  }

  lemma NamedIsColonFree(n: nat)
    ensures ColonFree(Named(n))
  {}

  /** A store in which the centroid has `n` documents, all of which exist. */
  lemma {:induction false} Fill(centroidId: string, n: nat) returns (db: Store)
    requires ColonFree(centroidId)
    ensures Anchored(db) && Key(Centroids, centroidId) in db && |Ids(db, Forward(centroidId))| == n
    ensures forall d <- Ids(db, Forward(centroidId)) :: Key(Documents, d) in db
    ensures forall d :: Key(Forward(centroidId), d) in db ==> |d| < n
    decreases n
  {
    hide Key, ColonFree, Next, Ids;
    if n == 0 {
      db := EmptyCentroid(centroidId);
    } else {
      var db0 := Fill(centroidId, n - 1);
      NamedIsColonFree(n - 1);
      db := OneMore(db0, centroidId, Named(n - 1));
    }
  }

  lemma EmptyCentroid(centroidId: string) returns (db: Store)
    requires ColonFree(centroidId)
    ensures Anchored(db) && Key(Centroids, centroidId) in db && Ids(db, Forward(centroidId)) == []
    ensures forall d :: Key(Forward(centroidId), d) !in db
  {
    hide Key, ColonFree, Next, IdSet, Prefix;
    var e := CreatedCentroid(centroidId, "");
    db := Next(map[], e);
    KeepsAnchored(map[], e);
    EventEffect(map[], e, Centroids, centroidId);
    forall d ensures Key(Forward(centroidId), d) !in db {
      EventEffect(map[], e, Forward(centroidId), d);
    }
    assert IdSet(db.Keys, Prefix(Forward(centroidId))) == {} by {
      NoIds(db, Forward(centroidId));
    }
  }

  lemma NoIds(db: Store, f: Family)
    requires forall d :: Key(f, d) !in db
    ensures IdSet(db.Keys, Prefix(f)) == {}
  {
    hide Prefix, IdSet;
    forall d ensures d !in IdSet(db.Keys, Prefix(f)) {
      IdSetMembers(db.Keys, Prefix(f), d);
      assert Key(f, d) !in db;
    }
  }

  lemma OneMore(db0: Store, centroidId: string, d: string) returns (db: Store)
    requires Anchored(db0) && ColonFree(centroidId) && ColonFree(d)
    requires Key(Centroids, centroidId) in db0 && Key(Forward(centroidId), d) !in db0
    requires forall x <- Ids(db0, Forward(centroidId)) :: Key(Documents, x) in db0
    ensures Anchored(db) && Key(Centroids, centroidId) in db
    ensures |Ids(db, Forward(centroidId))| == |Ids(db0, Forward(centroidId))| + 1
    ensures forall x <- Ids(db, Forward(centroidId)) :: Key(Documents, x) in db
    ensures forall x :: Key(Forward(centroidId), x) in db ==> x == d || Key(Forward(centroidId), x) in db0
  {
    hide Anchored, Key, ColonFree, Next, Ids;
    var saved, added := SavedDocument(d, "", ""), AddedDocument(centroidId, d);
    var db1 := Next(db0, saved);
    db := Next(db1, added);
    KeepsAnchored(db0, saved);
    KeepsAnchored(db1, added);
    EventEffect(db0, saved, Centroids, centroidId);
    EventEffect(db0, saved, Documents, d);
    EventEffect(db0, saved, Forward(centroidId), d);
    EventEffect(db1, added, Centroids, centroidId);
    forall x
      ensures Key(Forward(centroidId), x) in db <==> x == d || Key(Forward(centroidId), x) in db0
      ensures Key(Documents, x) in db <==> x == d || Key(Documents, x) in db0
    {
      EventEffect(db0, saved, Forward(centroidId), x);
      EventEffect(db1, added, Forward(centroidId), x);
      EventEffect(db0, saved, Documents, x);
      EventEffect(db1, added, Documents, x);
    }
    OneMoreId(db0, db, Forward(centroidId), d);
  }

  lemma OneMoreId(db0: Store, db: Store, f: Family, d: string)
    requires Key(f, d) !in db0 && forall x :: Key(f, x) in db <==> x == d || Key(f, x) in db0
    ensures |Ids(db, f)| == |Ids(db0, f)| + 1
    ensures forall x :: x in Ids(db, f) <==> x == d || x in Ids(db0, f)
  {
    hide Prefix, IdSet, Joined;
    var ids, ids0 := IdSet(db.Keys, Prefix(f)), IdSet(db0.Keys, Prefix(f));
    forall x ensures (x in ids <==> Key(f, x) in db) && (x in ids0 <==> Key(f, x) in db0) {
      IdSetMembers(db.Keys, Prefix(f), x);
      IdSetMembers(db0.Keys, Prefix(f), x);
    }
    assert ids == ids0 + {d};
  }

  /** What a run on the store comes to. */
  lemma ResultExists(db: Store, centroidId: string, page: nat, batch: nat) returns (run: Run)
    requires page >= 2 && batch >= 1
    ensures run.Saved? && exists decode :: IsResult(db, centroidId, decode, page, batch, run)
  {
    hide Ids, RunLoads, Loaded, Blamed, AddDocuments, Square;
    var decode: string -> Document := _ => [];
    var all := Ids(db, Forward(centroidId));
    var loads := RunLoads(0, |all|, page, batch);
    RunInside(0, |all|, page, batch);
    var docs := Loaded(db, decode, all, loads);
    var scores := AddDocuments(map[], docs);
    run := Saved(Centroid(scores, Square(scores), |docs|), Blamed(db, all, loads));
    assert IsResult(db, centroidId, decode, page, batch, run);
  }

  lemma {:induction false} RunInside(base: nat, n: nat, page: nat, batch: nat)
    requires page >= 2 && batch >= 1
    ensures forall load <- RunLoads(base, n, page, batch) :: load.blamed <= load.at < base + n
    decreases n
  {
    hide RunLoads, PageLoads;
    if n == 0 {
      NoRun(base, page, batch);
    } else {
      RunUnfolds(base, n, page, batch);
      PageBehind(base, Min(n, page), batch, 0);
      if n >= page - 1 + page {
        RunInside(base + (page - 1), n - (page - 1), page, batch);
      }
    }
  }

  /**
   So with pages of `page` ids, batches of `batch` documents and centroids of up to `limit`, a true verdict vouches for
   a fresh centroid if and only if the clock is strict, the stamps land in order, and one batch covers a page or the
   centroid.
   */
  lemma VouchesIffOneBatch(strict: bool, ordered: bool, limit: nat, page: nat, batch: nat)
    requires page >= 2 && batch >= 1
    ensures Freshness.VouchesForFreshness(Freshness.Setting(strict, ordered, RunsAimed(limit, page, batch))) <==>
            strict && ordered && (limit <= batch || page <= batch)
  {
    RunsAimedIff(limit, page, batch);
    Freshness.VouchesIff(Freshness.Setting(strict, ordered, RunsAimed(limit, page, batch)));
  }
}
