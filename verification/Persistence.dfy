/**
 The two-way membership index on the key-value store.  A document's membership in a centroid is a forward key under
 the centroid and a reverse key under the document; deleting either side removes only its own keys.

 The functions say what each operation makes of the store, the class runs them on a handle, and the invariants range
 over all runs of operations whose ids hold no colon.
 */
module Persistence {
  import opened Lexicographic
  import opened KeyValueStore
  import opened Wrappers

  datatype Error =
    | CentroidDoesNotExist
    | CentroidAlreadyExists
    | DocumentDoesNotExist
    | DocumentAlreadyExists
    | DocumentAlreadyInCentroid
    | DocumentNotInCentroid

  datatype Result<+T> = Ok(value: T) | Err(error: Error)

  /** What an operation returns, and the store it leaves. */
  datatype Outcome = Outcome(result: Result<bool>, db: Store)

  // ---------------------------------------------------------------- keys

  /** The prefixes of keys, up to the colon. */
  datatype Family = Centroids | Documents | Forward(id: string) | Reverse(id: string) | OfCentroid(id: string)
      | OfDocument(id: string)

  function Prefix(f: Family): string {
    match f
    case Centroids => "centroids"
    case Documents => "documents"
    case Forward(id) => id + "__documents"
    case Reverse(id) => id + "__centroids"
    case OfCentroid(id) => id + "__centroid_metadata"
    case OfDocument(id) => id + "__document_metadata"
  }

  function Key(f: Family, rest: string): string {
    Joined(Prefix(f), rest)
  }

  /** No colon in the id. */
  predicate Clean(f: Family) {
    f.Centroids? || f.Documents? || ColonFree(f.id)
  }

  lemma SuffixTells(a: string, b: string, s: string, t: string)
    requires |s| == |t| && a + s == b + t
    ensures a == b && s == t
  {
    assert a == (a + s)[..|a|] && b == (b + t)[..|b|];
    assert s == (a + s)[|a|..] && t == (b + t)[|b|..];
  }

  function Last(s: string): char
    requires s != ""
  {
    s[|s| - 1]
  }

  /** The prefix tells its family: no two kinds of key meet, and no two ids. */
  lemma PrefixTells(f: Family, g: Family)
    requires Prefix(f) == Prefix(g)
    ensures f == g
  {
    assert "__documents"[2] != "__centroids"[2] && "__centroid_metadata"[2] != "__document_metadata"[2];
    assert Last(Prefix(f)) == Last(Prefix(g));
    match f {
      case Centroids =>
      case Documents =>
      case Forward(a) =>
        if g.Forward? || g.Reverse? {
          SuffixTells(a, g.id, "__documents", if g.Forward? then "__documents" else "__centroids");
        }
      case Reverse(a) =>
        if g.Forward? || g.Reverse? {
          SuffixTells(a, g.id, "__centroids", if g.Forward? then "__documents" else "__centroids");
        }
      case OfCentroid(a) =>
        if g.OfCentroid? || g.OfDocument? {
          SuffixTells(a, g.id, "__centroid_metadata",
                      if g.OfCentroid? then "__centroid_metadata" else "__document_metadata");
        }
      case OfDocument(a) =>
        if g.OfCentroid? || g.OfDocument? {
          SuffixTells(a, g.id, "__document_metadata",
                      if g.OfCentroid? then "__centroid_metadata" else "__document_metadata");
        }
    }
  }

  /** A key with a colon-free id tells its family and the rest. */
  lemma KeyTells(f: Family, a: string, g: Family, b: string)
    requires Clean(f) && Clean(g)
    ensures Key(f, a) == Key(g, b) <==> f == g && a == b
  {
    if Key(f, a) == Key(g, b) {
      JoinedInjective(Prefix(f), a, Prefix(g), b);
      PrefixTells(f, g);
    }
  }

  /** How the keys are written. */
  lemma KeyFormats(c: string, d: string, name: string)
    ensures Key(Centroids, c) == "centroids:" + c && Key(Documents, d) == "documents:" + d
    ensures Key(Forward(c), d) == c + "__documents:" + d && Key(Reverse(d), c) == d + "__centroids:" + c
    ensures Key(OfCentroid(c), name) == c + "__centroid_metadata:" + name
    ensures Key(OfDocument(d), name) == d + "__document_metadata:" + name
  {
    assert "centroids" + ":" == "centroids:" && "documents" + ":" == "documents:";
    assert c + "__documents" + ":" == c + "__documents:" && d + "__centroids" + ":" == d + "__centroids:";
    assert c + "__centroid_metadata" + ":" == c + "__centroid_metadata:";
    assert d + "__document_metadata" + ":" == d + "__document_metadata:";
  }

  // ---------------------------------------------------------------- operations on the store

  /** The store without the keys of a family. */
  function Without(db: Store, f: Family): Store {
    db - WithPrefix(db.Keys, Prefix(f))
  }

  function CreateNewCentroid(db: Store, centroid: string, data: string): Outcome {
    if Key(Centroids, centroid) in db then Outcome(Err(CentroidAlreadyExists), db)
    else Outcome(Ok(true), SaveCentroid(db, centroid, data))
  }

  function SaveCentroid(db: Store, centroid: string, data: string): Store {
    db[Key(Centroids, centroid) := data]
  }

  function DeleteCentroid(db: Store, centroid: string): Outcome {
    if Key(Centroids, centroid) !in db then Outcome(Err(CentroidDoesNotExist), db)
    else Outcome(Ok(true), Without(Without(db - {Key(Centroids, centroid)}, Forward(centroid)), OfCentroid(centroid)))
  }

  function SaveDocument(db: Store, document: string, data: string, created: string): Store {
    db[Key(Documents, document) := data][Key(OfDocument(document), "created_time") := created]
  }

  function SaveNewDocument(db: Store, document: string, data: string, created: string): Outcome {
    if Key(Documents, document) in db then Outcome(Err(DocumentAlreadyExists), db)
    else Outcome(Ok(true), SaveDocument(db, document, data, created))
  }

  function DeleteDocument(db: Store, document: string): Outcome {
    if Key(Documents, document) !in db then Outcome(Err(DocumentDoesNotExist), db)
    else Outcome(Ok(true), Without(Without(db - {Key(Documents, document)}, Reverse(document)), OfDocument(document)))
  }

  function AddDocumentToCentroid(db: Store, centroid: string, document: string): Outcome {
    if Key(Centroids, centroid) !in db then Outcome(Err(CentroidDoesNotExist), db)
    else if Key(Documents, document) !in db then Outcome(Err(DocumentDoesNotExist), db)
    else if Key(Forward(centroid), document) in db then Outcome(Err(DocumentAlreadyInCentroid), db)
    else Outcome(Ok(true), db[Key(Forward(centroid), document) := "1"][Key(Reverse(document), centroid) := "1"])
  }

  function RemoveDocumentFromCentroid(db: Store, centroid: string, document: string): Outcome {
    if Key(Centroids, centroid) !in db then Outcome(Err(CentroidDoesNotExist), db)
    else if Key(Documents, document) !in db then Outcome(Err(DocumentDoesNotExist), db)
    else
      var db1 := db - {Key(Reverse(document), centroid)};
      if Key(Forward(centroid), document) in db1 then Outcome(Ok(true), db1 - {Key(Forward(centroid), document)})
      else Outcome(Err(DocumentNotInCentroid), db1)
  }

  function SetCentroidMetadata(db: Store, centroid: string, name: string, value: string): Store {
    db[Key(OfCentroid(centroid), name) := value]
  }

  /** Some reverse key of the document is stored. */
  predicate InAnyCentroid(db: Store, document: string) {
    WithPrefix(db.Keys, Prefix(Reverse(document))) != {}
  }

  // ---------------------------------------------------------------- runs

  datatype Event =
    | CreatedCentroid(centroid: string, data: string)
    | SavedCentroid(centroid: string, data: string)
    | DeletedCentroid(centroid: string)
    | SavedDocument(document: string, data: string, created: string)
    | SavedNewDocument(document: string, data: string, created: string)
    | DeletedDocument(document: string)
    | AddedDocument(centroid: string, document: string)
    | RemovedDocument(centroid: string, document: string)
    | SetMetadata(centroid: string, name: string, value: string)

  predicate Allowed(e: Event) {
    match e
    case CreatedCentroid(c, _) => ColonFree(c)
    case SavedCentroid(c, _) => ColonFree(c)
    case DeletedCentroid(c) => ColonFree(c)
    case SavedDocument(d, _, _) => ColonFree(d)
    case SavedNewDocument(d, _, _) => ColonFree(d)
    case DeletedDocument(d) => ColonFree(d)
    case AddedDocument(c, d) => ColonFree(c) && ColonFree(d)
    case RemovedDocument(c, d) => ColonFree(c) && ColonFree(d)
    case SetMetadata(c, _, _) => ColonFree(c)
  }

  function Next(db: Store, e: Event): Store {
    match e
    case CreatedCentroid(c, data) => CreateNewCentroid(db, c, data).db
    case SavedCentroid(c, data) => SaveCentroid(db, c, data)
    case DeletedCentroid(c) => DeleteCentroid(db, c).db
    case SavedDocument(d, data, created) => SaveDocument(db, d, data, created)
    case SavedNewDocument(d, data, created) => SaveNewDocument(db, d, data, created).db
    case DeletedDocument(d) => DeleteDocument(db, d).db
    case AddedDocument(c, d) => AddDocumentToCentroid(db, c, d).db
    case RemovedDocument(c, d) => RemoveDocumentFromCentroid(db, c, d).db
    case SetMetadata(c, name, value) => SetCentroidMetadata(db, c, name, value)
  }

  function After(db: Store, events: seq<Event>): Store
    decreases |events|
  {
    if events == [] then db else After(Next(db, events[0]), events[1..])
  }

  /** A run on an empty store, all of whose ids are free of colons. */
  predicate IsRun(events: seq<Event>) {
    forall e <- events :: Allowed(e)
  }

  predicate DeleteFree(events: seq<Event>) {
    forall e <- events :: !e.DeletedCentroid? && !e.DeletedDocument?
  }

  /** Deletes only a document that is in no centroid, or a centroid that has no document. */
  predicate Careful(db: Store, e: Event) {
    match e
    case DeletedDocument(d) => !InAnyCentroid(db, d)
    case DeletedCentroid(c) => WithPrefix(db.Keys, Prefix(Forward(c))) == {}
    case _ => true
  }

  predicate CarefulRun(db: Store, events: seq<Event>)
    decreases |events|
  {
    events == [] || (Careful(db, events[0]) && CarefulRun(Next(db, events[0]), events[1..]))
  }

  // ---------------------------------------------------------------- what every run keeps

  /** A forward key means the centroid exists, a reverse key that the document exists; all ids are free of colons. */
  ghost predicate Anchored(db: Store) {
    && (forall c :: Key(Centroids, c) in db ==> ColonFree(c))
    && (forall d :: Key(Documents, d) in db ==> ColonFree(d))
    && (forall c, d :: ColonFree(c) && Key(Forward(c), d) in db ==> ColonFree(d) && Key(Centroids, c) in db)
    && (forall c, d :: ColonFree(d) && Key(Reverse(d), c) in db ==> ColonFree(c) && Key(Documents, d) in db)
  }

  /** Forward and reverse keys say the same, and speak of existing documents. */
  ghost predicate Agree(db: Store) {
    forall c, d :: ColonFree(c) && ColonFree(d) ==> (Key(Forward(c), d) in db <==> Key(Reverse(d), c) in db)
  }

  lemma PutEffect(db: Store, f: Family, a: string, value: string, g: Family, b: string)
    requires Clean(f) && Clean(g)
    ensures Key(g, b) in db[Key(f, a) := value] <==> Key(g, b) in db || (g == f && b == a)
  {
    KeyTells(f, a, g, b);
  }

  lemma DelEffect(db: Store, f: Family, a: string, g: Family, b: string)
    requires Clean(f) && Clean(g)
    ensures Key(g, b) in db - {Key(f, a)} <==> Key(g, b) in db && !(g == f && b == a)
  {
    KeyTells(f, a, g, b);
  }

  lemma WithoutEffect(db: Store, f: Family, g: Family, b: string)
    requires Clean(f) && Clean(g)
    ensures Key(g, b) in Without(db, f) <==> Key(g, b) in db && g != f
  {
    var k, p := Key(g, b), Prefix(f);
    if p + ":" <= k {
      UnderPrefix(k, p);
      KeyTells(f, k[|p| + 1..], g, b);
    }
  }

  lemma UnderPrefix(key: string, prefix: string)
    requires prefix + ":" <= key
    ensures key == Joined(prefix, key[|prefix| + 1..])
  {}

  /** Which keys an event leaves, given which there were. */
  ghost predicate Leaves(db: Store, e: Event, f: Family, a: string) {
    match e
    case CreatedCentroid(c, _) => Key(f, a) in db || (f == Centroids && a == c)
    case SavedCentroid(c, _) => Key(f, a) in db || (f == Centroids && a == c)
    case DeletedCentroid(c) =>
      Key(f, a) in db && (Key(Centroids, c) in db ==>
          !(f == Centroids && a == c) && f != Forward(c) && f != OfCentroid(c))
    case SavedDocument(d, _, _) =>
        Key(f, a) in db || (f == Documents && a == d) || (f == OfDocument(d) && a == "created_time")
    case SavedNewDocument(d, _, _) =>
      Key(f, a) in db || (Key(Documents, d) !in db
          && ((f == Documents && a == d) || (f == OfDocument(d) && a == "created_time")))
    case DeletedDocument(d) =>
      Key(f, a) in db && (Key(Documents, d) in db ==>
          !(f == Documents && a == d) && f != Reverse(d) && f != OfDocument(d))
    case AddedDocument(c, d) =>
      || Key(f, a) in db
      || (&& Key(Centroids, c) in db && Key(Documents, d) in db && Key(Forward(c), d) !in db
          && ((f == Forward(c) && a == d) || (f == Reverse(d) && a == c)))
    case RemovedDocument(c, d) =>
      && Key(f, a) in db
      && (Key(Centroids, c) in db && Key(Documents, d) in db ==>
          !(f == Forward(c) && a == d) && !(f == Reverse(d) && a == c))
    case SetMetadata(c, name, _) => Key(f, a) in db || (f == OfCentroid(c) && a == name)
  }

  lemma EventEffect(db: Store, e: Event, f: Family, a: string)
    requires Allowed(e) && Clean(f)
    ensures Key(f, a) in Next(db, e) <==> Leaves(db, e, f, a)
  {
    hide Key, ColonFree, Without;
    match e {
      case CreatedCentroid(c, data) => PutEffect(db, Centroids, c, data, f, a);
      case SavedCentroid(c, data) => PutEffect(db, Centroids, c, data, f, a);
      case DeletedCentroid(c) =>
        var db1 := db - {Key(Centroids, c)};
        DelEffect(db, Centroids, c, f, a);
        WithoutEffect(db1, Forward(c), f, a);
        WithoutEffect(Without(db1, Forward(c)), OfCentroid(c), f, a);
      case SavedDocument(d, data, created) => SaveEffect(db, d, data, created, f, a);
      case SavedNewDocument(d, data, created) => SaveEffect(db, d, data, created, f, a);
      case DeletedDocument(d) =>
        var db1 := db - {Key(Documents, d)};
        DelEffect(db, Documents, d, f, a);
        WithoutEffect(db1, Reverse(d), f, a);
        WithoutEffect(Without(db1, Reverse(d)), OfDocument(d), f, a);
      case AddedDocument(c, d) =>
        PutEffect(db, Forward(c), d, "1", f, a);
        PutEffect(db[Key(Forward(c), d) := "1"], Reverse(d), c, "1", f, a);
      case RemovedDocument(c, d) =>
        DelEffect(db, Reverse(d), c, f, a);
        DelEffect(db - {Key(Reverse(d), c)}, Forward(c), d, f, a);
      case SetMetadata(c, name, value) => PutEffect(db, OfCentroid(c), name, value, f, a);
    }
  }

  lemma SaveEffect(db: Store, d: string, data: string, created: string, f: Family, a: string)
    requires ColonFree(d) && Clean(f)
    ensures Key(f, a) in SaveDocument(db, d, data, created) <==>
            Key(f, a) in db || (f == Documents && a == d) || (f == OfDocument(d) && a == "created_time")
  {
    hide Key, ColonFree;
    PutEffect(db, Documents, d, data, f, a);
    PutEffect(db[Key(Documents, d) := data], OfDocument(d), "created_time", created, f, a);
  }

  // ---------------------------------------------------------------- what is stored under each key

  /** What is stored under a key, if anything. */
  function Stored(db: Store, f: Family, a: string): Option<string> {
    if Key(f, a) in db then Some(db[Key(f, a)]) else None
  }

  lemma PutStored(db: Store, f: Family, a: string, value: string, g: Family, b: string)
    requires Clean(f) && Clean(g)
    ensures Stored(db[Key(f, a) := value], g, b) == if g == f && b == a then Some(value) else Stored(db, g, b)
  {
    KeyTells(f, a, g, b);
  }

  lemma DelStored(db: Store, f: Family, a: string, g: Family, b: string)
    requires Clean(f) && Clean(g)
    ensures Stored(db - {Key(f, a)}, g, b) == if g == f && b == a then None else Stored(db, g, b)
  {
    KeyTells(f, a, g, b);
  }

  lemma WithoutStored(db: Store, f: Family, g: Family, b: string)
    requires Clean(f) && Clean(g)
    ensures Stored(Without(db, f), g, b) == if g == f then None else Stored(db, g, b)
  {
    WithoutEffect(db, f, g, b);
  }

  lemma SaveStored(db: Store, d: string, data: string, created: string, f: Family, a: string)
    requires ColonFree(d) && Clean(f)
    ensures Stored(SaveDocument(db, d, data, created), f, a) ==
            if f == Documents && a == d then Some(data)
            else if f == OfDocument(d) && a == "created_time" then Some(created)
            else Stored(db, f, a)
  {
    hide Key, ColonFree;
    PutStored(db, Documents, d, data, f, a);
    PutStored(db[Key(Documents, d) := data], OfDocument(d), "created_time", created, f, a);
  }

  /** What each event leaves under every key: which of its arguments, nothing any more, or what was there before. */
  lemma EventLaw(db: Store, e: Event, f: Family, a: string)
    requires Allowed(e) && Clean(f)
    ensures Stored(Next(db, e), f, a) ==
            match e
            case CreatedCentroid(c, data) =>
              if f == Centroids && a == c && Stored(db, Centroids, c).None? then Some(data) else Stored(db, f, a)
            case SavedCentroid(c, data) =>
              if f == Centroids && a == c then Some(data) else Stored(db, f, a)
            case DeletedCentroid(c) =>
              if Stored(db, Centroids, c).Some? && ((f == Centroids && a == c) || f == Forward(c) || f == OfCentroid(c))
              then None else Stored(db, f, a)
            case SavedDocument(d, data, created) =>
              if f == Documents && a == d then Some(data)
              else if f == OfDocument(d) && a == "created_time" then Some(created)
              else Stored(db, f, a)
            case SavedNewDocument(d, data, created) =>
              if Stored(db, Documents, d).Some? then Stored(db, f, a)
              else if f == Documents && a == d then Some(data)
              else if f == OfDocument(d) && a == "created_time" then Some(created)
              else Stored(db, f, a)
            case DeletedDocument(d) =>
              if Stored(db, Documents, d).Some? && ((f == Documents && a == d) || f == Reverse(d) || f == OfDocument(d))
              then None else Stored(db, f, a)
            case AddedDocument(c, d) =>
              if && Stored(db, Centroids, c).Some? && Stored(db, Documents, d).Some? && Stored(db, Forward(c), d).None?
                 && ((f == Forward(c) && a == d) || (f == Reverse(d) && a == c))
              then Some("1") else Stored(db, f, a)
            case RemovedDocument(c, d) =>
              if && Stored(db, Centroids, c).Some? && Stored(db, Documents, d).Some?
                 && ((f == Forward(c) && a == d) || (f == Reverse(d) && a == c))
              then None else Stored(db, f, a)
            case SetMetadata(c, name, value) =>
              if f == OfCentroid(c) && a == name then Some(value) else Stored(db, f, a)
  {
    hide Key, ColonFree, Without;
    match e {
      case CreatedCentroid(c, data) => PutStored(db, Centroids, c, data, f, a);
      case SavedCentroid(c, data) => PutStored(db, Centroids, c, data, f, a);
      case DeletedCentroid(c) =>
        var db1 := db - {Key(Centroids, c)};
        DelStored(db, Centroids, c, f, a);
        WithoutStored(db1, Forward(c), f, a);
        WithoutStored(Without(db1, Forward(c)), OfCentroid(c), f, a);
      case SavedDocument(d, data, created) => SaveStored(db, d, data, created, f, a);
      case SavedNewDocument(d, data, created) => SaveStored(db, d, data, created, f, a);
      case DeletedDocument(d) =>
        var db1 := db - {Key(Documents, d)};
        DelStored(db, Documents, d, f, a);
        WithoutStored(db1, Reverse(d), f, a);
        WithoutStored(Without(db1, Reverse(d)), OfDocument(d), f, a);
      case AddedDocument(c, d) =>
        PutStored(db, Forward(c), d, "1", f, a);
        PutStored(db[Key(Forward(c), d) := "1"], Reverse(d), c, "1", f, a);
      case RemovedDocument(c, d) =>
        DelStored(db, Reverse(d), c, f, a);
        DelStored(db, Reverse(d), c, Forward(c), d);
        DelStored(db - {Key(Reverse(d), c)}, Forward(c), d, f, a);
      case SetMetadata(c, name, value) => PutStored(db, OfCentroid(c), name, value, f, a);
    }
  }

  lemma {:induction false} AfterConcat(db: Store, a: seq<Event>, b: seq<Event>)
    ensures After(db, a + b) == After(After(db, a), b)
    decreases |a|
  {
    hide Next;
    if a == [] {
      assert a + b == b;
    } else {
      assert (a + b)[1..] == a[1..] + b;
      AfterConcat(Next(db, a[0]), a[1..], b);
    }
  }

  /** Neither saves the document nor deletes it; a save meant for a new document is refused while it exists. */
  predicate SparesDocument(e: Event, d: string) {
    !(e.SavedDocument? && e.document == d) && !(e.DeletedDocument? && e.document == d)
  }

  predicate SparesCentroid(e: Event, c: string) {
    !(e.SavedCentroid? && e.centroid == c) && !(e.DeletedCentroid? && e.centroid == c)
  }

  lemma {:induction false} DocumentStays(db: Store, events: seq<Event>, d: string)
    requires IsRun(events) && ColonFree(d) && Stored(db, Documents, d).Some?
    requires forall e <- events :: SparesDocument(e, d)
    ensures Stored(After(db, events), Documents, d) == Stored(db, Documents, d)
    ensures Stored(After(db, events), OfDocument(d), "created_time") == Stored(db, OfDocument(d), "created_time")
    decreases |events|
  {
    hide ColonFree, Next, Stored, Allowed;
    if events != [] {
      assert SparesDocument(events[0], d);
      EventLaw(db, events[0], Documents, d);
      EventLaw(db, events[0], OfDocument(d), "created_time");
      DocumentStays(Next(db, events[0]), events[1..], d);
    }
  }

  lemma {:induction false} CentroidStays(db: Store, events: seq<Event>, c: string)
    requires IsRun(events) && ColonFree(c) && Stored(db, Centroids, c).Some?
    requires forall e <- events :: SparesCentroid(e, c)
    ensures Stored(After(db, events), Centroids, c) == Stored(db, Centroids, c)
    decreases |events|
  {
    hide ColonFree, Next, Stored, Allowed;
    if events != [] {
      assert SparesCentroid(events[0], c);
      EventLaw(db, events[0], Centroids, c);
      CentroidStays(Next(db, events[0]), events[1..], c);
    }
  }

  /** After any run, a document that has been saved holds the data and time of its last accepted save. */
  lemma LastSaveStands(before: seq<Event>, e: Event, after: seq<Event>, d: string, data: string, created: string)
    requires IsRun(before) && IsRun([e]) && IsRun(after) && ColonFree(d)
    requires || e == SavedDocument(d, data, created)
             || (e == SavedNewDocument(d, data, created) && Key(Documents, d) !in After(map[], before))
    requires forall x <- after ::
               !(x.SavedDocument? && x.document == d) && !(x.DeletedDocument? && x.document == d)
    ensures var db := After(map[], before + [e] + after);
      && Key(Documents, d) in db && db[Key(Documents, d)] == data
      && Key(OfDocument(d), "created_time") in db && db[Key(OfDocument(d), "created_time")] == created
  {
    hide ColonFree, Next, After, Key;
    AfterConcat(map[], before + [e], after);
    AfterMore(map[], before, e);
    var db0, db1 := After(map[], before), After(map[], before + [e]);
    assert Allowed([e][0]);
    EventLaw(db0, e, Documents, d);
    EventLaw(db0, e, OfDocument(d), "created_time");
    DocumentStays(db1, after, d);
  }

  /** The event is a save of the document, and not refused. */
  predicate AcceptedSave(before: seq<Event>, e: Event, d: string) {
    || (e.SavedDocument? && e.document == d)
    || (e.SavedNewDocument? && e.document == d && Key(Documents, d) !in After(map[], before))
  }

  lemma SavedOrThereBefore(before: seq<Event>, e: Event, d: string)
    requires IsRun(before + [e]) && ColonFree(d) && Key(Documents, d) in After(map[], before + [e])
    ensures AcceptedSave(before, e, d) || (SparesDocument(e, d) && Key(Documents, d) in After(map[], before))
  {
    hide ColonFree, Next, Key, After;
    AfterMore(map[], before, e);
    assert (before + [e])[|before|] == e;
    EventEffect(After(map[], before), e, Documents, d);
  }

  /** And a document that exists has been saved so. */
  lemma {:induction false} ExistsBySave(events: seq<Event>, d: string)
    returns (before: seq<Event>, e: Event, after: seq<Event>)
    requires IsRun(events) && ColonFree(d) && Key(Documents, d) in After(map[], events)
    ensures events == before + [e] + after && forall x <- after :: SparesDocument(x, d)
    ensures AcceptedSave(before, e, d)
    decreases |events|
  {
    hide ColonFree, Key, AcceptedSave, SparesDocument;
    assert events != [];
    var n := |events| - 1;
    var rest, last := events[..n], events[n];
    assert events == rest + [last];
    SavedOrThereBefore(rest, last, d);
    if AcceptedSave(rest, last, d) {
      before, e, after := rest, last, [];
    } else {
      before, e, after := ExistsBySave(rest, d);
      after := after + [last];
      assert events == before + [e] + after;
    }
  }

  /** After any run, a centroid holds what it was last saved with, or created with if it was not saved since. */
  lemma LastCentroidSaveStands(before: seq<Event>, e: Event, after: seq<Event>, c: string, data: string)
    requires IsRun(before) && IsRun([e]) && IsRun(after) && ColonFree(c)
    requires || e == SavedCentroid(c, data)
             || (e == CreatedCentroid(c, data) && Key(Centroids, c) !in After(map[], before))
    requires forall x <- after ::
               !(x.SavedCentroid? && x.centroid == c) && !(x.DeletedCentroid? && x.centroid == c)
    ensures var db := After(map[], before + [e] + after);
      Key(Centroids, c) in db && db[Key(Centroids, c)] == data
  {
    hide ColonFree, Next, After, Key;
    AfterConcat(map[], before + [e], after);
    AfterMore(map[], before, e);
    assert Allowed([e][0]);
    EventLaw(After(map[], before), e, Centroids, c);
    CentroidStays(After(map[], before + [e]), after, c);
  }

  lemma {:induction false} MetadataStays(db: Store, events: seq<Event>, c: string, name: string)
    requires IsRun(events) && ColonFree(c)
    requires forall x <- events ::
               !(x.SetMetadata? && x.centroid == c && x.name == name) && !(x.DeletedCentroid? && x.centroid == c)
    ensures Stored(After(db, events), OfCentroid(c), name) == Stored(db, OfCentroid(c), name)
    decreases |events|
  {
    hide ColonFree, Next, Stored, Allowed;
    if events != [] {
      EventLaw(db, events[0], OfCentroid(c), name);
      MetadataStays(Next(db, events[0]), events[1..], c, name);
    }
  }

  /** After any run, a centroid's metadata is what it was last set to, unless the centroid was deleted since. */
  lemma LastMetadataStands(before: seq<Event>, after: seq<Event>, c: string, name: string, value: string)
    requires IsRun(before) && IsRun(after) && ColonFree(c)
    requires forall x <- after ::
               !(x.SetMetadata? && x.centroid == c && x.name == name) && !(x.DeletedCentroid? && x.centroid == c)
    ensures var db := After(map[], before + [SetMetadata(c, name, value)] + after);
      Key(OfCentroid(c), name) in db && db[Key(OfCentroid(c), name)] == value
  {
    hide ColonFree, Next, After, Key;
    var e := SetMetadata(c, name, value);
    AfterConcat(map[], before + [e], after);
    AfterMore(map[], before, e);
    EventLaw(After(map[], before), e, OfCentroid(c), name);
    MetadataStays(After(map[], before + [e]), after, c, name);
  }

  // ---------------------------------------------------------------- keys over runs

  lemma KeepsAnchored(db: Store, e: Event)
    requires Anchored(db) && Allowed(e)
    ensures Anchored(Next(db, e))
  {
    hide Key, ColonFree, Next;
    var db' := Next(db, e);
    forall c | Key(Centroids, c) in db' ensures ColonFree(c) {
      EventEffect(db, e, Centroids, c);
    }
    forall d | Key(Documents, d) in db' ensures ColonFree(d) {
      EventEffect(db, e, Documents, d);
    }
    forall c, d | ColonFree(c) && Key(Forward(c), d) in db' ensures ColonFree(d) && Key(Centroids, c) in db' {
      EventEffect(db, e, Forward(c), d);
      EventEffect(db, e, Centroids, c);
    }
    forall c, d | ColonFree(d) && Key(Reverse(d), c) in db' ensures ColonFree(c) && Key(Documents, d) in db' {
      EventEffect(db, e, Reverse(d), c);
      EventEffect(db, e, Documents, d);
    }
  }

  lemma CarefulKeepsAgree(db: Store, e: Event)
    requires Anchored(db) && Agree(db) && Allowed(e) && Careful(db, e)
    ensures Agree(Next(db, e))
  {
    if e.DeletedCentroid? {
      StoredUnder(db, Forward(e.centroid));
    } else if e.DeletedDocument? {
      StoredUnder(db, Reverse(e.document));
    }
    hide Key, ColonFree, Next, WithPrefix, Prefix;
    forall c, d | ColonFree(c) && ColonFree(d)
      ensures Key(Forward(c), d) in Next(db, e) <==> Key(Reverse(d), c) in Next(db, e)
    {
      EventEffect(db, e, Forward(c), d);
      EventEffect(db, e, Reverse(d), c);
    }
  }

  lemma CarelessBreaksAgree(db: Store, e: Event)
    requires Anchored(db) && Agree(db) && Allowed(e) && !Careful(db, e)
    ensures !Agree(Next(db, e))
  {
    var c, d;
    if e.DeletedCentroid? {
      c := e.centroid;
      StoredUnder(db, Forward(c));
      d :| Key(Forward(c), d) in db;
    } else {
      d := e.document;
      StoredUnder(db, Reverse(d));
      c :| Key(Reverse(d), c) in db;
    }
    hide Key, ColonFree, Next, WithPrefix, Prefix;
    EventEffect(db, e, Forward(c), d);
    EventEffect(db, e, Reverse(d), c);
  }

  /** The keys of a family are those under its prefix. */
  lemma StoredUnder(db: Store, f: Family)
    ensures WithPrefix(db.Keys, Prefix(f)) != {} <==> exists a :: Key(f, a) in db
  {
    var p := Prefix(f);
    if k :| k in WithPrefix(db.Keys, p) {
      UnderPrefix(k, p);
      assert Key(f, k[|p| + 1..]) in db;
    }
    if a :| Key(f, a) in db {
      assert Key(f, a) in WithPrefix(db.Keys, p);
    }
  }

  /** Forward and reverse keys agree now and after every step of the run. */
  ghost predicate AlwaysAgree(db: Store, events: seq<Event>)
    decreases |events|
  {
    Agree(db) && (events == [] || AlwaysAgree(Next(db, events[0]), events[1..]))
  }

  /**
   Forward and reverse keys agree throughout a run exactly if it deletes only unused documents and empty centroids.
   */
  lemma {:induction false} AlwaysAgreeIffCareful(db: Store, events: seq<Event>)
    requires IsRun(events) && Anchored(db) && Agree(db)
    ensures AlwaysAgree(db, events) <==> CarefulRun(db, events)
    decreases |events|
  {
    hide Anchored, Agree, Next, Allowed, Careful;
    if events != [] {
      KeepsAnchored(db, events[0]);
      if Careful(db, events[0]) {
        CarefulKeepsAgree(db, events[0]);
        AlwaysAgreeIffCareful(Next(db, events[0]), events[1..]);
      } else {
        CarelessBreaksAgree(db, events[0]);
      }
    }
  }

  lemma {:induction false} DeleteFreeIsCareful(db: Store, events: seq<Event>)
    requires DeleteFree(events)
    ensures CarefulRun(db, events)
    decreases |events|
  {
    hide Next;
    if events != [] {
      DeleteFreeIsCareful(Next(db, events[0]), events[1..]);
    }
  }

  lemma {:induction false} RunKeeps(db: Store, events: seq<Event>)
    requires IsRun(events) && Anchored(db)
    ensures Anchored(After(db, events))
    ensures Agree(db) && CarefulRun(db, events) ==> Agree(After(db, events))
    decreases |events|
  {
    hide Anchored, Agree, Next, Allowed, Careful;
    if events != [] {
      KeepsAnchored(db, events[0]);
      if Agree(db) && CarefulRun(db, events) {
        CarefulKeepsAgree(db, events[0]);
      }
      RunKeeps(Next(db, events[0]), events[1..]);
    }
  }

  /** Every run, with deletes: a forward key means that the centroid exists, a reverse key that the document does. */
  lemma MembershipsAnchored(events: seq<Event>, centroid: string, document: string)
    requires IsRun(events) && ColonFree(centroid) && ColonFree(document)
    ensures var db := After(map[], events);
      && (Key(Forward(centroid), document) in db ==> Key(Centroids, centroid) in db)
      && (Key(Reverse(document), centroid) in db ==> Key(Documents, document) in db)
  {
    RunKeeps(map[], events);
  }

  /** Every run without deletes, and every careful one: forward and reverse keys agree. */
  lemma MembershipsAgree(events: seq<Event>, centroid: string, document: string)
    requires IsRun(events) && (DeleteFree(events) || CarefulRun(map[], events)) && ColonFree(centroid)
        && ColonFree(document)
    ensures Key(Forward(centroid), document) in After(map[], events) <==>
        Key(Reverse(document), centroid) in After(map[], events)
  {
    if DeleteFree(events) {
      DeleteFreeIsCareful(map[], events);
    }
    RunKeeps(map[], events);
  }

  // ---------------------------------------------------------------- unused documents

  ghost function UnusedDocuments(db: Store): set<string> {
    set d <- IdSet(db.Keys, Prefix(Documents)) | !InAnyCentroid(db, d)
  }

  lemma UnusedMembers(db: Store, d: string)
    ensures d in UnusedDocuments(db) <==> Key(Documents, d) in db && forall c :: Key(Reverse(d), c) !in db
  {
    IdSetMembers(db.Keys, Prefix(Documents), d);
    StoredUnder(db, Reverse(d));
  }

  /** The listing speaks truly of the document: it is unused if it exists and is in no centroid. */
  ghost predicate UnusedIsRight(db: Store, d: string) {
    d in UnusedDocuments(db) <==> Key(Documents, d) in db && forall c | ColonFree(c) :: Key(Forward(c), d) !in db
  }

  lemma UnusedInAgreement(db: Store, d: string)
    requires Anchored(db) && Agree(db)
    ensures UnusedIsRight(db, d)
  {
    hide Key, ColonFree, UnusedDocuments;
    UnusedMembers(db, d);
    if Key(Documents, d) in db {
      forall c | ColonFree(c) ensures Key(Forward(c), d) in db <==> Key(Reverse(d), c) in db {}
      forall c ensures Key(Reverse(d), c) in db ==> ColonFree(c) {}
    }
  }

  /** In runs without deletes, and in careful ones, the unused documents are those that exist and are in no centroid. */
  lemma UnusedMeansInNoCentroid(events: seq<Event>, d: string)
    requires IsRun(events) && (DeleteFree(events) || CarefulRun(map[], events))
    ensures UnusedIsRight(After(map[], events), d)
  {
    if DeleteFree(events) {
      DeleteFreeIsCareful(map[], events);
    }
    RunKeeps(map[], events);
    UnusedInAgreement(After(map[], events), d);
  }

  /** However the store is used from here on without deletes, the listing is right of every document. */
  ghost predicate UnusedStaysRight(db: Store) {
    forall events, d :: IsRun(events) && DeleteFree(events) ==> UnusedIsRight(After(db, events), d)
  }

  /**
   The listing of unused documents stays right if and only if forward and reverse keys agree: one key without its
   partner is enough for some use of the store without deletes to make it wrong.
   */
  lemma UnusedStaysRightIffAgree(db: Store)
    requires Anchored(db)
    ensures UnusedStaysRight(db) <==> Agree(db)
  {
    hide Key, ColonFree, UnusedIsRight, After, IsRun, DeleteFree, Anchored;
    if Agree(db) {
      forall events, d | IsRun(events) && DeleteFree(events) ensures UnusedIsRight(After(db, events), d) {
        DeleteFreeIsCareful(db, events);
        RunKeeps(db, events);
        UnusedInAgreement(After(db, events), d);
      }
    } else {
      var c, d :| ColonFree(c) && ColonFree(d) && !(Key(Forward(c), d) in db <==> Key(Reverse(d), c) in db);
      var events := LoneKeyMisleads(db, c, d);
    }
  }

  /** Saves the document and takes it out of all other centroids: the lone key is what is left. */
  lemma LoneKeyMisleads(db: Store, c: string, d: string) returns (events: seq<Event>)
    requires Anchored(db) && ColonFree(c) && ColonFree(d)
    requires !(Key(Forward(c), d) in db <==> Key(Reverse(d), c) in db)
    ensures IsRun(events) && DeleteFree(events) && !UnusedIsRight(After(db, events), d)
  {
    hide Key, ColonFree, UnusedDocuments, After, Next;
    var saved := SavedDocument(d, "", "");
    var db1 := Next(db, saved);
    KeepsAnchored(db, saved);
    EventEffect(db, saved, Documents, d);
    EventEffect(db, saved, Forward(c), d);
    EventEffect(db, saved, Reverse(d), c);
    var others := Members(db1, d);
    var rest := Purge(db1, d, others - {c});
    events := [saved] + rest;
    AfterFirst(db, saved, rest);
    RunKeeps(db, events);
    UnusedMembers(After(db, events), d);
    assert Key(Forward(c), d) in db <==> Key(Forward(c), d) in After(db, events);
    assert Key(Reverse(d), c) in db <==> Key(Reverse(d), c) in After(db, events);
    assert forall x | ColonFree(x) && x != c ::
        Key(Forward(x), d) !in After(db, events) && Key(Reverse(d), x) !in After(db, events);
  }

  lemma AfterFirst(db: Store, e: Event, rest: seq<Event>)
    ensures After(db, [e] + rest) == After(Next(db, e), rest)
  {
    assert ([e] + rest)[1..] == rest;
  }

  /** All centroids the document has a key with. */
  lemma Members(db: Store, d: string) returns (centroids: set<string>)
    requires Anchored(db) && ColonFree(d)
    ensures forall c <- centroids :: ColonFree(c)
    ensures forall c | ColonFree(c) :: Key(Forward(c), d) in db || Key(Reverse(d), c) in db ==> c in centroids
    ensures forall c :: Key(Reverse(d), c) in db ==> c in centroids
  {
    hide ColonFree, IdSet, Prefix;
    centroids := IdSet(db.Keys, Prefix(Centroids)) + IdSet(db.Keys, Prefix(Reverse(d)));
    forall c ensures c in centroids <==> Key(Centroids, c) in db || Key(Reverse(d), c) in db {
      IdSetMembers(db.Keys, Prefix(Centroids), c);
      IdSetMembers(db.Keys, Prefix(Reverse(d)), c);
    }
  }

  /** Exactly the keys of the document with these centroids are gone. */
  ghost predicate Purged(db: Store, d: string, centroids: set<string>, db': Store) {
    && Key(Documents, d) in db'
    && forall c | ColonFree(c) ::
         && (Key(Forward(c), d) in db' <==> Key(Forward(c), d) in db && c !in centroids)
         && (Key(Reverse(d), c) in db' <==> Key(Reverse(d), c) in db && c !in centroids)
  }

  /** Takes the document out of some centroids, each saved first in case it is gone. */
  lemma {:induction false} Purge(db: Store, d: string, centroids: set<string>) returns (events: seq<Event>)
    requires Key(Documents, d) in db && ColonFree(d) && forall c <- centroids :: ColonFree(c)
    ensures IsRun(events) && DeleteFree(events) && Purged(db, d, centroids, After(db, events))
    decreases |centroids|
  {
    hide Key, ColonFree, Next;
    events := [];
    if c :| c in centroids {
      var db1 := Next(Next(db, SavedCentroid(c, "")), RemovedDocument(c, d));
      TakesOut(db, c, d);
      var rest := Purge(db1, d, centroids - {c});
      events := [SavedCentroid(c, "")] + ([RemovedDocument(c, d)] + rest);
      AfterFirst(db, SavedCentroid(c, ""), [RemovedDocument(c, d)] + rest);
      AfterFirst(Next(db, SavedCentroid(c, "")), RemovedDocument(c, d), rest);
    }
  }

  lemma TakesOut(db: Store, c: string, d: string)
    requires Key(Documents, d) in db && ColonFree(c) && ColonFree(d)
    ensures Purged(db, d, {c}, Next(Next(db, SavedCentroid(c, "")), RemovedDocument(c, d)))
  {
    hide Key, ColonFree, Next;
    var saved, removed := SavedCentroid(c, ""), RemovedDocument(c, d);
    var db1 := Next(db, saved);
    EventEffect(db, saved, Centroids, c);
    EventEffect(db, saved, Documents, d);
    EventEffect(db1, removed, Documents, d);
    forall x | ColonFree(x)
      ensures Key(Forward(x), d) in Next(db1, removed) <==> Key(Forward(x), d) in db && x != c
      ensures Key(Reverse(d), x) in Next(db1, removed) <==> Key(Reverse(d), x) in db && x != c
    {
      EventEffect(db, saved, Forward(x), d);
      EventEffect(db, saved, Reverse(d), x);
      EventEffect(db1, removed, Forward(x), d);
      EventEffect(db1, removed, Reverse(d), x);
    }
  }

  /** The listing stays right from every point of the run on. */
  ghost predicate UnusedAlwaysRight(db: Store, events: seq<Event>)
    decreases |events|
  {
    UnusedStaysRight(db) && (events == [] || UnusedAlwaysRight(Next(db, events[0]), events[1..]))
  }

  /** Both together: the listing stays right from every point of a run on exactly if the run's deletes are careful. */
  lemma {:induction false} UnusedAlwaysRightIffCareful(db: Store, events: seq<Event>)
    requires IsRun(events) && Anchored(db) && Agree(db)
    ensures UnusedAlwaysRight(db, events) <==> CarefulRun(db, events)
    decreases |events|
  {
    hide Anchored, Agree, Next, Allowed, Careful, UnusedStaysRight;
    UnusedStaysRightIffAgree(db);
    if events != [] {
      KeepsAnchored(db, events[0]);
      if Careful(db, events[0]) {
        CarefulKeepsAgree(db, events[0]);
        UnusedAlwaysRightIffCareful(Next(db, events[0]), events[1..]);
      } else {
        CarelessBreaksAgree(db, events[0]);
        UnusedStaysRightIffAgree(Next(db, events[0]));
      }
    }
  }

  /** What the listing of unused documents has collected and counted. */
  datatype Found = Found(ids: seq<string>, numSeen: nat)

  /** Its callback: a limit of 0 is none. */
  function CollectUnused(db: Store, limit: nat): (Found, string) -> Step<Found> {
    (found: Found, key: string) =>
      if InAnyCentroid(db, IdOf(key)) then Step(found, false)
      else if limit == 0 then Step(Found(found.ids + [IdOf(key)], found.numSeen), false)
      else Step(Found(found.ids + [IdOf(key)], found.numSeen + 1), found.numSeen + 1 >= limit)
  }

  function Unused(db: Store): string -> bool {
    (id: string) => !InAnyCentroid(db, id)
  }

  /** All of a list, or its first `limit` elements. */
  function Limited(ids: seq<string>, limit: nat): seq<string> {
    if limit == 0 then ids else Page(ids, 0, limit)
  }

  /** A positive limit leaves a beginning of that length, or the whole list if it is no longer. */
  lemma LimitedIs(ids: seq<string>, limit: nat)
    ensures Limited(ids, 0) == ids && (|ids| <= limit ==> Limited(ids, limit) == ids)
    ensures 0 < limit <= |ids| ==> Limited(ids, limit) == ids[..limit]
  {
    assert ids[0..] == ids && ids[..|ids|] == ids;
  }

  /** The unused ids of a list of keys. */
  ghost function UnusedIds(db: Store, keys: seq<string>): seq<string> {
    Filter(Unused(db), IdsOf(keys))
  }

  lemma NoUnusedIds(db: Store)
    ensures UnusedIds(db, []) == []
  {}

  lemma UnusedIdsStep(db: Store, keys: seq<string>)
    requires keys != []
    ensures UnusedIds(db, keys)
        == (if InAnyCentroid(db, IdOf(keys[0])) then [] else [IdOf(keys[0])]) + UnusedIds(db, keys[1..])
  {
    hide InAnyCentroid, IdOf;
    assert IdsOf(keys) == [IdOf(keys[0])] + IdsOf(keys[1..]);
  }

  lemma {:induction false} CollectsAllUnused(db: Store, found: Found, keys: seq<string>)
    ensures FoldUntil(CollectUnused(db, 0), found, keys).ids == found.ids + UnusedIds(db, keys)
    decreases |keys|
  {
    hide InAnyCentroid, IdOf;
    if keys != [] {
      UnusedIdsStep(db, keys);
      CollectsAllUnused(db, CollectUnused(db, 0)(found, keys[0]).acc, keys[1..]);
    }
  }

  lemma {:induction false} CollectsUnused(db: Store, limit: nat, found: Found, keys: seq<string>)
    requires found.numSeen < limit
    ensures FoldUntil(CollectUnused(db, limit), found, keys).ids
        == found.ids + Page(UnusedIds(db, keys), 0, limit - found.numSeen)
    decreases |keys|
  {
    hide InAnyCentroid, IdOf, UnusedIds;
    if keys == [] {
      NoUnusedIds(db);
    } else {
      UnusedIdsStep(db, keys);
      var step := CollectUnused(db, limit)(found, keys[0]);
      if !step.escape {
        CollectsUnused(db, limit, step.acc, keys[1..]);
      }
    }
  }

  lemma CollectsLimited(db: Store, limit: nat, keys: seq<string>)
    ensures FoldUntil(CollectUnused(db, limit), Found([], 0), keys).ids == Limited(UnusedIds(db, keys), limit)
  {
    hide FoldUntil, UnusedIds, Page;
    if limit == 0 {
      CollectsAllUnused(db, Found([], 0), keys);
    } else {
      CollectsUnused(db, limit, Found([], 0), keys);
    }
  }

  lemma UnusedIdsAscending(db: Store)
    ensures UnusedIds(db, Ascending(WithPrefix(db.Keys, Prefix(Documents)))) == Ascending(UnusedDocuments(db))
  {
    hide Ascending, WithPrefix, IdsOf, IdSet, InAnyCentroid, Filter;
    ScanListsIds(db.Keys, Prefix(Documents));
    FilterAscending(Unused(db), IdSet(db.Keys, Prefix(Documents)));
    assert UnusedDocuments(db) == set d <- IdSet(db.Keys, Prefix(Documents)) | Unused(db)(d);
  }

  /** The listing of unused documents is the ascending list of them, cut off at a positive limit. */
  lemma ListsUnused(db: Store, limit: nat)
    ensures FoldUntil(CollectUnused(db, limit), Found([], 0), Ascending(WithPrefix(db.Keys, Prefix(Documents)))).ids ==
            Limited(Ascending(UnusedDocuments(db)), limit)
  {
    hide FoldUntil, Ascending, WithPrefix, UnusedIds, Limited, UnusedDocuments;
    CollectsLimited(db, limit, Ascending(WithPrefix(db.Keys, Prefix(Documents))));
    UnusedIdsAscending(db);
  }

  // ---------------------------------------------------------------- what deletes leave behind

  /** The document in the centroid, both of them new. */
  function Joining(c: string, d: string): seq<Event> {
    [CreatedCentroid(c, ""), SavedNewDocument(d, "", ""), AddedDocument(c, d)]
  }

  lemma {:induction false} AfterMore(db: Store, events: seq<Event>, e: Event)
    ensures After(db, events + [e]) == Next(After(db, events), e)
    decreases |events|
  {
    hide Next;
    if events == [] {
      assert (events + [e])[1..] == [];
      assert After(Next(db, e), []) == Next(db, e);
    } else {
      AfterMore(Next(db, events[0]), events[1..], e);
      assert (events + [e])[1..] == events[1..] + [e];
    }
  }

  /** Takes one more step of a run, and says which keys it leaves. */
  lemma Extend(events: seq<Event>, e: Event) returns (more: seq<Event>)
    requires IsRun(events) && Allowed(e)
    ensures more == events + [e] && IsRun(more)
    ensures forall f, a | Clean(f) :: Key(f, a) in After(map[], more) <==> Leaves(After(map[], events), e, f, a)
  {
    hide Key, Next, Leaves, Allowed, ColonFree;
    more := events + [e];
    AfterMore(map[], events, e);
    forall f, a | Clean(f) ensures Key(f, a) in After(map[], more) <==> Leaves(After(map[], events), e, f, a) {
      EventEffect(After(map[], events), e, f, a);
    }
  }

  lemma BothSaved(c: string, d: string) returns (events: seq<Event>)
    requires ColonFree(c) && ColonFree(d)
    ensures events == [CreatedCentroid(c, ""), SavedNewDocument(d, "", "")] && IsRun(events)
    ensures var db := After(map[], events);
        Key(Centroids, c) in db && Key(Documents, d) in db && Key(Forward(c), d) !in db
  {
    assert After(map[], []) == map[];
    hide Key, Next, ColonFree, After;
    events := Extend([], CreatedCentroid(c, ""));
    assert Key(Centroids, c) in After(map[], events) && Key(Forward(c), d) !in After(map[], events);
    events := Extend(events, SavedNewDocument(d, "", ""));
  }

  lemma Join(c: string, d: string)
    requires ColonFree(c) && ColonFree(d)
    ensures var db := After(map[], Joining(c, d));
      && IsRun(Joining(c, d))
      && Key(Centroids, c) in db && Key(Documents, d) in db && Key(Forward(c), d) in db && Key(Reverse(d), c) in db
  {
    hide Key, Next, ColonFree, After;
    var events := BothSaved(c, d);
    events := Extend(events, AddedDocument(c, d));
    assert events == Joining(c, d);
  }

  /** Deleting a member document leaves its forward key, deleting its centroid leaves its reverse key. */
  lemma DeletesBreakAgreement(c: string, d: string)
    requires ColonFree(c) && ColonFree(d)
    ensures var db := After(map[], Joining(c, d) + [DeletedDocument(d)]);
        Key(Forward(c), d) in db && Key(Reverse(d), c) !in db
    ensures var db := After(map[], Joining(c, d) + [DeletedCentroid(c)]);
        Key(Forward(c), d) !in db && Key(Reverse(d), c) in db
  {
    hide Key, Next, ColonFree, Joining, After;
    Join(c, d);
    var _ := Extend(Joining(c, d), DeletedDocument(d));
    var _ := Extend(Joining(c, d), DeletedCentroid(c));
  }

  /**
   A document deleted and saved again is a member of its old centroid by the forward key alone: adding it is refused
   and restores nothing, and it counts as unused.
   */
  lemma RecreatedDocumentCountsAsUnused(c: string, d: string)
    requires ColonFree(c) && ColonFree(d)
    ensures var events := Joining(c, d) + [DeletedDocument(d)] + [SavedNewDocument(d, "", "")];
      var db := After(map[], events);
      && IsRun(events)
      && Key(Forward(c), d) in db
      && AddDocumentToCentroid(db, c, d) == Outcome(Err(DocumentAlreadyInCentroid), db)
      && d in UnusedDocuments(db)
  {
    Join(c, d);
    hide Key, Next, ColonFree, Joining, After, UnusedDocuments;
    var events := Extend(Joining(c, d), DeletedDocument(d));
    events := Extend(events, SavedNewDocument(d, "", ""));
    UnusedMembers(After(map[], events), d);
  }

  // ---------------------------------------------------------------- on a handle

  /** The ids under a prefix, in ascending order. */
  ghost function Ids(db: Store, f: Family): seq<string> {
    Ascending(IdSet(db.Keys, Prefix(f)))
  }

  /** Those from a given id on. */
  ghost function IdsFrom(db: Store, f: Family, start: string): seq<string> {
    Ascending(NotBefore(IdSet(db.Keys, Prefix(f)), start))
  }

  /** A listing has the ids stored under the prefix, each once, in order; from an id on, those not before it. */
  lemma ListingsAre(db: Store, f: Family, start: string)
    ensures forall d :: d in Ids(db, f) <==> Key(f, d) in db
    ensures forall d :: d in IdsFrom(db, f, start) <==> Key(f, d) in db && !Before(d, start)
    ensures forall i, j | 0 <= i < j < |Ids(db, f)| :: Before(Ids(db, f)[i], Ids(db, f)[j])
    ensures forall i, j | 0 <= i < j < |IdsFrom(db, f, start)| ::
              Before(IdsFrom(db, f, start)[i], IdsFrom(db, f, start)[j])
  {
    hide Ascending, IdSet, Before, Prefix;
    var all := IdSet(db.Keys, Prefix(f));
    forall d ensures d in all <==> Key(f, d) in db {
      IdSetMembers(db.Keys, Prefix(f), d);
    }
    forall i, j | 0 <= i < j < |Ids(db, f)| ensures Before(Ids(db, f)[i], Ids(db, f)[j]) {
      AscendingIsSorted(all, i, j);
    }
    forall i, j | 0 <= i < j < |IdsFrom(db, f, start)|
      ensures Before(IdsFrom(db, f, start)[i], IdsFrom(db, f, start)[j])
    {
      AscendingIsSorted(NotBefore(all, start), i, j);
    }
  }

  /** Paging by id: a page that starts with the id at position `i` goes on from there, that id included. */
  lemma IdsFromIsSuffix(db: Store, f: Family, i: nat)
    requires i < |Ids(db, f)|
    ensures IdsFrom(db, f, Ids(db, f)[i]) == Ids(db, f)[i..]
  {
    FromElementOn(IdSet(db.Keys, Prefix(f)), i);
  }

  class SyncPersistence {
    const rock: RockHandle

    constructor (rock: RockHandle)
      ensures this.rock == rock
    {
      this.rock := rock;
    }

    method DoesCentroidExist(centroid: string) returns (found: bool)
      ensures found <==> Key(Centroids, centroid) in rock.db
    {
      found := rock.Exists(Key(Centroids, centroid));
    }

    method DoesDocumentExist(document: string) returns (found: bool)
      ensures found <==> Key(Documents, document) in rock.db
    {
      found := rock.Exists(Key(Documents, document));
    }

    method CreateCentroid(centroid: string, data: string) returns (result: Result<bool>)
      modifies rock
      ensures Outcome(result, rock.db) == CreateNewCentroid(old(rock.db), centroid, data)
      ensures result == Err(CentroidAlreadyExists) <==> Key(Centroids, centroid) in old(rock.db)
      ensures result == Ok(true) <==> Key(Centroids, centroid) !in old(rock.db)
      ensures result.Err? ==> rock.db == old(rock.db)
    {
      var found := rock.Exists(Key(Centroids, centroid));
      if found {
        return Err(CentroidAlreadyExists);
      }
      rock.Put(Key(Centroids, centroid), data);
      return Ok(true);
    }

    method SaveCentroidData(centroid: string, data: string)
      modifies rock
      ensures rock.db == SaveCentroid(old(rock.db), centroid, data)
    {
      rock.Put(Key(Centroids, centroid), data);
    }

    method SaveDocumentData(document: string, data: string, created: string)
      modifies rock
      ensures rock.db == SaveDocument(old(rock.db), document, data, created)
    {
      rock.Put(Key(Documents, document), data);
      rock.Put(Key(OfDocument(document), "created_time"), created);
    }

    method SaveNew(document: string, data: string, created: string) returns (result: Result<bool>)
      modifies rock
      ensures Outcome(result, rock.db) == SaveNewDocument(old(rock.db), document, data, created)
      ensures result == Err(DocumentAlreadyExists) <==> Key(Documents, document) in old(rock.db)
      ensures result == Ok(true) <==> Key(Documents, document) !in old(rock.db)
      ensures result.Err? ==> rock.db == old(rock.db)
    {
      var found := DoesDocumentExist(document);
      if found {
        return Err(DocumentAlreadyExists);
      }
      SaveDocumentData(document, data, created);
      return Ok(true);
    }

    /** Takes out the keys a scan of the prefix visits. */
    method DropFamily(f: Family)
      modifies rock
      ensures rock.db == Without(old(rock.db), f)
    {
      ghost var keys := WithPrefix(rock.db.Keys, Prefix(f));
      DropsKeys(rock.db, Ascending(keys));
      assert (set k <- Ascending(keys)) == keys;
      var _, db := rock.IterPrefix(Prefix(f), rock.db, DropKey);
      rock.db := db;
    }

    method Delete(document: string) returns (result: Result<bool>)
      modifies rock
      ensures Outcome(result, rock.db) == DeleteDocument(old(rock.db), document)
      ensures result == Err(DocumentDoesNotExist) <==> Key(Documents, document) !in old(rock.db)
      ensures result == Ok(true) <==> Key(Documents, document) in old(rock.db)
      ensures result.Err? ==> rock.db == old(rock.db)
    {
      var existed := rock.Del(Key(Documents, document));
      if existed {
        DropFamily(Reverse(document));
        DropFamily(OfDocument(document));
        return Ok(true);
      }
      return Err(DocumentDoesNotExist);
    }

    method RemoveCentroid(centroid: string) returns (result: Result<bool>)
      modifies rock
      ensures Outcome(result, rock.db) == DeleteCentroid(old(rock.db), centroid)
      ensures result == Err(CentroidDoesNotExist) <==> Key(Centroids, centroid) !in old(rock.db)
      ensures result == Ok(true) <==> Key(Centroids, centroid) in old(rock.db)
      ensures result.Err? ==> rock.db == old(rock.db)
    {
      var existed := rock.Del(Key(Centroids, centroid));
      if !existed {
        return Err(CentroidDoesNotExist);
      }
      DropFamily(Forward(centroid));
      DropFamily(OfCentroid(centroid));
      return Ok(true);
    }

    method AddToCentroid(centroid: string, document: string) returns (result: Result<bool>)
      modifies rock
      ensures Outcome(result, rock.db) == AddDocumentToCentroid(old(rock.db), centroid, document)
      ensures result == Err(CentroidDoesNotExist) <==> Key(Centroids, centroid) !in old(rock.db)
      ensures result == Err(DocumentDoesNotExist) <==>
                Key(Centroids, centroid) in old(rock.db) && Key(Documents, document) !in old(rock.db)
      ensures result == Err(DocumentAlreadyInCentroid) <==>
                && Key(Centroids, centroid) in old(rock.db) && Key(Documents, document) in old(rock.db)
                && Key(Forward(centroid), document) in old(rock.db)
      ensures result == Ok(true) <==>
                && Key(Centroids, centroid) in old(rock.db) && Key(Documents, document) in old(rock.db)
                && Key(Forward(centroid), document) !in old(rock.db)
      ensures result.Err? ==> rock.db == old(rock.db)
    {
      var found := DoesCentroidExist(centroid);
      if !found {
        return Err(CentroidDoesNotExist);
      }
      found := DoesDocumentExist(document);
      if !found {
        return Err(DocumentDoesNotExist);
      }
      found := rock.Exists(Key(Forward(centroid), document));
      if found {
        return Err(DocumentAlreadyInCentroid);
      }
      rock.Put(Key(Forward(centroid), document), "1");
      rock.Put(Key(Reverse(document), centroid), "1");
      return Ok(true);
    }

    method RemoveFromCentroid(centroid: string, document: string) returns (result: Result<bool>)
      modifies rock
      ensures Outcome(result, rock.db) == RemoveDocumentFromCentroid(old(rock.db), centroid, document)
      ensures result == Err(CentroidDoesNotExist) <==> Key(Centroids, centroid) !in old(rock.db)
      ensures result == Err(DocumentDoesNotExist) <==>
                Key(Centroids, centroid) in old(rock.db) && Key(Documents, document) !in old(rock.db)
      ensures ColonFree(centroid) && ColonFree(document) ==>
                (result == Err(DocumentNotInCentroid) <==>
                   && Key(Centroids, centroid) in old(rock.db) && Key(Documents, document) in old(rock.db)
                   && Key(Forward(centroid), document) !in old(rock.db))
      ensures ColonFree(centroid) && ColonFree(document) ==>
                (result == Ok(true) <==>
                   && Key(Centroids, centroid) in old(rock.db) && Key(Documents, document) in old(rock.db)
                   && Key(Forward(centroid), document) in old(rock.db))
      ensures result in {Err(CentroidDoesNotExist), Err(DocumentDoesNotExist)} ==> rock.db == old(rock.db)
    {
      var found := DoesCentroidExist(centroid);
      if !found {
        return Err(CentroidDoesNotExist);
      }
      found := DoesDocumentExist(document);
      if !found {
        return Err(DocumentDoesNotExist);
      }
      if ColonFree(centroid) && ColonFree(document) {
        KeyTells(Reverse(document), centroid, Forward(centroid), document);
      }
      var _ := rock.Del(Key(Reverse(document), centroid));
      found := rock.Del(Key(Forward(centroid), document));
      if !found {
        return Err(DocumentNotInCentroid);
      }
      return Ok(true);
    }

    method HasDocument(centroid: string, document: string) returns (result: Result<bool>)
      ensures result ==
              if Key(Forward(centroid), document) in rock.db then Ok(true)
              else if Key(Centroids, centroid) in rock.db then Ok(false)
              else Err(CentroidDoesNotExist)
    {
      var found := rock.Exists(Key(Forward(centroid), document));
      if found {
        return Ok(true);
      }
      found := DoesCentroidExist(centroid);
      if !found {
        return Err(CentroidDoesNotExist);
      }
      return Ok(false);
    }

    /** Asks the scan of the reverse keys for its first key only. */
    method IsDocumentInAnyCentroid(document: string) returns (found: bool)
      ensures found <==> exists c :: Key(Reverse(document), c) in rock.db
    {
      StoredUnder(rock.db, Reverse(document));
      var answer;
      found, answer := rock.IterPrefix(Prefix(Reverse(document)), true, (acc: bool, key: string) => Step(acc, true));
    }

    method ListUnusedDocuments(limit: nat) returns (ids: seq<string>)
      ensures ids == Limited(Ascending(UnusedDocuments(rock.db)), limit)
    {
      ListsUnused(rock.db, limit);
      var _, found := rock.IterPrefix(Prefix(Documents), Found([], 0), CollectUnused(rock.db, limit));
      ids := found.ids;
    }

    /** All documents, all centroids, or the documents of a centroid. */
    method ListAll(f: Family) returns (ids: seq<string>)
      requires Clean(f)
      ensures ids == Ids(rock.db, f)
    {
      ListsIds(rock.db.Keys, Prefix(f), 0, 0);
      var _, listed := rock.IterPrefix(Prefix(f), [], CollectId);
      ids := listed;
    }

    method ListRangeFromOffset(f: Family, offset: nat, limit: nat) returns (ids: seq<string>)
      requires Clean(f)
      ensures ids == Page(Ids(rock.db, f), offset, limit)
    {
      ListsIds(rock.db.Keys, Prefix(f), offset, limit);
      var _, listed := rock.IterPrefixFromOffset(Prefix(f), offset, limit, [], CollectId);
      ids := listed;
    }

    method ListRangeFromId(f: Family, start: string, limit: nat) returns (ids: seq<string>)
      requires Clean(f)
      ensures ids == Page(IdsFrom(rock.db, f, start), 0, limit)
    {
      ListsIdsFrom(rock.db.Keys, Prefix(f), start, limit);
      var _, listed := rock.IterPrefixFromMember(Prefix(f), start, limit, [], CollectId);
      ids := listed;
    }

    /** Nothing only for a centroid that does not exist; an existing one, or one with documents left, gets its page. */
    method ListCentroidDocumentRangeFromOffset(centroid: string, offset: nat, limit: nat)
      returns (ids: Option<seq<string>>)
      requires ColonFree(centroid)
      ensures var page := Page(Ids(rock.db, Forward(centroid)), offset, limit);
        ids == if page == [] && Key(Centroids, centroid) !in rock.db then None else Some(page)
    {
      var docs := ListRangeFromOffset(Forward(centroid), offset, limit);
      var found := DoesCentroidExist(centroid);
      ids := if docs == [] && !found then None else Some(docs);
    }

    method ListCentroidDocumentRangeFromDocumentId(centroid: string, start: string, limit: nat)
      returns (ids: Option<seq<string>>)
      requires ColonFree(centroid)
      ensures var page := Page(IdsFrom(rock.db, Forward(centroid), start), 0, limit);
        ids == if page == [] && Key(Centroids, centroid) !in rock.db then None else Some(page)
    {
      var docs := ListRangeFromId(Forward(centroid), start, limit);
      var found := DoesCentroidExist(centroid);
      ids := if docs == [] && !found then None else Some(docs);
    }
  }
}
