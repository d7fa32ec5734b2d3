/** The index registry of the search store: per index name, a directory of
    committed documents, a cached writer and a cached searcher. Lucene and the
    filesystem are abstract maps. One model covers the three generations of
    the store through `Variant`:
    - `Current` (store/FilesystemStore): a refresh evicts the cached searcher,
      a searcher on a missing index creates the index, and asynchronous
      writes are flushed once the writer buffers more than 48 MiB;
    - `Legacy` (the older FilesystemStore and the static Search class): a
      refresh reopens the cached searcher in place, a searcher on a missing
      index is an error, and asynchronous writes are never flushed. */
module Registry {
  import opened Wrappers
  import opened Documents
  import opened Conversion

  datatype Variant = Current | Legacy

  /** An open writer: its working view of the index (committed documents
      plus buffered changes) and the bytes it holds in its buffer. */
  datatype Writer = Writer(docs: seq<Document>, buffered: nat)

  /** An open searcher: the committed documents as of its opening. */
  datatype Searcher = Searcher(docs: seq<Document>)

  /** The store: its generation and configuration, the index directories under
      the root (name to committed documents), the directories holding a
      `write.lock` file, and the writer and searcher caches. */
  datatype Registry = Registry(
    variant: Variant,
    sync: bool,
    root: string,
    analyser: string,
    dirs: map<string, seq<Document>>,
    locks: set<string>,
    writers: map<string, Writer>,
    searchers: map<string, Searcher>)

  /** The asynchronous flush threshold of the current store, in bytes. */
  const FlushThreshold: nat := 1024 * 1024 * 48

  /** Every cached handle belongs to an existing directory, and every cached
      writer holds that directory's lock. */
  predicate Wf(r: Registry) {
    && r.writers.Keys <= r.dirs.Keys
    && r.searchers.Keys <= r.dirs.Keys
    && r.writers.Keys <= r.locks
  }

  // ---------------------------------------------------------------------
  // Documents keyed by `_docID`
  // ---------------------------------------------------------------------

  /** `deleteDocuments(new Term("_docID", id))`: every document with that key
      goes, the others stay in order. */
  function RemoveId(docs: seq<Document>, id: string): (r: seq<Document>)
    ensures forall k :: 0 <= k < |r| ==> !HasId(r[k], id)
    ensures forall d :: d in r ==> d in docs
    ensures forall d :: d in docs && !HasId(d, id) ==> d in r
    ensures |r| <= |docs|
    decreases |docs|
  {
    if |docs| == 0 then []
    else if HasId(docs[0], id) then RemoveId(docs[1..], id)
    else [docs[0]] + RemoveId(docs[1..], id)
  }

  /** How many documents a search for the key would find. */
  function Count(docs: seq<Document>, id: string): nat
    decreases |docs|
  {
    if |docs| == 0 then 0 else (if HasId(docs[0], id) then 1 else 0) + Count(docs[1..], id)
  }

  /** The deletion drops exactly the documents a search for the key finds. */
  lemma {:induction false} RemoveIdLength(docs: seq<Document>, id: string)
    ensures |RemoveId(docs, id)| == |docs| - Count(docs, id)
    decreases |docs|
  {
    if |docs| > 0 {
      RemoveIdLength(docs[1..], id);
    }
  }

  /** The deletion keeps every other document as often as it occurred and
      drops every copy of a document with the key. */
  lemma {:induction false} RemoveIdMultiset(docs: seq<Document>, id: string, d: Document)
    ensures multiset(RemoveId(docs, id))[d] == (if HasId(d, id) then 0 else multiset(docs)[d])
    decreases |docs|
  {
    if |docs| > 0 {
      var x, t := docs[0], docs[1..];
      RemoveIdMultiset(t, id, d);
      assert docs == [x] + t;
      assert multiset(docs)[d] == multiset([x])[d] + multiset(t)[d];
      if !HasId(x, id) {
        var rest := RemoveId(t, id);
        assert RemoveId(docs, id) == [x] + rest;
        assert multiset([x] + rest)[d] == multiset([x])[d] + multiset(rest)[d];
      } else if !HasId(d, id) {
        assert x != d;
      }
    }
  }

  /** Delete-then-add, as `index` writes a document. */
  function Upsert(docs: seq<Document>, id: string, doc: Document): seq<Document> {
    RemoveId(docs, id) + [doc]
  }

  /** The bytes a document occupies in the writer's buffer, measured as the
      length of its field names and values. */
  function Footprint(d: Document): nat
    decreases |d|
  {
    if |d| == 0 then 0 else |d[0].name| + |d[0].value| + Footprint(d[1..])
  }

  /** What the index holds once everything buffered is committed. */
  function Logical(r: Registry, name: string): seq<Document> {
    if name in r.writers then r.writers[name].docs
    else if name in r.dirs then r.dirs[name]
    else []
  }

  lemma {:induction false} CountAppend(a: seq<Document>, b: seq<Document>, id: string)
    ensures Count(a + b, id) == Count(a, id) + Count(b, id)
    decreases |a|
  {
    if |a| == 0 {
      assert a + b == b;
    } else {
      assert (a + b)[1..] == a[1..] + b;
      CountAppend(a[1..], b, id);
    }
  }

  lemma {:induction false} CountRemoved(docs: seq<Document>, id: string)
    ensures Count(RemoveId(docs, id), id) == 0
    decreases |docs|
  {
    if |docs| > 0 {
      CountRemoved(docs[1..], id);
      if !HasId(docs[0], id) {
        CountAppend([docs[0]], RemoveId(docs[1..], id), id);
      }
    }
  }

  /** After an upsert exactly one document carries the key. */
  lemma UpsertLeavesOne(docs: seq<Document>, id: string, doc: Document)
    requires HasId(doc, id)
    ensures Count(Upsert(docs, id, doc), id) == 1
  {
    CountRemoved(docs, id);
    CountAppend(RemoveId(docs, id), [doc], id);
  }

  lemma {:induction false} RemoveIdIdempotent(docs: seq<Document>, id: string)
    ensures RemoveId(RemoveId(docs, id), id) == RemoveId(docs, id)
    decreases |docs|
  {
    if |docs| > 0 {
      RemoveIdIdempotent(docs[1..], id);
      if !HasId(docs[0], id) {
        var t := RemoveId(docs[1..], id);
        assert ([docs[0]] + t)[0] == docs[0];
        assert ([docs[0]] + t)[1..] == t;
      }
    }
  }

  lemma {:induction false} RemoveIdAppend(a: seq<Document>, b: seq<Document>, id: string)
    ensures RemoveId(a + b, id) == RemoveId(a, id) + RemoveId(b, id)
    decreases |a|
  {
    if |a| == 0 {
      assert a + b == b;
    } else {
      assert (a + b)[0] == a[0];
      assert (a + b)[1..] == a[1..] + b;
      RemoveIdAppend(a[1..], b, id);
    }
  }

  /** Writing the same document twice leaves what writing it once leaves. */
  lemma UpsertIdempotent(docs: seq<Document>, id: string, doc: Document)
    requires HasId(doc, id)
    ensures Upsert(Upsert(docs, id, doc), id, doc) == Upsert(docs, id, doc)
  {
    RemoveIdAppend(RemoveId(docs, id), [doc], id);
    RemoveIdIdempotent(docs, id);
    assert RemoveId([doc], id) == [];
  }

  // ---------------------------------------------------------------------
  // Handles
  // ---------------------------------------------------------------------

  /** `getIndexWriter`: a cached writer is returned as is; otherwise the
      directory is created if missing, a leftover lock is removed, and a new
      writer, which takes the lock, is cached over the committed documents. */
  function OpenWriter(r: Registry, name: string): (r': Registry)
    ensures name in r'.writers
    ensures name in r.writers ==> r' == r
    ensures Wf(r) ==> Wf(r')
    ensures name !in r.writers ==>
      && r'.dirs == (if name in r.dirs then r.dirs else r.dirs[name := []])
      && r'.locks == r.locks + {name}
      && r'.writers == r.writers[name := Writer(r'.dirs[name], 0)]
      && r'.searchers == r.searchers
    ensures r'.variant == r.variant && r'.sync == r.sync
    ensures Logical(r', name) == Logical(r, name)
  {
    if name in r.writers then r
    else
      var dirs := if name in r.dirs then r.dirs else r.dirs[name := []];
      r.(dirs := dirs, locks := r.locks + {name}, writers := r.writers[name := Writer(dirs[name], 0)])
  }

  /** `flush`: the writer's view becomes the committed contents; cached
      searchers keep their older view. */
  function Flush(r: Registry, name: string): (r': Registry)
    requires name in r.writers
    ensures r'.dirs == r.dirs[name := r.writers[name].docs]
    ensures r'.writers == r.writers[name := Writer(r.writers[name].docs, 0)]
    ensures r'.searchers == r.searchers && r'.locks == r.locks
    ensures r'.variant == r.variant && r'.sync == r.sync
    ensures Logical(r', name) == Logical(r, name)
  {
    var w := r.writers[name];
    r.(dirs := r.dirs[name := w.docs], writers := r.writers[name := Writer(w.docs, 0)])
  }

  /** `dirtyReader`: nothing happens without a cached searcher; otherwise the
      current store evicts it and the older ones replace it by a searcher
      over the reopened (now current) committed contents. */
  function DirtyReader(r: Registry, name: string): (res: Result<Registry, Cause>)
    ensures name !in r.searchers ==> res == Success(r)
    ensures r.variant == Current ==> res == Success(r.(searchers := r.searchers - {name}))
    ensures r.variant == Legacy && name in r.searchers && name in r.dirs ==>
      res == Success(r.(searchers := r.searchers[name := Searcher(r.dirs[name])]))
    ensures res.Failure? <==> r.variant == Legacy && name in r.searchers && name !in r.dirs
  {
    if name !in r.searchers then
      assert r.searchers - {name} == r.searchers;
      Success(r)
    else match r.variant
      case Current => Success(r.(searchers := r.searchers - {name}))
      case Legacy =>
        if name !in r.dirs then Failure(ReopenFailed(name))
        else Success(r.(searchers := r.searchers[name := Searcher(r.dirs[name])]))
  }

  /** `getIndexSearcher` (`getIndexReader` in the static variant): a cached
      searcher is kept; otherwise one is opened over the committed contents,
      after the current store has created a missing index through its
      writer, while the older ones refuse a missing index. */
  function GetIndexSearcher(r: Registry, name: string): (res: Result<Registry, Cause>)
    ensures name in r.searchers ==> res == Success(r)
    ensures res.Success? ==> name in res.value.searchers
    ensures res.Success? && name !in r.searchers ==>
      name in res.value.dirs && res.value.searchers[name] == Searcher(res.value.dirs[name])
    ensures res.Failure? <==>
      name !in r.searchers && name !in r.dirs && (r.variant == Legacy || name in r.writers)
    ensures res.Success? ==> Logical(res.value, name) == Logical(r, name)
    ensures res.Success? ==> res.value.variant == r.variant && res.value.sync == r.sync
  {
    if name in r.searchers then Success(r)
    else match r.variant
      case Current =>
        var r1 := if name !in r.dirs then OpenWriter(r, name) else r;
        if name !in r1.dirs then Failure(IndexMissing(name))
        else Success(r1.(searchers := r1.searchers[name := Searcher(r1.dirs[name])]))
      case Legacy =>
        if name !in r.dirs then Failure(IndexMissing(name))
        else Success(r.(searchers := r.searchers[name := Searcher(r.dirs[name])]))
  }

  /** `flush` followed by `dirtyReader`. */
  function Refresh(r: Registry, name: string): (res: Result<Registry, Cause>)
    requires name in r.writers
    ensures res.Success?
    ensures res.value.dirs == r.dirs[name := r.writers[name].docs]
    ensures res.value.writers == r.writers[name := Writer(r.writers[name].docs, 0)]
    ensures name in res.value.searchers ==> res.value.searchers[name].docs == r.writers[name].docs
    ensures Logical(res.value, name) == Logical(r, name)
  {
    DirtyReader(Flush(r, name), name)
  }

  // ---------------------------------------------------------------------
  // index / unIndex
  // ---------------------------------------------------------------------

  /** The bytes a name's cached writer has buffered; none without one. */
  function Buffered(r: Registry, name: string): nat {
    if name in r.writers then r.writers[name].buffered else 0
  }

  /** Whether a write to the index is flushed at once. */
  predicate MustFlush(r: Registry, w: Writer) {
    r.sync || (r.variant == Current && w.buffered > FlushThreshold)
  }

  /** The write half of `index`: the writer (opened if needed) deletes the
      documents with the key and adds the new document, then the index is
      flushed and refreshed when the write mode demands it. */
  function Put(r: Registry, name: string, id: string, doc: Document): (r': Registry)
    ensures name in r'.writers
    ensures Logical(r', name) == Upsert(Logical(r, name), id, doc)
    ensures r'.variant == r.variant && r'.sync == r.sync
    ensures r.sync ==> name in r'.dirs && r'.dirs[name] == Logical(r', name)
    ensures r'.searchers.Keys <= r.searchers.Keys
    ensures (r.sync || (r.variant == Current && Buffered(r, name) + Footprint(doc) > FlushThreshold)) ==>
      && name in r'.dirs && r'.dirs[name] == Logical(r', name)
      && r'.writers[name].buffered == 0
      && (r.variant == Current ==> name !in r'.searchers)
    ensures !r.sync && (r.variant == Legacy || Buffered(r, name) + Footprint(doc) <= FlushThreshold) ==>
      && r'.dirs == OpenWriter(r, name).dirs
      && r'.searchers == r.searchers
      && r'.writers[name].buffered == Buffered(r, name) + Footprint(doc)
  {
    var r1 := OpenWriter(r, name);
    var w := r1.writers[name];
    var w' := Writer(Upsert(w.docs, id, doc), w.buffered + Footprint(doc));
    var r2 := r1.(writers := r1.writers[name := w']);
    if MustFlush(r, w') then Refresh(r2, name).value else r2
  }

  /** `index(object, name)`: an object that is not a JPA entity, or that maps
      to no document, changes nothing; otherwise the documents with its key
      are deleted and its document added, then flushed and refreshed in
      synchronous mode, or in asynchronous mode once the current store's
      writer buffers more than the threshold. */
  function Index(r: Registry, o: Obj, name: string, extract: Extractor): (res: Result<Registry, Cause>)
    ensures !Mappable(o) ==> res == Success(r)
    ensures Mappable(o) ==> (res.Failure? <==> ToDocument(o, extract).Failure?)
  {
    if o.base.NotJpa? then Success(r)
    else
      var doc :- ToDocument(o, extract);
      if doc.None? then Success(r)
      else Success(Put(r, name, IdValueText(o).value, doc.value))
  }

  /** `index(object)` of the older stores: the index is named after the
      object's class. */
  function IndexByClass(r: Registry, o: Obj, extract: Extractor): (res: Result<Registry, Cause>)
    ensures !Mappable(o) ==> res == Success(r)
    ensures Mappable(o) ==> (res.Failure? <==> ToDocument(o, extract).Failure?)
  {
    Index(r, o, o.className, extract)
  }

  /** `unIndex(object)`: for an indexed JPA entity, every document carrying
      its key is deleted from the index named after its class, flushed and
      refreshed only in synchronous mode. */
  function UnIndex(r: Registry, o: Obj): (res: Result<Registry, Cause>)
    ensures !Mappable(o) ==> res == Success(r)
    ensures Mappable(o) ==> (res.Failure? <==> IdValueText(o).Failure?)
  {
    if !Mappable(o) then Success(r)
    else
      var id :- IdValueText(o);
      var name := o.className;
      var r1 := OpenWriter(r, name);
      var w := r1.writers[name];
      var r2 := r1.(writers := r1.writers[name := Writer(RemoveId(w.docs, id), w.buffered)]);
      if r.sync then Refresh(r2, name) else Success(r2)
  }

  // ---------------------------------------------------------------------
  // Properties
  // ---------------------------------------------------------------------

  /** Two registries agree on everything kept under one name. */
  predicate SameAt(r: Registry, r': Registry, m: string) {
    && (m in r.dirs <==> m in r'.dirs) && (m in r.dirs ==> r.dirs[m] == r'.dirs[m])
    && (m in r.writers <==> m in r'.writers) && (m in r.writers ==> r.writers[m] == r'.writers[m])
    && (m in r.searchers <==> m in r'.searchers) && (m in r.searchers ==> r.searchers[m] == r'.searchers[m])
    && (m in r.locks <==> m in r'.locks)
  }

  /** Two registries share their configuration and agree on every index
      whose name is not in `names`. */
  predicate Outside(r: Registry, r': Registry, names: set<string>) {
    && r'.variant == r.variant && r'.sync == r.sync && r'.root == r.root && r'.analyser == r.analyser
    && r'.dirs - names == r.dirs - names
    && r'.writers - names == r.writers - names
    && r'.searchers - names == r.searchers - names
    && r'.locks - names == r.locks - names
  }

  /** Only the state under `name` may differ. */
  predicate OnlyTouches(r: Registry, r': Registry, name: string) {
    Outside(r, r', {name})
  }

  /** Agreement outside a set of names is agreement at each other name. */
  lemma OutsideSameAt(r: Registry, r': Registry, names: set<string>, m: string)
    requires Outside(r, r', names) && m !in names
    ensures SameAt(r, r', m)
  {
    assert m in r.dirs <==> m in r.dirs - names;
    assert m in r'.dirs <==> m in r'.dirs - names;
    assert m in r.writers <==> m in r.writers - names;
    assert m in r'.writers <==> m in r'.writers - names;
    assert m in r.searchers <==> m in r.searchers - names;
    assert m in r'.searchers <==> m in r'.searchers - names;
    assert m in r.locks <==> m in r.locks - names;
    assert m in r'.locks <==> m in r'.locks - names;
  }

  lemma MinusWiden<V>(m1: map<string, V>, m2: map<string, V>, a: set<string>, b: set<string>)
    requires m1 - a == m2 - a && a <= b
    ensures m1 - b == m2 - b
  {
    assert m1 - b == (m1 - a) - b;
    assert m2 - b == (m2 - a) - b;
  }

  /** Agreement outside a set of names survives enlarging the set. */
  lemma OutsideWiden(r: Registry, r': Registry, a: set<string>, b: set<string>)
    requires Outside(r, r', a) && a <= b
    ensures Outside(r, r', b)
  {
    MinusWiden(r.dirs, r'.dirs, a, b);
    MinusWiden(r.writers, r'.writers, a, b);
    MinusWiden(r.searchers, r'.searchers, a, b);
    assert r.locks - b == (r.locks - a) - b;
    assert r'.locks - b == (r'.locks - a) - b;
  }

  lemma OnlyTouchesTrans(r1: Registry, r2: Registry, r3: Registry, name: string)
    requires OnlyTouches(r1, r2, name) && OnlyTouches(r2, r3, name)
    ensures OnlyTouches(r1, r3, name)
  {
  }

  /** Replacing the cached writer of one index touches nothing else. */
  lemma SetWriterFrame(r: Registry, name: string, w: Writer)
    ensures OnlyTouches(r, r.(writers := r.writers[name := w]), name)
    ensures Wf(r) && name in r.writers ==> Wf(r.(writers := r.writers[name := w]))
  {
    assert r.writers[name := w] - {name} == r.writers - {name};
  }

  lemma OpenWriterFrame(r: Registry, name: string)
    ensures OnlyTouches(r, OpenWriter(r, name), name)
    ensures Wf(r) ==> Wf(OpenWriter(r, name))
  {
    var r' := OpenWriter(r, name);
    if name !in r.writers {
      assert r'.dirs - {name} == r.dirs - {name};
      assert r'.writers - {name} == r.writers - {name};
      assert r'.locks - {name} == r.locks - {name};
    }
  }

  lemma GetIndexSearcherFrame(r: Registry, name: string)
    requires GetIndexSearcher(r, name).Success?
    ensures OnlyTouches(r, GetIndexSearcher(r, name).value, name)
    ensures GetIndexSearcher(r, name).value.searchers.Keys <= r.searchers.Keys + {name}
  {
    if name !in r.searchers {
      var r1 := if r.variant == Current && name !in r.dirs then OpenWriter(r, name) else r;
      OpenWriterFrame(r, name);
      assert name in r1.dirs;
      assert GetIndexSearcher(r, name).value == r1.(searchers := r1.searchers[name := Searcher(r1.dirs[name])]);
      AddSearcherFrame(r1, name, Searcher(r1.dirs[name]));
    }
  }

  /** Caching a searcher for one index touches nothing else. */
  lemma AddSearcherFrame(r: Registry, name: string, s: Searcher)
    ensures OnlyTouches(r, r.(searchers := r.searchers[name := s]), name)
    ensures r.(searchers := r.searchers[name := s]).searchers.Keys == r.searchers.Keys + {name}
  {
    assert r.searchers[name := s] - {name} == r.searchers - {name};
  }

  lemma RefreshFrame(r: Registry, name: string)
    requires name in r.writers
    ensures OnlyTouches(r, Refresh(r, name).value, name)
    ensures Wf(r) ==> Wf(Refresh(r, name).value)
  {
    var r' := Refresh(r, name).value;
    assert r'.dirs - {name} == r.dirs - {name};
    assert r'.writers - {name} == r.writers - {name};
    if name in r.searchers && r.variant == Legacy {
      assert r'.searchers - {name} == r.searchers - {name};
    } else if name in r.searchers {
      assert r'.searchers - {name} == r.searchers - {name};
    }
  }

  lemma PutFrame(r: Registry, name: string, id: string, doc: Document)
    ensures OnlyTouches(r, Put(r, name, id, doc), name)
  {
    var r1 := OpenWriter(r, name);
    OpenWriterFrame(r, name);
    var w := r1.writers[name];
    var w' := Writer(Upsert(w.docs, id, doc), w.buffered + Footprint(doc));
    var r2 := r1.(writers := r1.writers[name := w']);
    SetWriterFrame(r1, name, w');
    OnlyTouchesTrans(r, r1, r2, name);
    if MustFlush(r, w') {
      var r3 := Refresh(r2, name).value;
      assert Put(r, name, id, doc) == r3;
      RefreshFrame(r2, name);
      OnlyTouchesTrans(r, r2, r3, name);
    } else {
      assert Put(r, name, id, doc) == r2;
    }
  }

  lemma PutKeepsWf(r: Registry, name: string, id: string, doc: Document)
    requires Wf(r)
    ensures Wf(Put(r, name, id, doc))
  {
    var r1 := OpenWriter(r, name);
    var w := r1.writers[name];
    var w' := Writer(Upsert(w.docs, id, doc), w.buffered + Footprint(doc));
    var r2 := r1.(writers := r1.writers[name := w']);
    assert Wf(r2);
    if MustFlush(r, w') {
      RefreshFrame(r2, name);
    }
  }

  /** `index` changes nothing outside the index it writes to and keeps the
      registry well formed. */
  lemma IndexFrame(r: Registry, o: Obj, name: string, extract: Extractor)
    requires Index(r, o, name, extract).Success?
    ensures OnlyTouches(r, Index(r, o, name, extract).value, name)
    ensures Index(r, o, name, extract).value.searchers.Keys <= r.searchers.Keys
    ensures Wf(r) ==> Wf(Index(r, o, name, extract).value)
  {
    if Mappable(o) && ToDocument(o, extract).value.Some? {
      var doc := ToDocument(o, extract).value.value;
      PutFrame(r, name, IdValueText(o).value, doc);
      if Wf(r) {
        PutKeepsWf(r, name, IdValueText(o).value, doc);
      }
    }
  }

  /** `index` is an upsert: the index's contents become those before with
      every document of the object's key replaced by its new document, so
      exactly one document carries the key. */
  lemma IndexUpserts(r: Registry, o: Obj, name: string, extract: Extractor)
    requires Mappable(o)
    requires Index(r, o, name, extract).Success?
    ensures var r' := Index(r, o, name, extract).value;
      && IdValueText(o).Success?
      && ToDocument(o, extract).value.Some?
      && Logical(r', name) == Upsert(Logical(r, name), IdValueText(o).value, ToDocument(o, extract).value.value)
      && Count(Logical(r', name), IdValueText(o).value) == 1
  {
    var id := IdValueText(o).value;
    var doc := ToDocument(o, extract).value.value;
    UpsertLeavesOne(Logical(r, name), id, doc);
  }

  /** Indexing the same object twice leaves the index as indexing it once. */
  lemma IndexTwiceAsOnce(r: Registry, o: Obj, name: string, extract: Extractor)
    requires Mappable(o)
    requires Index(r, o, name, extract).Success?
    ensures var r1 := Index(r, o, name, extract).value;
      && Index(r1, o, name, extract).Success?
      && Logical(Index(r1, o, name, extract).value, name) == Logical(r1, name)
  {
    var r1 := Index(r, o, name, extract).value;
    IndexUpserts(r, o, name, extract);
    IndexUpserts(r1, o, name, extract);
    UpsertIdempotent(Logical(r, name), IdValueText(o).value, ToDocument(o, extract).value.value);
  }

  /** Read-after-write in synchronous mode: the write is committed at once,
      and a searcher obtained afterwards sees exactly one document with the
      key. */
  lemma SyncIndexVisible(r: Registry, o: Obj, name: string, extract: Extractor)
    requires r.sync && Mappable(o)
    requires Index(r, o, name, extract).Success?
    ensures var r' := Index(r, o, name, extract).value;
      && name in r'.dirs && r'.dirs[name] == Logical(r', name)
      && GetIndexSearcher(r', name).Success?
      && Count(GetIndexSearcher(r', name).value.searchers[name].docs, IdValueText(o).value) == 1
  {
    IndexUpserts(r, o, name, extract);
  }

  /** In asynchronous mode below the threshold, `index` commits nothing and
      refreshes nothing: an open searcher keeps its older view until a flush
      or an explicit reopen. */
  lemma AsyncIndexDefers(r: Registry, o: Obj, name: string, extract: Extractor)
    requires !r.sync && (name in r.writers || name in r.dirs)
    requires r.variant == Legacy || Buffered(r, name) + FootprintOf(o, extract) <= FlushThreshold
    requires Index(r, o, name, extract).Success?
    ensures Index(r, o, name, extract).value.dirs == r.dirs
    ensures Index(r, o, name, extract).value.searchers == r.searchers
  {
  }

  /** In asynchronous mode the current store flushes once the writer's
      buffer exceeds the threshold: the write is committed and the cached
      searcher evicted, so the next search sees it. */
  lemma AsyncIndexFlushesPastThreshold(r: Registry, o: Obj, name: string, extract: Extractor)
    requires !r.sync && r.variant == Current && Mappable(o)
    requires Buffered(r, name) + FootprintOf(o, extract) > FlushThreshold
    requires Index(r, o, name, extract).Success?
    ensures var r' := Index(r, o, name, extract).value;
      && name in r'.dirs && r'.dirs[name] == Logical(r', name)
      && name !in r'.searchers
      && GetIndexSearcher(r', name).Success?
      && Count(GetIndexSearcher(r', name).value.searchers[name].docs, IdValueText(o).value) == 1
  {
    IndexUpserts(r, o, name, extract);
  }

  /** The buffer growth an object causes when it is indexed. */
  function FootprintOf(o: Obj, extract: Extractor): nat {
    match ToDocument(o, extract)
    case Success(Some(d)) => Footprint(d)
    case _ => 0
  }

  /** `unIndex` removes every document with the object's key from the index
      named after its class, and nothing else changes elsewhere. */
  lemma UnIndexRemoves(r: Registry, o: Obj)
    requires Mappable(o)
    requires UnIndex(r, o).Success?
    ensures var r' := UnIndex(r, o).value;
      && Logical(r', o.className) == RemoveId(Logical(r, o.className), IdValueText(o).value)
      && Count(Logical(r', o.className), IdValueText(o).value) == 0
      && OnlyTouches(r, r', o.className)
      && (Wf(r) ==> Wf(r'))
  {
    var id := IdValueText(o).value;
    var name := o.className;
    CountRemoved(Logical(r, name), id);
    var r1 := OpenWriter(r, name);
    OpenWriterFrame(r, name);
    var w := r1.writers[name];
    var r2 := r1.(writers := r1.writers[name := Writer(RemoveId(w.docs, id), w.buffered)]);
    SetWriterFrame(r1, name, Writer(RemoveId(w.docs, id), w.buffered));
    OnlyTouchesTrans(r, r1, r2, name);
    if r.sync {
      RefreshFrame(r2, name);
      OnlyTouchesTrans(r, r2, Refresh(r2, name).value, name);
    }
  }

  /** Read-after-delete in synchronous mode: the deletion is committed at
      once, and a searcher obtained afterwards finds no document with the
      key. */
  lemma SyncUnIndexVisible(r: Registry, o: Obj)
    requires r.sync && Mappable(o)
    requires UnIndex(r, o).Success?
    ensures var r' := UnIndex(r, o).value;
      && o.className in r'.dirs && r'.dirs[o.className] == Logical(r', o.className)
      && GetIndexSearcher(r', o.className).Success?
      && Count(GetIndexSearcher(r', o.className).value.searchers[o.className].docs, IdValueText(o).value) == 0
  {
    UnIndexRemoves(r, o);
  }

  /** In asynchronous mode `unIndex` commits and refreshes nothing, in
      every store: searchers keep seeing the deleted documents. */
  lemma AsyncUnIndexDefers(r: Registry, o: Obj)
    requires !r.sync && (o.className in r.writers || o.className in r.dirs)
    requires UnIndex(r, o).Success?
    ensures UnIndex(r, o).value.dirs == r.dirs
    ensures UnIndex(r, o).value.searchers == r.searchers
  {
  }

  /** `getIndexWriter` is idempotent. */
  lemma OpenWriterIdempotent(r: Registry, name: string)
    ensures OpenWriter(OpenWriter(r, name), name) == OpenWriter(r, name)
  {
  }

  /** A second `getIndexSearcher` returns the cached searcher unchanged. */
  lemma GetIndexSearcherIdempotent(r: Registry, name: string)
    requires GetIndexSearcher(r, name).Success?
    ensures GetIndexSearcher(GetIndexSearcher(r, name).value, name) == GetIndexSearcher(r, name)
  {
  }

  /** `getIndexSearcher` and `dirtyReader` keep the registry well formed. */
  lemma HandlesKeepWf(r: Registry, name: string)
    requires Wf(r)
    ensures GetIndexSearcher(r, name).Success? ==> Wf(GetIndexSearcher(r, name).value)
    ensures DirtyReader(r, name).Success? && Wf(DirtyReader(r, name).value)
  {
  }
}
