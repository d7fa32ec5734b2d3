/** Administrative operations on the index registry: shutting down, deleting
    indexes, optimizing, full re-indexing of every indexed class, the
    rebuild of one index through a shadow index swapped into place, and the
    start-up configuration. */
module Maintenance {
  import opened Wrappers
  import opened Documents
  import opened Conversion
  import opened Registry

  // ---------------------------------------------------------------------
  // stop / shutdown
  // ---------------------------------------------------------------------

  /** `stop` (`shutdown` in the static variant): every writer is closed, which
      commits its buffer into its directory and releases its lock, every
      searcher is closed, and both caches are emptied. Closing creates no
      directory: a writer whose directory has gone commits nowhere. */
  function Stop(r: Registry): (r': Registry)
    ensures r'.writers == map[] && r'.searchers == map[]
    ensures r'.dirs.Keys == r.dirs.Keys
    ensures forall n :: n in r.writers && n in r.dirs ==> r'.dirs[n] == r.writers[n].docs
    ensures forall n :: n in r.dirs && n !in r.writers ==> r'.dirs[n] == r.dirs[n]
    ensures r'.locks == r.locks - r.writers.Keys
    ensures r'.variant == r.variant && r'.sync == r.sync && r'.root == r.root && r'.analyser == r.analyser
    ensures forall n :: n in r.dirs || n !in r.writers ==> Logical(r', n) == Logical(r, n)
    ensures forall n :: n in r.writers && n !in r.dirs ==> Logical(r', n) == []
    ensures Wf(r') && (Wf(r) ==> forall n :: Logical(r', n) == Logical(r, n))
  {
    var dirs := map n | n in r.dirs :: if n in r.writers then r.writers[n].docs else r.dirs[n];
    r.(dirs := dirs, locks := r.locks - r.writers.Keys, writers := map[], searchers := map[])
  }

  /** `close` on a cached writer: its buffer is committed, its lock released
      and it leaves the cache. */
  function CloseWriter(r: Registry, name: string): (r': Registry)
    requires name in r.writers
    ensures r'.dirs == r.dirs[name := r.writers[name].docs]
    ensures r'.writers == r.writers - {name} && r'.locks == r.locks - {name}
    ensures r'.searchers == r.searchers
    ensures Logical(r', name) == Logical(r, name)
    ensures OnlyTouches(r, r', name)
  {
    var r' := r.(dirs := r.dirs[name := r.writers[name].docs], locks := r.locks - {name},
                 writers := r.writers - {name});
    assert r'.dirs - {name} == r.dirs - {name} && r'.writers - {name} == r.writers - {name};
    r'
  }

  // ---------------------------------------------------------------------
  // delete / deleteAll / hasIndex / optimize / reopen
  // ---------------------------------------------------------------------

  /** `hasIndex`: the index directory exists. */
  predicate HasIndex(r: Registry, name: string) {
    name in r.dirs
  }

  /** `delete(name)`: the searcher and the writer of the index are closed and
      dropped and its directory, lock included, is removed; no other index is
      touched. */
  function Delete(r: Registry, name: string): (r': Registry)
    ensures !HasIndex(r', name) && name !in r'.writers && name !in r'.searchers && name !in r'.locks
    ensures r'.dirs == r.dirs - {name} && r'.writers == r.writers - {name}
    ensures r'.searchers == r.searchers - {name} && r'.locks == r.locks - {name}
    ensures r'.variant == r.variant && r'.sync == r.sync && r'.root == r.root && r'.analyser == r.analyser
    ensures Wf(r) ==> Wf(r')
  {
    r.(dirs := r.dirs - {name}, locks := r.locks - {name},
       writers := r.writers - {name}, searchers := r.searchers - {name})
  }

  /** Deleting one index leaves every other index as it was. */
  lemma DeleteFrame(r: Registry, name: string)
    ensures OnlyTouches(r, Delete(r, name), name)
  {
    var r' := Delete(r, name);
    assert r'.dirs - {name} == r.dirs - {name} && r'.writers - {name} == r.writers - {name};
    assert r'.searchers - {name} == r.searchers - {name};
  }

  /** What `deleteAll` has achieved once the indexes in `done` are deleted. */
  predicate DeletedSoFar(r: Registry, r': Registry, done: set<string>) {
    && r'.dirs == r.dirs - done
    && r'.writers == r.writers - done
    && r'.searchers == r.searchers - done
    && r'.locks == r.locks - done
    && r'.variant == r.variant && r'.sync == r.sync && r'.root == r.root && r'.analyser == r.analyser
  }

  lemma DeleteStep(r: Registry, r': Registry, done: set<string>, n: string)
    requires DeletedSoFar(r, r', done) && done <= r.dirs.Keys && n in r'.dirs
    ensures DeletedSoFar(r, Delete(r', n), done + {n})
    ensures done + {n} <= r.dirs.Keys
    ensures |r.dirs.Keys - (done + {n})| < |r.dirs.Keys - done|
  {
    assert r.dirs.Keys - done == (r.dirs.Keys - (done + {n})) + {n};
    WithoutBoth(r.dirs, done, n);
    WithoutBoth(r.writers, done, n);
    WithoutBoth(r.searchers, done, n);
  }

  /** Removing keys one at a time removes them all. */
  lemma WithoutBoth<V>(m: map<string, V>, a: set<string>, n: string)
    ensures m - a - {n} == m - (a + {n})
  {
  }

  /** `deleteAll`: `delete` on every index directory under the root. Handles
      cached under a name without a directory are left alone. */
  method DeleteAll(r: Registry) returns (r': Registry)
    ensures r'.dirs == map[]
    ensures r'.writers == r.writers - r.dirs.Keys
    ensures r'.searchers == r.searchers - r.dirs.Keys
    ensures r'.locks == r.locks - r.dirs.Keys
    ensures r'.variant == r.variant && r'.sync == r.sync && r'.root == r.root && r'.analyser == r.analyser
    ensures Wf(r) ==> Wf(r')
  {
    r' := r;
    ghost var done: set<string> := {};
    assert r.dirs - done == r.dirs && r.writers - done == r.writers && r.searchers - done == r.searchers;
    while r'.dirs != map[]
      invariant done <= r.dirs.Keys
      invariant DeletedSoFar(r, r', done)
      decreases |r.dirs.Keys - done|
    {
      var n :| n in r'.dirs;
      DeleteStep(r, r', done, n);
      r' := Delete(r', n);
      done := done + {n};
    }
    DeletedEverything(r, r', done);
  }

  lemma DeletedEverything(r: Registry, r': Registry, done: set<string>)
    requires DeletedSoFar(r, r', done) && done <= r.dirs.Keys && r'.dirs == map[]
    ensures r'.writers == r.writers - r.dirs.Keys
    ensures r'.searchers == r.searchers - r.dirs.Keys
    ensures r'.locks == r.locks - r.dirs.Keys
    ensures Wf(r) ==> Wf(r')
  {
    assert done == r.dirs.Keys;
    if Wf(r) {
      assert r'.writers.Keys == {} && r'.searchers.Keys == {};
    }
  }

  /** `optimize(name)`: the writer (opened if needed) merges its segments,
      which commits its buffer, and the searcher is refreshed. */
  function Optimize(r: Registry, name: string): (res: Result<Registry, Cause>)
    ensures res.Success?
    ensures name in res.value.dirs && res.value.dirs[name] == Logical(r, name)
    ensures Logical(res.value, name) == Logical(r, name)
    ensures name in res.value.searchers ==> res.value.searchers[name].docs == Logical(r, name)
  {
    Refresh(OpenWriter(r, name), name)
  }

  /** `reopen(name)`: an explicit `dirtyReader`. */
  function Reopen(r: Registry, name: string): (res: Result<Registry, Cause>)
    ensures Wf(r) ==> res.Success?
    ensures res.Success? && name in res.value.searchers ==>
      name in r.dirs && res.value.searchers[name] == Searcher(r.dirs[name])
  {
    DirtyReader(r, name)
  }

  // ---------------------------------------------------------------------
  // Streaming records through `index`
  // ---------------------------------------------------------------------

  /** The key and document `index` writes for each record, records that are
      not indexed being skipped. */
  function Mapped(objs: seq<Obj>, extract: Extractor): Result<seq<(string, Document)>, Cause>
    decreases |objs|
  {
    if |objs| == 0 then Success([])
    else if !Mappable(objs[0]) then Mapped(objs[1..], extract)
    else
      var doc :- ToDocument(objs[0], extract);
      var rest :- Mapped(objs[1..], extract);
      Success([(IdValueText(objs[0]).value, doc.value)] + rest)
  }

  /** The contents left by upserting the pairs in order. */
  function UpsertAll(docs: seq<Document>, pairs: seq<(string, Document)>): seq<Document>
    decreases |pairs|
  {
    if |pairs| == 0 then docs else UpsertAll(Upsert(docs, pairs[0].0, pairs[0].1), pairs[1..])
  }

  /** `index(record, name)` for every record in order; it fails exactly when
      mapping one of the records fails. */
  function IndexInto(r: Registry, objs: seq<Obj>, name: string, extract: Extractor): (res: Result<Registry, Cause>)
    ensures res.Success? <==> Mapped(objs, extract).Success?
    decreases |objs|
  {
    if |objs| == 0 then Success(r)
    else
      var r1 :- Index(r, objs[0], name, extract);
      IndexInto(r1, objs[1..], name, extract)
  }

  /** Mapping a nonempty sequence maps its head, then its tail. */
  lemma MappedStep(objs: seq<Obj>, extract: Extractor, docs: seq<Document>)
    requires |objs| > 0 && Mapped(objs, extract).Success?
    ensures Mapped(objs[1..], extract).Success?
    ensures Mappable(objs[0]) ==> ToDocument(objs[0], extract).Success? && ToDocument(objs[0], extract).value.Some?
    ensures UpsertAll(docs, Mapped(objs, extract).value)
         == UpsertAll(if Mappable(objs[0])
                      then Upsert(docs, IdValueText(objs[0]).value, ToDocument(objs[0], extract).value.value)
                      else docs,
                      Mapped(objs[1..], extract).value)
  {
    if Mappable(objs[0]) {
      var p := (IdValueText(objs[0]).value, ToDocument(objs[0], extract).value.value);
      var ps := [p] + Mapped(objs[1..], extract).value;
      assert ps[1..] == Mapped(objs[1..], extract).value;
    }
  }

  /** Streaming records into one index upserts them in order, touches no
      other index and opens no searcher. */
  lemma {:induction false} IndexIntoContents(r: Registry, objs: seq<Obj>, name: string, extract: Extractor)
    requires IndexInto(r, objs, name, extract).Success?
    ensures Mapped(objs, extract).Success?
    ensures var r' := IndexInto(r, objs, name, extract).value;
      && Logical(r', name) == UpsertAll(Logical(r, name), Mapped(objs, extract).value)
      && OnlyTouches(r, r', name)
      && r'.searchers.Keys <= r.searchers.Keys
      && (Wf(r) ==> Wf(r'))
    decreases |objs|
  {
    if |objs| > 0 {
      var o := objs[0];
      var r1 := Index(r, o, name, extract).value;
      IndexFrame(r, o, name, extract);
      IndexIntoContents(r1, objs[1..], name, extract);
      MappedStep(objs, extract, Logical(r, name));
      if Mappable(o) {
        IndexUpserts(r, o, name, extract);
      }
    }
  }

  // ---------------------------------------------------------------------
  // Full re-index
  // ---------------------------------------------------------------------

  /** An `@Indexed` class and the records the primary store holds for it. */
  datatype IndexedClass = IndexedClass(name: string, records: seq<Obj>)

  /** The current store indexes a class's records under the class name; the
      older stores index each record under its own class name. */
  function IndexClass(r: Registry, c: IndexedClass, extract: Extractor): (res: Result<Registry, Cause>)
    ensures res.Success? <==> Mapped(c.records, extract).Success?
    decreases |c.records|
  {
    match r.variant
    case Current => IndexInto(r, c.records, c.name, extract)
    case Legacy =>
      if |c.records| == 0 then Success(r)
      else
        var r1 :- IndexByClass(r, c.records[0], extract);
        IndexClass(r1, IndexedClass(c.name, c.records[1..]), extract)
  }

  /** Every class in turn; fails exactly when some record of some class
      cannot be mapped to a document. */
  function IndexClasses(r: Registry, cs: seq<IndexedClass>, extract: Extractor): (res: Result<Registry, Cause>)
    ensures res.Success? <==> forall k :: 0 <= k < |cs| ==> Mapped(cs[k].records, extract).Success?
    decreases |cs|
  {
    if |cs| == 0 then Success(r)
    else
      var r1 :- IndexClass(r, cs[0], extract);
      assert forall k :: 0 < k < |cs| ==> cs[k] == cs[1..][k - 1];
      IndexClasses(r1, cs[1..], extract)
  }

  /** `rebuildAllIndexes` (`reindex` in the static variant): shut down, delete
      the root with every index in it, recreate it empty, and index every
      record of every indexed class. Whatever the indexes held before, it
      fails exactly when some record cannot be mapped to a document. */
  function RebuildAll(r: Registry, cs: seq<IndexedClass>, extract: Extractor): (res: Result<Registry, Cause>)
    ensures res.Success? <==> forall k :: 0 <= k < |cs| ==> Mapped(cs[k].records, extract).Success?
  {
    IndexClasses(Wipe(Stop(r)), cs, extract)
  }

  /** Deleting and recreating the root: no index is left. */
  function Wipe(r: Registry): (r': Registry)
    ensures r'.dirs == map[] && r'.locks == {}
    ensures r'.writers == r.writers && r'.searchers == r.searchers
    ensures r'.variant == r.variant
  {
    r.(dirs := map[], locks := {})
  }

  /** The names of the classes. */
  function Names(cs: seq<IndexedClass>): set<string>
    decreases |cs|
  {
    if |cs| == 0 then {} else {cs[0].name} + Names(cs[1..])
  }

  /** No two classes share a name. */
  predicate Distinct(cs: seq<IndexedClass>)
    decreases |cs|
  {
    |cs| == 0 || (cs[0].name !in Names(cs[1..]) && Distinct(cs[1..]))
  }

  /** Every record read for a class is an instance of that class itself,
      not of a subclass. */
  predicate OwnRecords(cs: seq<IndexedClass>) {
    forall k, j :: 0 <= k < |cs| && 0 <= j < |cs[k].records| ==> cs[k].records[j].className == cs[k].name
  }

  /** The older stores index each record under its own class name; for
      records of the class itself that is the class's index, so they stream
      the records into it just as the current store does. */
  lemma {:induction false} LegacyClassIsInto(r: Registry, c: IndexedClass, extract: Extractor)
    requires r.variant == Legacy
    requires forall j :: 0 <= j < |c.records| ==> c.records[j].className == c.name
    ensures IndexClass(r, c, extract) == IndexInto(r, c.records, c.name, extract)
    decreases |c.records|
  {
    if |c.records| > 0 {
      var o := c.records[0];
      var step := Index(r, o, c.name, extract);
      if step.Success? {
        IndexFrame(r, o, c.name, extract);
        var rest := IndexedClass(c.name, c.records[1..]);
        LegacyClassIsInto(step.value, rest, extract);
      }
    }
  }

  /** Re-indexing class after class gives each class's index its records
      upserted in order, and touches no other index. In the older stores
      this holds when each class's records are its own instances, since an
      instance of a subclass goes to the subclass's index. */
  lemma {:induction false} IndexClassesContents(r: Registry, cs: seq<IndexedClass>, extract: Extractor)
    requires (r.variant == Current || OwnRecords(cs)) && Distinct(cs)
    requires IndexClasses(r, cs, extract).Success?
    ensures var r' := IndexClasses(r, cs, extract).value;
      && Outside(r, r', Names(cs))
      && r'.searchers.Keys <= r.searchers.Keys
      && forall k :: 0 <= k < |cs| ==>
           Mapped(cs[k].records, extract).Success?
           && Logical(r', cs[k].name) == UpsertAll(Logical(r, cs[k].name), Mapped(cs[k].records, extract).value)
    decreases |cs|
  {
    if |cs| > 0 {
      if r.variant == Legacy {
        LegacyClassIsInto(r, cs[0], extract);
      }
      var r1 := IndexInto(r, cs[0].records, cs[0].name, extract).value;
      IndexIntoContents(r, cs[0].records, cs[0].name, extract);
      var rest := cs[1..];
      assert forall k :: 0 <= k < |rest| ==> rest[k] == cs[k + 1];
      IndexClassesContents(r1, rest, extract);
      var r' := IndexClasses(r1, rest, extract).value;
      OutsideWiden(r, r1, {cs[0].name}, Names(cs));
      OutsideWiden(r1, r', Names(rest), Names(cs));
      OutsideSameAt(r1, r', Names(rest), cs[0].name);
      forall k | 0 <= k < |cs|
        ensures Mapped(cs[k].records, extract).Success?
        ensures Logical(r', cs[k].name) == UpsertAll(Logical(r, cs[k].name), Mapped(cs[k].records, extract).value)
      {
        if k > 0 {
          assert rest[k - 1] == cs[k];
          NamesHas(rest, k - 1);
          OutsideSameAt(r, r1, {cs[0].name}, cs[k].name);
        }
      }
    }
  }

  lemma {:induction false} NamesHas(cs: seq<IndexedClass>, k: int)
    requires 0 <= k < |cs|
    ensures cs[k].name in Names(cs)
    decreases k
  {
    if k > 0 {
      NamesHas(cs[1..], k - 1);
    }
  }

  /** After a full re-index each class's index holds exactly its records,
      upserted in order into an empty index, and no searcher from before
      survives. The older stores need each class's records to be its own
      instances (see `IndexClassesContents`). */
  lemma RebuildAllContents(r: Registry, cs: seq<IndexedClass>, extract: Extractor)
    requires (r.variant == Current || OwnRecords(cs)) && Distinct(cs)
    requires RebuildAll(r, cs, extract).Success?
    ensures var r' := RebuildAll(r, cs, extract).value;
      && r'.searchers == map[]
      && forall k :: 0 <= k < |cs| ==>
           Mapped(cs[k].records, extract).Success?
           && Logical(r', cs[k].name) == UpsertAll([], Mapped(cs[k].records, extract).value)
  {
    WipedEmpty(r);
    IndexClassesContents(Wipe(Stop(r)), cs, extract);
  }

  /** After shutting down and wiping the root, no index holds anything and
      no handle is cached. */
  lemma WipedEmpty(r: Registry)
    ensures var r2 := Wipe(Stop(r));
      && r2.writers == map[] && r2.searchers == map[] && r2.variant == r.variant
      && forall n :: Logical(r2, n) == []
  {
  }

  // ---------------------------------------------------------------------
  // Rebuild of one index through a shadow index
  // ---------------------------------------------------------------------

  /** The random suffix names a shadow index that does not exist yet. */
  predicate FreshSuffix(r: Registry, name: string, suffix: string) {
    var shadow := name + suffix;
    && |suffix| > 0
    && shadow !in r.dirs && shadow !in r.writers && shadow !in r.searchers && shadow !in r.locks
  }

  /** Delete the live directory and rename the shadow directory into its
      place; a lock file in the shadow directory moves with it. */
  function Swap(r: Registry, name: string, shadow: string): (r': Registry)
    requires shadow in r.dirs && name != shadow
    ensures name in r'.dirs && r'.dirs[name] == r.dirs[shadow] && shadow !in r'.dirs
    ensures name in r'.locks <==> shadow in r.locks
    ensures shadow !in r'.locks
    ensures r'.writers == r.writers && r'.searchers == r.searchers
  {
    r.(dirs := (r.dirs - {name} - {shadow})[name := r.dirs[shadow]],
       locks := r.locks - {name, shadow} + (if shadow in r.locks then {name} else {}))
  }

  lemma SwapFrame(r: Registry, name: string, shadow: string)
    requires shadow in r.dirs && name != shadow
    requires name !in r.writers && name !in r.searchers && shadow !in r.writers && shadow !in r.searchers
    ensures Outside(r, Swap(r, name, shadow), {name, shadow})
    ensures Wf(r) ==> Wf(Swap(r, name, shadow))
  {
    var r' := Swap(r, name, shadow);
    assert r'.dirs - {name, shadow} == r.dirs - {name, shadow};
  }

  /** The live half of `rebuild(name)` before the swap: the live searcher is
      closed and dropped (the current store opens it first if needed), then
      the live writer is closed and dropped (opened first if needed). */
  function ReleaseLive(r: Registry, name: string): (res: Result<Registry, Cause>)
    ensures res.Success? ==> name !in res.value.writers && name !in res.value.searchers && name !in res.value.locks
    ensures res.Success? ==> name in res.value.dirs
  {
    var r4 :- GetIndexSearcher(r, name);
    var r5 := r4.(searchers := r4.searchers - {name});
    Success(CloseWriter(OpenWriter(r5, name), name))
  }

  lemma ReleaseLiveFrame(r: Registry, name: string)
    requires ReleaseLive(r, name).Success?
    ensures OnlyTouches(r, ReleaseLive(r, name).value, name)
    ensures ReleaseLive(r, name).value.searchers.Keys <= r.searchers.Keys
    ensures Wf(r) ==> Wf(ReleaseLive(r, name).value)
  {
    var r4 := GetIndexSearcher(r, name).value;
    GetIndexSearcherFrame(r, name);
    var r5 := r4.(searchers := r4.searchers - {name});
    assert r5.searchers - {name} == r4.searchers - {name};
    var r6 := OpenWriter(r5, name);
    OpenWriterFrame(r5, name);
    var r7 := CloseWriter(r6, name);
    OnlyTouchesTrans(r, r4, r5, name);
    OnlyTouchesTrans(r, r5, r6, name);
    OnlyTouchesTrans(r, r6, r7, name);
    if Wf(r) {
      HandlesKeepWf(r, name);
    }
  }

  /** The shadow half of `rebuild(name)`: every record is indexed into the
      shadow, whose writer is then flushed and its searcher refreshed. */
  function BuildShadow(r: Registry, shadow: string, objs: seq<Obj>, extract: Extractor)
    : (res: Result<Registry, Cause>)
    ensures res.Success? ==> shadow in res.value.writers && shadow in res.value.dirs
  {
    var r1 :- IndexInto(r, objs, shadow, extract);
    Refresh(OpenWriter(r1, shadow), shadow)
  }

  lemma BuildShadowState(r: Registry, shadow: string, objs: seq<Obj>, extract: Extractor)
    requires shadow !in r.dirs && shadow !in r.writers && shadow !in r.searchers && shadow !in r.locks
    requires BuildShadow(r, shadow, objs, extract).Success?
    ensures Mapped(objs, extract).Success?
    ensures var r3 := BuildShadow(r, shadow, objs, extract).value;
      && r3.dirs[shadow] == UpsertAll([], Mapped(objs, extract).value)
      && shadow in r3.writers && r3.writers[shadow].docs == r3.dirs[shadow]
      && shadow !in r3.searchers
      && OnlyTouches(r, r3, shadow)
      && r3.searchers.Keys <= r.searchers.Keys
      && (Wf(r) ==> Wf(r3))
  {
    IndexIntoContents(r, objs, shadow, extract);
    var r1 := IndexInto(r, objs, shadow, extract).value;
    assert Logical(r, shadow) == [];
    var r2 := OpenWriter(r1, shadow);
    OpenWriterFrame(r1, shadow);
    RefreshFrame(r2, shadow);
    var r3 := Refresh(r2, shadow).value;
    OnlyTouchesTrans(r1, r2, r3, shadow);
    OnlyTouchesTrans(r, r1, r3, shadow);
    assert shadow !in r1.searchers;
    assert shadow !in r2.searchers;
    assert r3.dirs[shadow] == Logical(r2, shadow);
  }

  /** The steps of `rebuild(name)` up to the swap. */
  function PrepareSwap(r: Registry, name: string, shadow: string, objs: seq<Obj>, extract: Extractor)
    : (res: Result<Registry, Cause>)
    ensures res.Success? ==> name !in res.value.writers && name !in res.value.searchers
  {
    var r3 :- BuildShadow(r, shadow, objs, extract);
    ReleaseLive(r3, name)
  }

  /** `rebuild(name)` as the source writes it: the shadow's writer is never
      closed and stays cached under the shadow's name. The guard before the
      swap never fails for a fresh suffix (`PrepareSwapState`). */
  function RebuildAsWritten(r: Registry, name: string, suffix: string, objs: seq<Obj>, extract: Extractor)
    : (res: Result<Registry, Cause>)
    requires |suffix| > 0
    ensures res.Success? ==>
      && HasIndex(res.value, name) && !HasIndex(res.value, name + suffix)
      && name !in res.value.writers && name !in res.value.searchers
  {
    var shadow := name + suffix;
    var r6 :- PrepareSwap(r, name, shadow, objs, extract);
    if shadow !in r6.dirs then Failure(IndexMissing(shadow))
    else Success(Swap(r6, name, shadow))
  }

  /** `rebuild(name)` with the shadow's writer closed before the swap. The
      guard before it never fails for a fresh suffix (`PrepareSwapState`). */
  function Rebuild(r: Registry, name: string, suffix: string, objs: seq<Obj>, extract: Extractor)
    : (res: Result<Registry, Cause>)
    requires |suffix| > 0
    ensures res.Success? ==>
      && HasIndex(res.value, name) && !HasIndex(res.value, name + suffix)
      && name !in res.value.writers && name !in res.value.searchers
      && name + suffix !in res.value.writers
  {
    var shadow := name + suffix;
    var r6 :- PrepareSwap(r, name, shadow, objs, extract);
    if shadow !in r6.writers then Failure(IndexMissing(shadow))
    else Success(Swap(CloseWriter(r6, shadow), name, shadow))
  }

  /** While the shadow is built the live index is not touched: its directory,
      writer and searcher stay as they were, so queries keep being served
      from the previous generation. */
  lemma RebuildLeavesLiveWhileBuilding(r: Registry, name: string, suffix: string, objs: seq<Obj>, extract: Extractor)
    requires |suffix| > 0
    requires IndexInto(r, objs, name + suffix, extract).Success?
    ensures SameAt(r, IndexInto(r, objs, name + suffix, extract).value, name)
  {
    IndexIntoContents(r, objs, name + suffix, extract);
    assert name != name + suffix;
    OutsideSameAt(r, IndexInto(r, objs, name + suffix, extract).value, {name + suffix}, name);
  }

  lemma PrepareSwapState(r: Registry, name: string, suffix: string, objs: seq<Obj>, extract: Extractor)
    requires FreshSuffix(r, name, suffix)
    requires PrepareSwap(r, name, name + suffix, objs, extract).Success?
    ensures Mapped(objs, extract).Success?
    ensures var shadow := name + suffix;
      var r6 := PrepareSwap(r, name, shadow, objs, extract).value;
      && shadow in r6.dirs && shadow in r6.writers
      && r6.dirs[shadow] == UpsertAll([], Mapped(objs, extract).value)
      && r6.writers[shadow].docs == r6.dirs[shadow]
      && name !in r6.locks && shadow !in r6.searchers
      && Outside(r, r6, {name, shadow})
      && (Wf(r) ==> Wf(r6))
  {
    var shadow := name + suffix;
    assert name != shadow;
    BuildShadowState(r, shadow, objs, extract);
    var r3 := BuildShadow(r, shadow, objs, extract).value;
    ReleaseLiveFrame(r3, name);
    var r6 := ReleaseLive(r3, name).value;
    OutsideSameAt(r3, r6, {name}, shadow);
    OutsideWiden(r, r3, {shadow}, {name, shadow});
    OutsideWiden(r3, r6, {name}, {name, shadow});
  }

  /** After a rebuild the live index holds exactly the records read, upserted
      in order into an empty index; neither the live nor the shadow name keeps
      a cached handle or a lock; every other index is untouched; and the
      registry stays well formed. */
  lemma RebuildReplacesLive(r: Registry, name: string, suffix: string, objs: seq<Obj>, extract: Extractor)
    requires FreshSuffix(r, name, suffix)
    requires Rebuild(r, name, suffix, objs, extract).Success?
    ensures Mapped(objs, extract).Success?
    ensures var shadow := name + suffix;
      var r' := Rebuild(r, name, suffix, objs, extract).value;
      && HasIndex(r', name) && r'.dirs[name] == UpsertAll([], Mapped(objs, extract).value)
      && name !in r'.writers && name !in r'.searchers && name !in r'.locks
      && !HasIndex(r', shadow) && shadow !in r'.writers && shadow !in r'.searchers && shadow !in r'.locks
      && Outside(r, r', {name, shadow})
      && (Wf(r) ==> Wf(r'))
  {
    var shadow := name + suffix;
    PrepareSwapState(r, name, suffix, objs, extract);
    var r6 := PrepareSwap(r, name, shadow, objs, extract).value;
    var r7 := CloseWriter(r6, shadow);
    assert r7.dirs[shadow] == r6.dirs[shadow];
    assert Wf(r6) ==> Wf(r7);
    SwapFrame(r7, name, shadow);
    OutsideWiden(r6, r7, {shadow}, {name, shadow});
  }

  /** In a well-formed current store, with a fresh suffix, a rebuild (as
      written or corrected) fails exactly when some record cannot be mapped
      to a document. */
  lemma RebuildFailsOnlyOnRecords(r: Registry, name: string, suffix: string, objs: seq<Obj>, extract: Extractor)
    requires FreshSuffix(r, name, suffix) && Wf(r) && r.variant == Current
    ensures Rebuild(r, name, suffix, objs, extract).Success? <==> Mapped(objs, extract).Success?
    ensures RebuildAsWritten(r, name, suffix, objs, extract).Success? <==> Mapped(objs, extract).Success?
  {
    var shadow := name + suffix;
    if Mapped(objs, extract).Success? {
      BuildShadowState(r, shadow, objs, extract);
      var r3 := BuildShadow(r, shadow, objs, extract).value;
      assert GetIndexSearcher(r3, name).Success?;
      PrepareSwapState(r, name, suffix, objs, extract);
    }
  }

  /** The source's rebuild leaves the registry ill formed: the shadow's
      writer stays cached although its directory has been renamed away, and
      its lock file now sits in the live directory. */
  lemma RebuildAsWrittenLeaksShadowWriter(r: Registry, name: string, suffix: string, objs: seq<Obj>,
                                          extract: Extractor)
    requires FreshSuffix(r, name, suffix)
    requires RebuildAsWritten(r, name, suffix, objs, extract).Success?
    ensures var shadow := name + suffix;
      var r' := RebuildAsWritten(r, name, suffix, objs, extract).value;
      && shadow in r'.writers && !HasIndex(r', shadow)
      && name !in r'.writers
      && (Wf(r) ==> name in r'.locks)
      && !Wf(r')
  {
    PrepareSwapState(r, name, suffix, objs, extract);
  }

  /** Where indexes come from and go: a writer creates its index, `delete`
      removes it, a searcher of the current store creates a missing index,
      and a searcher of the older stores needs the index to exist. */
  lemma HasIndexLifecycle(r: Registry, name: string)
    ensures Wf(r) ==> HasIndex(OpenWriter(r, name), name)
    ensures !HasIndex(Delete(r, name), name)
    ensures Wf(r) && r.variant == Current ==>
      GetIndexSearcher(r, name).Success? && HasIndex(GetIndexSearcher(r, name).value, name)
    ensures Wf(r) && r.variant == Legacy ==> (GetIndexSearcher(r, name).Success? <==> HasIndex(r, name))
  {
  }

  // ---------------------------------------------------------------------
  // Configuration
  // ---------------------------------------------------------------------

  type Config = map<string, string>

  const PathKey: string := "play.search.path"
  const SyncKey: string := "play.search.synch"
  const AnalyserKey: string := "play.search.analyser"
  const DefaultAnalyser: string := "org.apache.lucene.analysis.standard.StandardAnalyzer"
  const DataDir: string := "/data/search/"

  function Lookup(c: Config, key: string, default: string): string {
    if key in c then c[key] else default
  }

  function ToLower(ch: char): char {
    if 'A' <= ch <= 'Z' then (ch as int + 32) as char else ch
  }

  /** `Boolean.parseBoolean`: true exactly for "true" in any letter case. */
  function ParseBoolean(s: string): (b: bool)
    ensures b <==> |s| == 4 && forall i :: 0 <= i < 4 ==> ToLower(s[i]) == "true"[i]
  {
    |s| == 4 && ToLower(s[0]) == 't' && ToLower(s[1]) == 'r' && ToLower(s[2]) == 'u' && ToLower(s[3]) == 'e'
  }

  /** The index root: the configured path, or `data/search/` under the
      application directory. */
  function RootPath(c: Config, appPath: string): string {
    if PathKey in c then c[PathKey] else appPath + DataDir
  }

  /** `start` of the stores: the root path and the write mode. */
  function Start(r: Registry, c: Config, appPath: string): (r': Registry)
    ensures r'.root == RootPath(c, appPath)
    ensures r'.sync == ParseBoolean(Lookup(c, SyncKey, "true"))
    ensures r'.dirs == r.dirs && r'.writers == r.writers && r'.searchers == r.searchers
  {
    r.(root := RootPath(c, appPath), sync := ParseBoolean(Lookup(c, SyncKey, "true")))
  }

  /** `init` of the static variant: shut down first, then read the analyser,
      the root path and the write mode. */
  function Init(r: Registry, c: Config, appPath: string): (r': Registry)
    ensures r'.writers == map[] && r'.searchers == map[]
    ensures r'.analyser == Lookup(c, AnalyserKey, DefaultAnalyser)
    ensures r'.root == RootPath(c, appPath)
    ensures r'.sync == ParseBoolean(Lookup(c, SyncKey, "true"))
    ensures forall n :: n in r.dirs || n !in r.writers ==> Logical(r', n) == Logical(r, n)
    ensures Wf(r) ==> forall n :: Logical(r', n) == Logical(r, n)
  {
    Start(Stop(r), c, appPath).(analyser := Lookup(c, AnalyserKey, DefaultAnalyser))
  }

  /** With nothing configured, `init` chooses the standard analyser, the
      application's `data/search/` directory and synchronous writes. */
  lemma InitDefaults(r: Registry, appPath: string)
    ensures var r' := Init(r, map[], appPath);
      && r'.analyser == DefaultAnalyser
      && r'.root == appPath + DataDir
      && r'.sync
  {
  }
}
