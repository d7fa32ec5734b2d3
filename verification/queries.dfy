/** The chainable query: its settings (paging, ordering, direction), the sort
    it hands to the search engine, the cached hit list, and how a page of
    hits becomes results, with or without loading the matching entities. */
module Queries {
  import opened Wrappers
  import opened Documents
  import opened Conversion
  import opened Registry

  // ---------------------------------------------------------------------
  // Java `int`
  // ---------------------------------------------------------------------

  newtype int32 = x: int | -0x8000_0000 <= x < 0x8000_0000

  const MaxInt32: int := 0x7fff_ffff

  /** Two's-complement wrap-around of an integer into `int`. */
  function Wrap32(x: int): (r: int32)
    ensures -0x8000_0000 <= x <= MaxInt32 ==> r as int == x
    ensures (r as int - x) % 0x1_0000_0000 == 0
  {
    ((x + 0x8000_0000) % 0x1_0000_0000 - 0x8000_0000) as int32
  }

  /** Java's `int` addition. */
  function Add32(a: int32, b: int32): int32 {
    Wrap32(a as int + b as int)
  }

  // ---------------------------------------------------------------------
  // Query settings
  // ---------------------------------------------------------------------

  /** A query: its text, the indexed class (its name and public members),
      the sort keys, the page, the direction, and the hit list once
      searched. */
  datatype Query = Query(
    text: string,
    className: string,
    fields: seq<Member>,
    order: seq<string>,
    offset: int32,
    pageSize: int32,
    reverse: bool,
    hits: Option<seq<Document>>)

  const DefaultPageSize: int32 := 10

  /** The constructor: no ordering, the first page of ten, ascending, not
      yet searched. */
  function NewQuery(text: string, className: string, fields: seq<Member>): (q: Query)
    ensures q.text == text && q.className == className && q.fields == fields
    ensures q.order == [] && q.offset == 0 && q.pageSize == DefaultPageSize && !q.reverse
    ensures q.hits.None?
  {
    Query(text, className, fields, [], 0, DefaultPageSize, false, None)
  }

  /** `page(offset, pageSize)`; the cached hits are kept. */
  function Page(q: Query, offset: int32, pageSize: int32): (q': Query)
    ensures q'.offset == offset && q'.pageSize == pageSize
    ensures q' == q.(offset := offset, pageSize := pageSize)
  {
    q.(offset := offset, pageSize := pageSize)
  }

  /** `all()`: a non-positive page size selects every hit. */
  function All(q: Query): (q': Query)
    ensures q'.pageSize <= 0
    ensures q' == q.(pageSize := -1)
  {
    q.(pageSize := -1)
  }

  /** `reverse()`. */
  function Reverse(q: Query): (q': Query)
    ensures q'.reverse && q' == q.(reverse := true)
  {
    q.(reverse := true)
  }

  /** The sort key for one requested field: its untokenized shadow when the
      field's annotation forces one. */
  function SortKey(fields: seq<Member>, name: string): string {
    name + (if IsForcedUntokenized(fields, name) then ShadowSuffix else "")
  }

  /** `orderBy(names...)`: each requested field becomes its sort key. */
  method OrderBy(q: Query, names: seq<string>) returns (q': Query)
    ensures |q'.order| == |names|
    ensures forall i :: 0 <= i < |names| ==> q'.order[i] == SortKey(q.fields, names[i])
    ensures q' == q.(order := q'.order)
  {
    var order: seq<string> := [];
    var i := 0;
    while i < |names|
      invariant 0 <= i <= |names|
      invariant |order| == i
      invariant forall k :: 0 <= k < i ==> order[k] == SortKey(q.fields, names[k])
    {
      var suffix := if IsForcedUntokenized(q.fields, names[i]) then ShadowSuffix else "";
      order := order + [names[i] + suffix];
      i := i + 1;
    }
    q' := q.(order := order);
  }

  /** A sort key names a field every document of the class carries under
      that name: a forced field's key is the name of the shadow field the
      document builder adds beside it. */
  lemma SortKeyIsShadowField(fields: seq<Member>, name: string, b: Builder, v: string)
    requires IsForcedUntokenized(fields, name)
    ensures var spec := fields[FindNamed(fields, name).value].annotation.value;
      var b' := AddField(b, name, Some(v), spec);
      |b'.fields| == |b.fields| + 2 && b'.fields[|b.fields| + 1].name == SortKey(fields, name)
      && !b'.fields[|b.fields| + 1].tokenized
  {
  }

  // ---------------------------------------------------------------------
  // getSort
  // ---------------------------------------------------------------------

  /** Lucene's sort: by relevance, by one field descending, or by the given
      fields ascending. */
  datatype Sort = Relevance | Descending(field: string) | Ascending(fields: seq<string>)

  /** `getSort`: relevance without sort keys; with `reverse()` exactly one
      key is allowed; otherwise the keys ascending. */
  function GetSort(q: Query): (r: Result<Sort, Cause>)
    ensures r.Failure? <==> q.reverse && |q.order| > 1
    ensures r.Success? ==> Keys(r.value) == q.order
    ensures r.Success? && r.value.Descending? ==> q.reverse
    ensures |q.order| == 0 ==> r == Success(Relevance)
    ensures r.Success? && |q.order| > 0 ==> (r.value.Descending? <==> q.reverse)
  {
    if |q.order| == 0 then Success(Relevance)
    else if q.reverse then
      if |q.order| != 1 then Failure(BadSort) else Success(Descending(q.order[0]))
    else Success(Ascending(q.order))
  }

  /** The keys a sort orders by. */
  function Keys(s: Sort): seq<string> {
    match s
    case Relevance => []
    case Descending(f) => [f]
    case Ascending(fs) => fs
  }

  /** `reverse()` without sort keys changes nothing: the order stays by
      relevance. */
  lemma ReverseWithoutKeysIgnored(q: Query)
    requires q.order == []
    ensures GetSort(Reverse(q)) == GetSort(q) == Success(Relevance)
  {
  }

  // ---------------------------------------------------------------------
  // Paging
  // ---------------------------------------------------------------------

  /** The hit indexes a page reads, `lo` inclusive to `hi` exclusive. */
  datatype Window = Window(lo: int, hi: int)

  predicate ValidWindow(w: Window, l: nat) {
    0 <= w.lo <= w.hi <= l
  }

  /** The paging of `executeQuery` for `l` hits, as written: an offset past
      the end yields nothing; a positive page size reads from the offset up
      to `offset + pageSize` in `int` arithmetic, capped at the end; any
      other page size reads every hit. Reading a negative index throws. */
  function WindowAsWritten(offset: int32, pageSize: int32, l: nat): (r: Result<Window, Cause>)
    requires l <= MaxInt32
    ensures r.Success? ==> ValidWindow(r.value, l)
    ensures offset as int > l ==> r == Success(Window(0, 0))
  {
    if offset as int > l then Success(Window(0, 0))
    else if pageSize > 0 then
      var end := Add32(offset, pageSize);
      var hi := if end as int > l then l else end as int;
      if hi <= offset as int then Success(Window(0, 0))
      else if offset < 0 then Failure(HitOutOfRange(offset as int))
      else Success(Window(offset as int, hi))
    else Success(Window(0, l))
  }

  /** The paging as intended: the page end computed without wrap-around. */
  function PageWindow(offset: int32, pageSize: int32, l: nat): (r: Result<Window, Cause>)
    ensures r.Success? ==> ValidWindow(r.value, l)
    ensures r.Failure? <==> pageSize > 0 && offset < 0
    ensures r.Failure? ==> r.error == HitOutOfRange(offset as int)
    ensures offset as int > l ==> r == Success(Window(0, 0))
  {
    if offset as int > l then Success(Window(0, 0))
    else if pageSize > 0 then
      var end := offset as int + pageSize as int;
      var hi := if end > l then l else end;
      if hi <= offset as int then Success(Window(0, 0))
      else if offset < 0 then Failure(HitOutOfRange(offset as int))
      else Success(Window(offset as int, hi))
    else Success(Window(0, l))
  }

  function Min(a: int, b: int): int {
    if a <= b then a else b
  }

  /** A page within the hits reads `pageSize` hits from the offset, or the
      rest of them when fewer remain. */
  lemma PageWindowReadsPage(offset: int32, pageSize: int32, l: nat)
    requires 0 <= offset as int <= l && pageSize > 0
    ensures PageWindow(offset, pageSize, l).Success?
    ensures var w := PageWindow(offset, pageSize, l).value;
      (w.hi - w.lo == Min(pageSize as int, l - offset as int))
      && (w.hi > w.lo ==> w.lo == offset as int)
  {
  }

  /** Consecutive pages tile the hits: the next page starts where this one
      ends. */
  lemma PagesTile(offset: int32, pageSize: int32, l: nat)
    requires 0 <= offset as int && pageSize > 0 && offset as int + pageSize as int < l
    requires offset as int + pageSize as int <= MaxInt32
    ensures var next := (offset as int + pageSize as int) as int32;
      && PageWindow(offset, pageSize, l).Success? && PageWindow(next, pageSize, l).Success?
      && PageWindow(offset, pageSize, l).value.hi == PageWindow(next, pageSize, l).value.lo
  {
  }

  /** `all()` reads every hit unless the offset lies past the end. */
  lemma AllReadsEverything(offset: int32, pageSize: int32, l: nat)
    requires pageSize <= 0
    ensures PageWindow(offset, pageSize, l) == (if offset as int > l then Success(Window(0, 0)) else Success(Window(0, l)))
  {
  }

  /** Wherever `offset + pageSize` fits in an `int`, the source's paging is
      the intended one. */
  lemma WindowAsWrittenAgrees(offset: int32, pageSize: int32, l: nat)
    requires l <= MaxInt32
    requires offset as int + pageSize as int <= MaxInt32
    ensures WindowAsWritten(offset, pageSize, l) == PageWindow(offset, pageSize, l)
  {
  }

  /** `page(1, Integer.MAX_VALUE)` over ten hits: the page end wraps to a
      negative number, so the source reads nothing, where the nine hits
      after the first were meant. */
  lemma WindowOverflowLosesHits()
    ensures WindowAsWritten(1, 0x7fff_ffff, 10) == Success(Window(0, 0))
    ensures PageWindow(1, 0x7fff_ffff, 10) == Success(Window(1, 10))
  {
    assert Add32(1, 0x7fff_ffff) as int == -0x8000_0000;
  }
  // ---------------------------------------------------------------------
  // Results
  // ---------------------------------------------------------------------

  /** One result: the hit's key, and the entity when loading was asked for. */
  datatype Hit = Hit(id: Option<string>, obj: Option<Obj>)

  /** The entity manager's `find` by key; `None` when no entity has it. The
      conversion of the key to the id field's type is part of it. */
  type Loader = string -> Option<Obj>

  /** Whether a hit's entity can be loaded: the class declares an `@Id`
      field, the hit carries a key, and an entity has that key. */
  predicate Loads(q: Query, d: Document, load: Loader) {
    FindId(q.fields).Some? && DocIdOf(d).Some? && load(DocIdOf(d).value).Some?
  }

  /** The result for one hit: its key, and when loading its entity, which
      must exist ("Please re-index" otherwise). */
  function HitOf(q: Query, d: Document, fetch: bool, load: Loader): (r: Result<Hit, Cause>)
    ensures r.Failure? <==> fetch && !Loads(q, d, load)
    ensures r.Success? ==> r.value.id == DocIdOf(d)
    ensures r.Success? && fetch ==> r.value.obj == load(DocIdOf(d).value)
    ensures r.Success? && !fetch ==> r.value.obj.None?
  {
    var id := DocIdOf(d);
    if !fetch then Success(Hit(id, None))
    else if FindId(q.fields).None? then Failure(NoIdField(q.className))
    else if id.None? then Failure(NullDocId)
    else match load(id.value)
      case None => Failure(StaleIndex)
      case Some(o) => Success(Hit(id, Some(o)))
  }

  /** The results for a run of hits, aborting at the first that fails. */
  function Collected(q: Query, hs: seq<Document>, fetch: bool, load: Loader): Result<seq<Hit>, Cause>
    decreases |hs|
  {
    if |hs| == 0 then Success([])
    else
      var h :- HitOf(q, hs[0], fetch, load);
      var rest :- Collected(q, hs[1..], fetch, load);
      Success([h] + rest)
  }

  /** Every hit of a run can be loaded. */
  predicate AllLoad(q: Query, hs: seq<Document>, load: Loader) {
    forall k :: 0 <= k < |hs| ==> Loads(q, hs[k], load)
  }

  /** `rs` holds one result per hit, in hit order: each carries its hit's
      key and, when loading, its hit's entity, and no entity otherwise. */
  predicate ResultsFor(q: Query, hs: seq<Document>, rs: seq<Hit>, fetch: bool, load: Loader) {
    && |rs| == |hs|
    && forall k :: 0 <= k < |hs| ==>
         && rs[k].id == DocIdOf(hs[k])
         && (fetch ==> DocIdOf(hs[k]).Some? && rs[k].obj == load(DocIdOf(hs[k]).value))
         && (!fetch ==> rs[k].obj.None?)
  }

  /** Collecting fails exactly when loading is asked for and some hit does
      not load; otherwise it gives the results for the hits. */
  lemma {:induction false} CollectedSpec(q: Query, hs: seq<Document>, fetch: bool, load: Loader)
    ensures Collected(q, hs, fetch, load).Failure? <==> fetch && !AllLoad(q, hs, load)
    ensures Collected(q, hs, fetch, load).Success? ==> ResultsFor(q, hs, Collected(q, hs, fetch, load).value, fetch, load)
    decreases |hs|
  {
    if |hs| > 0 {
      CollectedSpec(q, hs[1..], fetch, load);
      if fetch && !AllLoad(q, hs[1..], load) {
        var k :| 0 <= k < |hs[1..]| && !Loads(q, hs[1..][k], load);
        assert !Loads(q, hs[k + 1], load);
      }
      if fetch && !AllLoad(q, hs, load) {
        var k :| 0 <= k < |hs| && !Loads(q, hs[k], load);
        if k > 0 {
          assert hs[1..][k - 1] == hs[k];
        }
      }
      if Collected(q, hs, fetch, load).Success? {
        var rs := Collected(q, hs, fetch, load).value;
        var h := HitOf(q, hs[0], fetch, load).value;
        var rest := Collected(q, hs[1..], fetch, load).value;
        assert rs == [h] + rest;
        forall k | 0 < k < |hs|
          ensures rs[k] == rest[k - 1] && hs[k] == hs[1..][k - 1]
        {
        }
      }
    }
  }

  /** The results gathered so far followed by those still to come, or the
      failure still to come. */
  function Prefixed(acc: seq<Hit>, r: Result<seq<Hit>, Cause>): Result<seq<Hit>, Cause> {
    if r.Success? then Success(acc + r.value) else r
  }

  /** One turn of the result loop: the hit at `i` followed by the rest. */
  lemma CollectedStep(q: Query, hs: seq<Document>, i: nat, hi: nat, fetch: bool, load: Loader, acc: seq<Hit>)
    requires i < hi <= |hs|
    ensures var h := HitOf(q, hs[i], fetch, load);
      Prefixed(acc, Collected(q, hs[i..hi], fetch, load))
      == if h.Failure? then Failure(h.error) else Prefixed(acc + [h.value], Collected(q, hs[i + 1..hi], fetch, load))
  {
    var rest := hs[i..hi];
    assert rest[0] == hs[i] && rest[1..] == hs[i + 1..hi];
    var r := Collected(q, hs[i + 1..hi], fetch, load);
    var h := HitOf(q, hs[i], fetch, load);
    if h.Success? && r.Success? {
      assert acc + ([h.value] + r.value) == acc + [h.value] + r.value;
    }
  }

  /** The result loop of `executeQuery` over the hit indexes of a window. */
  method CollectWindow(q: Query, hs: seq<Document>, w: Window, fetch: bool, load: Loader)
    returns (res: Result<seq<Hit>, Cause>)
    requires ValidWindow(w, |hs|)
    ensures res == Collected(q, hs[w.lo..w.hi], fetch, load)
  {
    var acc: seq<Hit> := [];
    var i := w.lo;
    ghost var all := Collected(q, hs[w.lo..w.hi], fetch, load);
    assert all.Success? ==> [] + all.value == all.value;
    while i < w.hi
      invariant w.lo <= i <= w.hi
      invariant all == Prefixed(acc, Collected(q, hs[i..w.hi], fetch, load))
    {
      var h := HitOf(q, hs[i], fetch, load);
      CollectedStep(q, hs, i, w.hi, fetch, load, acc);
      if h.Failure? {
        return Failure(h.error);
      }
      acc := acc + [h.value];
      i := i + 1;
    }
    assert hs[i..w.hi] == [];
    assert acc + [] == acc;
    res := Success(acc);
  }

  /** The results for a query whose hits are known: its page of them. */
  function PageResults(q: Query, hs: seq<Document>, fetch: bool, load: Loader): Result<seq<Hit>, Cause> {
    var w :- PageWindow(q.offset, q.pageSize, |hs|);
    Collected(q, hs[w.lo..w.hi], fetch, load)
  }

  // ---------------------------------------------------------------------
  // Searching
  // ---------------------------------------------------------------------

  /** The search engine: whether a query text parses, and the hits a parsed
      query yields over a searcher's documents in a given sort order. */
  datatype Engine = Engine(parses: string -> bool, run: (string, Sort, seq<Document>) -> seq<Document>)

  /** How a query call ended: a parse failure is a `SearchException`,
      anything else an `UnexpectedException`. */
  datatype QueryError = SearchError(cause: Cause) | UnexpectedError(cause: Cause)

  /** A call's outcome: the query and registry afterwards, which keep what
      happened before an exception, and its result. */
  datatype Outcome<T> = Outcome(q: Query, reg: Registry, result: Result<T, QueryError>)

  function Unexpected<T>(r: Result<T, Cause>): (r': Result<T, QueryError>)
    ensures r'.Success? <==> r.Success?
    ensures r.Success? ==> r'.value == r.value
    ensures r.Failure? ==> r'.error == UnexpectedError(r.error)
  {
    if r.Success? then Success(r.value) else Failure(UnexpectedError(r.error))
  }

  /** Parse, obtain the class's searcher, build the sort, and search. The
      searcher is obtained before the sort is built, so a bad sort still
      leaves it cached. */
  function Search(q: Query, reg: Registry, engine: Engine): (o: Outcome<seq<Document>>)
    ensures o.result.Failure? ==> o.q == q
    ensures o.result.Success? ==> o.q == q.(hits := Some(o.result.value))
    ensures o.result == Failure(SearchError(ParseFailed)) <==> !engine.parses(q.text)
    ensures o.result.Failure? && engine.parses(q.text) ==> o.result.error.UnexpectedError?
    ensures o.result.Success? ==>
      && GetIndexSearcher(reg, q.className).Success?
      && o.reg == GetIndexSearcher(reg, q.className).value
      && GetSort(q).Success?
      && o.result.value == engine.run(q.text, GetSort(q).value, o.reg.searchers[q.className].docs)
  {
    if !engine.parses(q.text) then Outcome(q, reg, Failure(SearchError(ParseFailed)))
    else match GetIndexSearcher(reg, q.className)
      case Failure(e) => Outcome(q, reg, Failure(UnexpectedError(e)))
      case Success(reg1) =>
        match GetSort(q)
        case Failure(e) => Outcome(q, reg1, Failure(UnexpectedError(e)))
        case Success(sort) =>
          var hs := engine.run(q.text, sort, reg1.searchers[q.className].docs);
          Outcome(q.(hits := Some(hs)), reg1, Success(hs))
  }

  /** `executeQuery(fetch)`: search unless hits are cached, then collect the
      page's results. Only a parse failure is a `SearchException`; a stale
      index is reported like any other error. */
  function ExecuteQuery(q: Query, fetch: bool, reg: Registry, engine: Engine, load: Loader): (o: Outcome<seq<Hit>>)
    ensures q.hits.Some? ==> o.q == q && o.reg == reg
    ensures o.result.Success? ==> o.q.hits.Some?
    ensures o.result.Failure? && o.result.error.SearchError? <==> q.hits.None? && !engine.parses(q.text)
    ensures q.hits.None? ==> o.reg == Search(q, reg, engine).reg
    ensures q.hits.None? && Search(q, reg, engine).result.Success? ==> o.q == Search(q, reg, engine).q
  {
    var s := if q.hits.Some? then Outcome(q, reg, Success(q.hits.value)) else Search(q, reg, engine);
    match s.result
    case Failure(e) => Outcome(s.q, s.reg, Failure(e))
    case Success(hs) => Outcome(s.q, s.reg, Unexpected(PageResults(q, hs, fetch, load)))
  }

  /** Once hits are cached, later calls neither search again nor touch the
      registry: the outcome does not depend on the engine or the registry. */
  lemma CachedHitsIgnoreEngine(q: Query, fetch: bool, reg1: Registry, reg2: Registry, e1: Engine, e2: Engine, load: Loader)
    requires q.hits.Some?
    ensures ExecuteQuery(q, fetch, reg1, e1, load).result == ExecuteQuery(q, fetch, reg2, e2, load).result
    ensures ExecuteQuery(q, fetch, reg1, e1, load).q == q
  {
  }

  /** Whether the page can be read at all: a positive page size reads from
      the offset, which must then not be negative. */
  predicate Readable(q: Query) {
    q.pageSize <= 0 || 0 <= q.offset
  }

  /** The hits a page reads: nothing when the offset lies past the end;
      otherwise from the offset, up to `pageSize` of them, when the page
      size is positive, and all of them when it is not. */
  function PageOf(q: Query, hs: seq<Document>): seq<Document>
    requires Readable(q)
  {
    if q.offset as int > |hs| then []
    else if q.pageSize > 0 then hs[q.offset as int..q.offset as int + Min(q.pageSize as int, |hs| - q.offset as int)]
    else hs
  }

  /** Paging over known hits reads exactly the page's hits. */
  lemma PageResultsPage(q: Query, hs: seq<Document>, fetch: bool, load: Loader)
    requires Readable(q)
    ensures PageResults(q, hs, fetch, load) == Collected(q, PageOf(q, hs), fetch, load)
  {
    if q.offset as int > |hs| {
    } else if q.pageSize > 0 {
      PageWindowReadsPage(q.offset, q.pageSize, |hs|);
      var w := PageWindow(q.offset, q.pageSize, |hs|).value;
      if w.lo == w.hi {
        assert hs[w.lo..w.hi] == [] == PageOf(q, hs);
      }
    } else {
      assert hs[0..|hs|] == hs;
    }
  }

  /** The page of cached hits a query returns: with a positive page size,
      up to `pageSize` hits from the offset; with `all()`, every hit. The
      call succeeds unless loading is asked for and some hit of the page
      cannot be loaded, and then holds one result per hit of the page. */
  lemma ExecuteQueryPage(q: Query, fetch: bool, reg: Registry, engine: Engine, load: Loader)
    requires q.hits.Some? && Readable(q)
    ensures var page := PageOf(q, q.hits.value);
      var r := ExecuteQuery(q, fetch, reg, engine, load).result;
      && (r.Success? <==> !fetch || AllLoad(q, page, load))
      && (r.Success? ==> ResultsFor(q, page, r.value, fetch, load))
  {
    PageResultsPage(q, q.hits.value, fetch, load);
    CollectedSpec(q, PageOf(q, q.hits.value), fetch, load);
  }

  /** An offset past the end of the hits yields an empty page, whatever the
      page size, and nothing is loaded. */
  lemma ExecuteQueryPastEnd(q: Query, fetch: bool, reg: Registry, engine: Engine, load: Loader)
    requires q.hits.Some? && q.offset as int > |q.hits.value|
    ensures ExecuteQuery(q, fetch, reg, engine, load).result == Success([])
  {
    PageResultsPage(q, q.hits.value, fetch, load);
  }

  /** A negative offset with a positive page size reads a hit before the
      first one, which throws. */
  lemma ExecuteQueryNegativeOffset(q: Query, fetch: bool, reg: Registry, engine: Engine, load: Loader)
    requires q.hits.Some? && q.pageSize > 0 && q.offset < 0
    ensures ExecuteQuery(q, fetch, reg, engine, load).result == Failure(UnexpectedError(HitOutOfRange(q.offset as int)))
  {
  }

  /** Without cached hits, a query first searches and then behaves exactly
      as the searched query, with the hits it found cached, would; a failed
      search ends the call with that failure. */
  lemma ExecuteQuerySearchesFirst(q: Query, fetch: bool, reg: Registry, engine: Engine, load: Loader)
    requires q.hits.None?
    ensures var s := Search(q, reg, engine);
      && (s.result.Success? ==>
            ExecuteQuery(q, fetch, reg, engine, load) == ExecuteQuery(s.q, fetch, s.reg, engine, load))
      && (s.result.Failure? ==>
            ExecuteQuery(q, fetch, reg, engine, load) == Outcome(q, s.reg, Failure(s.result.error)))
  {
    var s := Search(q, reg, engine);
    if s.result.Success? {
      PageResultsIgnoresHits(q, s.result.value, fetch, load);
    }
  }

  /** Collecting a page depends on the query's class, not on its cache. */
  lemma PageResultsIgnoresHits(q: Query, hs: seq<Document>, fetch: bool, load: Loader)
    ensures PageResults(q, hs, fetch, load) == PageResults(q.(hits := Some(hs)), hs, fetch, load)
  {
    var w := PageWindow(q.offset, q.pageSize, |hs|);
    if w.Success? {
      CollectedIgnoresHits(q, hs[w.value.lo..w.value.hi], Some(hs), fetch, load);
    }
  }

  lemma {:induction false} CollectedIgnoresHits(q: Query, page: seq<Document>, h: Option<seq<Document>>,
                                                fetch: bool, load: Loader)
    ensures Collected(q, page, fetch, load) == Collected(q.(hits := h), page, fetch, load)
    decreases |page|
  {
    if |page| > 0 {
      CollectedIgnoresHits(q, page[1..], h, fetch, load);
    }
  }

  /** `count()`: always searches again, replacing cached hits, and returns
      the number of hits. */
  function Count(q: Query, reg: Registry, engine: Engine): (o: Outcome<nat>)
    ensures o.result.Success? ==> o.q.hits.Some? && o.result.value == |o.q.hits.value|
    ensures o.result.Success? ==> o.q == q.(hits := o.q.hits)
    ensures o.result.Failure? ==> o.q == q
    ensures var s := Search(q.(hits := None), reg, engine);
      && o.reg == s.reg
      && (o.result.Success? <==> s.result.Success?)
      && (o.result.Failure? ==> o.result.error == s.result.error)
    ensures o.result.Success? ==>
      && GetIndexSearcher(reg, q.className).Success?
      && o.reg == GetIndexSearcher(reg, q.className).value
      && GetSort(q).Success?
      && o.result.value == |engine.run(q.text, GetSort(q).value, o.reg.searchers[q.className].docs)|
  {
    var s := Search(q.(hits := None), reg, engine);
    match s.result
    case Failure(e) => Outcome(q, s.reg, Failure(e))
    case Success(hs) => Outcome(s.q, s.reg, Success(|hs|))
  }

  /** `count()` ignores whatever hits are cached: it searches every time. */
  lemma CountIgnoresCache(q: Query, h1: Option<seq<Document>>, h2: Option<seq<Document>>, reg: Registry, engine: Engine)
    ensures Count(q.(hits := h1), reg, engine).result == Count(q.(hits := h2), reg, engine).result
    ensures Count(q.(hits := h1), reg, engine).reg == Count(q.(hits := h2), reg, engine).reg
  {
    assert q.(hits := h1).(hits := None) == q.(hits := h2).(hits := None);
  }

  /** After `count()` returned `n`, asking for all hits of the counted query
      returns `n` results, one per hit in order, without searching again. */
  lemma CountThenAll(q: Query, reg: Registry, engine: Engine, other: Engine, load: Loader)
    requires Count(q, reg, engine).result.Success?
    ensures var c := Count(q, reg, engine);
      var r := ExecuteQuery(All(Page(c.q, 0, 0)), false, c.reg, other, load).result;
      && r.Success? && |r.value| == c.result.value
      && ResultsFor(q, c.q.hits.value, r.value, false, load)
  {
    var c := Count(q, reg, engine);
    var q' := All(Page(c.q, 0, 0));
    ExecuteQueryPage(q', false, c.reg, other, load);
    assert PageOf(q', c.q.hits.value) == c.q.hits.value;
  }

  /** `fetch()`: the loaded entities of the page; every failure, a parse
      failure included, surfaces as an `UnexpectedException`. */
  function Fetch(q: Query, reg: Registry, engine: Engine, load: Loader): (o: Outcome<seq<Obj>>)
    ensures o.result.Failure? ==> o.result.error.UnexpectedError?
  {
    var e := ExecuteQuery(q, true, reg, engine, load);
    match e.result
    case Failure(err) => Outcome(e.q, e.reg, Failure(UnexpectedError(err.cause)))
    case Success(rs) =>
      match Objects(rs)
      case None => Outcome(e.q, e.reg, Failure(UnexpectedError(StaleIndex)))
      case Some(os) => Outcome(e.q, e.reg, Success(os))
  }

  /** The entities of a result list, when every result carries one. */
  function Objects(rs: seq<Hit>): (r: Option<seq<Obj>>)
    ensures r.Some? <==> forall k :: 0 <= k < |rs| ==> rs[k].obj.Some?
    ensures r.Some? ==> |r.value| == |rs| && forall k :: 0 <= k < |rs| ==> rs[k].obj == Some(r.value[k])
    decreases |rs|
  {
    if |rs| == 0 then Some([])
    else if rs[0].obj.None? then None
    else
      match Objects(rs[1..])
      case None => None
      case Some(os) =>
        assert forall k :: 0 < k < |rs| ==> rs[k] == rs[1..][k - 1];
        Some([rs[0].obj.value] + os)
  }

  /** `fetch()` over cached hits returns the entities of the page's hits, in
      order, and fails exactly when one of them cannot be loaded. */
  lemma FetchLoadsPage(q: Query, reg: Registry, engine: Engine, load: Loader)
    requires q.hits.Some? && Readable(q)
    ensures var page := PageOf(q, q.hits.value);
      var r := Fetch(q, reg, engine, load).result;
      && (r.Success? <==> AllLoad(q, page, load))
      && (r.Success? ==>
            && |r.value| == |page|
            && forall k :: 0 <= k < |page| ==>
                 DocIdOf(page[k]).Some? && load(DocIdOf(page[k]).value) == Some(r.value[k]))
  {
    ExecuteQueryPage(q, true, reg, engine, load);
  }

  // ---------------------------------------------------------------------
  // fetchIds and Long.parseLong
  // ---------------------------------------------------------------------

  const MinLong: int := -0x8000_0000_0000_0000
  const MaxLong: int := 0x7fff_ffff_ffff_ffff

  predicate IsDigit(c: char) {
    '0' <= c <= '9'
  }

  predicate AllDigits(s: string) {
    forall i :: 0 <= i < |s| ==> IsDigit(s[i])
  }

  /** The value of a run of decimal digits. */
  function DigitsValue(s: string): nat
    requires AllDigits(s)
    decreases |s|
  {
    if |s| == 0 then 0 else DigitsValue(s[..|s| - 1]) * 10 + (s[|s| - 1] as int - '0' as int)
  }

  /** `Long.parseLong`: an optional sign followed by at least one decimal
      digit, within the range of a `long`; a null string does not parse. */
  function ParseLong(s: Option<string>): (r: Option<int>)
    ensures r.Some? ==> MinLong <= r.value <= MaxLong
  {
    if s.None? || |s.value| == 0 then None
    else
      var t := s.value;
      var body := if t[0] == '-' || t[0] == '+' then t[1..] else t;
      if |body| == 0 || !AllDigits(body) then None
      else
        var n: int := DigitsValue(body);
        var v := if t[0] == '-' then -n else n;
        if MinLong <= v <= MaxLong then Some(v) else None
  }

  lemma {:induction false} NatTextDigits(n: nat)
    ensures AllDigits(NatText(n)) && |NatText(n)| > 0
    ensures DigitsValue(NatText(n)) == n
    decreases n
  {
    if n >= 10 {
      NatTextDigits(n / 10);
      var s := NatText(n);
      assert s[..|s| - 1] == NatText(n / 10);
    }
  }

  /** A `Model` id written into the index as `"" + id` reads back as the
      same `long`. */
  lemma ParseLongText(n: int)
    requires MinLong <= n <= MaxLong
    ensures ParseLong(Some(LongText(Some(n)))) == Some(n)
  {
    if n < 0 {
      NatTextDigits(-n);
      assert ("-" + NatText(-n))[1..] == NatText(-n);
    } else {
      NatTextDigits(n);
    }
  }

  /** The keys of a result list as `long`s, when all of them parse. */
  function ParsedIds(rs: seq<Hit>): (r: Result<seq<int>, Cause>)
    ensures r.Success? ==> |r.value| == |rs| && forall k :: 0 <= k < |rs| ==> ParseLong(rs[k].id) == Some(r.value[k])
    ensures r.Failure? <==> exists k :: 0 <= k < |rs| && ParseLong(rs[k].id).None?
    decreases |rs|
  {
    if |rs| == 0 then Success([])
    else match ParseLong(rs[0].id)
      case None => Failure(NotALong(rs[0].id))
      case Some(v) =>
        match ParsedIds(rs[1..])
        case Failure(e) =>
          ghost var k :| 0 <= k < |rs[1..]| && ParseLong(rs[1..][k].id).None?;
          assert ParseLong(rs[k + 1].id).None?;
          Failure(e)
        case Success(vs) =>
          assert forall k :: 0 < k < |rs| ==> rs[k] == rs[1..][k - 1];
          Success([v] + vs)
  }

  /** `fetchIds()`: the page's keys as `long`s, without loading entities;
      every failure surfaces as an `UnexpectedException`. */
  function FetchIds(q: Query, reg: Registry, engine: Engine, load: Loader): (o: Outcome<seq<int>>)
    ensures o.result.Failure? ==> o.result.error.UnexpectedError?
    ensures o.result.Success? ==> forall k :: 0 <= k < |o.result.value| ==> MinLong <= o.result.value[k] <= MaxLong
  {
    var e := ExecuteQuery(q, false, reg, engine, load);
    match e.result
    case Failure(err) => Outcome(e.q, e.reg, Failure(UnexpectedError(err.cause)))
    case Success(rs) => Outcome(e.q, e.reg, Unexpected(ParsedIds(rs)))
  }

  /** Keys that all parse give exactly their values. */
  lemma ParsedIdsExactly(rs: seq<Hit>, ids: seq<int>)
    requires |rs| == |ids|
    requires forall k :: 0 <= k < |rs| ==> ParseLong(rs[k].id) == Some(ids[k])
    ensures ParsedIds(rs) == Success(ids)
  {
    var p := ParsedIds(rs);
    assert p.value == ids;
  }

  /** Hits of `Model` entities carry their ids as written by the indexer, so
      `fetchIds()` returns exactly the ids of the page's hits. */
  lemma FetchIdsOfModels(q: Query, ids: seq<int>, reg: Registry, engine: Engine, load: Loader)
    requires q.hits.Some? && Readable(q)
    requires |ids| == |PageOf(q, q.hits.value)|
    requires forall k :: 0 <= k < |ids| ==>
      MinLong <= ids[k] <= MaxLong && DocIdOf(PageOf(q, q.hits.value)[k]) == Some(LongText(Some(ids[k])))
    ensures FetchIds(q, reg, engine, load).result == Success(ids)
  {
    ExecuteQueryPage(q, false, reg, engine, load);
    var rs := ExecuteQuery(q, false, reg, engine, load).result.value;
    forall k | 0 <= k < |ids|
      ensures ParseLong(rs[k].id) == Some(ids[k])
    {
      ParseLongText(ids[k]);
    }
    ParsedIdsExactly(rs, ids);
  }
}
