/** The conversion utilities: how an entity object, described by its public
    members and their `@Field` annotations, becomes the sequence of
    `addField` calls of a document, including the traversal of join paths
    into related entities. Reflection is replaced by explicit descriptors. */
module Conversion {
  import opened Wrappers
  import opened Documents

  /** A file attachment; `display` is its `toString` rendering. */
  datatype Attachment = Attachment(filename: Option<string>, display: string)

  /** What the object's class extends: a `Model` (with its `Long id`), another
      JPA entity, or nothing the store accepts. */
  datatype Base = ModelBase(id: Option<int>) | JpaBase | NotJpa

  /** An object: its class name, whether the class carries `@Indexed`, its
      base class, its public members in the order reflection lists them (which
      Java leaves unspecified), and its `toString` rendering. */
  datatype Obj = Obj(className: string, indexed: bool, base: Base, members: seq<Member>, display: string)

  /** A public member: its name, its `@Field` annotation if any, whether it
      carries `@ManyToOne` and `@Id`, and its declared type with its value. */
  datatype Member = Member(name: string, annotation: Option<FieldSpec>, manyToOne: bool, isId: bool, slot: Slot)

  /** The declared type of a member together with its value; `None` is null.
      Non-string values are held as their `toString` rendering. */
  datatype Slot =
    | StringSlot(text: Option<string>)
    | AttachmentSlot(file: Option<Attachment>)
    | EntitySlot(entity: Option<Obj>)
    | ArraySlot(rendered: Option<string>)
    | CollectionSlot(rendered: Option<string>)
    | ScalarSlot(rendered: Option<string>)

  /** The text-extraction collaborator; `None` when no extractor handles the file. */
  type Extractor = Attachment -> Option<string>

  const MemberAccessor: string := "."

  predicate StartsWith(s: string, p: string) {
    |p| <= |s| && s[..|p|] == p
  }

  lemma StartsWithTrans(s: string, p: string, q: string)
    requires StartsWith(s, p) && StartsWith(p, q)
    ensures StartsWith(s, q)
  {
    assert s[..|q|] == s[..|p|][..|q|];
  }

  // ---------------------------------------------------------------------
  // Java's `"" + value`
  // ---------------------------------------------------------------------

  function DigitChar(d: nat): char
    requires d < 10
  {
    "0123456789"[d]
  }

  function NatText(n: nat): string
    decreases n
  {
    if n < 10 then [DigitChar(n)] else NatText(n / 10) + [DigitChar(n % 10)]
  }

  /** `Long.toString`, or `"null"` for a null `Long`. */
  function LongText(v: Option<int>): string {
    match v
    case None => "null"
    case Some(n) => if n < 0 then "-" + NatText(-n) else NatText(n)
  }

  function OrNull(s: Option<string>): string {
    if s.Some? then s.value else "null"
  }

  predicate IsNull(slot: Slot) {
    match slot
    case StringSlot(t) => t.None?
    case AttachmentSlot(f) => f.None?
    case EntitySlot(e) => e.None?
    case ArraySlot(t) => t.None?
    case CollectionSlot(t) => t.None?
    case ScalarSlot(t) => t.None?
  }

  /** The string concatenation `"" + value` of a member's value. */
  function Show(slot: Slot): (s: string)
    ensures IsNull(slot) ==> s == "null"
  {
    match slot
    case StringSlot(t) => OrNull(t)
    case AttachmentSlot(f) => if f.Some? then f.value.display else "null"
    case EntitySlot(e) => if e.Some? then e.value.display else "null"
    case ArraySlot(t) => OrNull(t)
    case CollectionSlot(t) => OrNull(t)
    case ScalarSlot(t) => OrNull(t)
  }

  // ---------------------------------------------------------------------
  // Member lookups
  // ---------------------------------------------------------------------

  /** The first member carrying `@Id`, as `getIdField` scans for it. */
  function FindId(ms: seq<Member>): (r: Option<nat>)
    ensures r.Some? ==> r.value < |ms| && ms[r.value].isId
    ensures r.Some? ==> forall j :: 0 <= j < r.value ==> !ms[j].isId
    ensures r.None? ==> forall j :: 0 <= j < |ms| ==> !ms[j].isId
    decreases |ms|
  {
    if |ms| == 0 then None
    else if ms[0].isId then Some(0)
    else match FindId(ms[1..])
      case None => None
      case Some(k) => Some(k + 1)
  }

  /** The first member with the given name, as `Class.getField` finds it. */
  function FindNamed(ms: seq<Member>, name: string): (r: Option<nat>)
    ensures r.Some? ==> r.value < |ms| && ms[r.value].name == name
    ensures r.Some? ==> forall j :: 0 <= j < r.value ==> ms[j].name != name
    ensures r.None? ==> forall j :: 0 <= j < |ms| ==> ms[j].name != name
    decreases |ms|
  {
    if |ms| == 0 then None
    else if ms[0].name == name then Some(0)
    else match FindNamed(ms[1..], name)
      case None => None
      case Some(k) => Some(k + 1)
  }

  /** `getIdValueFor(o) + ""`: a `Model`'s id, otherwise the value of the
      first `@Id` member; a class without one makes `getIdField` throw. */
  function IdValueText(o: Obj): (r: Result<string, Cause>)
    ensures o.base.ModelBase? ==> r == Success(LongText(o.base.id))
    ensures !o.base.ModelBase? ==>
      (r.Failure? <==> forall j :: 0 <= j < |o.members| ==> !o.members[j].isId)
    ensures !o.base.ModelBase? && r.Success? ==>
      exists k :: 0 <= k < |o.members| && o.members[k].isId && r.value == Show(o.members[k].slot)
        && forall j :: 0 <= j < k ==> !o.members[j].isId
  {
    match o.base
    case ModelBase(id) => Success(LongText(id))
    case _ =>
      match FindId(o.members)
      case None => Failure(NoIdField(o.className))
      case Some(k) => Success(Show(o.members[k].slot))
  }

  /** `isForcedUntokenized`: the named member's annotation asks for both
      tokenizing and sorting; a missing member or annotation gives false. */
  function IsForcedUntokenized(ms: seq<Member>, name: string): (r: bool)
    ensures r <==> (exists k :: 0 <= k < |ms| && ms[k].name == name
                     && (forall j :: 0 <= j < k ==> ms[j].name != name)
                     && ms[k].annotation.Some? && ForcesShadow(ms[k].annotation.value))
  {
    match FindNamed(ms, name)
    case None => false
    case Some(k) => ms[k].annotation.Some? && ForcesShadow(ms[k].annotation.value)
  }

  // ---------------------------------------------------------------------
  // valueOf
  // ---------------------------------------------------------------------

  /** `valueOf`: a string member as it is, a non-null attachment through the
      extractor, a `@ManyToOne` entity as its id, anything else as
      `"" + value`, so that a null becomes the text "null". */
  function ValueOf(m: Member, extract: Extractor): (r: Result<Option<string>, Cause>)
    ensures m.slot.StringSlot? ==> r == Success(m.slot.text)
    ensures m.slot.AttachmentSlot? && m.slot.file.Some? ==> r == Success(extract(m.slot.file.value))
    ensures r.Failure? ==> m.manyToOne && m.slot.EntitySlot? && m.slot.entity.Some?
    ensures r.Success? && r.value.None? ==> m.slot.StringSlot? || m.slot.AttachmentSlot?
    ensures IsNull(m.slot) && !m.slot.StringSlot? ==> r == Success(Some("null"))
    ensures !m.slot.StringSlot? && !(m.slot.AttachmentSlot? && m.slot.file.Some?)
            && !(m.manyToOne && m.slot.EntitySlot? && m.slot.entity.Some?) ==>
      r == Success(Some(Show(m.slot)))
    ensures !m.manyToOne && m.slot.EntitySlot? && m.slot.entity.Some? ==>
      r == Success(Some(m.slot.entity.value.display))
    ensures m.manyToOne && m.slot.EntitySlot? && m.slot.entity.Some? ==>
      (match IdValueText(m.slot.entity.value)
       case Success(id) => r == Success(Some(id))
       case Failure(c) => r == Failure(c))
  {
    match m.slot
    case StringSlot(t) => Success(t)
    case AttachmentSlot(Some(a)) => Success(extract(a))
    case EntitySlot(Some(o)) =>
      if m.manyToOne then
        var id :- IdValueText(o);
        Success(Some(id))
      else Success(Some(o.display))
    case _ => Success(Some(Show(m.slot)))
  }

  /** One `addField` call with the member's `valueOf` under `name`. */
  function Emit(m: Member, name: string, spec: FieldSpec, extract: Extractor): (r: Result<seq<Entry>, Cause>)
    ensures r.Success? ==> |r.value| == 1 && r.value[0].name == name && r.value[0].spec == spec
    ensures r.Success? <==> ValueOf(m, extract).Success?
  {
    var v :- ValueOf(m, extract);
    Success([Entry(name, v, spec)])
  }

  // ---------------------------------------------------------------------
  // Join traversal
  // ---------------------------------------------------------------------

  /** `isJoinFieldMatch`: some join path is the name itself or continues it
      past a member accessor. */
  function IsJoinFieldMatch(js: seq<string>, name: string): (r: bool)
    ensures r <==> exists j :: j in js && (j == name || StartsWith(j, name + MemberAccessor))
    decreases |js|
  {
    if |js| == 0 then false
    else if js[0] == name || StartsWith(js[0], name + MemberAccessor) then true
    else
      assert forall j :: j in js <==> j == js[0] || j in js[1..];
      IsJoinFieldMatch(js[1..], name)
  }

  /** `traverseJoinFields` from member `i` of `o` on: a matching entity
      member is entered with its path as the new prefix; a matching
      non-entity member is emitted only when its path is listed exactly,
      under the name `<indexName>.<path>`; the annotation of the top-level
      member applies throughout. A null entity on a matching path throws. */
  function Traverse(o: Obj, indexName: string, prefix: string, spec: FieldSpec, extract: Extractor, i: nat)
    : (r: Result<seq<Entry>, Cause>)
    ensures r.Success? ==> forall e :: e in r.value ==> e.spec == spec
    decreases o, |o.members| - i
  {
    if i >= |o.members| then Success([])
    else
      var m := o.members[i];
      var path := prefix + m.name;
      var here :-
        if !IsJoinFieldMatch(spec.joinField, path) then Success([])
        else if m.slot.EntitySlot? then
          (if m.slot.entity.None? then Failure(NullJoin(path))
           else Traverse(m.slot.entity.value, indexName, path + MemberAccessor, spec, extract, 0))
        else if path in spec.joinField then Emit(m, indexName + MemberAccessor + path, spec, extract)
        else Success([]);
      var rest :- Traverse(o, indexName, prefix, spec, extract, i + 1);
      Success(here + rest)
  }

  /** The calls that `toDocument` makes for members `i..` of `o`: unannotated,
      array and collection members are skipped, an entity member with join
      paths is traversed, every other annotated member is added under its own
      name. */
  function MemberEntries(o: Obj, extract: Extractor, i: nat): (r: Result<seq<Entry>, Cause>)
    ensures r.Success? ==> forall e :: e in r.value ==>
      exists k :: i <= k < |o.members| && o.members[k].annotation == Some(e.spec)
    decreases |o.members| - i
  {
    if i >= |o.members| then Success([])
    else
      var here :- MemberCalls(o.members[i], extract);
      var rest :- MemberEntries(o, extract, i + 1);
      Success(here + rest)
  }

  /** The calls `toDocument` makes for one member. */
  function MemberCalls(m: Member, extract: Extractor): (r: Result<seq<Entry>, Cause>)
    ensures r.Success? ==> forall e :: e in r.value ==> m.annotation == Some(e.spec)
  {
    if m.annotation.None? || m.slot.ArraySlot? || m.slot.CollectionSlot? then Success([])
    else if m.slot.EntitySlot? && |m.annotation.value.joinField| > 0 then
      (if m.slot.entity.None? then Failure(NullJoin(m.name))
       else Traverse(m.slot.entity.value, m.name, "", m.annotation.value, extract, 0))
    else Emit(m, m.name, m.annotation.value, extract)
  }

  /** Whether the store accepts the object at all. */
  predicate Mappable(o: Obj) {
    o.indexed && !o.base.NotJpa?
  }

  /** `toDocument`: null for a class without `@Indexed` or an object that is
      not a JPA entity; otherwise the document keyed by the object's id. */
  function ToDocument(o: Obj, extract: Extractor): (r: Result<Option<Document>, Cause>)
    ensures !Mappable(o) ==> r == Success(None)
    ensures Mappable(o) && IdValueText(o).Failure? ==> r.Failure?
    ensures r.Success? && r.value.Some? ==>
      && Mappable(o)
      && IdValueText(o).Success?
      && MemberEntries(o, extract, 0).Success?
      && r.value.value == Build(IdValueText(o).value, MemberEntries(o, extract, 0).value)
      && DocIdOf(r.value.value) == Some(IdValueText(o).value)
      && HasId(r.value.value, IdValueText(o).value)
    ensures Mappable(o) && r.Success? ==> r.value.Some?
  {
    if !Mappable(o) then Success(None)
    else
      var id :- IdValueText(o);
      var es :- MemberEntries(o, extract, 0);
      BuildKeyed(id, es);
      Success(Some(Build(id, es)))
  }

  // ---------------------------------------------------------------------
  // Properties of the traversal
  // ---------------------------------------------------------------------

  /** Everything a traversal emits is named `<indexName>.<path>` for a path
      listed in the annotation's join paths, and carries that annotation. */
  lemma {:induction false} TraverseEmitsListedPaths(o: Obj, indexName: string, prefix: string, spec: FieldSpec,
                                                    extract: Extractor, i: nat)
    requires Traverse(o, indexName, prefix, spec, extract, i).Success?
    ensures var es := Traverse(o, indexName, prefix, spec, extract, i).value;
      forall e :: e in es ==>
        (e.spec == spec && exists p :: p in spec.joinField && e.name == indexName + MemberAccessor + p)
    decreases o, |o.members| - i
  {
    if i < |o.members| {
      var m := o.members[i];
      var path := prefix + m.name;
      if IsJoinFieldMatch(spec.joinField, path) && m.slot.EntitySlot? && m.slot.entity.Some? {
        TraverseEmitsListedPaths(m.slot.entity.value, indexName, path + MemberAccessor, spec, extract, 0);
      }
      TraverseEmitsListedPaths(o, indexName, prefix, spec, extract, i + 1);
    }
  }

  /** A prefix that no join path extends leads nowhere: nothing is emitted
      and nothing is entered, so not even a null entity is noticed. */
  lemma {:induction false} UnlistedPrefixEmitsNothing(o: Obj, indexName: string, prefix: string, spec: FieldSpec,
                                                      extract: Extractor, i: nat)
    requires forall j :: j in spec.joinField ==> !StartsWith(j, prefix)
    ensures Traverse(o, indexName, prefix, spec, extract, i) == Success([])
    decreases |o.members| - i
  {
    if i < |o.members| {
      var m := o.members[i];
      var path := prefix + m.name;
      if IsJoinFieldMatch(spec.joinField, path) {
        var j :| j in spec.joinField && (j == path || StartsWith(j, path + MemberAccessor));
        assert StartsWith(path, prefix);
        if j != path {
          assert StartsWith(path + MemberAccessor, path);
          StartsWithTrans(j, path + MemberAccessor, path);
        }
        StartsWithTrans(j, path, prefix);
        assert false;
      }
      UnlistedPrefixEmitsNothing(o, indexName, prefix, spec, extract, i + 1);
      var none: seq<Entry> := [];
      assert none + none == none;
    }
  }

  /** A path without a member accessor is no continuation of another one. */
  lemma DotFreeNotExtended(p: string, q: string)
    requires '.' !in p
    ensures !StartsWith(p, q + MemberAccessor)
  {
    if |q| + 1 <= |p| {
      assert p[|q|] in p;
      assert p[..|q| + 1][|q|] == p[|q|];
      assert (q + MemberAccessor)[|q|] == '.';
    }
  }

  /** Listing an entity member by itself as a join path emits nothing: the
      member is entered, but no path extends past it. */
  lemma {:induction false} EntityPathAloneEmitsNothing(o: Obj, indexName: string, spec: FieldSpec,
                                                       extract: Extractor, p: string, i: nat)
    requires spec.joinField == [p]
    requires '.' !in p
    requires forall k :: 0 <= k < |o.members| && o.members[k].name == p ==>
      o.members[k].slot.EntitySlot? && o.members[k].slot.entity.Some?
    ensures Traverse(o, indexName, "", spec, extract, i) == Success([])
    decreases |o.members| - i
  {
    if i < |o.members| {
      var m := o.members[i];
      var path := "" + m.name;
      assert path == m.name;
      if IsJoinFieldMatch(spec.joinField, path) {
        DotFreeNotExtended(p, path);
        assert p == path;
        forall j | j in spec.joinField
          ensures !StartsWith(j, path + MemberAccessor)
        {
          assert j == p;
        }
        UnlistedPrefixEmitsNothing(m.slot.entity.value, indexName, path + MemberAccessor, spec, extract, 0);
      }
      EntityPathAloneEmitsNothing(o, indexName, spec, extract, p, i + 1);
      var none: seq<Entry> := [];
      assert none + none == none;
    }
  }

  /** Where a document's calls come from: each is named after an annotated
      member that is neither an array nor a collection, either directly or
      as `<member>.<join path>` for one of that member's join paths. */
  lemma {:induction false} EntriesFromAnnotatedMembers(o: Obj, extract: Extractor, i: nat)
    requires MemberEntries(o, extract, i).Success?
    ensures forall e :: e in MemberEntries(o, extract, i).value ==>
      exists k :: i <= k < |o.members|
        && o.members[k].annotation == Some(e.spec)
        && !o.members[k].slot.ArraySlot? && !o.members[k].slot.CollectionSlot?
        && (e.name == o.members[k].name
            || exists p :: p in e.spec.joinField && e.name == o.members[k].name + MemberAccessor + p)
    decreases |o.members| - i
  {
    if i < |o.members| {
      var m := o.members[i];
      EntriesFromAnnotatedMembers(o, extract, i + 1);
      if m.annotation.Some? && !m.slot.ArraySlot? && !m.slot.CollectionSlot?
         && m.slot.EntitySlot? && |m.annotation.value.joinField| > 0 && m.slot.entity.Some? {
        TraverseEmitsListedPaths(m.slot.entity.value, m.name, "", m.annotation.value, extract, 0);
      }
    }
  }

  // ---------------------------------------------------------------------
  // Completeness: what a successful conversion is guaranteed to contain
  // ---------------------------------------------------------------------

  /** A listed path that ends at a non-entity member is emitted, under
      `<indexName>.<path>`, with that member's value and the annotation. */
  lemma {:induction false} TraverseEmitsEveryListedLeaf(o: Obj, indexName: string, prefix: string, spec: FieldSpec,
                                                        extract: Extractor, i: nat, k: nat)
    requires Traverse(o, indexName, prefix, spec, extract, i).Success?
    requires i <= k < |o.members|
    requires !o.members[k].slot.EntitySlot? && prefix + o.members[k].name in spec.joinField
    ensures ValueOf(o.members[k], extract).Success?
    ensures Entry(indexName + MemberAccessor + (prefix + o.members[k].name), ValueOf(o.members[k], extract).value, spec)
              in Traverse(o, indexName, prefix, spec, extract, i).value
    decreases |o.members| - i
  {
    var m := o.members[i];
    var path := prefix + m.name;
    if k == i {
      assert IsJoinFieldMatch(spec.joinField, path);
    } else {
      TraverseEmitsEveryListedLeaf(o, indexName, prefix, spec, extract, i + 1, k);
    }
  }

  /** A non-null entity on a matching path is entered: everything the
      nested traversal emits is part of the result, and a null entity there
      would have failed the whole traversal. */
  lemma {:induction false} TraverseEntersMatchingEntities(o: Obj, indexName: string, prefix: string, spec: FieldSpec,
                                                          extract: Extractor, i: nat, k: nat)
    requires Traverse(o, indexName, prefix, spec, extract, i).Success?
    requires i <= k < |o.members|
    requires o.members[k].slot.EntitySlot? && IsJoinFieldMatch(spec.joinField, prefix + o.members[k].name)
    ensures o.members[k].slot.entity.Some?
    ensures var inner := Traverse(o.members[k].slot.entity.value, indexName,
                                  prefix + o.members[k].name + MemberAccessor, spec, extract, 0);
      inner.Success?
      && forall e :: e in inner.value ==> e in Traverse(o, indexName, prefix, spec, extract, i).value
    decreases |o.members| - i
  {
    if k > i {
      TraverseEntersMatchingEntities(o, indexName, prefix, spec, extract, i + 1, k);
    }
  }

  /** Whether `toDocument` adds a member under its own name: it is annotated,
      neither an array nor a collection, and not an entity with join paths. */
  predicate Direct(m: Member) {
    && m.annotation.Some?
    && !m.slot.ArraySlot? && !m.slot.CollectionSlot?
    && !(m.slot.EntitySlot? && |m.annotation.value.joinField| > 0)
  }

  /** The call `toDocument` makes for a direct member. */
  function DirectEntry(m: Member, extract: Extractor): Entry
    requires Direct(m) && ValueOf(m, extract).Success?
  {
    Entry(m.name, ValueOf(m, extract).value, m.annotation.value)
  }

  /** Every direct member is added, with its `valueOf` and its annotation. */
  lemma {:induction false} DirectMembersEmitted(o: Obj, extract: Extractor, i: nat, k: nat)
    requires MemberEntries(o, extract, i).Success?
    requires i <= k < |o.members| && Direct(o.members[k])
    ensures ValueOf(o.members[k], extract).Success?
    ensures DirectEntry(o.members[k], extract) in MemberEntries(o, extract, i).value
    decreases |o.members| - i
  {
    if k > i {
      DirectMembersEmitted(o, extract, i + 1, k);
    }
  }

  /** `x` occurs in `es` somewhere before an occurrence of `y`. */
  predicate Precedes(es: seq<Entry>, x: Entry, y: Entry) {
    exists a, b :: 0 <= a < b < |es| && es[a] == x && es[b] == y
  }

  lemma PrecedesAfterHead(x: Entry, rest: seq<Entry>, y: Entry)
    requires y in rest
    ensures Precedes([x] + rest, x, y)
  {
    var b :| 0 <= b < |rest| && rest[b] == y;
    assert ([x] + rest)[0] == x && ([x] + rest)[1 + b] == y;
  }

  lemma PrecedesInSuffix(here: seq<Entry>, rest: seq<Entry>, x: Entry, y: Entry)
    requires Precedes(rest, x, y)
    ensures Precedes(here + rest, x, y)
  {
    var a, b :| 0 <= a < b < |rest| && rest[a] == x && rest[b] == y;
    assert (here + rest)[|here| + a] == x && (here + rest)[|here| + b] == y;
  }

  /** Direct members are added in member order. */
  lemma {:induction false} DirectMembersInOrder(o: Obj, extract: Extractor, i: nat, k1: nat, k2: nat)
    requires MemberEntries(o, extract, i).Success?
    requires i <= k1 < k2 < |o.members| && Direct(o.members[k1]) && Direct(o.members[k2])
    ensures ValueOf(o.members[k1], extract).Success? && ValueOf(o.members[k2], extract).Success?
    ensures Precedes(MemberEntries(o, extract, i).value,
                     DirectEntry(o.members[k1], extract), DirectEntry(o.members[k2], extract))
    decreases |o.members| - i
  {
    var rest := MemberEntries(o, extract, i + 1).value;
    var here := MemberCalls(o.members[i], extract).value;
    assert MemberEntries(o, extract, i).value == here + rest;
    if k1 == i {
      DirectMembersEmitted(o, extract, i + 1, k2);
      assert here == [DirectEntry(o.members[k1], extract)];
      PrecedesAfterHead(DirectEntry(o.members[k1], extract), rest, DirectEntry(o.members[k2], extract));
    } else {
      DirectMembersInOrder(o, extract, i + 1, k1, k2);
      PrecedesInSuffix(here, rest, DirectEntry(o.members[k1], extract), DirectEntry(o.members[k2], extract));
    }
  }

  /** An entity member with join paths is traversed under its own name; a
      null entity there would have failed the conversion. */
  lemma {:induction false} JoinMembersTraversed(o: Obj, extract: Extractor, i: nat, k: nat)
    requires MemberEntries(o, extract, i).Success?
    requires i <= k < |o.members|
    requires o.members[k].annotation.Some? && o.members[k].slot.EntitySlot?
    requires |o.members[k].annotation.value.joinField| > 0
    ensures o.members[k].slot.entity.Some?
    ensures var m := o.members[k];
      var inner := Traverse(m.slot.entity.value, m.name, "", m.annotation.value, extract, 0);
      inner.Success? && forall e :: e in inner.value ==> e in MemberEntries(o, extract, i).value
    decreases |o.members| - i
  {
    if k > i {
      JoinMembersTraversed(o, extract, i + 1, k);
    }
  }

  /** A field of the calls' entries is a field of the document they build. */
  lemma {:induction false} FieldsOfContains(es: seq<Entry>, e: Entry)
    requires e in es && e.value.Some?
    ensures IndexField(e.name, e.value.value, e.spec.stored, e.spec.tokenize) in FieldsOf(es)
    decreases |es|
  {
    if es[0] != e {
      FieldsOfContains(es[1..], e);
    }
  }

  /** A converted document holds a field for every direct member whose value
      is not null, with the member's name, value and annotation flags. */
  lemma ToDocumentCarriesDirectMembers(o: Obj, extract: Extractor, k: nat)
    requires ToDocument(o, extract).Success? && ToDocument(o, extract).value.Some?
    requires k < |o.members| && Direct(o.members[k])
    ensures ValueOf(o.members[k], extract).Success?
    ensures var m := o.members[k];
      var v := ValueOf(m, extract).value;
      v.Some? ==> IndexField(m.name, v.value, m.annotation.value.stored, m.annotation.value.tokenize)
                    in ToDocument(o, extract).value.value
  {
    var es := MemberEntries(o, extract, 0).value;
    DirectMembersEmitted(o, extract, 0, k);
    var m := o.members[k];
    var e := DirectEntry(m, extract);
    if e.value.Some? {
      FieldsOfContains(es, e);
      var id := IdValueText(o).value;
      BuildShape(id, es);
      var d := Build(id, es);
      var f := IndexField(e.name, e.value.value, e.spec.stored, e.spec.tokenize);
      var j :| 0 <= j < |FieldsOf(es)| && FieldsOf(es)[j] == f;
      assert d[1..|d| - 1][j] == f;
      assert d[1 + j] == f;
    }
  }
}
