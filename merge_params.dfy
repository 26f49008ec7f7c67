/** $util.mergeParams: merge search conditions into the parameters sent to an
    API, in place. */
module MergeParams {
  import opened Js

  /** A parameters object whose properties mergeParams adds, overwrites and deletes. */
  class Params {
    var entries: map<string, Value>

    constructor (entries: map<string, Value>)
      ensures this.entries == entries
    {
      this.entries := entries;
    }
  }

  /** MergeParams.Options; deleteKyes keeps the spelling of the record's field. */
  datatype Options = Options(retainKeys: Option<seq<string>>, deleteKyes: Option<seq<string>>)

  const DefaultRetainKeys: seq<string> := ["current", "size"]

  /** The keys to keep: the retainKeys option when given (any array, even an
      empty one, is truthy and replaces the default), else current and size. */
  function RetainKeys(options: Option<Options>): (keys: seq<string>)
    ensures options.Some? && options.value.retainKeys.Some? ==> keys == options.value.retainKeys.value
    ensures options.None? || options.value.retainKeys.None? ==> keys == DefaultRetainKeys
  {
    if options.Some? && options.value.retainKeys.Some? then options.value.retainKeys.value else DefaultRetainKeys
  }

  /** The keys to delete: the deleteKyes option when given, else none. */
  function DeleteKeys(options: Option<Options>): (keys: seq<string>)
    ensures options.Some? && options.value.deleteKyes.Some? ==> keys == options.value.deleteKyes.value
    ensures options.None? || options.value.deleteKyes.None? ==> keys == []
  {
    if options.Some? && options.value.deleteKyes.Some? then options.value.deleteKyes.value else []
  }

  /** A key the second pass keeps: retained, or holding a truthy source value
      (sourceParams[key] of a missing key is undefined, which is falsy). */
  predicate Kept(key: string, source: map<string, Value>, retain: seq<string>) {
    key in retain || (key in source && Truthy(source[key]))
  }

  /** The first pass: every source property is copied over the target's. */
  function CopySource(target: map<string, Value>, source: map<string, Value>): (r: map<string, Value>)
    ensures r.Keys == target.Keys + source.Keys
    ensures forall key :: key in source ==> r[key] == source[key]
    ensures forall key :: key in target && key !in source ==> r[key] == target[key]
  {
    target + source
  }

  /** The second pass: a property that is not retained is reassigned from the
      source when the source value is truthy and deleted otherwise. */
  function DropUnretained(target: map<string, Value>, source: map<string, Value>, retain: seq<string>): (r: map<string, Value>)
    ensures forall key :: key in r <==> key in target && (key in retain || (key in source && Truthy(source[key])))
    ensures forall key :: key in r && key in retain ==> r[key] == target[key]
    ensures forall key :: key in r && key !in retain ==> r[key] == source[key] && Truthy(r[key])
  {
    map key | key in target && Kept(key, source, retain) :: if key in retain then target[key] else source[key]
  }

  /** The third pass: the listed keys are deleted. */
  function DeleteListed(target: map<string, Value>, deleteKeys: seq<string>): (r: map<string, Value>)
    ensures forall key :: key in r <==> key in target && key !in deleteKeys
    ensures forall key :: key in r ==> r[key] == target[key]
  {
    target - set key | key in deleteKeys
  }

  /** The target mergeParams leaves behind: the three passes in order. */
  function Merged(target: map<string, Value>, source: map<string, Value>, retain: seq<string>, deleteKeys: seq<string>): map<string, Value>
  {
    DeleteListed(DropUnretained(CopySource(target, source), source, retain), deleteKeys)
  }

  /** mergeParams(targetParams, sourceParams, options): updates targetParams in
      place and returns that same object. */
  method MergeParams(target: Params, source: map<string, Value>, options: Option<Options>) returns (r: Params)
    modifies target
    ensures r == target
    ensures target.entries == Merged(old(target.entries), source, RetainKeys(options), DeleteKeys(options))
  {
    var retainKeys := RetainKeys(options);
    var deleteKyes := DeleteKeys(options);
    CopySourceInto(target, source);
    DropUnretainedFrom(target, source, retainKeys);
    if |deleteKyes| > 0 {
      DeleteListedFrom(target, deleteKyes);
    }
    r := target;
  }

  /** The first loop: for (const key in sourceParams) targetParams[key] = sourceParams[key]. */
  method CopySourceInto(target: Params, source: map<string, Value>)
    modifies target
    ensures target.entries == CopySource(old(target.entries), source)
  {
    var pending := source.Keys;
    while pending != {}
      invariant pending <= source.Keys
      invariant target.entries == old(target.entries) + map key | key in source && key !in pending :: source[key]
      decreases pending
    {
      var key :| key in pending;
      target.entries := target.entries[key := source[key]];
      pending := pending - {key};
    }
  }

  /** The second loop, over the target's keys: an unretained key is reassigned
      from a truthy source value or deleted. */
  method DropUnretainedFrom(target: Params, source: map<string, Value>, retainKeys: seq<string>)
    modifies target
    ensures target.entries == DropUnretained(old(target.entries), source, retainKeys)
  {
    ghost var copied := target.entries;
    var pending := target.entries.Keys;
    while pending != {}
      invariant pending <= copied.Keys
      invariant target.entries == map key | key in copied && (key in pending || Kept(key, source, retainKeys)) ::
        if key in pending || key in retainKeys then copied[key] else source[key]
      decreases pending
    {
      var key :| key in pending;
      if key !in retainKeys {
        if key in source && Truthy(source[key]) {
          target.entries := target.entries[key := source[key]];
        } else {
          target.entries := target.entries - {key};
        }
      }
      pending := pending - {key};
    }
  }

  /** The third step: every listed key is deleted from the target. */
  method DeleteListedFrom(target: Params, deleteKyes: seq<string>)
    modifies target
    ensures target.entries == DeleteListed(old(target.entries), deleteKyes)
  {
    for i := 0 to |deleteKyes|
      invariant target.entries == old(target.entries) - set key | key in deleteKyes[..i]
    {
      assert deleteKyes[..i + 1] == deleteKyes[..i] + [deleteKyes[i]];
      target.entries := target.entries - {deleteKyes[i]};
    }
    assert deleteKyes[..|deleteKyes|] == deleteKyes;
  }

  /** What a merge leaves: a key survives iff it is not deleted and either it
      is retained and was in the target or the source, or the source gives it
      a truthy value; it holds the source value when the source has the key,
      its old target value otherwise. */
  lemma MergedEntries(target: map<string, Value>, source: map<string, Value>, retain: seq<string>, deleteKeys: seq<string>)
    ensures var r := Merged(target, source, retain, deleteKeys);
      && (forall key :: key in r <==>
            key !in deleteKeys
            && ((key in retain && (key in target || key in source)) || (key in source && Truthy(source[key]))))
      && (forall key :: key in r ==> r[key] == if key in source then source[key] else target[key])
  {
  }

  /** A retained key the source lacks keeps its target value: the example
      mergeParams({a: 1, current: 1}, {a: 2}, {retainKeys: ['current']}). */
  lemma MergeExample()
    ensures Merged(map["a" := Num(1), "current" := Num(1)], map["a" := Num(2)], ["current"], [])
      == map["a" := Num(2), "current" := Num(1)]
  {
    var r := Merged(map["a" := Num(1), "current" := Num(1)], map["a" := Num(2)], ["current"], []);
    MergedEntries(map["a" := Num(1), "current" := Num(1)], map["a" := Num(2)], ["current"], []);
    assert r.Keys == {"a", "current"};
  }

  /** A falsy source value removes an unretained key instead of copying it. */
  lemma FalsySourceDeletes(target: map<string, Value>, source: map<string, Value>, retain: seq<string>, deleteKeys: seq<string>, key: string)
    requires key in source && !Truthy(source[key]) && key !in retain
    ensures key !in Merged(target, source, retain, deleteKeys)
  {
  }
}
