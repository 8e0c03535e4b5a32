/** The cache with a tag index: src/cache/cache.service.ts. Operations run one at a time. A call into the
    store may fail, and an entry may leave the store by itself when its time is over. */
module CacheTags {
  import opened Wrappers

  datatype Value = Value(content: string, truthy: bool)

  /** An entry with the tag of the `set` that wrote it, which the store itself does not keep; the empty
      tag stands for none. */
  datatype Entry = Entry(value: Value, writtenWith: string)

  datatype State = State(store: map<string, Entry>, index: map<string, set<string>>)

  const EMPTY := State(map[], map[])

  datatype Event =
    | SetKey(key: string, value: Value, tag: string, ok: bool)
    | DeleteKeys(keys: set<string>, failed: set<string>)
    | Clear(clearable: bool, ok: bool)  // clearable: the store has `reset` or `clear`
    | Invalidate(tag: string, failing: set<string>)
    | Expire(expired: string)

  function Tagged(index: map<string, set<string>>, tag: string): set<string> {
    if tag in index then index[tag] else {}
  }

  /** Each key is deleted on its own; the call fails if one of them fails. */
  function Deleted(s: State, keys: set<string>, failed: set<string>): State {
    s.(store := s.store - (keys - failed))
  }

  function Step(s: State, e: Event): State {
    match e
    case SetKey(key, value, tag, ok) =>
      if !ok then s
      else
        State(s.store[key := Entry(value, tag)],
              if tag == "" then s.index else s.index[tag := Tagged(s.index, tag) + {key}])
    case DeleteKeys(keys, failed) => Deleted(s, keys, failed)
    case Clear(clearable, ok) =>
      if !ok then s else State(if clearable then map[] else s.store, map[])
    case Invalidate(tag, failed) =>
      var keys := Tagged(s.index, tag);
      var after := Deleted(s, keys, failed);
      if keys == {} || keys * failed != {} then after else after.(index := s.index - {tag})
    case Expire(key) => s.(store := s.store - {key})
  }

  datatype GetResult = Success(data: Value) | Miss | Error

  function Get(s: State, key: string, ok: bool): GetResult {
    if !ok then Error
    else if key in s.store && s.store[key].value.truthy then Success(s.store[key].value)
    else Miss
  }

  // --- the service -----------------------------------------------------------------------------

  class CacheService {
    var store: map<string, Entry>
    var cacheTagMap: map<string, set<string>>

    function Current(): State
      reads this
    {
      State(store, cacheTagMap)
    }

    constructor ()
      ensures Current() == EMPTY
    {
      store, cacheTagMap := map[], map[];
    }

    method Set(key: string, value: Value, tag: string, accepted: bool) returns (ok: bool)
      modifies this
      ensures ok == accepted && Current() == Step(old(Current()), SetKey(key, value, tag, accepted))
    {
      if !accepted { return false; }
      store := store[key := Entry(value, tag)];
      if tag != "" { TagKey(tag, key); }
      return true;
    }

    method TagKey(tag: string, key: string)
      modifies this`cacheTagMap
      ensures cacheTagMap == old(cacheTagMap)[tag := Tagged(old(cacheTagMap), tag) + {key}]
    {
      var keys := if tag in cacheTagMap then cacheTagMap[tag] else {};
      keys := keys + {key};
      cacheTagMap := cacheTagMap[tag := keys];
    }

    method DelMultiple(keys: set<string>, failed: set<string>) returns (ok: bool)
      modifies this`store
      ensures Current() == Step(old(Current()), DeleteKeys(keys, failed))
      ensures ok == (keys * failed == {})
    {
      hide Step, Deleted;
      var rest := keys;
      ghost var done: set<string> := {};
      ok := true;
      while rest != {}
        invariant rest !! done && rest + done == keys
        invariant store == old(store) - (done - failed)
        invariant ok == (done * failed == {})
        decreases |rest|
      {
        var key :| key in rest;
        rest, done := rest - {key}, done + {key};
        if key in failed { ok := false; } else { store := store - {key}; }
        OneMoreKey(old(store), done - {key}, key, failed);
      }
      assert done == keys;
      StepDeletes(old(Current()), keys, failed);
    }

    method ClearAll(clearable: bool, accepted: bool) returns (ok: bool)
      modifies this
      ensures ok == accepted && Current() == Step(old(Current()), Clear(clearable, accepted))
    {
      if !accepted { return false; }
      if clearable { store := map[]; }
      cacheTagMap := map[];
      return true;
    }

    method InvalidateByTag(tag: string, failed: set<string>) returns (ok: bool)
      modifies this
      ensures Current() == Step(old(Current()), Invalidate(tag, failed))
      ensures ok == (Tagged(old(cacheTagMap), tag) * failed == {})
    {
      var keys := if tag in cacheTagMap then cacheTagMap[tag] else {};
      if |keys| > 0 {
        ok := DelMultiple(keys, failed);
        if ok { cacheTagMap := cacheTagMap - {tag}; }
        return ok;
      }
      assert Deleted(old(Current()), {}, failed) == old(Current());
      return true;
    }

    /** `made` is what the factory makes. Data that came from the cache or was stored is then read back
        from the cache, if it is truthy. */
    method GetOrSet(key: string, made: Value, tag: string, readable: bool, writable: bool)
      returns (data: Value, fromCache: bool, stored: bool)
      modifies this
      ensures fromCache == Get(old(Current()), key, readable).Success?
      ensures fromCache ==> Current() == old(Current())
      ensures !fromCache ==> data == made && stored == writable
      ensures !fromCache ==> Current() == Step(old(Current()), SetKey(key, made, tag, writable))
      ensures (fromCache || stored) && data.truthy ==> Get(Current(), key, true) == Success(data)
    {
      stored := false;
      if readable && key in store && store[key].value.truthy {
        return store[key].value, true, false;
      }
      stored := Set(key, made, tag, writable);
      return made, false, stored;
    }
  }

  lemma OneMoreKey(store: map<string, Entry>, done: set<string>, key: string, failed: set<string>)
    requires key !in done
    ensures store - ((done + {key}) - failed) ==
      if key in failed then store - (done - failed) else (store - (done - failed)) - {key}
    ensures (done + {key}) * failed == {} <==> done * failed == {} && key !in failed
  {
    if key !in failed {
      assert (done + {key}) - failed == (done - failed) + {key};
      assert (done + {key}) * failed == done * failed;
    } else {
      assert (done + {key}) - failed == done - failed;
      assert key in (done + {key}) * failed;
    }
  }

  lemma StepDeletes(s: State, keys: set<string>, failed: set<string>)
    ensures Step(s, DeleteKeys(keys, failed)) == State(s.store - (keys - failed), s.index)
  {
  }

  // --- the index agrees with the store ---------------------------------------------------------

  /** Every entry is in the index under the tag that it was last written with. */
  ghost predicate Indexed(s: State) {
    forall k | k in s.store && s.store[k].writtenWith != "" :: k in Tagged(s.index, s.store[k].writtenWith)
  }

  /** Clearing a store that cannot be cleared empties the index only. */
  ghost predicate LosesIndex(s: State, e: Event) {
    e.Clear? && e.ok && !e.clearable && exists k :: k in s.store && s.store[k].writtenWith != ""
  }

  lemma SetKeepsIndexed(s: State, key: string, value: Value, tag: string)
    requires Indexed(s)
    ensures Indexed(Step(s, SetKey(key, value, tag, true)))
  {
    var t := Step(s, SetKey(key, value, tag, true));
    forall k | k in t.store && t.store[k].writtenWith != "" ensures k in Tagged(t.index, t.store[k].writtenWith) {
      if k != key { assert k in s.store && k in Tagged(s.index, s.store[k].writtenWith); }
    }
  }

  lemma InvalidateKeepsIndexed(s: State, tag: string, failed: set<string>)
    requires Indexed(s)
    ensures Indexed(Step(s, Invalidate(tag, failed)))
  {
    var t := Step(s, Invalidate(tag, failed));
    forall k | k in t.store && t.store[k].writtenWith != "" ensures k in Tagged(t.index, t.store[k].writtenWith) {
      assert k in s.store && k in Tagged(s.index, s.store[k].writtenWith);
    }
  }

  /** Every step keeps the index complete, except exactly a clear that leaves tagged entries behind. */
  lemma StepKeepsIndexed(s: State, e: Event)
    requires Indexed(s)
    ensures Indexed(Step(s, e)) <==> !LosesIndex(s, e)
  {
    match e
    case SetKey(key, value, tag, ok) => if ok { SetKeepsIndexed(s, key, value, tag); }
    case DeleteKeys(keys, failed) =>
    case Clear(clearable, ok) =>
      if LosesIndex(s, e) {
        var k :| k in s.store && s.store[k].writtenWith != "";
        assert k in Step(s, e).store;
      }
    case Invalidate(tag, failed) => InvalidateKeepsIndexed(s, tag, failed);
    case Expire(key) =>
  }

  function After(events: seq<Event>): State {
    if events == [] then EMPTY else Step(After(events[..|events| - 1]), events[|events| - 1])
  }

  lemma {:induction false} RunKeepsIndexed(events: seq<Event>)
    requires forall i | 0 <= i < |events| :: !LosesIndex(After(events[..i]), events[i])
    ensures Indexed(After(events))
  {
    if events != [] {
      var n := |events| - 1;
      forall i | 0 <= i < n ensures !LosesIndex(After(events[..n][..i]), events[..n][i]) {
        assert events[..n][..i] == events[..i];
      }
      RunKeepsIndexed(events[..n]);
      StepKeepsIndexed(After(events[..n]), events[n]);
    }
  }

  /** A successful invalidation leaves no entry last written with the tag; a failed one keeps the index,
      so that invalidating again, once the store answers, leaves none either. */
  lemma InvalidationIsComplete(s: State, tag: string, failed: set<string>)
    requires Indexed(s) && tag != ""
    ensures var t := Step(s, Invalidate(tag, failed));
            && (Tagged(s.index, tag) * failed == {} ==>
                 forall k | k in t.store :: t.store[k].writtenWith != tag)
            && (Tagged(s.index, tag) * failed != {} ==> t.index == s.index)
            && forall k | k in Step(t, Invalidate(tag, {})).store ::
                 Step(t, Invalidate(tag, {})).store[k].writtenWith != tag
  {
    var t := Step(s, Invalidate(tag, failed));
    InvalidateKeepsIndexed(s, tag, failed);
    Uncovered(s, tag, failed);
    Uncovered(t, tag, {});
  }

  lemma Uncovered(s: State, tag: string, failed: set<string>)
    requires Indexed(s) && tag != ""
    ensures forall k | k in Step(s, Invalidate(tag, failed)).store && s.store[k].writtenWith == tag ::
      k in failed && k in Tagged(s.index, tag)
  {
    var t := Step(s, Invalidate(tag, failed));
    forall k | k in t.store && s.store[k].writtenWith == tag ensures k in failed && k in Tagged(s.index, tag) {
      assert k in s.store && k in Tagged(s.index, s.store[k].writtenWith);
    }
  }

  /** A tagged entry, a clear of a store that cannot be cleared, and an invalidation of the tag: every call
      succeeds, and the entry is still there. It takes a cache manager that has a `store` with neither `reset`
      nor `clear`; one without a `store` makes `clear` fail and change nothing. */
  lemma ClearForgetsTag(key: string, value: Value, tag: string)
    requires tag != ""
    ensures var s := After([SetKey(key, value, tag, true), Clear(false, true)]);
      !Indexed(s) && key in Step(s, Invalidate(tag, {})).store
      && Step(s, Invalidate(tag, {})).store[key].writtenWith == tag
  {
    var first, both := [SetKey(key, value, tag, true)], [SetKey(key, value, tag, true), Clear(false, true)];
    assert first[..0] == [] && both[..1] == first;
    var s := After(both);
    assert After(first).store == map[key := Entry(value, tag)];
    assert s.store == map[key := Entry(value, tag)] && s.index == map[];
    assert key !in Tagged(s.index, s.store[key].writtenWith);
  }

  // --- the index against the history -----------------------------------------------------------

  /** Whether the key was written with the tag after the last clear and the last invalidation of the tag
      that succeeded. */
  ghost predicate WrittenSince(events: seq<Event>, key: string, tag: string) {
    if events == [] then false
    else
      var e, rest := events[|events| - 1], events[..|events| - 1];
      match e
      case SetKey(k, _, t, ok) => (ok && k == key && t == tag) || WrittenSince(rest, key, tag)
      case Clear(_, ok) => !ok && WrittenSince(rest, key, tag)
      case Invalidate(t, failed) =>
        (t == tag ==> exists k | k in failed :: WrittenSince(rest, k, tag)) && WrittenSince(rest, key, tag)
      case _ => WrittenSince(rest, key, tag)
  }

  lemma InvalidateIndex(s: State, tag: string, failing: set<string>)
    ensures Tagged(Step(s, Invalidate(tag, failing)).index, tag) ==
      if exists k :: k in failing && k in Tagged(s.index, tag) then Tagged(s.index, tag) else {}
  {
    var keys := Tagged(s.index, tag);
    if k :| k in failing && k in keys { assert k in keys * failing; }
    if keys * failing != {} {
      var k :| k in keys * failing;
      assert k in failing && k in keys;
    }
  }

  /** The index holds exactly the keys that the history says; in particular an entry that was written
      with the tag and later without it is still deleted by an invalidation. */
  lemma {:induction false} IndexIsHistory(events: seq<Event>, key: string, tag: string)
    requires tag != ""
    ensures key in Tagged(After(events).index, tag) <==> WrittenSince(events, key, tag)
    decreases |events|
  {
    if events != [] {
      var e, rest := events[|events| - 1], events[..|events| - 1];
      var s := After(rest);
      forall k ensures k in Tagged(s.index, tag) <==> WrittenSince(rest, k, tag) {
        IndexIsHistory(rest, k, tag);
      }
      if e.Invalidate? && e.tag == tag {
        InvalidateIndex(s, tag, e.failing);
        if k :| k in e.failing && k in Tagged(s.index, tag) { assert WrittenSince(rest, k, tag); }
      }
    }
  }

  /** An invalidation that meets no failure deletes exactly the keys written with the tag since. */
  lemma InvalidationIsExact(events: seq<Event>, key: string, tag: string)
    requires tag != ""
    ensures var s := After(events);
            key in Step(s, Invalidate(tag, {})).store <==> key in s.store && !WrittenSince(events, key, tag)
  {
    IndexIsHistory(events, key, tag);
  }

  /** What the history says the store holds under the key: what was last written, unless it has been deleted,
      invalidated, cleared or left by itself since. */
  ghost function HeldSince(events: seq<Event>, key: string): Option<Entry> {
    if events == [] then None
    else
      var e, rest := events[|events| - 1], events[..|events| - 1];
      match e
      case SetKey(k, value, tag, ok) => if ok && k == key then Some(Entry(value, tag)) else HeldSince(rest, key)
      case DeleteKeys(keys, failed) => if key in keys && key !in failed then None else HeldSince(rest, key)
      case Clear(clearable, ok) => if ok && clearable then None else HeldSince(rest, key)
      case Invalidate(tag, failing) =>
        if tag != "" && WrittenSince(rest, key, tag) && key !in failing then None else HeldSince(rest, key)
      case Expire(k) => if k == key then None else HeldSince(rest, key)
  }

  lemma {:induction false} NoUntagged(events: seq<Event>)
    ensures Tagged(After(events).index, "") == {}
    decreases |events|
  {
    if events != [] { NoUntagged(events[..|events| - 1]); }
  }

  /** The store is its history, and so is what a read returns: the value last written and still held, if it is
      truthy; nothing otherwise; and an error exactly if the store cannot be read. */
  lemma {:induction false} StoreIsHistory(events: seq<Event>, key: string)
    ensures var s, held := After(events), HeldSince(events, key);
      && (key in s.store <==> held.Some?) && (held.Some? ==> s.store[key] == held.value)
    decreases |events|
  {
    if events != [] {
      var e, rest := events[|events| - 1], events[..|events| - 1];
      StoreIsHistory(rest, key);
      NoUntagged(rest);
      if e.Invalidate? && e.tag != "" { IndexIsHistory(rest, key, e.tag); }
      hide WrittenSince;
    }
  }

  lemma ReadIsHistory(events: seq<Event>, key: string, ok: bool, value: Value)
    ensures var got, held := Get(After(events), key, ok), HeldSince(events, key);
      && (got == Success(value) <==> ok && held.Some? && held.value.value == value && value.truthy)
      && (got == Miss <==> ok && (held.Some? ==> !held.value.value.truthy))
      && (got == Error <==> !ok)
  {
    StoreIsHistory(events, key);
  }

  /** An entry written with the tag and then without it goes with the tag. */
  lemma UntaggedEntryDeleted(key: string, before: Value, value: Value, tag: string)
    requires tag != ""
    ensures var s := After([SetKey(key, before, tag, true), SetKey(key, value, "", true)]);
      key in s.store && s.store[key].writtenWith == "" && key !in Step(s, Invalidate(tag, {})).store
  {
    var first := [SetKey(key, before, tag, true)];
    var both := first + [SetKey(key, value, "", true)];
    assert first[..0] == [] && both[..1] == first;
    assert both == [SetKey(key, before, tag, true), SetKey(key, value, "", true)];
    var s := After(both);
    assert key in Tagged(After(first).index, tag) && s.index == After(first).index;
  }
}
