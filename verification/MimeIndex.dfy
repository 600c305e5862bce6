/** The index of applications on the heap: desktop entries that know their types, and lists of entries for each type. */
module MimeIndex {
  import opened MimeState
  import opened MimeRegistration
  import opened MimeRuns

  class DesktopEntry {
    const identifier: string
    const hidden: bool
    const noDisplay: bool
    var types: seq<string>

    constructor (id: string, isHidden: bool, isNotDisplayed: bool, declared: seq<string>)
      ensures identifier == id && hidden == isHidden && noDisplay == isNotDisplayed && types == declared
    {
      identifier, hidden, noDisplay, types := id, isHidden, isNotDisplayed, declared;
    }

    /** Erases a type wherever it occurs. */
    method EraseType(t: string)
      modifies this
      ensures types == Without(old(types), t)
    {
      hide Without;
      var i := 0;
      while i < |types|
        invariant i <= |types| && t !in types[..i]
        invariant Without(types, t) == Without(old(types), t)
        decreases |types| - i
      {
        EraseStep(types, i, t);
        if types[i] == t {
          types := types[..i] + types[i + 1..];
        } else {
          i := i + 1;
        }
      }
      EraseEnd(types, t);
    }
  }

  lemma EraseStep(s: seq<string>, i: nat, x: string)
    requires i < |s|
    ensures s[i] == x ==> Without(s[..i] + s[i + 1..], x) == Without(s, x) && (s[..i] + s[i + 1..])[..i] == s[..i]
    ensures s[i] != x && x !in s[..i] ==> x !in s[..i + 1]
  {
    if s[i] == x {
      assert s == s[..i] + [s[i]] + s[i + 1..];
      WithoutConcat(s[..i] + [s[i]], s[i + 1..], x);
      WithoutConcat(s[..i], [s[i]], x);
      WithoutConcat(s[..i], s[i + 1..], x);
      WithoutSelf(x);
      hide Without;
    }
  }

  lemma EraseEnd(s: seq<string>, x: string)
    requires x !in s[..|s|]
    ensures Without(s, x) == s
  {
    assert s[..|s|] == s;
    WithoutExact(s, x);
  }

  /** The identifiers of some entries. */
  function Ids(list: seq<DesktopEntry>): (ids: seq<string>)
    ensures |ids| == |list| && forall k :: 0 <= k < |list| ==> ids[k] == list[k].identifier
  {
    seq(|list|, k requires 0 <= k < |list| => list[k].identifier)
  }

  /** The identifiers listed for each type. */
  function Lists(cache: map<string, seq<DesktopEntry>>): (lists: map<string, seq<string>>)
    ensures lists.Keys == cache.Keys
  {
    map t | t in cache :: Ids(cache[t])
  }

  lemma ListsAt(cache: map<string, seq<DesktopEntry>>, t: string)
    requires t in cache
    ensures Lists(cache)[t] == Ids(cache[t])
  {}

  lemma SetList(cache: map<string, seq<DesktopEntry>>, t: string, list: seq<DesktopEntry>)
    ensures Lists(cache[t := list]) == Lists(cache)[t := Ids(list)]
  {}

  lemma EraseId(list: seq<DesktopEntry>, i: nat)
    requires i < |list|
    ensures Ids(list[..i] + list[i + 1..]) == Ids(list)[..i] + Ids(list)[i + 1..]
    ensures forall e :: e in list[..i] + list[i + 1..] ==> e in list
  {}

  lemma PushList(cache: map<string, seq<DesktopEntry>>, t: string, entry: DesktopEntry)
    ensures var list, lists := if t in cache then cache[t] else [], Lists(cache);
      Lists(cache[t := [entry] + list]) == lists[t := [entry.identifier] + if t in lists then lists[t] else []]
  {
    var list := if t in cache then cache[t] else [];
    assert Ids([entry] + list) == [entry.identifier] + Ids(list);
  }

  /** What the index answers about one application. */
  datatype Application = Application(identifier: string, types: seq<string>)

  class Index {
    var known: map<string, DesktopEntry>
    var cache: map<string, seq<DesktopEntry>>
    /** The entries that have been deleted. */
    ghost var deleted: set<DesktopEntry>

    /** Entries are registered under their own identifiers and not deleted, and every listed entry is registered. */
    ghost predicate Valid()
      reads this
    {
      && (forall id :: id in known ==> known[id].identifier == id && known[id] !in deleted)
      && (forall t, e :: t in cache && e in cache[t] ==> Registered(known, e))
    }

    /** The types of each known application. */
    ghost function Types(): (types: map<string, seq<string>>)
      reads this`known, known.Values
      ensures types.Keys == known.Keys
    {
      map id | id in known :: known[id].types
    }

    /** The index as a value. */
    ghost function Contents(): State
      reads this`known, this`cache, known.Values
    {
      State(Types(), Lists(cache))
    }

    constructor ()
      ensures Valid() && Contents() == START && fresh(known.Values)
    {
      known, cache, deleted := map[], map[], {};
    }

    /** Erases an application from a type's list. */
    method EraseFromList(t: string, entryId: string)
      requires Valid() && t in cache
      modifies this`cache
      ensures Valid() && Lists(cache) == Lists(old(cache))[t := Without(Ids(old(cache)[t]), entryId)]
    {
      hide Without, Registered, Lists;
      var i := 0;
      while i < |cache[t]|
        invariant t in cache && cache == old(cache)[t := cache[t]]
        invariant i <= |cache[t]| && entryId !in Ids(cache[t])[..i]
        invariant Without(Ids(cache[t]), entryId) == Without(Ids(old(cache)[t]), entryId)
        invariant forall e :: e in cache[t] ==> Registered(known, e)
        decreases |cache[t]| - i
      {
        var list := cache[t];
        EraseStep(Ids(list), i, entryId);
        if list[i].identifier == entryId {
          EraseId(list, i);
          cache := cache[t := list[..i] + list[i + 1..]];
        } else {
          i := i + 1;
        }
      }
      EraseEnd(Ids(cache[t]), entryId);
      SetList(old(cache), t, cache[t]);
    }

    /** Erases a type from a known application's types. */
    method EraseTypeOf(t: string, entryId: string)
      requires Valid() && entryId in known
      modifies known.Values
      ensures Types() == old(Types())[entryId := Without(old(Types())[entryId], t)]
    {
      hide Without;
      known[entryId].EraseType(t);
    }

    /** Takes an application off a type's list, and the type off the application's. */
    method RemoveFromType(t: string, entryId: string)
      requires Valid()
      modifies this`cache, known.Values
      ensures Valid() && Contents() == MimeState.RemoveFromType(old(Contents()), t, entryId)
    {
      hide Without, Registered, Lists, Types;
      if t in cache {
        ListsAt(cache, t);
        EraseFromList(t, entryId);
      }
      if entryId in known {
        EraseTypeOf(t, entryId);
      }
    }

    /** Puts an application first in a type's list. */
    method AddToType(t: string, entry: DesktopEntry)
      requires Valid() && Registered(known, entry)
      modifies this`cache, known.Values
      ensures Valid() && Contents() == MimeState.AddToType(old(Contents()), t, entry.identifier)
    {
      hide *;
      ghost var s := Contents();
      KeysAre();
      RegisteredIn(known, entry);
      if t in cache {
        RemoveFromType(t, entry.identifier);
      }
      AddToTypeIsPush(s, t, entry.identifier);
      PushFront(t, entry);
    }

    lemma KeysAre()
      ensures Contents().apps.Keys == cache.Keys
    {}

    /** Puts an entry in front of a list and a type at the end of the entry's. */
    method PushFront(t: string, entry: DesktopEntry)
      requires Valid() && Registered(known, entry)
      modifies this`cache, entry
      ensures Valid() && Contents() == Push(old(Contents()), t, entry.identifier)
    {
      PushList(cache, t, entry);
      var list := if t in cache then cache[t] else [];
      cache := cache[t := [entry] + list];
      AppendType(t, entry);
      hide Lists, Types;
    }

    method AppendType(t: string, entry: DesktopEntry)
      requires Valid() && Registered(known, entry)
      modifies entry
      ensures Types() == old(Types())[entry.identifier := old(Types())[entry.identifier] + [t]]
    {
      entry.types := entry.types + [t];
    }

    /** Takes an application off every list. */
    method RemoveApplication(entryId: string)
      requires Valid()
      modifies this`cache, known.Values
      ensures Valid() && Contents() == MimeState.RemoveApplication(old(Contents()), entryId)
    {
      hide *;
      KeysAre();
      ghost var s := Contents();
      RemovedFromNone(s, entryId);
      var keys := cache.Keys;
      ghost var done: set<string> := {};
      while keys != {}
        invariant Valid() && done + keys == s.apps.Keys
        invariant Contents() == RemovedFrom(s, entryId, done)
      {
        var t :| t in keys;
        RemovedFromOneMore(s, entryId, done, t);
        RemoveFromType(t, entryId);
        keys := keys - {t};
        done := done + {t};
      }
      RemovedFromAll(s, entryId);
      assert done == s.apps.Keys;
    }

    /** Replaces an application and registers it for its types, whose list changes while the loop goes over it. */
    method AddApplication(entry: DesktopEntry)
      requires Valid() && entry !in known.Values && entry !in deleted
      modifies this`cache, this`known, known.Values, entry
      ensures Valid() && Contents() == MimeState.AddApplication(old(Contents()), entry.identifier, old(entry.types))
      ensures known.Values <= old(known.Values) + {entry} && deleted == old(deleted)
    {
      hide *;
      ghost var s, id, declared := Contents(), entry.identifier, entry.types;
      AddApplicationIs(s, id, declared);
      RemoveApplication(entry.identifier);
      NotListed(s, id);
      ValuesAfter(known, id, entry);
      Register(entry, s);
      RegisteredIn(known, entry);
      ghost var start, registered := Contents(), known;
      var i: nat := 0;
      while i < |entry.types|
        invariant Valid() && Registered(known, entry) && known == registered
        invariant RegisterTypes(Contents(), id, i) == RegisterTypes(start, id, 0)
        decreases Fresh(Contents(), id), |entry.types| - i
      {
        EntryTypes(entry);
        RegisterStep(Contents(), id, i);
        AddToTypeShrinks(Contents(), id, entry.types[i]);
        AddToType(entry.types[i], entry);
        EntryTypes(entry);
        i := i + 1;
      }
      EntryTypes(entry);
      RegisterStep(Contents(), id, i);
    }

    lemma EntryTypes(entry: DesktopEntry)
      requires Registered(known, entry)
      ensures TypesOf(Contents(), entry.identifier) == entry.types
    {}

    lemma NotListed(s: State, id: string)
      requires Contents() == MimeState.RemoveApplication(s, id)
      ensures forall t, e :: t in cache && e in cache[t] ==> e.identifier != id
    {
      RemoveApplicationIs(s, id);
      hide MimeState.RemoveApplication, Without;
      forall t, e | t in cache && e in cache[t]
        ensures e.identifier != id
      {
        assert AppsOf(Contents(), t) == Ids(cache[t]);
        WithoutExact(AppsOf(s, t), id);
        var k :| 0 <= k < |cache[t]| && cache[t][k] == e;
        assert Ids(cache[t])[k] == e.identifier;
      }
    }

    /** Reads a desktop file. */
    method ProcessDesktopFile(id: string, hidden: bool, noDisplay: bool, declared: seq<string>)
      requires Valid()
      modifies this`cache, this`known, known.Values
      ensures Valid() && Contents() == Step(old(Contents()), DesktopFile(id, hidden, noDisplay, declared))
      ensures fresh(known.Values - old(known.Values))
    {
      hide *;
      StepIs(Contents(), id, hidden, noDisplay, declared);
      var entry := new DesktopEntry(id, hidden, noDisplay, declared);
      OnlyOld(entry);
      if entry.hidden {
        RemoveApplication(entry.identifier);
      } else if !entry.noDisplay {
        AddApplication(entry);
      }
    }

    twostate lemma OnlyOld(new entry: DesktopEntry)
      requires fresh(entry) && known == old(known) && deleted == old(deleted)
      ensures entry !in known.Values && entry !in deleted
    {}

    /** Reads the added associations of a type: the last application named is put first of all. */
    method AddAssociation(a: Association)
      requires Valid()
      modifies this`cache, known.Values
      ensures Valid() && Contents() == AddListed(old(Contents()), a.mimeType, a.identifiers)
    {
      hide *;
      ghost var s := Contents();
      var j := |a.identifiers|;
      AddListedIs(s, a.mimeType, a.identifiers, j);
      while j > 0
        invariant Valid() && 0 <= j <= |a.identifiers|
        invariant Contents() == AddListed(s, a.mimeType, a.identifiers[j..])
      {
        j := j - 1;
        AddListedIs(s, a.mimeType, a.identifiers, j);
        KnownAre();
        if a.identifiers[j] in known {
          RegisteredAt(a.identifiers[j]);
          AddToType(a.mimeType, known[a.identifiers[j]]);
        }
      }
      assert a.identifiers[0..] == a.identifiers;
    }

    lemma KnownAre()
      ensures Contents().types.Keys == known.Keys
    {}

    lemma RegisteredAt(id: string)
      requires Valid() && id in known
      ensures Registered(known, known[id]) && known[id].identifier == id
    {}

    /** Reads the removed associations of a type. */
    method RemoveAssociation(a: Association)
      requires Valid()
      modifies this`cache, known.Values
      ensures Valid() && Contents() == RemoveListed(old(Contents()), a.mimeType, a.identifiers)
    {
      hide *;
      ghost var s := Contents();
      RemoveListedIs(s, a.mimeType, [], "");
      for j := 0 to |a.identifiers|
        invariant Valid() && Contents() == RemoveListed(s, a.mimeType, a.identifiers[..j])
      {
        RemoveListedIs(s, a.mimeType, a.identifiers[..j], a.identifiers[j]);
        assert a.identifiers[..j + 1] == a.identifiers[..j] + [a.identifiers[j]];
        RemoveFromType(a.mimeType, a.identifiers[j]);
      }
      assert a.identifiers[..|a.identifiers|] == a.identifiers;
    }

    /** Reads an association list: first all that are added, then all that are removed. */
    method ProcessMimeApps(added: seq<Association>, removed: seq<Association>)
      requires Valid()
      modifies this`cache, known.Values
      ensures Valid() && Contents() == Step(old(Contents()), MimeApps(added, removed))
    {
      hide *;
      ghost var s := Contents();
      AssociationsStart(s);
      for i := 0 to |added|
        invariant Valid() && Contents() == AddAll(s, added[..i])
      {
        AddAllIs(s, added[..i], added[i]);
        assert added[..i + 1] == added[..i] + [added[i]];
        AddAssociation(added[i]);
      }
      assert added[..|added|] == added;
      ghost var s1 := Contents();
      AssociationsStart(s1);
      for i := 0 to |removed|
        invariant Valid() && Contents() == RemoveAll(s1, removed[..i])
      {
        RemoveAllIs(s1, removed[..i], removed[i]);
        assert removed[..i + 1] == removed[..i] + [removed[i]];
        RemoveAssociation(removed[i]);
      }
      assert removed[..|removed|] == removed;
      MimeAppsIs(s, added, removed);
    }

    /** Deletes the entries without types. In a consistent index no list holds one of them. */
    method RemoveUnused()
      requires Valid() && Consistent(Contents())
      modifies this`known, this`deleted
      ensures Valid() && Contents() == MimeState.RemoveUnused(old(Contents()))
      ensures known.Values <= old(known.Values)
    {
      ListedHaveTypes();
      ghost var all, types := known, Types();
      hide Consistent, Registered, Valid, Lists;
      RegisteredAlive();
      var keys := known.Keys;
      SweepStart(all, types);
      while keys != {}
        invariant Swept(all, types, known, keys)
        invariant forall id :: id in known ==> known[id] !in deleted
      {
        SweptMeans(all, types, known, keys);
        var id :| id in keys;
        SweepStep(all, types, known, keys, id);
        if known[id].types == [] {
          deleted := deleted + {known[id]};
          known := known - {id};
        }
        keys := keys - {id};
      }
      SweepEnd(all, types, known);
      StillRegistered(all);
      assert Types() == map id | id in types && types[id] != [] :: types[id];
      ValidAgain();
    }

    lemma RegisteredAlive()
      requires Valid()
      ensures forall id :: id in known ==> known[id].identifier == id && known[id] !in deleted
    {}

    lemma ValidAgain()
      requires forall id :: id in known ==> known[id].identifier == id && known[id] !in deleted
      requires forall t, e :: t in cache && e in cache[t] ==> Registered(known, e)
      ensures Valid()
    {}

    /** Listed entries have types. */
    lemma ListedHaveTypes()
      requires Valid() && Consistent(Contents())
      ensures forall t, e :: t in cache && e in cache[t] ==> Registered(known, e) && e.types != []
    {
      forall t, e | t in cache && e in cache[t]
        ensures Registered(known, e) && e.types != []
      {
        var k :| 0 <= k < |cache[t]| && cache[t][k] == e;
        assert Ids(cache[t])[k] == e.identifier;
        ListedIsKnown(Contents(), t, e.identifier);
      }
    }

    lemma StillRegistered(all: map<string, DesktopEntry>)
      requires forall id :: id in known ==> id in all && known[id] == all[id]
      requires forall id :: id in all && id !in known ==> all[id].types == []
      requires forall t, e :: t in cache && e in cache[t] ==> Registered(all, e) && e.types != []
      ensures forall t, e :: t in cache && e in cache[t] ==> Registered(known, e)
    {
      forall t, e | t in cache && e in cache[t]
        ensures Registered(known, e)
      {
        assert Registered(all, e);
      }
    }

    /** The applications listed for a type, most preferred first; none of their entries has been deleted. */
    method AppsForMime(t: string) returns (result: seq<Application>)
      requires Valid()
      ensures |result| == |AppsOf(Contents(), t)|
      ensures forall k :: 0 <= k < |result| ==>
        result[k].identifier == AppsOf(Contents(), t)[k] && result[k].types == TypesOf(Contents(), result[k].identifier)
      ensures t in cache ==> forall e :: e in cache[t] ==> e !in deleted
    {
      result := [];
      if t in cache {
        var list := cache[t];
        for k := 0 to |list|
          invariant |result| == k
          invariant forall n :: 0 <= n < k ==> result[n] == Application(list[n].identifier, list[n].types)
        {
          result := result + [Application(list[k].identifier, list[k].types)];
        }
        assert forall n :: 0 <= n < |list| ==> list[n] in list && Registered(known, list[n]);
      }
    }

    /** Reads everything in order and then deletes what is not used. */
    method CreateBase(events: seq<Event>)
      requires Valid() && Contents() == START
      modifies this, known.Values
      ensures Valid() && Contents() == MimeState.RemoveUnused(Run(START, events))
    {
      hide *;
      RunStart(START);
      for i := 0 to |events|
        invariant Valid() && Contents() == Run(START, events[..i])
        invariant fresh(known.Values - old(known.Values))
      {
        RunStep(START, events[..i], events[i]);
        assert events[..i + 1] == events[..i] + [events[i]];
        match events[i]
        case DesktopFile(id, hidden, noDisplay, declared) => ProcessDesktopFile(id, hidden, noDisplay, declared);
        case MimeApps(added, removed) => ProcessMimeApps(added, removed);
      }
      assert events[..|events|] == events;
      StartConsistent();
      RunConsistent(START, events);
      RemoveUnused();
    }

    /** Registers an entry under its identifier in place of the one that was there. */
    method Register(entry: DesktopEntry, ghost s: State)
      requires Valid() && entry !in known.Values && entry !in deleted
      requires Contents() == MimeState.RemoveApplication(s, entry.identifier)
      requires forall t, e :: t in cache && e in cache[t] ==> e.identifier != entry.identifier
      modifies this`known
      ensures Valid() && Registered(known, entry) && known == old(known)[entry.identifier := entry]
      ensures Contents() == Replaced(s, entry.identifier, entry.types)
    {
      hide Without, Unlisted;
      ghost var before := known;
      assert forall t, e :: t in cache && e in cache[t] ==> Registered(before, e);
      known := known[entry.identifier := entry];
      forall t, e | t in cache && e in cache[t]
        ensures Registered(known, e)
      {
        assert Registered(before, e);
      }
    }
  }

  lemma ValuesAfter(known: map<string, DesktopEntry>, id: string, e: DesktopEntry)
    ensures known[id := e].Values <= known.Values + {e}
  {}

  lemma RegisteredIn(known: map<string, DesktopEntry>, e: DesktopEntry)
    requires Registered(known, e)
    ensures e.identifier in known && known[e.identifier] == e && e in known.Values
  {}

  ghost function Push(s: State, t: string, id: string): State {
    State(s.types[id := TypesOf(s, id) + [t]], s.apps[t := [id] + AppsOf(s, t)])
  }

  lemma AddToTypeIsPush(s: State, t: string, id: string)
    ensures MimeState.AddToType(s, t, id) == Push(if t in s.apps then MimeState.RemoveFromType(s, t, id) else s, t, id)
  {}

  ghost predicate Registered(known: map<string, DesktopEntry>, e: DesktopEntry) {
    e.identifier in known && known[e.identifier] == e
  }

  lemma StepIs(s: State, id: string, hidden: bool, noDisplay: bool, declared: seq<string>)
    ensures Step(s, DesktopFile(id, hidden, noDisplay, declared)) ==
      if hidden then MimeState.RemoveApplication(s, id)
      else if noDisplay then s
      else MimeState.AddApplication(s, id, declared)
  {
    hide MimeState.RemoveApplication, MimeState.AddApplication;
  }

  lemma AddListedIs(s: State, t: string, ids: seq<string>, j: nat)
    requires j <= |ids|
    ensures AddListed(s, t, ids[j..]) ==
      if j == |ids| then s
      else if ids[j] in AddListed(s, t, ids[j + 1..]).types
        then MimeState.AddToType(AddListed(s, t, ids[j + 1..]), t, ids[j])
      else AddListed(s, t, ids[j + 1..])
  {
    hide MimeState.AddToType;
    if j < |ids| {
      assert ids[j..][1..] == ids[j + 1..];
    }
  }

  lemma RemoveListedIs(s: State, t: string, ids: seq<string>, id: string)
    ensures RemoveListed(s, t, []) == s
    ensures RemoveListed(s, t, ids + [id]) == MimeState.RemoveFromType(RemoveListed(s, t, ids), t, id)
  {
    hide MimeState.RemoveFromType;
    assert (ids + [id])[..|ids|] == ids;
  }

  lemma AssociationsStart(s: State)
    ensures AddAll(s, []) == s && RemoveAll(s, []) == s
  {}

  lemma AddAllIs(s: State, added: seq<Association>, a: Association)
    ensures AddAll(s, added + [a]) == AddListed(AddAll(s, added), a.mimeType, a.identifiers)
  {
    hide AddListed;
    assert (added + [a])[..|added|] == added;
  }

  lemma RemoveAllIs(s: State, removed: seq<Association>, a: Association)
    ensures RemoveAll(s, removed + [a]) == RemoveListed(RemoveAll(s, removed), a.mimeType, a.identifiers)
  {
    hide RemoveListed;
    assert (removed + [a])[..|removed|] == removed;
  }

  lemma MimeAppsIs(s: State, added: seq<Association>, removed: seq<Association>)
    ensures Step(s, MimeApps(added, removed)) == RemoveAll(AddAll(s, added), removed)
  {}

  lemma RunStart(s: State)
    ensures Run(s, []) == s
  {}

  lemma RunStep(s: State, events: seq<Event>, e: Event)
    ensures Run(s, events + [e]) == Step(Run(s, events), e)
  {
    hide Step;
    assert (events + [e])[..|events|] == events;
  }

  // ---------- Sweeping ----------

  /** The applications not in `keys` have been looked at, and those of them without types are gone. */
  ghost predicate Swept(all: map<string, DesktopEntry>, types: map<string, seq<string>>, known: map<string,
          DesktopEntry>,
                        keys: set<string>)
    requires types.Keys == all.Keys
  {
    && keys <= known.Keys <= all.Keys
    && (forall id :: id in known ==> known[id] == all[id])
    && (forall id :: id in all && id !in keys ==> (id in known <==> types[id] != []))
  }

  lemma SweptMeans(all: map<string, DesktopEntry>, types: map<string, seq<string>>, known: map<string, DesktopEntry>,
          keys: set<string>)
    requires types.Keys == all.Keys && Swept(all, types, known, keys)
    ensures keys <= known.Keys <= all.Keys && forall id :: id in known ==> known[id] == all[id]
  {}

  lemma SweepStart(all: map<string, DesktopEntry>, types: map<string, seq<string>>)
    requires types.Keys == all.Keys
    ensures Swept(all, types, all, all.Keys)
  {}

  lemma SweepStep(all: map<string, DesktopEntry>, types: map<string, seq<string>>, known: map<string, DesktopEntry>,
                  keys: set<string>, id: string)
    requires types.Keys == all.Keys && Swept(all, types, known, keys) && id in keys
    ensures types[id] == [] ==> Swept(all, types, known - {id}, keys - {id})
    ensures types[id] != [] ==> Swept(all, types, known, keys - {id})
  {}

  lemma SweepEnd(all: map<string, DesktopEntry>, types: map<string, seq<string>>, known: map<string, DesktopEntry>)
    requires types.Keys == all.Keys && Swept(all, types, known, {})
    ensures forall id :: id in known <==> id in all && types[id] != []
    ensures known.Values <= all.Values
  {}

  // ---------- Taking an application off some of the lists ----------

  ghost function RemovedFrom(s: State, id: string, done: set<string>): State {
    State(if id in s.types then s.types[id := Unlisted(s.types[id], done)] else s.types,
          map t | t in s.apps :: if t in done then Without(s.apps[t], id) else s.apps[t])
  }

  lemma {:induction false} UnlistedOneMore(types: seq<string>, done: set<string>, t: string)
    ensures Unlisted(types, {}) == types
    ensures Without(Unlisted(types, done), t) == Unlisted(types, done + {t})
  {
    hide *;
    if types == [] {
      UnlistedSnoc([], "", done);
      WithoutExact([], t);
      UnlistedSnoc([], "", {});
      UnlistedSnoc([], "", done + {t});
    } else {
      var init, u := types[..|types| - 1], types[|types| - 1];
      UnlistedOneMore(init, done, t);
      assert types == init + [u];
      UnlistedSnoc(init, u, done);
      UnlistedSnoc(init, u, {});
      UnlistedSnoc(init, u, done + {t});
      WithoutSnoc(Unlisted(init, done), u, t);
    }
  }

  lemma UnlistedSnoc(types: seq<string>, u: string, done: set<string>)
    ensures Unlisted([], done) == []
    ensures Unlisted(types + [u], done) == if u in done then Unlisted(types, done) else Unlisted(types, done) + [u]
  {
    assert (types + [u])[..|types|] == types;
  }

  lemma RemovedFromNone(s: State, id: string)
    ensures RemovedFrom(s, id, {}) == s
  {
    UnlistedOneMore(TypesOf(s, id), {}, "");
    hide Unlisted, Without;
    assert RemovedFrom(s, id, {}).types == s.types;
    assert RemovedFrom(s, id, {}).apps == s.apps;
  }

  lemma RemovedFromOneMore(s: State, id: string, done: set<string>, t: string)
    requires t in s.apps
    ensures MimeState.RemoveFromType(RemovedFrom(s, id, done), t, id) == RemovedFrom(s, id, done + {t})
  {
    hide *;
    RemovedTypes(s, id, done, t);
    RemovedApps(s, id, done, t);
  }

  lemma RemovedTypes(s: State, id: string, done: set<string>, t: string)
    ensures MimeState.RemoveFromType(RemovedFrom(s, id, done), t, id).types == RemovedFrom(s, id, done + {t}).types
  {
    UnlistedOneMore(TypesOf(s, id), done, t);
    hide Unlisted, Without;
  }

  lemma RemovedApps(s: State, id: string, done: set<string>, t: string)
    requires t in s.apps
    ensures MimeState.RemoveFromType(RemovedFrom(s, id, done), t, id).apps == RemovedFrom(s, id, done + {t}).apps
  {
    WithoutTwice(s.apps[t], id);
    hide Unlisted, Without;
  }

  lemma WithoutTwice(list: seq<string>, x: string)
    ensures Without(Without(list, x), x) == Without(list, x)
  {
    WithoutExact(list, x);
    WithoutExact(Without(list, x), x);
  }

  lemma RemovedFromAll(s: State, id: string)
    ensures RemovedFrom(s, id, s.apps.Keys) == MimeState.RemoveApplication(s, id)
  {
    assert RemovedFrom(s, id, s.apps.Keys).apps == MimeState.RemoveApplication(s, id).apps;
  }
}
