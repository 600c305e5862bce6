/** Whole runs of desktop files and association lists. */
module MimeRuns {
  import opened Common
  import opened MimeState
  import opened MimeRegistration

  /** A type and the applications that an association list names for it, most preferred first. */
  datatype Association = Association(mimeType: string, identifiers: seq<string>)

  /** What the index is built from, in the order in which it is read. */
  datatype Event =
    | DesktopFile(id: string, hidden: bool, noDisplay: bool, declared: seq<string>)
    | MimeApps(added: seq<Association>, removed: seq<Association>)

  /** The known applications among the given ones are put first, the last one first of all. */
  function AddListed(s: State, t: string, ids: seq<string>): State {
    if ids == [] then s
    else
      var s1 := AddListed(s, t, ids[1..]);
      if ids[0] in s1.types then AddToType(s1, t, ids[0]) else s1
  }

  function RemoveListed(s: State, t: string, ids: seq<string>): State {
    if ids == [] then s else RemoveFromType(RemoveListed(s, t, ids[..|ids| - 1]), t, ids[|ids| - 1])
  }

  function AddAll(s: State, added: seq<Association>): State {
    if added == [] then s
    else
      var a := added[|added| - 1];
      AddListed(AddAll(s, added[..|added| - 1]), a.mimeType, a.identifiers)
  }

  function RemoveAll(s: State, removed: seq<Association>): State {
    if removed == [] then s
    else
      var a := removed[|removed| - 1];
      RemoveListed(RemoveAll(s, removed[..|removed| - 1]), a.mimeType, a.identifiers)
  }

  function Step(s: State, e: Event): State {
    match e
    case DesktopFile(id, hidden, noDisplay, declared) =>
      if hidden then RemoveApplication(s, id) else if noDisplay then s else AddApplication(s, id, declared)
    case MimeApps(added, removed) => RemoveAll(AddAll(s, added), removed)
  }

  function Run(s: State, events: seq<Event>): State {
    if events == [] then s else Step(Run(s, events[..|events| - 1]), events[|events| - 1])
  }

  // ---------- Consistency of runs ----------

  lemma {:induction false} AddListedConsistent(s: State, t: string, ids: seq<string>)
    requires Consistent(s)
    ensures Consistent(AddListed(s, t, ids))
  {
    if ids != [] {
      AddListedConsistent(s, t, ids[1..]);
      AddToTypeConsistent(AddListed(s, t, ids[1..]), t, ids[0]);
      hide Consistent, AddToType;
    }
  }

  lemma {:induction false} RemoveListedConsistent(s: State, t: string, ids: seq<string>)
    requires Consistent(s)
    ensures Consistent(RemoveListed(s, t, ids))
  {
    if ids != [] {
      RemoveListedConsistent(s, t, ids[..|ids| - 1]);
      RemoveFromTypeConsistent(RemoveListed(s, t, ids[..|ids| - 1]), t, ids[|ids| - 1]);
      hide Consistent, RemoveFromType;
    }
  }

  lemma {:induction false} AddAllConsistent(s: State, added: seq<Association>)
    requires Consistent(s)
    ensures Consistent(AddAll(s, added))
  {
    if added != [] {
      AddAllConsistent(s, added[..|added| - 1]);
      var a := added[|added| - 1];
      AddListedConsistent(AddAll(s, added[..|added| - 1]), a.mimeType, a.identifiers);
      hide Consistent, AddListed;
    }
  }

  lemma {:induction false} RemoveAllConsistent(s: State, removed: seq<Association>)
    requires Consistent(s)
    ensures Consistent(RemoveAll(s, removed))
  {
    if removed != [] {
      RemoveAllConsistent(s, removed[..|removed| - 1]);
      var a := removed[|removed| - 1];
      RemoveListedConsistent(RemoveAll(s, removed[..|removed| - 1]), a.mimeType, a.identifiers);
      hide Consistent, RemoveListed;
    }
  }

  lemma StepConsistent(s: State, e: Event)
    requires Consistent(s)
    ensures Consistent(Step(s, e))
  {
    hide Consistent, AddApplication, RemoveApplication, AddAll, RemoveAll;
    match e
    case DesktopFile(id, _, _, declared) =>
      RemoveApplicationConsistent(s, id);
      AddApplicationSound(s, id, declared);
    case MimeApps(added, removed) =>
      AddAllConsistent(s, added);
      RemoveAllConsistent(AddAll(s, added), removed);
  }

  lemma {:induction false} RunConsistent(s: State, events: seq<Event>)
    requires Consistent(s)
    ensures Consistent(Run(s, events))
  {
    if events != [] {
      RunConsistent(s, events[..|events| - 1]);
      StepConsistent(Run(s, events[..|events| - 1]), events[|events| - 1]);
      hide Consistent, Step;
    }
  }

  /** Whatever is read, forgetting the unused applications leaves no list with an application that is not known, and an
      application is known after it if and only if it has a type. */
  lemma NothingDangles(events: seq<Event>)
    ensures var s, s' := Run(START, events), RemoveUnused(Run(START, events));
      && Consistent(s')
      && (forall t, id :: id in AppsOf(s', t) ==> id in s'.types && t in s'.types[id])
      && (forall t :: AppsOf(s', t) == AppsOf(s, t))
      && (forall id :: id in s'.types <==> TypesOf(s, id) != [])
  {
    StartConsistent();
    RunConsistent(START, events);
    hide Run, Distinct;
    var s, s' := Run(START, events), RemoveUnused(Run(START, events));
    assert forall id :: TypesOf(s', id) == TypesOf(s, id);
    assert forall t :: AppsOf(s', t) == AppsOf(s, t);
    ConsistentMeans(s);
    ConsistentIntro(s');
    forall t, id | id in AppsOf(s', t)
      ensures id in s'.types && t in s'.types[id]
    {
      ListedIsKnown(s', t, id);
    }
  }

  lemma ListedIsKnown(s: State, t: string, id: string)
    requires Consistent(s) && id in AppsOf(s, t)
    ensures id in s.types && t in s.types[id]
  {
    assert t in TypesOf(s, id);
  }

  // ---------- Preference ----------

  /** The known ones among the given applications. */
  function Known(s: State, ids: seq<string>): seq<string> {
    if ids == [] then [] else (if ids[0] in s.types then [ids[0]] else []) + Known(s, ids[1..])
  }

  /** A list with only the first of equal elements. */
  function Firsts(ids: seq<string>): seq<string> {
    if ids == [] then [] else [ids[0]] + Without(Firsts(ids[1..]), ids[0])
  }

  function Minus(list: seq<string>, ids: seq<string>): seq<string> {
    if ids == [] then list else Without(Minus(list, ids[1..]), ids[0])
  }

  lemma {:induction false} FirstsExact(ids: seq<string>)
    ensures Distinct(Firsts(ids)) && forall x :: x in Firsts(ids) <==> x in ids
    ensures Distinct(ids) ==> Firsts(ids) == ids
  {
    if ids != [] {
      var rest := ids[1..];
      FirstsExact(rest);
      WithoutExact(Firsts(rest), ids[0]);
      assert ids == [ids[0]] + rest;
      if Distinct(ids) {
        assert Distinct(rest) && ids[0] !in rest;
      }
      hide Without;
    }
  }

  lemma {:induction false} MinusExact(list: seq<string>, ids: seq<string>)
    ensures forall x :: x in Minus(list, ids) <==> x in list && x !in ids
  {
    if ids != [] {
      MinusExact(list, ids[1..]);
      WithoutExact(Minus(list, ids[1..]), ids[0]);
      assert forall x :: x in ids <==> x == ids[0] || x in ids[1..];
      hide Without;
    }
  }

  lemma {:induction false} KnownExact(s: State, ids: seq<string>)
    ensures forall x :: x in Known(s, ids) <==> x in ids && x in s.types
  {
    if ids != [] {
      KnownExact(s, ids[1..]);
      assert forall x :: x in ids <==> x == ids[0] || x in ids[1..];
    }
  }

  /** Added associations put the known applications first, each once and in the order in which they are named; the
      others keep their order. */
  lemma AddedComeFirst(s: State, t: string, ids: seq<string>)
    ensures var s', known := AddListed(s, t, ids), Known(s, ids);
      var front, rest := Firsts(known), Minus(AppsOf(s, t), known);
      && s'.types.Keys == s.types.Keys && AppsOf(s', t) == front + rest
      && Distinct(front) && (Distinct(known) ==> front == known)
      && (forall x :: x in front <==> x in ids && x in s.types)
      && (forall x :: x in rest <==> x in AppsOf(s, t) && x !in front)
  {
    AddedInFront(s, t, ids);
    KnownExact(s, ids);
    FirstsExact(Known(s, ids));
    MinusExact(AppsOf(s, t), Known(s, ids));
    hide *;
  }

  lemma {:induction false} AddedInFront(s: State, t: string, ids: seq<string>)
    ensures var s' := AddListed(s, t, ids);
      s'.types.Keys == s.types.Keys && AppsOf(s', t) == Firsts(Known(s, ids)) + Minus(AppsOf(s, t), Known(s, ids))
  {
    if ids != [] {
      AddedInFront(s, t, ids[1..]);
      var s1, x, known := AddListed(s, t, ids[1..]), ids[0], Known(s, ids[1..]);
      hide AddToType, Without, AppsOf, Firsts, Minus;
      if x in s.types {
        AddToTypeIs(s1, t, x);
        PutFirst(x, known, AppsOf(s, t));
        assert Known(s, ids) == [x] + known;
      } else {
        assert Known(s, ids) == known;
      }
    }
  }

  lemma PutFirst(x: string, known: seq<string>, list: seq<string>)
    ensures [x] + Without(Firsts(known) + Minus(list, known), x) == Firsts([x] + known) + Minus(list, [x] + known)
  {
    WithoutConcat(Firsts(known), Minus(list, known), x);
    assert ([x] + known)[1..] == known;
    hide Without;
  }

  /** Removed associations take exactly the named applications off the list; the others keep their order. */
  lemma RemovedAreGone(s: State, t: string, ids: seq<string>)
    ensures var list := AppsOf(RemoveListed(s, t, ids), t);
      list == Minus(AppsOf(s, t), Reversed(ids)) && forall x :: x in list <==> x in AppsOf(s, t) && x !in ids
  {
    RemovedOneByOne(s, t, ids);
    MinusExact(AppsOf(s, t), Reversed(ids));
    hide RemoveListed, AppsOf, Minus;
  }

  lemma {:induction false} RemovedOneByOne(s: State, t: string, ids: seq<string>)
    ensures AppsOf(RemoveListed(s, t, ids), t) == Minus(AppsOf(s, t), Reversed(ids))
  {
    if ids != [] {
      var init, x := ids[..|ids| - 1], ids[|ids| - 1];
      RemovedOneByOne(s, t, init);
      RemoveFromTypeIs(RemoveListed(s, t, init), t, x);
      hide RemoveFromType, Without, AppsOf;
      assert Reversed(ids) == [x] + Reversed(init) && ([x] + Reversed(init))[1..] == Reversed(init);
    }
  }

  function Reversed(ids: seq<string>): (r: seq<string>)
    ensures forall x :: x in r <==> x in ids
  {
    if ids == [] then [] else [ids[|ids| - 1]] + Reversed(ids[..|ids| - 1])
  }
}
