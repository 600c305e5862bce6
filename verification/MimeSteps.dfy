/** What one desktop file or one association file does to each list. */
module MimeSteps {
  import opened MimeState
  import opened MimeRegistration
  import opened MimeRuns

  /** One of the associations names the application for the type. */
  ghost predicate Names(list: seq<Association>, t: string, id: string) {
    exists k :: 0 <= k < |list| && list[k].mimeType == t && id in list[k].identifiers
  }

  lemma NamesSnoc(list: seq<Association>, a: Association, t: string, id: string)
    ensures !Names([], t, id)
    ensures Names(list + [a], t, id) <==> Names(list, t, id) || (a.mimeType == t && id in a.identifiers)
  {
    if Names(list, t, id) {
      var k :| 0 <= k < |list| && list[k].mimeType == t && id in list[k].identifiers;
      assert (list + [a])[k] == list[k];
    }
    if a.mimeType == t && id in a.identifiers {
      assert (list + [a])[|list|] == a;
    }
  }

  /** None of the associations names the type. */
  ghost predicate Unnamed(list: seq<Association>, t: string) {
    forall k :: 0 <= k < |list| ==> list[k].mimeType != t
  }

  lemma ListSteps(s: State, t: string, ids: seq<string>, x: string)
    ensures AddListed(s, t, []) == s && RemoveListed(s, t, []) == s
    ensures var s1 := AddListed(s, t, ids);
      AddListed(s, t, [x] + ids) == if x in s1.types then AddToType(s1, t, x) else s1
    ensures RemoveListed(s, t, ids + [x]) == RemoveFromType(RemoveListed(s, t, ids), t, x)
  {
    hide AddToType, RemoveFromType;
    assert ([x] + ids)[1..] == ids;
    assert (ids + [x])[..|ids|] == ids;
  }

  lemma Ends(ids: seq<string>)
    requires ids != []
    ensures ids == [ids[0]] + ids[1..] && ids == ids[..|ids| - 1] + [ids[|ids| - 1]]
    ensures forall x :: x in ids <==> x == ids[0] || x in ids[1..]
    ensures forall x :: x in ids <==> x == ids[|ids| - 1] || x in ids[..|ids| - 1]
  {
    assert ids == [ids[0]] + ids[1..] && ids == ids[..|ids| - 1] + [ids[|ids| - 1]];
  }

  lemma {:induction false} AddListedTo(s: State, t: string, ids: seq<string>, u: string, id: string)
    ensures var s' := AddListed(s, t, ids);
      && s'.types.Keys == s.types.Keys
      && (id in AppsOf(s', u) <==> id in AppsOf(s, u) || (u == t && id in ids && id in s.types))
      && (u != t ==> AppsOf(s', u) == AppsOf(s, u))
  {
    hide *;
    if ids == [] {
      ListSteps(s, t, [], "");
    } else {
      Ends(ids);
      var rest, x := ids[1..], ids[0];
      ListSteps(s, t, rest, x);
      var s1 := AddListed(s, t, rest);
      AddListedTo(s, t, rest, u, id);
      AddToTypeIs(s1, t, x);
      WithoutExact(AppsOf(s1, t), x);
    }
  }

  lemma {:induction false} RemoveListedFrom(s: State, t: string, ids: seq<string>, u: string, id: string)
    ensures var s' := RemoveListed(s, t, ids);
      && s'.types.Keys == s.types.Keys
      && (id in AppsOf(s', u) <==> id in AppsOf(s, u) && !(u == t && id in ids))
      && (u != t ==> AppsOf(s', u) == AppsOf(s, u))
  {
    hide *;
    if ids == [] {
      ListSteps(s, t, [], "");
    } else {
      Ends(ids);
      var init, x := ids[..|ids| - 1], ids[|ids| - 1];
      ListSteps(s, t, init, x);
      var s1 := RemoveListed(s, t, init);
      RemoveListedFrom(s, t, init, u, id);
      RemoveFromTypeIs(s1, t, x);
      WithoutExact(AppsOf(s1, t), x);
    }
  }

  lemma {:induction false} AddAllTo(s: State, added: seq<Association>, t: string, id: string)
    ensures var s' := AddAll(s, added);
      && s'.types.Keys == s.types.Keys
      && (id in AppsOf(s', t) <==> id in AppsOf(s, t) || (Names(added, t, id) && id in s.types))
      && (Unnamed(added, t) ==> AppsOf(s', t) == AppsOf(s, t))
  {
    NamesSnoc([], Association("", []), t, id);
    if added != [] {
      var init, a := added[..|added| - 1], added[|added| - 1];
      AddAllTo(s, init, t, id);
      AddListedTo(AddAll(s, init), a.mimeType, a.identifiers, t, id);
      NamesSnoc(init, a, t, id);
      assert added == init + [a];
      hide AddListed, AppsOf, Names;
    }
  }

  lemma {:induction false} RemoveAllFrom(s: State, removed: seq<Association>, t: string, id: string)
    ensures var s' := RemoveAll(s, removed);
      && s'.types.Keys == s.types.Keys
      && (id in AppsOf(s', t) <==> id in AppsOf(s, t) && !Names(removed, t, id))
      && (Unnamed(removed, t) ==> AppsOf(s', t) == AppsOf(s, t))
  {
    NamesSnoc([], Association("", []), t, id);
    if removed != [] {
      var init, a := removed[..|removed| - 1], removed[|removed| - 1];
      RemoveAllFrom(s, init, t, id);
      RemoveListedFrom(RemoveAll(s, init), a.mimeType, a.identifiers, t, id);
      NamesSnoc(init, a, t, id);
      assert removed == init + [a];
      hide RemoveListed, AppsOf, Names;
    }
  }

  /** After an association file an application is listed for a type if and only if no removed association names it
      there, and it was listed before or is known and an added association names it. So removal prevails over addition;
      and types that the file does not name keep their lists. */
  lemma MimeAppsExactly(s: State, added: seq<Association>, removed: seq<Association>, t: string, id: string)
    ensures var s' := Step(s, MimeApps(added, removed));
      && s'.types.Keys == s.types.Keys
      && (id in AppsOf(s', t) <==>
          !Names(removed, t, id) && (id in AppsOf(s, t) || (Names(added, t, id) && id in s.types)))
      && (Unnamed(added, t) && Unnamed(removed, t) ==> AppsOf(s', t) == AppsOf(s, t))
  {
    AddAllTo(s, added, t, id);
    RemoveAllFrom(AddAll(s, added), removed, t, id);
    hide AddAll, RemoveAll, AppsOf, Names;
  }

  /** After a hidden desktop file its application is on no list, the others staying in order; one that is not displayed
      changes nothing; any other puts its application, where it is listed at all, first, for declared types only, and
      leaves the others in order. */
  lemma DesktopFileExactly(s: State, id: string, hidden: bool, noDisplay: bool, declared: seq<string>, t: string)
    requires Consistent(s)
    ensures var s' := Step(s, DesktopFile(id, hidden, noDisplay, declared));
      && (hidden ==> id !in AppsOf(s', t) && AppsOf(s', t) == Without(AppsOf(s, t), id))
      && (!hidden && noDisplay ==> s' == s)
      && (!hidden && !noDisplay ==>
        && Without(AppsOf(s', t), id) == Without(AppsOf(s, t), id)
        && (id in AppsOf(s', t) ==> t in declared && AppsOf(s', t)[0] == id)
        && (forall u :: u in TypesOf(s', id) <==> u in declared))
  {
    RemoveApplicationConsistent(s, id);
    RemoveApplicationIs(s, id);
    AddApplicationSound(s, id, declared);
    hide AddApplication, RemoveApplication, AppsOf, TypesOf, Without, Unlisted, Consistent;
  }
}
