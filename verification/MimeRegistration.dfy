/** Which of an application's declared types its registration reaches. */
module MimeRegistration {
  import opened Common
  import opened MimeState

  lemma RegisterStep(s: State, id: string, i: nat)
    ensures RegisterTypes(s, id, i) ==
      if i < |TypesOf(s, id)| then RegisterTypes(AddToType(s, TypesOf(s, id)[i], id), id, i + 1) else s
  {
    hide AddToType, TypesOf, Fresh;
  }

  lemma {:induction false} RegisterTypesConsistent(s: State, id: string, i: nat)
    requires Consistent(s)
    ensures Consistent(RegisterTypes(s, id, i))
    decreases Fresh(s, id), |TypesOf(s, id)| - i
  {
    RegisterStep(s, id, i);
    if i < |TypesOf(s, id)| {
      var t := TypesOf(s, id)[i];
      AddToTypeShrinks(s, id, t);
      AddToTypeConsistent(s, t, id);
      hide RegisterTypes, AddToType, Consistent, TypesOf;
      RegisterTypesConsistent(AddToType(s, t, id), id, i + 1);
    }
  }

  /** How registration for the types of `id` may change the index: others are not touched, and the lists only gain
      `id`. */
  ghost predicate Extends(s: State, s': State, id: string) {
    && (forall j :: j != id ==> TypesOf(s', j) == TypesOf(s, j))
    && (forall t :: t in TypesOf(s', id) <==> t in TypesOf(s, id))
    && (forall t :: Without(AppsOf(s', t), id) == Without(AppsOf(s, t), id))
    && (forall t :: id in AppsOf(s, t) ==> id in AppsOf(s', t))
    && (forall t :: id in AppsOf(s', t) ==> id in AppsOf(s, t) || t in TypesOf(s, id))
  }

  /** An application comes first wherever it is listed. */
  ghost predicate Leads(s: State, id: string) {
    forall t :: id in AppsOf(s, t) ==> AppsOf(s, t)[0] == id
  }

  lemma AddExtends(s: State, id: string, t: string)
    requires t in TypesOf(s, id)
    ensures Extends(s, AddToType(s, t, id), id) && (Leads(s, id) ==> Leads(AddToType(s, t, id), id))
  {
    AddToTypeIs(s, t, id);
    WithoutExact(TypesOf(s, id), t);
    WithoutExact(AppsOf(s, t), id);
    var list := Without(AppsOf(s, t), id);
    WithoutExact(list, id);
    WithoutConcat([id], list, id);
    WithoutSelf(id);
    hide Without, AddToType, TypesOf, AppsOf;
  }

  lemma WithoutSelf(x: string)
    ensures Without([x], x) == []
  {}

  lemma ExtendsMore(a: State, b: State, c: State, id: string)
    requires Extends(a, b, id) && Extends(b, c, id)
    ensures Extends(a, c, id)
  {
    hide Without, TypesOf, AppsOf;
  }

  lemma {:induction false} RegisterExtends(s: State, id: string, i: nat)
    ensures Extends(s, RegisterTypes(s, id, i), id) && (Leads(s, id) ==> Leads(RegisterTypes(s, id, i), id))
    decreases Fresh(s, id), |TypesOf(s, id)| - i
  {
    RegisterStep(s, id, i);
    if i < |TypesOf(s, id)| {
      var t := TypesOf(s, id)[i];
      AddToTypeShrinks(s, id, t);
      AddExtends(s, id, t);
      hide RegisterTypes, AddToType, Extends, Leads, TypesOf;
      RegisterExtends(AddToType(s, t, id), id, i + 1);
      ExtendsMore(s, AddToType(s, t, id), RegisterTypes(s, id, i), id);
    }
  }

  // ---------- Which types are reached ----------

  /** Registration starts from an application that is in no list. */
  ghost predicate Starting(s: State, id: string, declared: seq<string>) {
    TypesOf(s, id) == declared && forall t :: id !in AppsOf(s, t)
  }

  /** Registration has reached exactly the first `m` types, each of which got a new list. */
  ghost predicate Reached(start: State, s: State, id: string, declared: seq<string>, m: nat)
    requires m <= |declared|
  {
    && RegisterTypes(start, id, 0) == RegisterTypes(s, id, m)
    && TypesOf(s, id) == declared + declared[..m]
    && (forall t :: t in s.apps <==> t in start.apps || t in declared[..m])
    && (forall t :: id in AppsOf(s, t) <==> t in declared[..m])
  }

  /** The type with the given number has no list when the loop comes to it for the first time. */
  predicate IsNew(declared: seq<string>, listed: set<string>, k: nat)
    requires k < |declared|
  {
    declared[k] !in listed && declared[k] !in declared[..k]
  }

  /** The number of the first declared type that has a list already or is declared twice, or of all types if there is
      none. */
  function Stop(declared: seq<string>, listed: set<string>): (m: nat)
    ensures m <= |declared| && forall k :: 0 <= k < m ==> IsNew(declared, listed, k)
    ensures m < |declared| ==> !IsNew(declared, listed, m)
  {
    StopFrom(declared, listed, 0)
  }

  function StopFrom(declared: seq<string>, listed: set<string>, i: nat): (m: nat)
    requires i <= |declared| && forall k :: 0 <= k < i ==> IsNew(declared, listed, k)
    ensures m <= |declared| && forall k :: 0 <= k < m ==> IsNew(declared, listed, k)
    ensures m < |declared| ==> !IsNew(declared, listed, m)
    decreases |declared| - i
  {
    if i < |declared| && IsNew(declared, listed, i) then StopFrom(declared, listed, i + 1) else i
  }

  /** Every declared type occurs up to the stop. */
  ghost predicate Covered(declared: seq<string>, listed: set<string>) {
    var m := Stop(declared, listed);
    forall t :: t in declared ==> t in declared[..m] || (m < |declared| && t == declared[m])
  }

  /** No declared type is repeated, the one at the stop aside. */
  ghost predicate OnlyStopRepeats(declared: seq<string>, listed: set<string>) {
    var m := Stop(declared, listed);
    m < |declared| ==> Distinct(Without(declared, declared[m]))
  }

  lemma {:induction false} ReachPrefix(start: State, id: string, declared: seq<string>, m: nat) returns (s: State)
    requires Starting(start, id, declared) && m <= |declared|
    requires forall k :: 0 <= k < m ==> IsNew(declared, start.apps.Keys, k)
    ensures Reached(start, s, id, declared, m)
  {
    if m == 0 {
      s := start;
      assert declared + declared[..0] == declared;
    } else {
      var before := ReachPrefix(start, id, declared, m - 1);
      s := AddToType(before, declared[m - 1], id);
      hide RegisterTypes, AddToType, TypesOf, AppsOf, Reached;
      ReachStep(start, before, id, declared, m - 1);
    }
  }

  lemma TakeOneMore(declared: seq<string>, m: nat)
    requires m < |declared|
    ensures declared[..m + 1] == declared[..m] + [declared[m]]
    ensures declared + declared[..m] + [declared[m]] == declared + declared[..m + 1]
    ensures (declared + declared[..m])[m] == declared[m]
    ensures forall t :: t in declared[..m + 1] <==> t in declared[..m] || t == declared[m]
  {}

  lemma ReachStep(start: State, s: State, id: string, declared: seq<string>, m: nat)
    requires m < |declared| && Reached(start, s, id, declared, m) && IsNew(declared, start.apps.Keys, m)
    ensures Reached(start, AddToType(s, declared[m], id), id, declared, m + 1)
  {
    hide *;
    ReachedMeans(start, s, id, declared, m);
    NewMeans(declared, start.apps.Keys, m);
    TakeOneMore(declared, m);
    var t := declared[m];
    RegisterStep(s, id, m);
    AddToTypeIs(s, t, id);
    NotListed(s, t, id);
    assert t in TypesOf(s, id) && |TypesOf(s, id)| > m;
    assert AppsOf(AddToType(s, t, id), t) == [id];
    ReachedIntro(start, AddToType(s, t, id), id, declared, m + 1);
  }

  lemma NewMeans(declared: seq<string>, listed: set<string>, m: nat)
    requires m < |declared|
    ensures IsNew(declared, listed, m) <==> declared[m] !in listed && declared[m] !in declared[..m]
  {}

  lemma ReachedMeans(start: State, s: State, id: string, declared: seq<string>, m: nat)
    requires m <= |declared| && Reached(start, s, id, declared, m)
    ensures RegisterTypes(start, id, 0) == RegisterTypes(s, id, m) && TypesOf(s, id) == declared + declared[..m]
    ensures (forall t :: t in s.apps <==> t in start.apps || t in declared[..m])
    ensures (forall t :: id in AppsOf(s, t) <==> t in declared[..m])
  {}

  lemma ReachedIntro(start: State, s: State, id: string, declared: seq<string>, m: nat)
    requires m <= |declared| && RegisterTypes(start, id, 0) == RegisterTypes(s, id, m)
      && TypesOf(s, id) == declared + declared[..m]
    requires (forall t :: t in s.apps <==> t in start.apps || t in declared[..m])
    requires (forall t :: id in AppsOf(s, t) <==> t in declared[..m])
    ensures Reached(start, s, id, declared, m)
  {}

  lemma NotListed(s: State, t: string, id: string)
    ensures t !in s.apps ==> AppsOf(s, t) == []
    ensures Without([], id) == []
  {}

  /** A type that the loop has passed without reaching it is not reached later: types only move to the front or to the
      end. */
  lemma {:induction false} PassedOver(s: State, id: string, i: nat, x: string)
    requires Passed(TypesOf(s, id), i, x) && id !in AppsOf(s, x)
    ensures id !in AppsOf(RegisterTypes(s, id, i), x)
    decreases Fresh(s, id), |TypesOf(s, id)| - i
  {
    RegisterStep(s, id, i);
    var types := TypesOf(s, id);
    if i < |types| {
      var t := types[i];
      AddToTypeShrinks(s, id, t);
      AddToTypeIs(s, t, id);
      PassedBy(types, i, x);
      hide RegisterTypes, AddToType, TypesOf, AppsOf, Without;
      PassedOver(AddToType(s, t, id), id, i + 1, x);
    }
  }

  ghost predicate Passed(types: seq<string>, i: nat, x: string) {
    forall k :: i <= k < |types| ==> types[k] != x
  }

  lemma PassedConcat(front: seq<string>, back: seq<string>, i: nat, x: string)
    requires |front| <= i && x !in back
    ensures Passed(front + back, i, x)
  {}

  lemma PassedMeans(types: seq<string>, i: nat, x: string)
    requires i <= |types| && Passed(types, i, x)
    ensures x !in types[i..]
  {}

  lemma PassedBy(types: seq<string>, i: nat, x: string)
    requires i < |types| && Passed(types, i, x)
    ensures types[i] != x && Passed(types + [types[i]], i + 1, x)
      && Passed(Without(types, types[i]) + [types[i]], i + 1, x)
  {
    hide *;
    var t := types[i];
    PassedMeans(types, i, x);
    PassedSnoc(types, i, x);
    PassedWithout(types[..i], types[i..], t, x);
    assert types == types[..i] + types[i..];
  }

  lemma PassedSnoc(types: seq<string>, i: nat, x: string)
    requires i < |types| && Passed(types, i, x)
    ensures types[i] != x && Passed(types + [types[i]], i + 1, x)
  {}

  lemma PassedWithout(front: seq<string>, back: seq<string>, t: string, x: string)
    requires x !in back && t in back
    ensures Passed(Without(front + back, t) + [t], |front| + 1, x)
  {
    hide *;
    WithoutConcat(front, back, t);
    WithoutExact(back, t);
    PassedConcat(Without(front, t), Without(back, t) + [t], |front| + 1, x);
    assert Without(front, t) + Without(back, t) + [t] == Without(front, t) + (Without(back, t) + [t]);
  }

  /** The declared types behind the stop, without the type at the stop. */
  function Behind(declared: seq<string>, listed: set<string>): seq<string>
    requires Stop(declared, listed) < |declared|
  {
    var m := Stop(declared, listed);
    Without(declared[m + 1..], declared[m])
  }

  /** The loop passes over the first type behind the stop: if it is declared nowhere else, it is not reached. */
  lemma SkipsNext(start: State, id: string, declared: seq<string>)
    requires Starting(start, id, declared) && Stop(declared, start.apps.Keys) < |declared|
    requires Behind(declared, start.apps.Keys) != []
    requires var rest := Behind(declared, start.apps.Keys);
      rest[0] !in declared[..Stop(declared, start.apps.Keys)] && rest[0] !in rest[1..]
    ensures id !in AppsOf(RegisterTypes(start, id, 0), Behind(declared, start.apps.Keys)[0])
  {
    var m, rest := Stop(declared, start.apps.Keys), Behind(declared, start.apps.Keys);
    var s := ReachPrefix(start, id, declared, m);
    var t, x := declared[m], rest[0];
    assert rest == Without(declared[m + 1..], t);
    hide *;
    ReachedMeans(start, s, id, declared, m);
    NewMeans(declared, start.apps.Keys, m);
    TakeOneMore(declared, m);
    RegisterStep(s, id, m);
    AddToTypeIs(s, t, id);
    WithoutExact(declared[m + 1..], t);
    NextIsPassed(declared, m, rest);
    assert x != t && x in rest;
    PassedOver(AddToType(s, t, id), id, m + 1, x);
  }

  lemma NextIsPassed(declared: seq<string>, m: nat, rest: seq<string>)
    requires m < |declared| && rest == Without(declared[m + 1..], declared[m]) && rest != []
    requires rest[0] !in declared[..m] && rest[0] !in rest[1..] && rest[0] != declared[m]
    ensures Passed(Without(declared + declared[..m], declared[m]) + [declared[m]], m + 1, rest[0])
  {
    hide *;
    var t, front := declared[m], Without(declared[..m], declared[m]);
    SplitAtStop(declared, m);
    WithoutConcat(declared, declared[..m], t);
    WithoutExact(declared[..m], t);
    RestIsPassed(front, rest, t, m);
  }

  lemma RestIsPassed(front: seq<string>, rest: seq<string>, t: string, m: nat)
    requires |front| <= m && rest != [] && rest[0] !in front && rest[0] !in rest[1..] && rest[0] != t
    ensures Passed(front + rest + front + [t], m + 1, rest[0])
  {
    hide *;
    Regroup(front, rest, t);
    PassedConcat(front + [rest[0]], rest[1..] + front + [t], m + 1, rest[0]);
  }

  lemma Regroup(front: seq<string>, rest: seq<string>, t: string)
    requires rest != []
    ensures front + rest + front + [t] == (front + [rest[0]]) + (rest[1..] + front + [t])
  {
    assert rest == [rest[0]] + rest[1..];
  }

  lemma SplitAtStop(declared: seq<string>, m: nat)
    requires m < |declared|
    ensures Without(declared, declared[m])
      == Without(declared[..m], declared[m]) + Without(declared[m + 1..], declared[m])
  {
    var t, front, back := declared[m], declared[..m], declared[m + 1..];
    WithoutSelf(t);
    hide *;
    SplitAt(declared, m);
    WithoutConcat(front, [t] + back, t);
    WithoutConcat([t], back, t);
    assert [] + Without(back, t) == Without(back, t);
  }

  lemma SplitAt(declared: seq<string>, m: nat)
    requires m < |declared|
    ensures declared == declared[..m] + ([declared[m]] + declared[m + 1..])
  {}

  /** If every declared type occurs up to the stop, registration reaches all of them. */
  lemma ReachesCovered(start: State, id: string, declared: seq<string>)
    requires Starting(start, id, declared) && Covered(declared, start.apps.Keys)
    ensures forall t :: t in declared ==> id in AppsOf(RegisterTypes(start, id, 0), t)
  {
    var m := Stop(declared, start.apps.Keys);
    var s := ReachPrefix(start, id, declared, m);
    CoveredMeans(declared, start.apps.Keys);
    hide *;
    ReachedMeans(start, s, id, declared, m);
    RegisterExtends(s, id, m);
    ExtendsKeeps(s, RegisterTypes(s, id, m), id);
    if m < |declared| {
      var t := declared[m];
      TakeOneMore(declared, m);
      RegisterStep(s, id, m);
      var s' := AddToType(s, t, id);
      AddPuts(s, t, id);
      RegisterExtends(s', id, m + 1);
      ExtendsKeeps(s', RegisterTypes(s', id, m + 1), id);
    }
  }

  lemma CoveredMeans(declared: seq<string>, listed: set<string>)
    requires Covered(declared, listed)
    ensures var m := Stop(declared, listed);
      forall t :: t in declared ==> t in declared[..m] || (m < |declared| && t == declared[m])
  {
    hide Stop;
  }

  lemma AddPuts(s: State, t: string, id: string)
    ensures id in AppsOf(AddToType(s, t, id), t)
    ensures forall u :: id in AppsOf(s, u) ==> id in AppsOf(AddToType(s, t, id), u)
  {
    AddToTypeIs(s, t, id);
    hide AddToType, AppsOf;
  }

  lemma ExtendsKeeps(s: State, s': State, id: string)
    requires Extends(s, s', id)
    ensures forall t :: id in AppsOf(s, t) ==> id in AppsOf(s', t)
  {}

  /** Registration reaches all declared types if they all occur up to the stop; and only then, if no other type than the
      one at the stop is repeated. */
  lemma RegistersAllExactly(start: State, id: string, declared: seq<string>)
    requires Starting(start, id, declared)
    ensures Covered(declared, start.apps.Keys) ==>
      forall t :: t in declared ==> id in AppsOf(RegisterTypes(start, id, 0), t)
    ensures OnlyStopRepeats(declared, start.apps.Keys) && !Covered(declared, start.apps.Keys) ==>
      exists t :: t in declared && id !in AppsOf(RegisterTypes(start, id, 0), t)
  {
    var listed := start.apps.Keys;
    hide RegisterTypes, Starting, AppsOf;
    if Covered(declared, listed) {
      ReachesCovered(start, id, declared);
    } else if OnlyStopRepeats(declared, listed) {
      NextIsAlone(declared, listed);
      SkipsNext(start, id, declared);
    }
  }

  lemma SomethingBehind(declared: seq<string>, listed: set<string>)
    requires !Covered(declared, listed)
    ensures Stop(declared, listed) < |declared| && Behind(declared, listed) != []
    ensures Behind(declared, listed)[0] in declared && Behind(declared, listed)[0] != declared[Stop(declared, listed)]
  {
    var m := Stop(declared, listed);
    if m == |declared| {
      LateStopCovers(declared, listed);
    } else {
      var x :| x in declared && x !in declared[..m] && x != declared[m];
      WithoutExact(declared[m + 1..], declared[m]);
      hide Without, Stop, Covered;
      SplitAt(declared, m);
      assert x in declared[m + 1..] && x in Behind(declared, listed);
      assert Behind(declared, listed)[0] in Behind(declared, listed);
    }
  }

  lemma NextIsAlone(declared: seq<string>, listed: set<string>)
    requires OnlyStopRepeats(declared, listed) && !Covered(declared, listed)
    ensures var m := Stop(declared, listed);
      m < |declared| && Behind(declared, listed) != []
      && Behind(declared, listed)[0] !in declared[..m] && Behind(declared, listed)[0] !in Behind(declared, listed)[1..]
      && Behind(declared, listed)[0] in declared
  {
    SomethingBehind(declared, listed);
    var m := Stop(declared, listed);
    var t, front, rest := declared[m], Without(declared[..m], declared[m]), Behind(declared, listed);
    assert Distinct(Without(declared, t)) && rest == Without(declared[m + 1..], t);
    hide *;
    SplitAtStop(declared, m);
    WithoutExact(declared[..m], t);
    FirstOfRest(front, rest);
  }

  lemma FirstOfRest(front: seq<string>, rest: seq<string>)
    requires Distinct(front + rest) && rest != []
    ensures rest[0] !in front && rest[0] !in rest[1..]
  {
    var all := front + rest;
    assert all[|front|] == rest[0];
    assert forall k :: 0 <= k < |front| ==> all[k] == front[k];
    assert forall k :: 1 <= k < |rest| ==> all[|front| + k] == rest[k];
  }

  /** Different declared types are covered if none but the last has a list already. */
  lemma DistinctCovered(declared: seq<string>, listed: set<string>)
    requires Distinct(declared)
    ensures OnlyStopRepeats(declared, listed)
    ensures Covered(declared, listed) <==> forall k :: 0 <= k < |declared| - 1 ==> declared[k] !in listed
  {
    var m := Stop(declared, listed);
    if m < |declared| {
      WithoutExact(declared, declared[m]);
      NewMeans(declared, listed, m);
    }
    hide Stop, Without;
    if m < |declared| - 1 {
      var x := declared[m + 1];
      assert x in declared && x !in declared[..m] && x != declared[m];
      assert declared[m] in listed;
    } else {
      LateStopCovers(declared, listed);
      assert Covered(declared, listed);
      forall k | 0 <= k < |declared| - 1
        ensures declared[k] !in listed
      {
        assert IsNew(declared, listed, k);
      }
    }
  }

  lemma LateStopCovers(declared: seq<string>, listed: set<string>)
    requires Stop(declared, listed) >= |declared| - 1
    ensures Covered(declared, listed)
  {
    hide Stop;
    var m := Stop(declared, listed);
    forall t | t in declared
      ensures t in declared[..m] || (m < |declared| && t == declared[m])
    {
      var k :| 0 <= k < |declared| && declared[k] == t;
      assert k < m ==> declared[..m][k] == t;
    }
  }

  // ---------- Adding an application ----------

  /** The index in which registration starts. */
  function Replaced(s: State, id: string, declared: seq<string>): State {
    var s1 := RemoveApplication(s, id);
    s1.(types := s1.types[id := declared])
  }

  lemma ReplacedIs(s: State, id: string, declared: seq<string>)
    requires Consistent(s)
    ensures var s' := Replaced(s, id, declared);
      && Consistent(s') && s'.apps.Keys == s.apps.Keys && TypesOf(s', id) == declared
      && (forall t :: id !in AppsOf(s', t) && AppsOf(s', t) == Without(AppsOf(s, t), id))
      && (forall j :: j != id ==> TypesOf(s', j) == TypesOf(s, j))
  {
    hide *;
    RemoveApplicationConsistent(s, id);
    RemoveApplicationIs(s, id);
    DeclareIs(RemoveApplication(s, id), id, declared);
    ReplacedMeans(s, id, declared);
  }

  lemma ReplacedMeans(s: State, id: string, declared: seq<string>)
    ensures Replaced(s, id, declared)
      == RemoveApplication(s, id).(types := RemoveApplication(s, id).types[id := declared])
  {}

  /** The declared types of an application that is in no list may be changed. */
  lemma DeclareIs(s: State, id: string, declared: seq<string>)
    requires Consistent(s) && forall t :: id !in AppsOf(s, t)
    ensures var s' := s.(types := s.types[id := declared]);
      && Consistent(s') && TypesOf(s', id) == declared
      && (forall t :: AppsOf(s', t) == AppsOf(s, t))
      && (forall j :: j != id ==> TypesOf(s', j) == TypesOf(s, j))
  {
    var s' := s.(types := s.types[id := declared]);
    assert TypesOf(s', id) == declared && forall t :: AppsOf(s', t) == AppsOf(s, t);
    assert forall j :: j != id ==> TypesOf(s', j) == TypesOf(s, j);
    ConsistentMeans(s);
    hide *;
    ConsistentIntro(s');
  }

  /** Adding an application keeps the index consistent and the other applications as they are; the new one is listed
      first, and only for types that it declares. */
  lemma AddApplicationSound(s: State, id: string, declared: seq<string>)
    requires Consistent(s)
    ensures var s' := AddApplication(s, id, declared);
      && Consistent(s')
      && (forall j :: j != id ==> TypesOf(s', j) == TypesOf(s, j))
      && (forall t :: t in TypesOf(s', id) <==> t in declared)
      && (forall t :: Without(AppsOf(s', t), id) == Without(AppsOf(s, t), id))
      && (forall t :: id in AppsOf(s', t) ==> t in declared && AppsOf(s', t)[0] == id)
  {
    var s1 := Replaced(s, id, declared);
    ReplacedIs(s, id, declared);
    RegisterTypesConsistent(s1, id, 0);
    RegisterExtends(s1, id, 0);
    forall t
      ensures Without(AppsOf(s1, t), id) == AppsOf(s1, t)
    {
      WithoutExact(AppsOf(s1, t), id);
    }
    hide RegisterTypes, Replaced, Without, Consistent, AppsOf, TypesOf;
    assert AddApplication(s, id, declared) == RegisterTypes(s1, id, 0) by { AddApplicationIs(s, id, declared); }
  }

  lemma AddApplicationIs(s: State, id: string, declared: seq<string>)
    ensures AddApplication(s, id, declared) == RegisterTypes(Replaced(s, id, declared), id, 0)
  {
    hide RegisterTypes;
  }

  /** An application is listed for all types that it declares if each of them occurs up to the first one that has a list
      already or is declared twice; and only then, if no other one is declared twice. So an application with different
      declared types is listed for all of them if and only if no type but the last one was listed before. */
  lemma AddApplicationExactly(s: State, id: string, declared: seq<string>)
    requires Consistent(s)
    ensures Covered(declared, s.apps.Keys) ==> ListedForAll(s, id, declared)
    ensures OnlyStopRepeats(declared, s.apps.Keys) ==>
      (ListedForAll(s, id, declared) <==> Covered(declared, s.apps.Keys))
    ensures Distinct(declared) ==>
      (ListedForAll(s, id, declared) <==> forall k :: 0 <= k < |declared| - 1 ==> declared[k] !in s.apps)
  {
    ReplacedIs(s, id, declared);
    var s1 := Replaced(s, id, declared);
    StartingIntro(s1, id, declared);
    hide *;
    RegistersAllExactly(s1, id, declared);
    AddApplicationIs(s, id, declared);
    ListedForAllIs(s, id, declared);
    if Distinct(declared) {
      DistinctCovered(declared, s.apps.Keys);
    }
  }

  /** An application is listed for all types that it declares. */
  ghost predicate ListedForAll(s: State, id: string, declared: seq<string>) {
    forall t :: t in declared ==> id in AppsOf(AddApplication(s, id, declared), t)
  }

  lemma ListedForAllIs(s: State, id: string, declared: seq<string>)
    ensures ListedForAll(s, id, declared) <==>
      forall t :: t in declared ==> id in AppsOf(AddApplication(s, id, declared), t)
  {
    hide AddApplication, AppsOf;
  }

  lemma StartingIntro(s: State, id: string, declared: seq<string>)
    ensures Starting(s, id, declared) <==> TypesOf(s, id) == declared && forall t :: id !in AppsOf(s, t)
  {}

  /** The first type behind the stop is not reached if it is declared nowhere else. */
  lemma AddApplicationSkips(s: State, id: string, declared: seq<string>)
    requires Consistent(s) && Stop(declared, s.apps.Keys) < |declared| && Behind(declared, s.apps.Keys) != []
    requires var rest := Behind(declared, s.apps.Keys);
      rest[0] !in declared[..Stop(declared, s.apps.Keys)] && rest[0] !in rest[1..]
    ensures id !in AppsOf(AddApplication(s, id, declared), Behind(declared, s.apps.Keys)[0])
  {
    ReplacedIs(s, id, declared);
    StartingIntro(Replaced(s, id, declared), id, declared);
    hide *;
    AddApplicationIs(s, id, declared);
    SkipsNext(Replaced(s, id, declared), id, declared);
  }

  lemma StopIs(declared: seq<string>, listed: set<string>, m: nat)
    requires m < |declared| && !IsNew(declared, listed, m) && forall k :: 0 <= k < m ==> IsNew(declared, listed, k)
    ensures Stop(declared, listed) == m
  {
    hide IsNew, StopFrom;
  }

  /** The second of two applications for the type "a" is not listed for its other type. */
  lemma SecondTypeSkipped()
    ensures "y" !in AppsOf(AddApplication(AddApplication(START, "x", ["a"]), "y", ["a", "b"]), "b")
  {
    var s, declared := AddApplication(START, "x", ["a"]), ["a", "b"];
    FirstTypeListed("x", "a");
    StopIs(declared, s.apps.Keys, 0);
    WithoutSnoc([], "b", "a");
    assert declared[1..] == [] + ["b"] && Behind(declared, s.apps.Keys) == ["b"];
    hide AddApplication, AppsOf, Behind;
    AddApplicationSkips(s, "y", declared);
  }

  lemma FirstTypeListed(id: string, t: string)
    ensures var s := AddApplication(START, id, [t]); Consistent(s) && t in s.apps
  {
    AddApplicationSound(START, id, [t]);
    AddApplicationExactly(START, id, [t]);
    hide AddApplication;
    assert t in [t];
  }

  /** An application that declares its first type twice is not listed for its other type, even in an empty index. */
  lemma RepeatedTypeSkips()
    ensures "x" !in AppsOf(AddApplication(START, "x", ["a", "a", "b"]), "b")
  {
    var declared := ["a", "a", "b"];
    StartConsistent();
    assert declared[..1][0] == declared[1];
    StopIs(declared, START.apps.Keys, 1);
    WithoutSnoc([], "b", "a");
    assert declared[2..] == [] + ["b"] && Behind(declared, START.apps.Keys) == ["b"];
    hide AddApplication, AppsOf, Behind;
    AddApplicationSkips(START, "x", declared);
  }

  /** A type that is passed over can still be reached where it is declared again. */
  lemma RepeatedTypeReached()
    ensures var s := AddApplication(AddApplication(START, "x", ["a"]), "y", ["a", "b", "b"]);
      "y" in AppsOf(s, "a") && "y" in AppsOf(s, "b")
  {
    hide *;
    var s, declared := AddApplication(START, "x", ["a"]), ["a", "b", "b"];
    FirstTypeListed("x", "a");
    ReplacedIs(s, "y", declared);
    AddApplicationIs(s, "y", declared);
    var s1 := Replaced(s, "y", declared);
    var s2 := AddToType(s1, "a", "y");
    var s3 := AddToType(s2, "b", "y");
    RegisterStep(s1, "y", 0);
    AddToTypeIs(s1, "a", "y");
    AddPuts(s1, "a", "y");
    WithoutFirst("a", ["b", "b"]);
    assert declared == ["a"] + ["b", "b"] && TypesOf(s2, "y") == ["b", "b"] + ["a"];
    RegisterStep(s2, "y", 1);
    AddPuts(s2, "b", "y");
    RegisterExtends(s3, "y", 2);
    ExtendsKeeps(s3, RegisterTypes(s3, "y", 2), "y");
  }

  lemma WithoutFirst(t: string, rest: seq<string>)
    requires t !in rest
    ensures Without([t] + rest, t) == rest
  {
    WithoutConcat([t], rest, t);
    WithoutExact(rest, t);
    WithoutSelf(t);
  }

  lemma StartConsistent()
    ensures Consistent(START)
  {}
}
