/** The index of applications by MIME type as a value: the types of each known application, and the applications listed
    for each type, most preferred first. */
module MimeState {
  import opened Common

  datatype State = State(types: map<string, seq<string>>, apps: map<string, seq<string>>)

  const START := State(map[], map[])

  /** A list without one of its elements. */
  function Without(s: seq<string>, x: string): (r: seq<string>)
    ensures |r| <= |s| && (x in s ==> |r| < |s|)
  {
    if s == [] then []
    else
      var r := Without(s[..|s| - 1], x);
      var y := s[|s| - 1];
      if y == x then r else r + [y]
  }

  lemma {:induction false} WithoutExact(s: seq<string>, x: string)
    ensures forall y :: y in Without(s, x) <==> y in s && y != x
    ensures Distinct(s) ==> Distinct(Without(s, x))
    ensures x !in s ==> Without(s, x) == s
  {
    if s != [] {
      var init, y := s[..|s| - 1], s[|s| - 1];
      WithoutExact(init, x);
      assert s == init + [y];
      hide Without;
      WithoutSnoc(init, y, x);
      if Distinct(s) {
        assert Distinct(init) && y !in init;
      }
    }
  }

  lemma WithoutSnoc(s: seq<string>, y: string, x: string)
    ensures Without(s + [y], x) == if y == x then Without(s, x) else Without(s, x) + [y]
  {
    assert (s + [y])[..|s|] == s;
  }

  lemma {:induction false} WithoutConcat(s: seq<string>, t: seq<string>, x: string)
    ensures Without(s + t, x) == Without(s, x) + Without(t, x)
  {
    hide Without;
    if t == [] {
      assert s + t == s;
      WithoutExact(t, x);
    } else {
      var init, y := t[..|t| - 1], t[|t| - 1];
      assert t == init + [y] && s + t == s + init + [y];
      WithoutConcat(s, init, x);
      WithoutSnoc(init, y, x);
      WithoutSnoc(s + init, y, x);
    }
  }

  // ---------- Operations ----------

  function TypesOf(s: State, id: string): seq<string> {
    if id in s.types then s.types[id] else []
  }

  function AppsOf(s: State, t: string): seq<string> {
    if t in s.apps then s.apps[t] else []
  }

  /** Takes an application off a type's list, and the type off the application's. */
  function RemoveFromType(s: State, t: string, id: string): State {
    State(if id in s.types then s.types[id := Without(s.types[id], t)] else s.types,
          if t in s.apps then s.apps[t := Without(s.apps[t], id)] else s.apps)
  }

  /** Puts an application first in a type's list. */
  function AddToType(s: State, t: string, id: string): (s': State) {
    var s1 := if t in s.apps then RemoveFromType(s, t, id) else s;
    State(s1.types[id := TypesOf(s1, id) + [t]], s1.apps[t := [id] + AppsOf(s1, t)])
  }

  /** Takes an application off every list. */
  function RemoveApplication(s: State, id: string): State {
    State(if id in s.types then s.types[id := Unlisted(s.types[id], s.apps.Keys)] else s.types,
          map t | t in s.apps :: Without(s.apps[t], id))
  }

  /** The types that have no list. */
  function Unlisted(types: seq<string>, listed: set<string>): (r: seq<string>)
    ensures forall t :: t in r <==> t in types && t !in listed
  {
    if types == [] then []
    else
      var r := Unlisted(types[..|types| - 1], listed);
      var t := types[|types| - 1];
      if t in listed then r else r + [t]
  }

  /** The types of an application that have no list yet. */
  function Fresh(s: State, id: string): set<string> {
    set t | t in TypesOf(s, id) && t !in s.apps
  }

  lemma AddToTypeShrinks(s: State, id: string, t: string)
    requires t in TypesOf(s, id)
    ensures var s' := AddToType(s, t, id);
      if t in s.apps then Fresh(s', id) == Fresh(s, id) && |TypesOf(s', id)| <= |TypesOf(s, id)|
      else Fresh(s', id) < Fresh(s, id)
  {
    var s' := AddToType(s, t, id);
    if t in s.apps {
      WithoutExact(TypesOf(s, id), t);
      assert TypesOf(s', id) == Without(TypesOf(s, id), t) + [t];
    } else {
      assert TypesOf(s', id) == TypesOf(s, id) + [t];
      assert t in Fresh(s, id) && t !in Fresh(s', id);
    }
  }

  /** Registers an application for its own types from number `i` on; registration changes the list of types on the
      way. */
  function RegisterTypes(s: State, id: string, i: nat): State
    decreases Fresh(s, id), |TypesOf(s, id)| - i
  {
    if i < |TypesOf(s, id)| then
      var t := TypesOf(s, id)[i];
      AddToTypeShrinks(s, id, t);
      RegisterTypes(AddToType(s, t, id), id, i + 1)
    else s
  }

  /** Replaces an application by one that declares the given types. */
  function AddApplication(s: State, id: string, declared: seq<string>): State {
    var s1 := RemoveApplication(s, id);
    RegisterTypes(s1.(types := s1.types[id := declared]), id, 0)
  }

  /** Forgets the applications without types. */
  function RemoveUnused(s: State): State {
    s.(types := map id | id in s.types && s.types[id] != [] :: s.types[id])
  }

  // ---------- What the operations do ----------

  lemma RemoveFromTypeIs(s: State, t: string, id: string)
    ensures var s' := RemoveFromType(s, t, id);
      && s'.apps.Keys == s.apps.Keys && s'.types.Keys == s.types.Keys
      && (forall u :: AppsOf(s', u) == if u == t then Without(AppsOf(s, u), id) else AppsOf(s, u))
      && (forall j :: TypesOf(s', j) == if j == id then Without(TypesOf(s, j), t) else TypesOf(s, j))
  {}

  lemma AddToTypeIs(s: State, t: string, id: string)
    ensures var s' := AddToType(s, t, id);
      && s'.apps.Keys == s.apps.Keys + {t} && s'.types.Keys == s.types.Keys + {id}
      && (forall u :: AppsOf(s', u) == if u == t then [id] + Without(AppsOf(s, u), id) else AppsOf(s, u))
      && (forall j :: TypesOf(s', j) ==
           if j != id then TypesOf(s, j)
           else if t in s.apps then Without(TypesOf(s, j), t) + [t]
           else TypesOf(s, j) + [t])
  {
    RemoveFromTypeIs(s, t, id);
    hide RemoveFromType;
  }

  lemma RemoveApplicationIs(s: State, id: string)
    ensures var s' := RemoveApplication(s, id);
      && s'.apps.Keys == s.apps.Keys && s'.types.Keys == s.types.Keys
      && (forall u :: AppsOf(s', u) == Without(AppsOf(s, u), id))
      && (forall j :: TypesOf(s', j) == if j == id then Unlisted(TypesOf(s, j), s.apps.Keys) else TypesOf(s, j))
  {}

  // ---------- Consistency ----------

  /** Every application listed for a type is known and has the type, and is listed once. */
  ghost predicate Consistent(s: State) {
    && (forall t :: Distinct(AppsOf(s, t)))
    && (forall t, id :: id in AppsOf(s, t) ==> t in TypesOf(s, id))
  }

  lemma RemoveFromTypeConsistent(s: State, t: string, id: string)
    requires Consistent(s)
    ensures Consistent(RemoveFromType(s, t, id)) && id !in AppsOf(RemoveFromType(s, t, id), t)
  {
    RemoveFromTypeIs(s, t, id);
    WithoutExact(AppsOf(s, t), id);
    WithoutExact(TypesOf(s, id), t);
    hide *;
    ConsistentMeans(s);
    ConsistentIntro(RemoveFromType(s, t, id));
  }

  lemma AddToTypeConsistent(s: State, t: string, id: string)
    requires Consistent(s)
    ensures Consistent(AddToType(s, t, id)) && id in AppsOf(AddToType(s, t, id), t)
  {
    AddToTypeIs(s, t, id);
    WithoutExact(AppsOf(s, t), id);
    WithoutExact(TypesOf(s, id), t);
    var list := Without(AppsOf(s, t), id);
    ConsistentMeans(s);
    assert Distinct([id] + list);
    hide *;
    ConsistentIntro(AddToType(s, t, id));
  }

  lemma ConsistentMeans(s: State)
    requires Consistent(s)
    ensures (forall t :: Distinct(AppsOf(s, t))) && (forall t, id :: id in AppsOf(s, t) ==> t in TypesOf(s, id))
  {}

  lemma ConsistentIntro(s: State)
    requires (forall t :: Distinct(AppsOf(s, t))) && (forall t, id :: id in AppsOf(s, t) ==> t in TypesOf(s, id))
    ensures Consistent(s)
  {}

  lemma RemoveApplicationConsistent(s: State, id: string)
    requires Consistent(s)
    ensures Consistent(RemoveApplication(s, id)) && forall t :: id !in AppsOf(RemoveApplication(s, id), t)
  {
    var s' := RemoveApplication(s, id);
    RemoveApplicationIs(s, id);
    forall t
      ensures Distinct(AppsOf(s', t)) && forall j :: j in AppsOf(s', t) <==> j in AppsOf(s, t) && j != id
    {
      WithoutExact(AppsOf(s, t), id);
    }
    hide Without, Unlisted, RemoveApplication, Distinct, AppsOf, TypesOf;
  }
}
