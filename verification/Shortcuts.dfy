/** Keyboard shortcuts: which action gets a shortcut that several definitions list. */
module Shortcuts {
  import opened Common

  type Shortcut = string
  type Parameters = map<string, string>

  /** An action with its parameters. */
  datatype Owner = Owner(action: int, parameters: Parameters)

  /** One definition of a keyboard profile. */
  datatype Definition = Definition(action: int, parameters: Parameters, shortcuts: seq<Shortcut>)

  /** A profile's definitions, grouped by action, in the order in which the profile lists them. */
  type Profile = seq<seq<Definition>>

  /** A definition claims a shortcut for its action. */
  datatype Claim = Claim(owner: Owner, shortcut: Shortcut)

  // ---------- The rule ----------

  function OwnerOf(d: Definition): Owner {
    Owner(d.action, d.parameters)
  }

  /** The claims of the first `n` shortcuts of a definition. */
  function ClaimsOf(d: Definition, n: nat): (claims: seq<Claim>)
    requires n <= |d.shortcuts|
    ensures |claims| == n
  {
    seq(n, k requires 0 <= k < n => Claim(OwnerOf(d), d.shortcuts[k]))
  }

  function GroupClaims(group: seq<Definition>): seq<Claim> {
    if group == [] then []
    else
      var d := group[|group| - 1];
      GroupClaims(group[..|group| - 1]) + ClaimsOf(d, |d.shortcuts|)
  }

  function ProfileClaims(profile: Profile): seq<Claim> {
    if profile == [] then [] else ProfileClaims(profile[..|profile| - 1]) + GroupClaims(profile[|profile| - 1])
  }

  /** All claims of all profiles, in order. */
  function AllClaims(profiles: seq<Profile>): seq<Claim> {
    if profiles == [] then [] else AllClaims(profiles[..|profiles| - 1]) + ProfileClaims(profiles[|profiles| - 1])
  }

  predicate Claimed(claims: seq<Claim>, s: Shortcut) {
    exists i :: 0 <= i < |claims| && claims[i].shortcut == s
  }

  /** The claims that no earlier claim for the same shortcut comes before. */
  function FirstClaims(claims: seq<Claim>): seq<Claim> {
    if claims == [] then []
    else
      var init, last := claims[..|claims| - 1], claims[|claims| - 1];
      if Claimed(init, last.shortcut) then FirstClaims(init) else FirstClaims(init) + [last]
  }

  /** The shortcuts claimed by one owner, in order. */
  function Owned(claims: seq<Claim>, owner: Owner): seq<Shortcut> {
    if claims == [] then []
    else
      var init, last := claims[..|claims| - 1], claims[|claims| - 1];
      if last.owner == owner then Owned(init, owner) + [last.shortcut] else Owned(init, owner)
  }

  /** The rule: what is looked up is what was claimed first, in order. */
  function Resolved(profiles: seq<Profile>, owner: Owner): seq<Shortcut> {
    Owned(FirstClaims(AllClaims(profiles)), owner)
  }

  // ---------- What the rule means ----------

  /** The claim number `i` is the first one for its shortcut. */
  ghost predicate IsFirst(claims: seq<Claim>, i: int) {
    0 <= i < |claims| && forall j :: 0 <= j < i ==> claims[j].shortcut != claims[i].shortcut
  }

  lemma FirstClaimsSnoc(claims: seq<Claim>, c: Claim)
    ensures FirstClaims(claims + [c]) ==
      if Claimed(claims, c.shortcut) then FirstClaims(claims) else FirstClaims(claims) + [c]
  {
    assert (claims + [c])[..|claims|] == claims;
  }

  lemma OwnedSnoc(claims: seq<Claim>, c: Claim, owner: Owner)
    ensures Owned(claims + [c], owner) ==
      if c.owner == owner then Owned(claims, owner) + [c.shortcut] else Owned(claims, owner)
  {
    assert (claims + [c])[..|claims|] == claims;
  }

  /** The first claim for a shortcut is the owner's. */
  ghost predicate Wins(claims: seq<Claim>, s: Shortcut, owner: Owner) {
    exists i :: IsFirst(claims, i) && claims[i] == Claim(owner, s)
  }

  /** A shortcut is found under an owner if and only if the first claim for it is that owner's; and it is found once. */
  lemma {:induction false} FirstClaimWins(claims: seq<Claim>, s: Shortcut, owner: Owner)
    ensures s in Owned(FirstClaims(claims), owner) <==> Wins(claims, s, owner)
    ensures Distinct(Owned(FirstClaims(claims), owner))
  {
    hide *;
    if claims == [] {
      NoClaims(s, owner);
    } else {
      var init, last := claims[..|claims| - 1], claims[|claims| - 1];
      assert claims == init + [last];
      FirstClaimWins(init, s, owner);
      FirstClaimWins(init, last.shortcut, owner);
      FirstClaimsSnoc(init, last);
      OwnedSnoc(FirstClaims(init), last, owner);
      WinsSnoc(init, last, s, owner);
      WinsSnoc(init, last, last.shortcut, owner);
      if !Claimed(init, last.shortcut) {
        DistinctSnoc(Owned(FirstClaims(init), owner), last.shortcut);
      }
    }
  }

  lemma NoClaims(s: Shortcut, owner: Owner)
    ensures Owned(FirstClaims([]), owner) == [] && !Wins([], s, owner) && Distinct<Shortcut>([])
  {}

  lemma DistinctSnoc(list: seq<Shortcut>, s: Shortcut)
    requires Distinct(list) && s !in list
    ensures Distinct(list + [s])
  {}

  lemma WinsSnoc(init: seq<Claim>, last: Claim, s: Shortcut, owner: Owner)
    ensures Wins(init + [last], s, owner) <==> Wins(init, s, owner) || (last == Claim(owner, s) && !Claimed(init, s))
    ensures Wins(init, s, owner) ==> Claimed(init, s)
  {
    FirstSnoc(init, last);
    hide Claimed;
    var claims := init + [last];
    if Wins(init, s, owner) {
      var i :| IsFirst(init, i) && init[i] == Claim(owner, s);
      FirstIsClaim(init, i);
      assert IsFirst(claims, i) && claims[i] == Claim(owner, s);
    }
    if Wins(claims, s, owner) {
      var i :| IsFirst(claims, i) && claims[i] == Claim(owner, s);
      FirstIsClaim(claims, i);
    }
    if last == Claim(owner, s) && !Claimed(init, s) {
      assert claims[|init|] == last;
    }
  }

  lemma FirstIsClaim(claims: seq<Claim>, i: int)
    requires IsFirst(claims, i)
    ensures 0 <= i < |claims| && Claimed(claims, claims[i].shortcut)
  {}

  lemma FirstSnoc(init: seq<Claim>, last: Claim)
    ensures forall i :: 0 <= i < |init| ==>
      (IsFirst(init + [last], i) <==> IsFirst(init, i)) && (init + [last])[i] == init[i]
    ensures IsFirst(init + [last], |init|) <==> !Claimed(init, last.shortcut)
  {}

  lemma {:induction false} FirstExists(claims: seq<Claim>, i: nat) returns (k: nat)
    requires i < |claims|
    ensures k <= i && IsFirst(claims, k) && claims[k].shortcut == claims[i].shortcut
  {
    k := 0;
    while claims[k].shortcut != claims[i].shortcut
      invariant k <= i && forall j :: 0 <= j < k ==> claims[j].shortcut != claims[i].shortcut
      decreases i - k
    {
      k := k + 1;
    }
  }

  /** Every listed shortcut is looked up under exactly one owner, that of the first definition to list it, and there
      once; no other shortcut is looked up. */
  lemma OneOwner(profiles: seq<Profile>, s: Shortcut)
    ensures !Claimed(AllClaims(profiles), s) ==> forall o :: s !in Resolved(profiles, o)
    ensures forall k :: IsFirst(AllClaims(profiles), k) && AllClaims(profiles)[k].shortcut == s ==>
      forall o :: s in Resolved(profiles, o) <==> o == AllClaims(profiles)[k].owner
    ensures Claimed(AllClaims(profiles), s) ==>
      exists k :: IsFirst(AllClaims(profiles), k) && AllClaims(profiles)[k].shortcut == s
    ensures forall o :: Distinct(Resolved(profiles, o))
  {
    var claims := AllClaims(profiles);
    forall o
      ensures s in Resolved(profiles, o) <==> Wins(claims, s, o)
      ensures Distinct(Resolved(profiles, o))
    {
      FirstClaimWins(claims, s, o);
    }
    hide AllClaims, Resolved;
    if Claimed(claims, s) {
      var i :| 0 <= i < |claims| && claims[i].shortcut == s;
      var k := FirstExists(claims, i);
      assert IsFirst(claims, k) && claims[k].shortcut == s;
    }
    forall k | IsFirst(claims, k) && claims[k].shortcut == s
      ensures forall o :: s in Resolved(profiles, o) <==> o == claims[k].owner
    {
      forall i | IsFirst(claims, i) && claims[i].shortcut == s
        ensures i == k
      {
        FirstUnique(claims, i, k);
      }
    }
  }

  lemma FirstUnique(claims: seq<Claim>, i: int, k: int)
    requires IsFirst(claims, i) && IsFirst(claims, k) && claims[i].shortcut == claims[k].shortcut
    ensures i == k
  {}

  // ---------- The tables ----------

  /** A parametrised action's entries, newest first. */
  type Entries = seq<(Parameters, seq<Shortcut>)>

  /** The newest entry for some parameters. */
  function FindEntry(entries: Entries, parameters: Parameters): seq<Shortcut> {
    if entries == [] then []
    else if entries[0].0 == parameters then entries[0].1
    else FindEntry(entries[1..], parameters)
  }

  /** What the tables hold for an owner. */
  function Lookup(shortcuts: map<int, seq<Shortcut>>, extra: map<int, Entries>, owner: Owner): seq<Shortcut> {
    if owner.parameters == map[] then (if owner.action in shortcuts then shortcuts[owner.action] else [])
    else if owner.action in extra then FindEntry(extra[owner.action], owner.parameters)
    else []
  }

  /** The tables hold what has been claimed first by each owner. */
  ghost predicate Holds(shortcuts: map<int, seq<Shortcut>>, extra: map<int, Entries>, claims: seq<Claim>) {
    forall owner :: Lookup(shortcuts, extra, owner) == Owned(FirstClaims(claims), owner)
  }

  /** Storing a list for an owner changes what is looked up for that owner only. */
  lemma StorePlain(shortcuts: map<int, seq<Shortcut>>, extra: map<int, Entries>, owner: Owner, list: seq<Shortcut>,
          o: Owner)
    requires owner.parameters == map[]
    ensures Lookup(shortcuts[owner.action := list], extra, o) ==
      if o == owner then list else Lookup(shortcuts, extra, o)
  {
    if o.parameters == map[] && o.action == owner.action {
      assert o == owner;
    }
  }

  lemma StoreExtra(shortcuts: map<int, seq<Shortcut>>, extra: map<int, Entries>, owner: Owner, list: seq<Shortcut>,
          o: Owner)
    requires owner.parameters != map[]
    ensures Lookup(shortcuts, InsertEntry(extra, owner, list), o) ==
      if o == owner then list else Lookup(shortcuts, extra, o)
  {
    var entries := if owner.action in extra then extra[owner.action] else [];
    FindNewest(owner.parameters, list, entries, o.parameters);
    hide FindEntry;
  }

  lemma FindNewest(parameters: Parameters, list: seq<Shortcut>, entries: Entries, other: Parameters)
    ensures FindEntry([(parameters, list)] + entries, other) ==
      if other == parameters then list else FindEntry(entries, other)
    ensures FindEntry([], other) == []
  {
    assert ([(parameters, list)] + entries)[1..] == entries;
  }

  /** Puts a new entry before the older ones. */
  function InsertEntry(extra: map<int, Entries>, owner: Owner, list: seq<Shortcut>): map<int, Entries> {
    extra[owner.action := [(owner.parameters, list)] + (if owner.action in extra then extra[owner.action] else [])]
  }

  class ActionsManager {
    var shortcuts: map<int, seq<Shortcut>>
    var extraShortcuts: map<int, Entries>

    constructor ()
      ensures shortcuts == map[] && extraShortcuts == map[]
    {
      shortcuts, extraShortcuts := map[], map[];
    }

    /** Looks up the shortcuts of an action. */
    method GetActionShortcuts(action: int, parameters: Parameters) returns (r: seq<Shortcut>)
      ensures r == Lookup(shortcuts, extraShortcuts, Owner(action, parameters))
    {
      if parameters == map[] && action in shortcuts {
        return shortcuts[action];
      }
      if parameters != map[] && action in extraShortcuts {
        r := Find(extraShortcuts[action], parameters);
        return;
      }
      r := [];
    }

    /** Finds the newest entry for some parameters. */
    method Find(entries: Entries, parameters: Parameters) returns (r: seq<Shortcut>)
      ensures r == FindEntry(entries, parameters)
    {
      for i := 0 to |entries|
        invariant FindEntry(entries, parameters) == FindEntry(entries[i..], parameters)
      {
        assert entries[i..][1..] == entries[i + 1..];
        if entries[i].0 == parameters {
          return entries[i].1;
        }
      }
      r := [];
    }

    /** Reads all profiles in order. */
    method LoadProfiles(profiles: seq<Profile>)
      modifies this
      ensures forall owner :: Lookup(shortcuts, extraShortcuts, owner) == Resolved(profiles, owner)
    {
      hide *;
      shortcuts, extraShortcuts := map[], map[];
      var allShortcuts: seq<Shortcut> := [];
      LoadStart();
      for i := 0 to |profiles|
        invariant Loaded(shortcuts, extraShortcuts, AllClaims(profiles[..i]), allShortcuts)
      {
        allShortcuts := LoadProfile(profiles[i], allShortcuts, AllClaims(profiles[..i]));
        AllClaimsSnoc(profiles[..i], profiles[i]);
        assert profiles[..i + 1] == profiles[..i] + [profiles[i]];
      }
      assert profiles[..|profiles|] == profiles;
      LoadEnd(shortcuts, extraShortcuts, profiles, allShortcuts);
    }

    /** Reads one profile. */
    method LoadProfile(profile: Profile, all0: seq<Shortcut>,
            ghost before: seq<Claim>) returns (allShortcuts: seq<Shortcut>)
      requires Loaded(shortcuts, extraShortcuts, before, all0)
      modifies this
      ensures Loaded(shortcuts, extraShortcuts, before + ProfileClaims(profile), allShortcuts)
    {
      hide *;
      allShortcuts := all0;
      ClaimsStart(before);
      for i := 0 to |profile|
        invariant Loaded(shortcuts, extraShortcuts, before + ProfileClaims(profile[..i]), allShortcuts)
      {
        allShortcuts := LoadGroup(profile[i], allShortcuts, before + ProfileClaims(profile[..i]));
        ProfileClaimsSnoc(before, profile[..i], profile[i]);
        assert profile[..i + 1] == profile[..i] + [profile[i]];
      }
      assert profile[..|profile|] == profile;
    }

    /** Reads the definitions of one action. */
    method LoadGroup(group: seq<Definition>, all0: seq<Shortcut>,
            ghost before: seq<Claim>) returns (allShortcuts: seq<Shortcut>)
      requires Loaded(shortcuts, extraShortcuts, before, all0)
      modifies this
      ensures Loaded(shortcuts, extraShortcuts, before + GroupClaims(group), allShortcuts)
    {
      hide *;
      allShortcuts := all0;
      ClaimsStart(before);
      for j := 0 to |group|
        invariant Loaded(shortcuts, extraShortcuts, before + GroupClaims(group[..j]), allShortcuts)
      {
        allShortcuts := LoadDefinition(group[j], allShortcuts, before + GroupClaims(group[..j]));
        GroupClaimsSnoc(before, group[..j], group[j]);
        assert group[..j + 1] == group[..j] + [group[j]];
      }
      assert group[..|group|] == group;
    }

    /** Adds to an action's shortcuts those of a definition that nothing has claimed yet. */
    method LoadDefinition(definition: Definition, all0: seq<Shortcut>, ghost before: seq<Claim>)
      returns (allShortcuts: seq<Shortcut>)
      requires Loaded(shortcuts, extraShortcuts, before, all0)
      modifies this
      ensures Loaded(shortcuts, extraShortcuts, before + ClaimsOf(definition, |definition.shortcuts|), allShortcuts)
    {
      hide *;
      var owner := OwnerOf(definition);
      OwnerIs(definition);
      ghost var table, extra := shortcuts, extraShortcuts;
      var list := GetActionShortcuts(definition.action, definition.parameters);
      allShortcuts := all0;
      AddStart(table, extra, definition, before, all0);
      for k := 0 to |definition.shortcuts|
        invariant shortcuts == table && extraShortcuts == extra
        invariant Adding(table, extra, definition, before, k, list, allShortcuts)
      {
        var shortcut := definition.shortcuts[k];
        AddStep(table, extra, definition, before, k, list, allShortcuts);
        if shortcut !in allShortcuts {
          list := list + [shortcut];
          allShortcuts := allShortcuts + [shortcut];
        }
      }
      AddEnd(table, extra, definition, before, list, allShortcuts);
      if list != [] {
        if definition.parameters == map[] {
          shortcuts := shortcuts[definition.action := list];
        } else {
          extraShortcuts := InsertEntry(extraShortcuts, owner, list);
        }
      }
    }
  }

  /** The tables hold what the claims so far resolve to, and `all` is what they claim. */
  ghost predicate Loaded(shortcuts: map<int, seq<Shortcut>>, extra: map<int, Entries>, claims: seq<Claim>,
          all: seq<Shortcut>) {
    Holds(shortcuts, extra, claims) && forall s :: s in all <==> Claimed(claims, s)
  }

  lemma LoadStart()
    ensures Loaded(map[], map[], AllClaims([]), [])
  {}

  lemma LoadEnd(shortcuts: map<int, seq<Shortcut>>, extra: map<int, Entries>, profiles: seq<Profile>,
          all: seq<Shortcut>)
    requires Loaded(shortcuts, extra, AllClaims(profiles), all)
    ensures forall owner :: Lookup(shortcuts, extra, owner) == Resolved(profiles, owner)
  {
    hide Lookup, AllClaims, Owned, FirstClaims;
  }

  lemma AllClaimsSnoc(profiles: seq<Profile>, profile: Profile)
    ensures AllClaims(profiles + [profile]) == AllClaims(profiles) + ProfileClaims(profile)
  {
    assert (profiles + [profile])[..|profiles|] == profiles;
    hide ProfileClaims;
  }

  lemma ClaimsStart(before: seq<Claim>)
    ensures before + ProfileClaims([]) == before && before + GroupClaims([]) == before
  {}

  lemma ProfileClaimsSnoc(before: seq<Claim>, profile: Profile, group: seq<Definition>)
    ensures before + ProfileClaims(profile + [group]) == before + ProfileClaims(profile) + GroupClaims(group)
  {
    assert (profile + [group])[..|profile|] == profile;
    hide GroupClaims;
  }

  lemma GroupClaimsSnoc(before: seq<Claim>, group: seq<Definition>, d: Definition)
    ensures before + GroupClaims(group + [d]) == before + GroupClaims(group) + ClaimsOf(d, |d.shortcuts|)
  {
    assert (group + [d])[..|group|] == group;
    hide ClaimsOf;
  }

  lemma OwnerIs(d: Definition)
    ensures OwnerOf(d) == Owner(d.action, d.parameters)
  {}

  // ---------- Adding the shortcuts of a definition ----------

  /** The state of the loop over a definition's shortcuts: `list` is what the owner has now, all others are
      unchanged. */
  ghost predicate Adding(table: map<int, seq<Shortcut>>, extra: map<int, Entries>, d: Definition, before: seq<Claim>,
          k: int,
                         list: seq<Shortcut>, all: seq<Shortcut>)
  {
    && 0 <= k <= |d.shortcuts| && Lookup(table, extra, OwnerOf(d)) <= list
    && var claims := before + ClaimsOf(d, k);
    && (forall s :: s in all <==> Claimed(claims, s))
    && (forall o :: (if o == OwnerOf(d) then list else Lookup(table, extra, o)) == Owned(FirstClaims(claims), o))
  }

  lemma AddStart(table: map<int, seq<Shortcut>>, extra: map<int, Entries>, d: Definition, before: seq<Claim>,
          all: seq<Shortcut>)
    requires Loaded(table, extra, before, all)
    ensures Adding(table, extra, d, before, 0, Lookup(table, extra, OwnerOf(d)), all)
  {
    hide Lookup, FirstClaims, Owned;
    assert before + ClaimsOf(d, 0) == before;
  }

  lemma AddStep(table: map<int, seq<Shortcut>>, extra: map<int, Entries>, d: Definition, before: seq<Claim>, k: nat,
                list: seq<Shortcut>, all: seq<Shortcut>)
    requires k < |d.shortcuts| && Adding(table, extra, d, before, k, list, all)
    ensures var s := d.shortcuts[k];
      if s in all then Adding(table, extra, d, before, k + 1, list, all)
      else Adding(table, extra, d, before, k + 1, list + [s], all + [s])
  {
    hide *;
    var claims, c, more := before + ClaimsOf(d, k), Claim(OwnerOf(d), d.shortcuts[k]), before + ClaimsOf(d, k + 1);
    ClaimsStep(before, d, k);
    AddingMeans(table, extra, d, before, k, list, all);
    FirstClaimsSnoc(claims, c);
    ClaimedSnoc(claims, c);
    forall o
      ensures (if o == OwnerOf(d) then (if c.shortcut in all then list else list + [c.shortcut])
               else Lookup(table, extra, o))
        == Owned(FirstClaims(more), o)
    {
      OwnedSnoc(FirstClaims(claims), c, o);
    }
    AddingIntro(table, extra, d, before, k + 1, if c.shortcut in all then list else list + [c.shortcut],
                if c.shortcut in all then all else all + [c.shortcut]);
  }

  lemma ClaimsStep(before: seq<Claim>, d: Definition, k: nat)
    requires k < |d.shortcuts|
    ensures before + ClaimsOf(d, k + 1) == before + ClaimsOf(d, k) + [Claim(OwnerOf(d), d.shortcuts[k])]
  {}

  lemma AddingMeans(table: map<int, seq<Shortcut>>, extra: map<int, Entries>, d: Definition, before: seq<Claim>, k: int,
                    list: seq<Shortcut>, all: seq<Shortcut>)
    requires Adding(table, extra, d, before, k, list, all)
    ensures 0 <= k <= |d.shortcuts| && Lookup(table, extra, OwnerOf(d)) <= list
    ensures forall s :: s in all <==> Claimed(before + ClaimsOf(d, k), s)
    ensures forall o ::
      (if o == OwnerOf(d) then list else Lookup(table, extra, o)) == Owned(FirstClaims(before + ClaimsOf(d, k)), o)
  {}

  lemma AddingIntro(table: map<int, seq<Shortcut>>, extra: map<int, Entries>, d: Definition, before: seq<Claim>, k: int,
                    list: seq<Shortcut>, all: seq<Shortcut>)
    requires 0 <= k <= |d.shortcuts| && Lookup(table, extra, OwnerOf(d)) <= list
    requires forall s :: s in all <==> Claimed(before + ClaimsOf(d, k), s)
    requires forall o ::
      (if o == OwnerOf(d) then list else Lookup(table, extra, o)) == Owned(FirstClaims(before + ClaimsOf(d, k)), o)
    ensures Adding(table, extra, d, before, k, list, all)
  {}

  lemma ClaimedSnoc(claims: seq<Claim>, c: Claim)
    ensures forall s :: Claimed(claims + [c], s) <==> Claimed(claims, s) || s == c.shortcut
  {
    forall s
      ensures Claimed(claims + [c], s) <==> Claimed(claims, s) || s == c.shortcut
    {
      if Claimed(claims, s) {
        var i :| 0 <= i < |claims| && claims[i].shortcut == s;
        assert (claims + [c])[i].shortcut == s;
      }
      assert (claims + [c])[|claims|] == c;
    }
  }

  lemma AddEnd(table: map<int, seq<Shortcut>>, extra: map<int, Entries>, d: Definition, before: seq<Claim>,
               list: seq<Shortcut>, all: seq<Shortcut>)
    requires Adding(table, extra, d, before, |d.shortcuts|, list, all)
    ensures var claims := before + ClaimsOf(d, |d.shortcuts|);
      && (list != [] && d.parameters == map[] ==> Loaded(table[d.action := list], extra, claims, all))
      && (list != [] && d.parameters != map[] ==> Loaded(table, InsertEntry(extra, OwnerOf(d), list), claims, all))
      && (list == [] ==> Loaded(table, extra, claims, all))
  {
    hide Lookup, FirstClaims, Owned, Claimed, ClaimsOf, InsertEntry;
    forall o
      ensures d.parameters == map[] ==>
        Lookup(table[d.action := list], extra, o) == if o == OwnerOf(d) then list else Lookup(table, extra, o)
      ensures d.parameters != map[] ==>
        Lookup(table, InsertEntry(extra, OwnerOf(d), list), o) ==
          if o == OwnerOf(d) then list else Lookup(table, extra, o)
    {
      if d.parameters == map[] {
        StorePlain(table, extra, OwnerOf(d), list, o);
      } else {
        StoreExtra(table, extra, OwnerOf(d), list, o);
      }
    }
  }
}
