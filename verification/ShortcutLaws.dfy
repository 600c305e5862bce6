/** Which definition gets a shortcut, in terms of the profiles themselves. */
module ShortcutLaws {
  import opened Shortcuts

  ghost predicate InGroup(group: seq<Definition>, s: Shortcut) {
    exists k :: 0 <= k < |group| && s in group[k].shortcuts
  }

  ghost predicate InProfile(profile: Profile, s: Shortcut) {
    exists j :: 0 <= j < |profile| && InGroup(profile[j], s)
  }

  lemma ClaimedConcat(a: seq<Claim>, b: seq<Claim>, s: Shortcut)
    ensures !Claimed([], s)
    ensures Claimed(a + b, s) <==> Claimed(a, s) || Claimed(b, s)
  {
    if Claimed(a, s) {
      var i :| 0 <= i < |a| && a[i].shortcut == s;
      assert (a + b)[i] == a[i];
    }
    if Claimed(b, s) {
      var i :| 0 <= i < |b| && b[i].shortcut == s;
      assert (a + b)[|a| + i] == b[i];
    }
  }

  lemma {:induction false} WinsConcat(a: seq<Claim>, b: seq<Claim>, s: Shortcut, owner: Owner)
    ensures Wins(a + b, s, owner) <==> if Claimed(a, s) then Wins(a, s, owner) else Wins(b, s, owner)
  {
    hide Wins, Claimed;
    if b == [] {
      assert a + b == a;
      NoClaims(s, owner);
      UnclaimedLoses(a, s, owner);
    } else {
      var init, last := b[..|b| - 1], b[|b| - 1];
      assert a + b == (a + init) + [last] && b == init + [last];
      WinsConcat(a, init, s, owner);
      WinsSnoc(a + init, last, s, owner);
      WinsSnoc(init, last, s, owner);
      ClaimedConcat(a, init, s);
      UnclaimedLoses(a, s, owner);
    }
  }

  lemma UnclaimedLoses(a: seq<Claim>, s: Shortcut, owner: Owner)
    ensures Wins(a, s, owner) ==> Claimed(a, s)
  {
    if Wins(a, s, owner) {
      var i :| IsFirst(a, i) && a[i] == Claim(owner, s);
    }
  }

  lemma DefinitionClaims(d: Definition, s: Shortcut)
    ensures Claimed(ClaimsOf(d, |d.shortcuts|), s) <==> s in d.shortcuts
  {
    var claims := ClaimsOf(d, |d.shortcuts|);
    assert forall i :: 0 <= i < |claims| ==> claims[i].shortcut == d.shortcuts[i];
    if s in d.shortcuts {
      var i :| 0 <= i < |d.shortcuts| && d.shortcuts[i] == s;
      assert claims[i].shortcut == s;
    }
  }

  lemma DefinitionWins(d: Definition, s: Shortcut, owner: Owner)
    requires s in d.shortcuts
    ensures Wins(ClaimsOf(d, |d.shortcuts|), s, owner) <==> owner == OwnerOf(d)
  {
    var claims := ClaimsOf(d, |d.shortcuts|);
    var i :| 0 <= i < |d.shortcuts| && d.shortcuts[i] == s;
    assert claims[i] == Claim(OwnerOf(d), s);
    var k := FirstExists(claims, i);
  }

  lemma InGroupSnoc(group: seq<Definition>, d: Definition, s: Shortcut)
    ensures !InGroup([], s) && (InGroup(group + [d], s) <==> InGroup(group, s) || s in d.shortcuts)
  {
    if InGroup(group, s) {
      var k :| 0 <= k < |group| && s in group[k].shortcuts;
      assert (group + [d])[k] == group[k];
    }
    assert (group + [d])[|group|] == d;
  }

  lemma InProfileSnoc(profile: Profile, group: seq<Definition>, s: Shortcut)
    ensures !InProfile([], s) && (InProfile(profile + [group], s) <==> InProfile(profile, s) || InGroup(group, s))
  {
    hide InGroup;
    if InProfile(profile, s) {
      var j :| 0 <= j < |profile| && InGroup(profile[j], s);
      assert (profile + [group])[j] == profile[j];
    }
    assert (profile + [group])[|profile|] == group;
  }

  lemma {:induction false} GroupDecides(group: seq<Definition>, k: nat, s: Shortcut, owner: Owner)
    requires k < |group| && s in group[k].shortcuts && forall n :: 0 <= n < k ==> s !in group[n].shortcuts
    ensures Claimed(GroupClaims(group), s)
    ensures Wins(GroupClaims(group), s, owner) <==> owner == OwnerOf(group[k])
  {
    hide Wins, Claimed, ClaimsOf;
    var m := |group| - 1;
    var init, d := group[..m], group[m];
    ClaimedConcat(GroupClaims(init), ClaimsOf(d, |d.shortcuts|), s);
    WinsConcat(GroupClaims(init), ClaimsOf(d, |d.shortcuts|), s, owner);
    DefinitionClaims(d, s);
    if k < m {
      GroupDecides(init, k, s, owner);
    } else {
      GroupUnclaimed(init, s);
      DefinitionWins(d, s, owner);
    }
  }

  lemma {:induction false} GroupUnclaimed(group: seq<Definition>, s: Shortcut)
    ensures Claimed(GroupClaims(group), s) <==> InGroup(group, s)
  {
    hide Claimed, ClaimsOf, InGroup;
    if group == [] {
      ClaimedConcat([], [], s);
      InGroupSnoc([], Definition(0, map[], []), s);
    } else {
      var init, d := group[..|group| - 1], group[|group| - 1];
      assert group == init + [d];
      GroupUnclaimed(init, s);
      ClaimedConcat(GroupClaims(init), ClaimsOf(d, |d.shortcuts|), s);
      DefinitionClaims(d, s);
      InGroupSnoc(init, d, s);
    }
  }

  lemma {:induction false} ProfileUnclaimed(profile: Profile, s: Shortcut)
    ensures Claimed(ProfileClaims(profile), s) <==> InProfile(profile, s)
  {
    hide Claimed, InGroup, InProfile, GroupClaims;
    if profile == [] {
      ClaimedConcat([], [], s);
      InProfileSnoc([], [], s);
    } else {
      var init, group := profile[..|profile| - 1], profile[|profile| - 1];
      assert profile == init + [group];
      ProfileUnclaimed(init, s);
      ClaimedConcat(ProfileClaims(init), GroupClaims(group), s);
      GroupUnclaimed(group, s);
      InProfileSnoc(init, group, s);
    }
  }

  lemma {:induction false} ProfileDecides(profile: Profile, j: nat, s: Shortcut, owner: Owner)
    requires j < |profile| && InGroup(profile[j], s) && forall n :: 0 <= n < j ==> !InGroup(profile[n], s)
    ensures Claimed(ProfileClaims(profile), s)
    ensures Wins(ProfileClaims(profile), s, owner) <==> Wins(GroupClaims(profile[j]), s, owner)
  {
    hide Wins, Claimed, InGroup, GroupClaims;
    var m := |profile| - 1;
    var init, group := profile[..m], profile[m];
    ClaimedConcat(ProfileClaims(init), GroupClaims(group), s);
    WinsConcat(ProfileClaims(init), GroupClaims(group), s, owner);
    GroupUnclaimed(group, s);
    if j < m {
      ProfileDecides(init, j, s, owner);
    } else {
      ProfileUnclaimed(init, s);
      NotInProfile(init, s);
    }
  }

  lemma NotInProfile(profile: Profile, s: Shortcut)
    requires forall n :: 0 <= n < |profile| ==> !InGroup(profile[n], s)
    ensures !InProfile(profile, s)
  {
    hide InGroup;
  }

  lemma {:induction false} AllUnclaimed(profiles: seq<Profile>, s: Shortcut)
    requires forall n :: 0 <= n < |profiles| ==> !InProfile(profiles[n], s)
    ensures !Claimed(AllClaims(profiles), s)
  {
    hide Claimed, InProfile, ProfileClaims;
    ClaimedConcat([], [], s);
    if profiles != [] {
      var init, profile := profiles[..|profiles| - 1], profiles[|profiles| - 1];
      AllUnclaimed(init, s);
      ClaimedConcat(AllClaims(init), ProfileClaims(profile), s);
      ProfileUnclaimed(profile, s);
    }
  }

  lemma {:induction false} AllDecide(profiles: seq<Profile>, i: nat, s: Shortcut, owner: Owner)
    requires i < |profiles| && InProfile(profiles[i], s) && forall n :: 0 <= n < i ==> !InProfile(profiles[n], s)
    ensures Claimed(AllClaims(profiles), s)
    ensures Wins(AllClaims(profiles), s, owner) <==> Wins(ProfileClaims(profiles[i]), s, owner)
  {
    hide Wins, Claimed, InProfile, ProfileClaims;
    var m := |profiles| - 1;
    var init, profile := profiles[..m], profiles[m];
    ClaimedConcat(AllClaims(init), ProfileClaims(profile), s);
    WinsConcat(AllClaims(init), ProfileClaims(profile), s, owner);
    ProfileUnclaimed(profile, s);
    if i < m {
      AllDecide(init, i, s, owner);
    } else {
      AllUnclaimed(init, s);
    }
  }

  /** A shortcut belongs to the first definition that lists it, in the order of the profiles, the groups of a profile and
      the definitions of a group, and to no other. */
  lemma FirstDefinitionDecides(profiles: seq<Profile>, i: nat, j: nat, k: nat, s: Shortcut, owner: Owner)
    requires i < |profiles| && j < |profiles[i]| && k < |profiles[i][j]| && s in profiles[i][j][k].shortcuts
    requires forall n :: 0 <= n < i ==> !InProfile(profiles[n], s)
    requires forall n :: 0 <= n < j ==> !InGroup(profiles[i][n], s)
    requires forall n :: 0 <= n < k ==> s !in profiles[i][j][n].shortcuts
    ensures s in Resolved(profiles, owner) <==>
      owner == Owner(profiles[i][j][k].action, profiles[i][j][k].parameters)
  {
    var group := profiles[i][j];
    assert InGroup(group, s);
    assert InProfile(profiles[i], s);
    GroupDecides(group, k, s, owner);
    hide InGroup, InProfile, Wins, Claimed, GroupClaims, ProfileClaims, AllClaims, FirstClaims, Owned;
    ProfileDecides(profiles[i], j, s, owner);
    AllDecide(profiles, i, s, owner);
    FirstClaimWins(AllClaims(profiles), s, owner);
  }
}
