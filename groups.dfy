// ClientThreadGroup and the effect of the group commands on the list of groups,
// stated on values: a group's name, owner and member list, and the members' usernames.

module Groups {
  import opened Text
  import opened Lists
  import opened Protocol
  import opened Sessions

  /** ClientThreadGroup: a named group with an owner and an ordered member list.
      The owner is not put in the member list. */
  datatype Group = Group(name: string, owner: Session, members: seq<Session>)
  {
    /** setClientThreads: ArrayList.add at the end. */
    function Add(s: Session): (r: Group)
      ensures r.name == name && r.owner == owner
      ensures |r.members| == |members| + 1 && r.members[..|members|] == members && r.members[|members|] == s
    {
      this.(members := members + [s])
    }

    /** deleteClientThread: ArrayList.remove(Object), the first occurrence of `s`. */
    function Delete(s: Session): (r: Group)
      ensures r.name == name && r.owner == owner
      ensures s in members ==> multiset(r.members) == multiset(members) - multiset{s}
      ensures s !in members ==> r == this
      ensures forall m :: m in r.members ==> m in members
    {
      RemoveFirstMultiset(members, s);
      RemoveAtWithin(members, IndexOf(members, s));
      this.(members := RemoveFirst(members, s))
    }

    /** getGroupSize. */
    function Size(): nat
    {
      |members|
    }
  }

  /** Adding a session that was not a member and deleting it again restores the group. */
  lemma DeleteUndoesAdd(g: Group, s: Session)
    requires s !in g.members
    ensures g.Add(s).Delete(s) == g
    ensures g.Add(s).Size() == g.Size() + 1
  {
    var ms := g.members + [s];
    assert IndexOf(ms, s) == |g.members|;
    assert ms[..|g.members|] == g.members;
  }

  /** The usernames of the sessions, at one instant. */
  type NameMap = map<Session, Option<string>>

  function NameOf(who: NameMap, s: Session): Option<string>
  {
    if s in who then who[s] else None
  }

  // ---------------------------------------------------------------------------
  // JOINGROUP
  // ---------------------------------------------------------------------------

  /** The first group whose name equals `key` ignoring case, or |gs| when there is none. */
  function FindByName(gs: seq<Group>, key: string): (k: nat)
    ensures k <= |gs|
    ensures k < |gs| ==> EqualsIgnoreCase(gs[k].name, key)
    ensures forall j :: 0 <= j < k ==> !EqualsIgnoreCase(gs[j].name, key)
    decreases |gs|
  {
    if gs == [] then 0
    else if EqualsIgnoreCase(gs[0].name, key) then 0
    else 1 + FindByName(gs[1..], key)
  }

  /** The groups after JOINGROUP `key` by `s`: `s` appended to the first match only. */
  function Joined(gs: seq<Group>, key: string, s: Session): (r: seq<Group>)
    ensures |r| == |gs|
    ensures forall j :: 0 <= j < |gs| && j != FindByName(gs, key) ==> r[j] == gs[j]
  {
    var k := FindByName(gs, key);
    if k < |gs| then gs[k := gs[k].Add(s)] else gs
  }

  /** The lines JOINGROUP writes: the success line for the first match, if any, and then,
      because `break` leaves only the loop, the not-found error in every case. */
  function JoinReplies(gs: seq<Group>, key: string): seq<string>
  {
    var k := FindByName(gs, key);
    (if k < |gs| then [OkJoined(gs[k].name)] else []) + [ErrGroupNotFound]
  }

  /** JOINGROUP changes only the member list of the first group matching the key, by
      appending the caller; names, owners and every other group are unchanged. */
  lemma JoinedChangesOnlyFirstMatch(gs: seq<Group>, key: string, s: Session)
    ensures |Joined(gs, key, s)| == |gs|
    ensures forall j :: 0 <= j < |gs| ==>
              Joined(gs, key, s)[j].name == gs[j].name &&
              Joined(gs, key, s)[j].owner == gs[j].owner &&
              Joined(gs, key, s)[j].members ==
                gs[j].members +
                (if EqualsIgnoreCase(gs[j].name, key) && forall i :: 0 <= i < j ==> !EqualsIgnoreCase(gs[i].name, key)
                 then [s] else [])
  {
    var k := FindByName(gs, key);
    forall j | 0 <= j < |gs|
      ensures (EqualsIgnoreCase(gs[j].name, key) && forall i :: 0 <= i < j ==> !EqualsIgnoreCase(gs[i].name, key)) <==> j == k
    {
      if j < k {
      } else if j > k && k < |gs| {
        assert EqualsIgnoreCase(gs[k].name, key);
      }
    }
  }

  /** The last line JOINGROUP writes is always the not-found error; a success line comes
      before it exactly when some group matches. */
  lemma JoinRepliesEndInError(gs: seq<Group>, key: string)
    ensures var r := JoinReplies(gs, key);
      r[|r| - 1] == ErrGroupNotFound &&
      (|r| == 2 <==> exists j :: 0 <= j < |gs| && EqualsIgnoreCase(gs[j].name, key))
  {
    var k := FindByName(gs, key);
    if exists j :: 0 <= j < |gs| && EqualsIgnoreCase(gs[j].name, key) {
      var j :| 0 <= j < |gs| && EqualsIgnoreCase(gs[j].name, key);
      assert k <= j;
    }
  }

  lemma {:induction false} FindByNameIgnoresKeyCase(gs: seq<Group>, k1: string, k2: string)
    requires EqualsIgnoreCase(k1, k2)
    ensures FindByName(gs, k1) == FindByName(gs, k2)
    decreases |gs|
  {
    if gs != [] {
      EqualsIgnoreCaseIsEquivalence(gs[0].name, k1, k2);
      EqualsIgnoreCaseIsEquivalence(gs[0].name, k2, k1);
      EqualsIgnoreCaseIsEquivalence(k1, k2, k1);
      FindByNameIgnoresKeyCase(gs[1..], k1, k2);
    }
  }

  /** JOINGROUP team1 and JOINGROUP TEAM1 have the same effect and the same replies. */
  lemma JoinIgnoresKeyCase(gs: seq<Group>, k1: string, k2: string, s: Session)
    requires EqualsIgnoreCase(k1, k2)
    ensures Joined(gs, k1, s) == Joined(gs, k2, s)
    ensures JoinReplies(gs, k1) == JoinReplies(gs, k2)
  {
    FindByNameIgnoresKeyCase(gs, k1, k2);
  }

  /** Appending a group does not move an earlier match; without one, the appended group
      is found exactly when its own name matches. */
  lemma {:induction false} FindByNameAppend(gs: seq<Group>, g: Group, key: string)
    ensures FindByName(gs + [g], key) ==
      if FindByName(gs, key) < |gs| || EqualsIgnoreCase(g.name, key) then FindByName(gs, key) else |gs| + 1
    decreases |gs|
  {
    if gs == [] {
      assert [] + [g] == [g];
    } else {
      assert (gs + [g])[0] == gs[0] && (gs + [g])[1..] == gs[1..] + [g];
      FindByNameAppend(gs[1..], g, key);
    }
  }

  /** NEWGROUP followed by JOINGROUP of the same name: when no older group matches the name
      ignoring case, the joiner becomes the new group's only member and is told so before
      the unconditional not-found line; when an older group matches, that group takes the
      joiner and the new group stays empty. */
  lemma JoinAfterNewGroup(gs: seq<Group>, name: string, owner: Session, s: Session)
    ensures FindByName(gs, name) == |gs| ==>
      Joined(gs + [Group(name, owner, [])], name, s) == gs + [Group(name, owner, [s])] &&
      JoinReplies(gs + [Group(name, owner, [])], name) == [OkJoined(name), ErrGroupNotFound]
    ensures FindByName(gs, name) < |gs| ==>
      Joined(gs + [Group(name, owner, [])], name, s) == Joined(gs, name, s) + [Group(name, owner, [])]
  {
    var g := Group(name, owner, []);
    var k := FindByName(gs, name);
    FindByNameAppend(gs, g, name);
    if k < |gs| {
      assert FindByName(gs + [g], name) == k && (gs + [g])[k] == gs[k];
      assert (gs + [g])[k := gs[k].Add(s)] == gs[k := gs[k].Add(s)] + [g];
    } else {
      EqualsIgnoreCaseIsEquivalence(name, name, name);
      assert FindByName(gs + [g], name) == |gs| && (gs + [g])[|gs|] == g;
      assert (gs + [g])[|gs| := g.Add(s)] == gs + [g.Add(s)];
    }
  }

  // ---------------------------------------------------------------------------
  // QUITGROUP
  // ---------------------------------------------------------------------------

  /** `member.getUsername().equals(u)` for a member whose username is not null:
      true only when `u` is not null and equal to it. */
  predicate SameUser(who: NameMap, m: Session, u: Option<string>)
  {
    u.Some? && NameOf(who, m) == u
  }

  /** The first member whose username equals `u`, or |ms|. */
  function FindUser(ms: seq<Session>, who: NameMap, u: Option<string>): (k: nat)
    ensures k <= |ms|
    ensures k < |ms| ==> SameUser(who, ms[k], u)
    ensures forall j :: 0 <= j < k ==> !SameUser(who, ms[j], u)
    decreases |ms|
  {
    if ms == [] then 0
    else if SameUser(who, ms[0], u) then 0
    else 1 + FindUser(ms[1..], who, u)
  }

  /** QUITGROUP never dereferences a null username: every member it compares, up to and
      including the first one that matches, in every group named exactly `key`, has a name. */
  ghost predicate QuitScanSafe(gs: seq<Group>, who: NameMap, key: string, u: Option<string>)
  {
    forall j :: 0 <= j < |gs| && gs[j].name == key ==> MemberScanSafe(gs[j].members, who, u)
  }

  /** The inner QUITGROUP loop over `ms` never dereferences a null username: every member it
      compares, up to and including the first one that matches, has a name. */
  ghost predicate MemberScanSafe(ms: seq<Session>, who: NameMap, u: Option<string>)
  {
    forall i :: 0 <= i < |ms| && i <= FindUser(ms, who, u) ==> NameOf(who, ms[i]).Some?
  }

  /** One pass of the QUITGROUP loop over group `g`. */
  function LeftGroup(g: Group, who: NameMap, key: string, u: Option<string>): Group
  {
    if g.name == key then g.(members := RemoveAt(g.members, FindUser(g.members, who, u))) else g
  }

  /** The lines one pass of the QUITGROUP loop writes for group `g`: one error for a group
      whose name differs, the success line when the caller's name was found. */
  function LeaveReplies(g: Group, who: NameMap, key: string, u: Option<string>): (r: seq<string>)
    ensures |r| <= 1
  {
    if g.name != key then [ErrGroupNotExist]
    else if FindUser(g.members, who, u) < |g.members| then [OkLeft(g.name)]
    else []
  }

  /** The groups after QUITGROUP `key` by a caller named `u`. */
  function QuitGroups(gs: seq<Group>, who: NameMap, key: string, u: Option<string>): (r: seq<Group>)
    ensures |r| == |gs|
    decreases |gs|
  {
    if gs == [] then []
    else
      var n := |gs| - 1;
      QuitGroups(gs[..n], who, key, u) + [LeftGroup(gs[n], who, key, u)]
  }

  /** All the lines QUITGROUP writes, group by group. */
  function QuitReplies(gs: seq<Group>, who: NameMap, key: string, u: Option<string>): seq<string>
    decreases |gs|
  {
    if gs == [] then []
    else
      var n := |gs| - 1;
      QuitReplies(gs[..n], who, key, u) + LeaveReplies(gs[n], who, key, u)
  }

  /** The QUITGROUP loop after one more pass: that pass's group and replies are appended
      (the latter after any lines `sent` already written). */
  lemma QuitStep(gs: seq<Group>, i: nat, who: NameMap, key: string, u: Option<string>, sent: seq<string>)
    requires i < |gs|
    ensures QuitGroups(gs[..i + 1], who, key, u) == QuitGroups(gs[..i], who, key, u) + [LeftGroup(gs[i], who, key, u)]
    ensures sent + QuitReplies(gs[..i + 1], who, key, u) == sent + QuitReplies(gs[..i], who, key, u) + LeaveReplies(gs[i], who, key, u)
  {
    assert gs[..i + 1][..i] == gs[..i];
  }

  /** QUITGROUP touches only the groups named exactly `key` (case matters), and from each of
      them removes the first member whose username is the caller's, if there is one. */
  lemma {:induction false} QuitGroupsEffect(gs: seq<Group>, who: NameMap, key: string, u: Option<string>)
    ensures |QuitGroups(gs, who, key, u)| == |gs|
    ensures forall j :: 0 <= j < |gs| ==>
              var r := QuitGroups(gs, who, key, u)[j];
              var k := FindUser(gs[j].members, who, u);
              r == LeftGroup(gs[j], who, key, u) &&
              r.name == gs[j].name && r.owner == gs[j].owner &&
              (gs[j].name != key ==> r.members == gs[j].members) &&
              (gs[j].name == key ==> r.members == RemoveAt(gs[j].members, k))
    decreases |gs|
  {
    if gs != [] {
      QuitGroupsEffect(gs[..|gs| - 1], who, key, u);
    }
  }

  /** How often `line` occurs in `lines`. */
  function Count(lines: seq<string>, line: string): nat
    decreases |lines|
  {
    if lines == [] then 0
    else Count(lines[..|lines| - 1], line) + (if lines[|lines| - 1] == line then 1 else 0)
  }

  lemma {:induction false} CountAppend(a: seq<string>, b: seq<string>, line: string)
    ensures Count(a + b, line) == Count(a, line) + Count(b, line)
    decreases |b|
  {
    if b == [] {
      assert a + b == a;
    } else {
      var n := |b| - 1;
      assert (a + b)[..|a + b| - 1] == a + b[..n];
      CountAppend(a, b[..n], line);
    }
  }

  /** How many groups are not named exactly `key`. */
  function CountOtherNames(gs: seq<Group>, key: string): nat
    decreases |gs|
  {
    if gs == [] then 0
    else CountOtherNames(gs[..|gs| - 1], key) + (if gs[|gs| - 1].name != key then 1 else 0)
  }

  /** QUITGROUP writes the does-not-exist error once for every group whose name differs
      from the payload, not once per command. */
  lemma {:induction false} QuitErrorPerOtherGroup(gs: seq<Group>, who: NameMap, key: string, u: Option<string>)
    ensures Count(QuitReplies(gs, who, key, u), ErrGroupNotExist) == CountOtherNames(gs, key)
    decreases |gs|
  {
    if gs != [] {
      var n := |gs| - 1;
      var tail := LeaveReplies(gs[n], who, key, u);
      QuitErrorPerOtherGroup(gs[..n], who, key, u);
      CountAppend(QuitReplies(gs[..n], who, key, u), tail, ErrGroupNotExist);
      OkIsNotErr(" You are no longer a participant in this group: " + gs[n].name, " Group name does not exist.");
      assert Count(tail, ErrGroupNotExist) == if gs[n].name != key then 1 else 0 by {
        if tail != [] {
          assert tail[..0] == [];
        }
      }
    }
  }

  // ---------------------------------------------------------------------------
  // KICKUSER
  // ---------------------------------------------------------------------------

  /** The KICKUSER group test: the name equals `key` ignoring case and the owner's
      username (not the owner itself) equals the caller's. */
  predicate OwnedMatch(g: Group, who: NameMap, key: string, caller: Option<string>)
  {
    EqualsIgnoreCase(g.name, key) && NameOf(who, g.owner).Some? && NameOf(who, g.owner) == caller
  }

  /** The first group passing the KICKUSER test, or |gs|. */
  function FindOwned(gs: seq<Group>, who: NameMap, key: string, caller: Option<string>): (k: nat)
    ensures k <= |gs|
    ensures k < |gs| ==> OwnedMatch(gs[k], who, key, caller)
    ensures forall j :: 0 <= j < k ==> !OwnedMatch(gs[j], who, key, caller)
    decreases |gs|
  {
    if gs == [] then 0
    else if OwnedMatch(gs[0], who, key, caller) then 0
    else 1 + FindOwned(gs[1..], who, key, caller)
  }

  /** KICKUSER never dereferences a null owner name: every group it examines whose name
      matches, up to and including the one it stops at, has an owner with a username. */
  ghost predicate KickScanSafe(gs: seq<Group>, who: NameMap, key: string, caller: Option<string>)
  {
    forall j :: 0 <= j < |gs| && j <= FindOwned(gs, who, key, caller) && EqualsIgnoreCase(gs[j].name, key) ==>
      NameOf(who, gs[j].owner).Some?
  }

  /** `target.equalsIgnoreCase(member.username)`: false for a member without a username. */
  predicate TargetMatch(who: NameMap, m: Session, target: string)
  {
    NameOf(who, m).Some? && EqualsIgnoreCase(target, NameOf(who, m).value)
  }

  /** The first member that is the kick target, or |ms|. */
  function FindTarget(ms: seq<Session>, who: NameMap, target: string): (k: nat)
    ensures k <= |ms|
    ensures k < |ms| ==> TargetMatch(who, ms[k], target)
    ensures forall j :: 0 <= j < k ==> !TargetMatch(who, ms[j], target)
    decreases |ms|
  {
    if ms == [] then 0
    else if TargetMatch(who, ms[0], target) then 0
    else 1 + FindTarget(ms[1..], who, target)
  }

  /** The groups after KICKUSER `key-target` by a caller named `caller`: only the first
      group passing the test is examined, and from it the first matching member goes. */
  function Kicked(gs: seq<Group>, who: NameMap, key: string, target: string, caller: Option<string>): (r: seq<Group>)
    ensures |r| == |gs|
    ensures forall j :: 0 <= j < |gs| && j != FindOwned(gs, who, key, caller) ==> r[j] == gs[j]
  {
    var k := FindOwned(gs, who, key, caller);
    if k < |gs| then gs[k := gs[k].(members := RemoveAt(gs[k].members, FindTarget(gs[k].members, who, target)))]
    else gs
  }

  /** Whether KICKUSER removes somebody. */
  predicate KickSucceeds(gs: seq<Group>, who: NameMap, key: string, target: string, caller: Option<string>)
  {
    var k := FindOwned(gs, who, key, caller);
    k < |gs| && FindTarget(gs[k].members, who, target) < |gs[k].members|
  }

  /** KICKUSER removes somebody exactly when the first group passing the test holds a member
      matching the target; a matching member of a later group is never considered. */
  lemma KickSucceedsIff(gs: seq<Group>, who: NameMap, key: string, target: string, caller: Option<string>)
    ensures KickSucceeds(gs, who, key, target, caller) <==>
      exists k, i :: 0 <= k < |gs| && OwnedMatch(gs[k], who, key, caller) &&
        (forall j :: 0 <= j < k ==> !OwnedMatch(gs[j], who, key, caller)) &&
        0 <= i < |gs[k].members| && TargetMatch(who, gs[k].members[i], target)
  {
    var k := FindOwned(gs, who, key, caller);
    if exists k', i :: 0 <= k' < |gs| && OwnedMatch(gs[k'], who, key, caller) &&
        (forall j :: 0 <= j < k' ==> !OwnedMatch(gs[j], who, key, caller)) &&
        0 <= i < |gs[k'].members| && TargetMatch(who, gs[k'].members[i], target) {
      var k', i :| 0 <= k' < |gs| && OwnedMatch(gs[k'], who, key, caller) &&
        (forall j :: 0 <= j < k' ==> !OwnedMatch(gs[j], who, key, caller)) &&
        0 <= i < |gs[k'].members| && TargetMatch(who, gs[k'].members[i], target);
      assert k == k';
      assert FindTarget(gs[k].members, who, target) <= i;
    }
  }

  /** KICKUSER changes at most one member list, that of the first group passing the test;
      it replies with success exactly when the groups changed. */
  lemma KickedEffect(gs: seq<Group>, who: NameMap, key: string, target: string, caller: Option<string>)
    ensures |Kicked(gs, who, key, target, caller)| == |gs|
    ensures forall j :: 0 <= j < |gs| && j != FindOwned(gs, who, key, caller) ==>
              Kicked(gs, who, key, target, caller)[j] == gs[j]
    ensures KickSucceeds(gs, who, key, target, caller) <==> Kicked(gs, who, key, target, caller) != gs
  {
    if KickSucceeds(gs, who, key, target, caller) {
      var k := FindOwned(gs, who, key, caller);
      var ms := gs[k].members;
      assert |RemoveAt(ms, FindTarget(ms, who, target))| < |ms|;
      assert Kicked(gs, who, key, target, caller)[k] != gs[k];
    }
  }

  /** A successful KICKUSER removes exactly the first matching member of the group it
      examines, keeping the order of the others. */
  lemma KickRemovesTarget(gs: seq<Group>, who: NameMap, key: string, target: string, caller: Option<string>)
    requires KickSucceeds(gs, who, key, target, caller)
    ensures var k := FindOwned(gs, who, key, caller);
            var ms := gs[k].members;
            var i := FindTarget(ms, who, target);
            Kicked(gs, who, key, target, caller)[k] == gs[k].(members := ms[..i] + ms[i + 1..]) &&
            multiset(Kicked(gs, who, key, target, caller)[k].members) == multiset(ms) - multiset{ms[i]}
  {
    var k := FindOwned(gs, who, key, caller);
    var ms := gs[k].members;
    var i := FindTarget(ms, who, target);
    assert ms == ms[..i] + [ms[i]] + ms[i + 1..];
  }

  /** A caller whose username owns no group of that name never changes any member list,
      and is told the kick failed. */
  lemma KickNeedsOwnership(gs: seq<Group>, who: NameMap, key: string, target: string, caller: Option<string>)
    requires forall j :: 0 <= j < |gs| ==> !OwnedMatch(gs[j], who, key, caller)
    ensures Kicked(gs, who, key, target, caller) == gs
    ensures !KickSucceeds(gs, who, key, target, caller)
  {
    assert FindOwned(gs, who, key, caller) == |gs|;
  }
}
