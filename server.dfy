// Server: the session set `threads`, the group list `clientGroups`, and the per-connection
// command dispatcher of ClientThread.run, one command at a time.

module ChatServer {
  import opened Text
  import opened Lists
  import opened Faults
  import opened Protocol
  import opened Sessions
  import opened Groups

  /** No two distinct sessions of `ss` hold the same username. */
  ghost predicate UniqueUsernames(ss: set<Session>)
    reads ss`username
  {
    forall s, t :: s in ss && t in ss && s != t && s.username.Some? ==> s.username != t.username
  }

  /** The text ALLGROUPS builds: one entry per group, in list order, with its member count. */
  function GroupsText(gs: seq<Group>): string
    decreases |gs|
  {
    if gs == [] then ""
    else
      var n := |gs| - 1;
      GroupsText(gs[..n]) + GroupEntry(gs[n].name, gs[n].Size())
  }

  /** After NEWGROUP, ALLGROUPS lists the new group last, with no participants. */
  lemma ListingAfterNewGroup(gs: seq<Group>, name: string, owner: Session)
    ensures GroupsText(gs + [Group(name, owner, [])]) == GroupsText(gs) + GroupEntry(name, 0)
  {
    assert (gs + [Group(name, owner, [])])[..|gs|] == gs;
  }

  class Server {
    /** The configuration every session reads. */
    const conf: Config
    /** The sessions currently connected. */
    var threads: set<Session>
    /** The groups, in creation order. */
    var groups: seq<Group>
    /** Every session ever accepted, connected or not. */
    ghost var accepted: set<Session>

    /** The server invariant:
        - connected sessions were accepted, and an accepted session that is no longer
          connected has finished;
        - a session holds a username only once it has logged in (CONNECTED, or FINISHED later);
        - no two connected sessions share a username;
        - every group's owner and members were accepted. */
    ghost predicate Valid()
      reads `threads, `groups, `accepted, accepted`state, accepted`username
    {
      threads <= accepted &&
      (forall s :: s in accepted ==> SessionOk(s)) &&
      UniqueUsernames(threads) &&
      GroupsOk(groups)
    }

    ghost predicate SessionOk(s: Session)
      reads `threads, s`state, s`username
    {
      s.conf == conf &&
      (s !in threads ==> s.state == FINISHED) &&
      (s.username.Some? ==> s.state == CONNECTED || s.state == FINISHED)
    }

    ghost predicate GroupOk(g: Group)
      reads `accepted
    {
      g.owner in accepted && forall m :: m in g.members ==> m in accepted
    }

    ghost predicate GroupsOk(gs: seq<Group>)
      reads `accepted
    {
      forall g :: g in gs ==> GroupOk(g)
    }

    /** Replacing one group by one that is itself well formed keeps the list well formed. */
    lemma UpdateGroupsOk(gs: seq<Group>, i: nat, g: Group)
      requires GroupsOk(gs) && GroupOk(g) && i < |gs|
      ensures GroupsOk(gs[i := g])
    {
      forall h | h in gs[i := g] ensures GroupOk(h) {
        var k :| 0 <= k < |gs| && gs[i := g][k] == h;
        if k != i {
          assert h in gs;
        }
      }
    }

    /** A QUITGROUP pass keeps a group's owner and members accepted sessions. */
    lemma LeftGroupWithin(g: Group, who: NameMap, key: string, u: Option<string>)
      requires GroupOk(g)
      ensures GroupOk(LeftGroup(g, who, key, u))
    {
      RemoveAtWithin(g.members, FindUser(g.members, who, u));
    }

    /** The invariant survives any step that changes no protocol state, no username and
        no session set, and keeps every group's owner and members accepted sessions. */
    twostate lemma KeepsValid()
      requires old(Valid())
      requires threads == old(threads) && accepted == old(accepted)
      requires forall s :: s in accepted ==> s.state == old(s.state) && s.username == old(s.username)
      requires GroupsOk(groups)
      ensures Valid()
    {
    }

    /** The usernames of all accepted sessions. */
    ghost function Usernames(): NameMap
      reads `accepted, accepted`username
    {
      map s | s in accepted :: s.username
    }

    /** `new Server(conf)` followed by the initialisations at the top of run(). */
    constructor (conf: Config)
      ensures Valid()
      ensures this.conf == conf && threads == {} && groups == [] && accepted == {}
    {
      this.conf := conf;
      threads := {};
      groups := [];
      accepted := {};
    }

    /** One pass of the accept loop: `new ClientThread(socket)` and `threads.add(ct)`, and
        whether a DropClientThread is started for the new session. */
    method Accept(oracle: nat -> Fault, descriptor: string) returns (s: Session, dropScheduled: bool)
      requires Valid()
      modifies this
      ensures Valid() && fresh(s)
      ensures threads == old(threads) + {s} && accepted == old(accepted) + {s} && groups == old(groups)
      ensures s.state == INIT && s.username == None && s.sent == [] && s.Outbox() == []
      ensures s.conf == conf && s.oracle == oracle && s.descriptor == descriptor
      ensures dropScheduled == conf.simulateConnectionLost
    {
      s := new Session(conf, oracle, descriptor);
      threads := threads + {s};
      accepted := accepted + {s};
      dropScheduled := conf.simulateConnectionLost;
    }

    /** The start of ClientThread.run: state CONNECTING and the welcome line. */
    method Start(self: Session)
      requires Valid() && self in accepted && self.state == INIT
      modifies self
      ensures Valid()
      ensures self.state == CONNECTING && self.username == None
      ensures self.sent == old(self.sent) + [Welcome(conf.welcomeMessage)]
    {
      self.state := CONNECTING;
      var _ := self.WriteToClient(Welcome(conf.welcomeMessage));
    }

    // -------------------------------------------------------------------------
    // HELO
    // -------------------------------------------------------------------------

    /** The userExists scan of HELO: some other connected session already holds `name`. */
    method UserExists(self: Session, name: string) returns (userExists: bool)
      ensures userExists <==> exists ct :: ct in threads && ct != self && ct.username == Some(name)
    {
      userExists := false;
      var todo := threads;
      while todo != {}
        invariant todo <= threads
        invariant forall ct :: ct in threads && ct !in todo && ct != self ==> ct.username != Some(name)
        decreases todo
      {
        var ct :| ct in todo;
        if ct != self && ct.username == Some(name) {
          userExists := true;
          break;
        }
        todo := todo - {ct};
      }
    }

    /** HELO: a malformed name finishes the session; a name another connected session holds
        is refused; otherwise the session logs in under that name. */
    method Helo(self: Session, payload: string)
      requires Valid() && self in accepted && self.state != FINISHED
      modifies self
      ensures Valid()
      ensures !ValidUsername(payload) ==>
        self.state == FINISHED && self.username == old(self.username) &&
        self.sent == old(self.sent) + [ErrInvalidUsername]
      ensures ValidUsername(payload) && (exists ct :: ct in threads && ct != self && ct.username == Some(payload)) ==>
        self.state == old(self.state) && self.username == old(self.username) &&
        self.sent == old(self.sent) + [ErrAlreadyLoggedIn]
      ensures ValidUsername(payload) && !(exists ct :: ct in threads && ct != self && ct.username == Some(payload)) ==>
        self.state == CONNECTED && self.username == Some(payload) &&
        self.sent == old(self.sent) + [OkUsername(payload)]
    {
      if !ValidUsername(payload) {
        self.state := FINISHED;
        var _ := self.WriteToClient(ErrInvalidUsername);
      } else {
        var userExists := UserExists(self, payload);
        if userExists {
          var _ := self.WriteToClient(ErrAlreadyLoggedIn);
        } else {
          self.state := CONNECTED;
          self.username := Some(payload);
          var _ := self.WriteToClient(OkUsername(payload));
        }
      }
    }

    // -------------------------------------------------------------------------
    // BCST and PRIVATE
    // -------------------------------------------------------------------------

    /** BCST: every other connected session is sent `BCST [sender] payload`, the sender `+OK`;
        no state or username changes. */
    method Broadcast(self: Session, payload: string)
      requires Valid() && self in accepted && self.state != FINISHED
      modifies threads
      ensures Valid()
      ensures forall s :: s in threads ==> s.state == old(s.state) && s.username == old(s.username)
      ensures forall s :: s in threads && s != self ==> s.sent == old(s.sent) + [BroadcastLine(self.username, payload)]
      ensures self.sent == old(self.sent) + [Ok]
    {
      var line := BroadcastLine(self.username, payload);
      var todo := threads;
      while todo != {}
        invariant todo <= threads
        invariant forall s :: s in threads ==> s.state == old(s.state) && s.username == old(s.username)
        invariant forall s :: s in threads ==> s.sent == old(s.sent) + (if s !in todo && s != self then [line] else [])
        decreases todo
      {
        var ct :| ct in todo;
        if ct != self {
          var _ := ct.WriteToClient(line);
        }
        todo := todo - {ct};
      }
      var _ := self.WriteToClient(Ok);
      KeepsValid();
    }

    /** PRIVATE `to-text`: the connected session named `to`, if any, is sent the note,
        and the sender is told whether it was sent. */
    method Private(self: Session, payload: string)
      requires Valid() && self in accepted && self.state != FINISHED
      requires |JavaSplit(payload, '-')| >= 2
      requires forall s :: s in threads ==> s.username.Some?
      modifies threads
      ensures Valid()
      ensures forall s :: s in threads ==> s.state == old(s.state) && s.username == old(s.username)
      ensures var parts := JavaSplit(payload, '-');
        var found := exists ct :: ct in threads && ct.username == Some(parts[0]);
        forall s :: s in threads ==>
          s.sent == old(s.sent) +
            (if s.username == Some(parts[0]) then [PrivateNote(self.username, parts[1])] else []) +
            (if s == self then [if found then OkPrivate(parts[0]) else ErrPrivate] else [])
    {
      var messageSplit := JavaSplit(payload, '-');
      var to := messageSplit[0];
      var messageToSend := PrivateNote(self.username, messageSplit[1]);
      var recipient := FindConnected(to);
      if recipient.Some? {
        var _ := recipient.value.WriteToClient(messageToSend);
        var _ := self.WriteToClient(OkPrivate(to));
      } else {
        var _ := self.WriteToClient(ErrPrivate);
      }
      KeepsValid();
    }

    /** The PRIVATE loop's search: a connected session whose username is `name`, if any. */
    method FindConnected(name: string) returns (found: Option<Session>)
      ensures found.Some? ==> found.value in threads && found.value.username == Some(name)
      ensures found.None? ==> forall ct :: ct in threads ==> ct.username != Some(name)
    {
      found := None;
      var todo := threads;
      while todo != {}
        invariant todo <= threads
        invariant forall ct :: ct in threads && ct !in todo ==> ct.username != Some(name)
        decreases todo
      {
        var ct :| ct in todo;
        if ct.username == Some(name) {
          found := Some(ct);
          break;
        }
        todo := todo - {ct};
      }
    }

    // -------------------------------------------------------------------------
    // ALLCLIENTS and ALLGROUPS
    // -------------------------------------------------------------------------

    /** The ALLCLIENTS loop: one entry per connected session, in the set's iteration order. */
    method ClientListing() returns (text: string, ghost order: seq<Session>)
      ensures forall s :: s in order <==> s in threads
      ensures forall i, j :: 0 <= i < j < |order| ==> order[i] != order[j]
      ensures text == ClientEntries(order)
    {
      text := "";
      order := [];
      var todo := threads;
      while todo != {}
        invariant todo <= threads
        invariant forall s :: s in order <==> s in threads && s !in todo
        invariant forall i, j :: 0 <= i < j < |order| ==> order[i] != order[j]
        invariant text == ClientEntries(order)
        decreases todo
      {
        var ct :| ct in todo;
        text := text + ClientEntry(ct.username, ct.descriptor);
        ghost var previous := order;
        order := order + [ct];
        assert order[..|order| - 1] == previous;
        todo := todo - {ct};
      }
    }

    /** ALLCLIENTS: `+OK ` followed by the listing. */
    method AllClients(self: Session) returns (ghost order: seq<Session>)
      requires Valid() && self in accepted
      modifies self
      ensures Valid()
      ensures forall s :: s in order <==> s in old(threads)
      ensures forall i, j :: 0 <= i < j < |order| ==> order[i] != order[j]
      ensures self.sent == old(self.sent) + [Ok + " " + ClientEntries(order)]
      ensures self.state == old(self.state) && self.username == old(self.username)
    {
      var text;
      text, order := ClientListing();
      var _ := self.WriteToClient(Ok + " " + text);
      KeepsValid();
    }

    /** The ALLGROUPS loop: one entry per group, in list order, with its size. */
    method GroupListing() returns (text: string)
      ensures text == GroupsText(groups)
    {
      text := "";
      var i := 0;
      while i < |groups|
        invariant 0 <= i <= |groups|
        invariant text == GroupsText(groups[..i])
      {
        assert groups[..i + 1][..i] == groups[..i];
        text := text + GroupEntry(groups[i].name, groups[i].Size());
        i := i + 1;
      }
      assert groups[..i] == groups;
    }

    /** ALLGROUPS: `+OK` immediately followed by the listing. */
    method AllGroups(self: Session)
      requires Valid() && self in accepted
      modifies self
      ensures Valid()
      ensures self.sent == old(self.sent) + [Ok + GroupsText(groups)]
      ensures self.state == old(self.state) && self.username == old(self.username)
    {
      var text := GroupListing();
      var _ := self.WriteToClient(Ok + text);
      KeepsValid();
    }

    // -------------------------------------------------------------------------
    // NEWGROUP and JOINGROUP
    // -------------------------------------------------------------------------

    /** NEWGROUP: a new group named after the payload, owned by the caller, with no members,
        appended at the end; no check that the name is free. */
    method NewGroup(self: Session, payload: string)
      requires Valid() && self in accepted
      modifies this, self
      ensures Valid()
      ensures threads == old(threads) && accepted == old(accepted)
      ensures groups == old(groups) + [Group(payload, self, [])]
      ensures self.sent == old(self.sent) + [OkNewGroup(payload)]
      ensures self.state == old(self.state) && self.username == old(self.username)
    {
      var clientGroup := Group(payload, self, []);
      groups := groups + [clientGroup];
      var _ := self.WriteToClient(OkNewGroup(payload));
      KeepsValid();
    }

    /** The JOINGROUP loop's search: the first group whose name equals `key` ignoring case,
        or |groups| when there is none. */
    method FindGroup(key: string) returns (i: nat)
      ensures i == FindByName(groups, key)
    {
      i := 0;
      while i < |groups| && !EqualsIgnoreCase(groups[i].name, key)
        invariant i <= FindByName(groups, key)
      {
        i := i + 1;
      }
    }

    /** JOINGROUP: the caller is appended to the first group whose name matches the payload
        ignoring case; the not-found error is written afterwards in every case. */
    method JoinGroup(self: Session, payload: string)
      requires Valid() && self in accepted
      modifies this, self
      ensures Valid()
      ensures threads == old(threads) && accepted == old(accepted)
      ensures groups == Joined(old(groups), payload, self)
      ensures self.sent == old(self.sent) + JoinReplies(old(groups), payload)
      ensures self.state == old(self.state) && self.username == old(self.username)
    {
      var i := FindGroup(payload);
      if i < |groups| {
        assert groups[i] in groups;
        UpdateGroupsOk(groups, i, groups[i].Add(self));
        groups := groups[i := groups[i].Add(self)];
        var _ := self.WriteToClient(OkJoined(groups[i].name));
      }
      var _ := self.WriteToClient(ErrGroupNotFound);
      KeepsValid();
    }

    // -------------------------------------------------------------------------
    // QUITGROUP
    // -------------------------------------------------------------------------

    /** The inner loop of QUITGROUP over the member list `ms`: the first member whose
        username is `u`, or |ms| when there is none. `who` is the usernames at this instant. */
    method FindMember(ms: seq<Session>, u: Option<string>, ghost who: NameMap) returns (j: nat)
      requires forall m :: m in ms ==> NameOf(who, m) == m.username
      requires MemberScanSafe(ms, who, u)
      ensures j == FindUser(ms, who, u)
    {
      j := 0;
      while j < |ms|
        invariant j <= FindUser(ms, who, u)
      {
        var ct := ms[j];
        assert ct.username.Some?;
        if ct.username == u {
          return;
        }
        j := j + 1;
      }
    }

    /** One pass of the QUITGROUP loop, over the group `ctg`: a group named exactly `key`
        loses its first member whose username is `u`, and the pass reports that with the
        success line; a group of another name is left alone and earns the does-not-exist
        error. Returns the group after the pass and the lines the pass writes. */
    method LeaveGroup(ctg: Group, key: string, u: Option<string>, ghost who: NameMap) returns (left: Group, replies: seq<string>)
      requires forall m :: m in ctg.members ==> NameOf(who, m) == m.username
      requires ctg.name == key ==> MemberScanSafe(ctg.members, who, u)
      ensures left == LeftGroup(ctg, who, key, u)
      ensures replies == LeaveReplies(ctg, who, key, u)
    {
      left, replies := ctg, [];
      if ctg.name == key {
        var j := FindMember(ctg.members, u, who);
        if j < |ctg.members| {
          var ct := ctg.members[j];
          RemoveFirstIsRemoveAt(ctg.members, j);
          left := ctg.Delete(ct);
          replies := [OkLeft(ctg.name)];
        }
      } else {
        replies := [ErrGroupNotExist];
      }
    }

    /** QUITGROUP: every group named exactly like the payload loses the caller's entry;
        every other group earns the caller one does-not-exist error. The groups after each
        pass are collected and become the group list once the loop is done. */
    method QuitGroup(self: Session, payload: string)
      requires Valid() && self in accepted
      requires QuitScanSafe(groups, Usernames(), payload, self.username)
      modifies `groups, self`sent
      ensures Valid()
      ensures groups == QuitGroups(old(groups), old(Usernames()), payload, old(self.username))
      ensures self.sent == old(self.sent) + QuitReplies(old(groups), old(Usernames()), payload, old(self.username))
    {
      ghost var who := Usernames();
      var u := self.username;
      var gs := groups;
      var kept: seq<Group> := [];
      var i := 0;
      while i < |gs|
        modifies self`sent
        invariant 0 <= i <= |gs|
        invariant kept == QuitGroups(gs[..i], who, payload, u)
        invariant GroupsOk(kept)
        invariant self.sent == old(self.sent) + QuitReplies(gs[..i], who, payload, u)
      {
        QuitStep(gs, i, who, payload, u, old(self.sent));
        assert gs[i] in gs;
        var ctg, replies := LeaveGroup(gs[i], payload, u, who);
        LeftGroupWithin(gs[i], who, payload, u);
        kept := kept + [ctg];
        self.WriteReply(replies);
        i := i + 1;
      }
      assert gs[..i] == gs;
      groups := kept;
      KeepsValid();
    }

    // -------------------------------------------------------------------------
    // KICKUSER
    // -------------------------------------------------------------------------

    /** The outer KICKUSER loop: the first group whose name equals `key` ignoring case and
        whose owner's username is `caller`, or |groups|. */
    method FindOwnedGroup(key: string, caller: Option<string>) returns (i: nat)
      requires GroupsOk(groups)
      requires KickScanSafe(groups, Usernames(), key, caller)
      ensures i == FindOwned(groups, Usernames(), key, caller)
    {
      ghost var who := Usernames();
      i := 0;
      while i < |groups|
        invariant i <= FindOwned(groups, who, key, caller)
      {
        var ctg := groups[i];
        if EqualsIgnoreCase(ctg.name, key) {
          assert NameOf(who, ctg.owner) == ctg.owner.username;
          assert ctg.owner.username.Some?;
          if ctg.owner.username == caller {
            return;
          }
        }
        i := i + 1;
      }
    }

    /** The inner KICKUSER loop over the member list `ms`: its first member whose username
        equals `target` ignoring case, or |ms|. */
    method FindKickTarget(ms: seq<Session>, target: string) returns (j: nat)
      requires forall m :: m in ms ==> m in accepted
      ensures j == FindTarget(ms, Usernames(), target)
    {
      ghost var who := Usernames();
      j := 0;
      while j < |ms|
        invariant j <= FindTarget(ms, who, target)
      {
        var clientThread := ms[j];
        assert NameOf(who, clientThread) == clientThread.username;
        if clientThread.username.Some? && EqualsIgnoreCase(target, clientThread.username.value) {
          return;
        }
        j := j + 1;
      }
    }

    /** The group-list half of KICKUSER: examine only the first group whose name matches
        `groupKick` ignoring case and whose owner's username is `caller`, and remove from it
        its first member named `userKick` ignoring case. */
    method KickFromGroups(groupKick: string, userKick: string, caller: Option<string>) returns (kicked: bool)
      requires GroupsOk(groups)
      requires KickScanSafe(groups, Usernames(), groupKick, caller)
      modifies this
      ensures GroupsOk(groups)
      ensures threads == old(threads) && accepted == old(accepted)
      ensures groups == Kicked(old(groups), old(Usernames()), groupKick, userKick, caller)
      ensures kicked == KickSucceeds(old(groups), old(Usernames()), groupKick, userKick, caller)
    {
      ghost var before, who := groups, Usernames();
      kicked := false;
      var i := FindOwnedGroup(groupKick, caller);
      if i < |groups| {
        assert groups[i] in groups;
        var j := FindKickTarget(groups[i].members, userKick);
        ghost var after := before[i := before[i].(members := RemoveAt(before[i].members, j))];
        assert after == Kicked(before, who, groupKick, userKick, caller);
        if j < |groups[i].members| {
          var clientThread := groups[i].members[j];
          RemoveFirstIsRemoveAt(groups[i].members, j);
          assert groups[i] in groups;
          UpdateGroupsOk(groups, i, groups[i].Delete(clientThread));
          groups := groups[i := groups[i].Delete(clientThread)];
          kicked := true;
        }
      }
    }

    /** KICKUSER `group-user`: only the first group whose name matches ignoring case and
        whose owner's username is the caller's is examined. */
    method KickUser(self: Session, payload: string)
      requires Valid() && self in accepted
      requires |JavaSplit(payload, '-')| >= 2
      requires KickScanSafe(groups, Usernames(), JavaSplit(payload, '-')[0], self.username)
      modifies this, self
      ensures Valid()
      ensures threads == old(threads) && accepted == old(accepted)
      ensures var parts := JavaSplit(payload, '-');
        groups == Kicked(old(groups), old(Usernames()), parts[0], parts[1], self.username) &&
        self.sent == old(self.sent) +
          [if KickSucceeds(old(groups), old(Usernames()), parts[0], parts[1], self.username)
           then OkKicked(payload) else ErrKickFailed]
      ensures self.state == old(self.state) && self.username == old(self.username)
    {
      var messageSplitKick := JavaSplit(payload, '-');
      var groupKick := messageSplitKick[0];
      var userKick := messageSplitKick[1];
      var kicked := KickFromGroups(groupKick, userKick, self.username);
      if kicked {
        var _ := self.WriteToClient(OkKicked(payload));
      } else {
        var _ := self.WriteToClient(ErrKickFailed);
      }
      KeepsValid();
    }

    // -------------------------------------------------------------------------
    // QUIT, unknown commands, and the switch
    // -------------------------------------------------------------------------

    /** QUIT: the session finishes and says goodbye. */
    method Quit(self: Session)
      requires Valid() && self in accepted
      modifies self
      ensures Valid()
      ensures self.state == FINISHED && self.username == old(self.username)
      ensures self.sent == old(self.sent) + [OkGoodbye]
    {
      self.state := FINISHED;
      var _ := self.WriteToClient(OkGoodbye);
    }

    /** UNKOWN: an error line and nothing else. */
    method Unknown(self: Session)
      requires Valid() && self in accepted
      modifies self
      ensures Valid()
      ensures self.state == old(self.state) && self.username == old(self.username)
      ensures self.sent == old(self.sent) + [ErrUnknown]
    {
      var _ := self.WriteToClient(ErrUnknown);
    }

    /** One pass of the read loop of ClientThread.run on a received line. */
    method Dispatch(self: Session, message: Message) returns (ghost order: seq<Session>)
      requires Valid() && self in accepted && (self.state == CONNECTING || self.state == CONNECTED)
      requires message.kind == PRIVATE ==>
        |JavaSplit(message.payload, '-')| >= 2 && forall s :: s in threads ==> s.username.Some?
      requires message.kind == QUITGROUP ==> QuitScanSafe(groups, Usernames(), message.payload, self.username)
      requires message.kind == KICKUSER ==>
        |JavaSplit(message.payload, '-')| >= 2 &&
        KickScanSafe(groups, Usernames(), JavaSplit(message.payload, '-')[0], self.username)
      modifies this, threads
      ensures Valid()
      ensures threads == old(threads) && accepted == old(accepted)
      ensures message.kind == QUIT ==> self.state == FINISHED
      ensures message.kind == HELO ==> (self.state == FINISHED <==> !ValidUsername(message.payload))
      ensures message.kind != HELO && message.kind != QUIT ==> self.state == old(self.state)
      ensures message.kind != HELO ==> self.username == old(self.username)
      ensures forall s :: s in threads && s != self ==> s.state == old(s.state) && s.username == old(s.username)
      ensures message.kind == HELO ==>
        if !ValidUsername(message.payload) then self.username == old(self.username)
        else if exists ct :: ct in threads && ct != self && ct.username == Some(message.payload) then
          self.state == old(self.state) && self.username == old(self.username)
        else self.state == CONNECTED && self.username == Some(message.payload)
      ensures (message.kind != NEWGROUP && message.kind != JOINGROUP &&
               message.kind != QUITGROUP && message.kind != KICKUSER) ==> groups == old(groups)
      ensures message.kind != BCST && message.kind != PRIVATE ==>
        forall s :: s in threads && s != self ==> s.sent == old(s.sent)
      ensures message.kind == HELO ==>
        self.sent == old(self.sent) +
          [if !ValidUsername(message.payload) then ErrInvalidUsername
           else if exists ct :: ct in threads && ct != self && ct.username == Some(message.payload) then ErrAlreadyLoggedIn
           else OkUsername(message.payload)]
      ensures message.kind == BCST ==>
        (forall s :: s in threads && s != self ==> s.sent == old(s.sent) + [BroadcastLine(self.username, message.payload)]) &&
        self.sent == old(self.sent) + [Ok]
      ensures message.kind == PRIVATE ==>
        var parts := JavaSplit(message.payload, '-');
        var found := exists ct :: ct in threads && ct.username == Some(parts[0]);
        forall s :: s in threads ==>
          s.sent == old(s.sent) +
            (if s.username == Some(parts[0]) then [PrivateNote(self.username, parts[1])] else []) +
            (if s == self then [if found then OkPrivate(parts[0]) else ErrPrivate] else [])
      ensures message.kind == ALLCLIENTS ==>
        (forall s :: s in order <==> s in old(threads)) &&
        (forall i, j :: 0 <= i < j < |order| ==> order[i] != order[j]) &&
        self.sent == old(self.sent) + [Ok + " " + ClientEntries(order)]
      ensures message.kind == NEWGROUP ==>
        groups == old(groups) + [Group(message.payload, self, [])] &&
        self.sent == old(self.sent) + [OkNewGroup(message.payload)]
      ensures message.kind == ALLGROUPS ==> self.sent == old(self.sent) + [Ok + GroupsText(groups)]
      ensures message.kind == JOINGROUP ==>
        groups == Joined(old(groups), message.payload, self) &&
        self.sent == old(self.sent) + JoinReplies(old(groups), message.payload)
      ensures message.kind == QUITGROUP ==>
        groups == QuitGroups(old(groups), old(Usernames()), message.payload, old(self.username)) &&
        self.sent == old(self.sent) + QuitReplies(old(groups), old(Usernames()), message.payload, old(self.username))
      ensures message.kind == KICKUSER ==>
        var parts := JavaSplit(message.payload, '-');
        groups == Kicked(old(groups), old(Usernames()), parts[0], parts[1], self.username) &&
        self.sent == old(self.sent) +
          [if KickSucceeds(old(groups), old(Usernames()), parts[0], parts[1], self.username)
           then OkKicked(message.payload) else ErrKickFailed]
      ensures message.kind == QUIT ==> self.sent == old(self.sent) + [OkGoodbye]
      ensures message.kind == UNKOWN ==> self.sent == old(self.sent) + [ErrUnknown]
    {
      assert self in threads;
      order := [];
      match message.kind
      case HELO => Helo(self, message.payload);
      case BCST => Broadcast(self, message.payload);
      case PRIVATE => Private(self, message.payload);
      case ALLCLIENTS => order := AllClients(self);
      case NEWGROUP => NewGroup(self, message.payload);
      case ALLGROUPS => AllGroups(self);
      case JOINGROUP => JoinGroup(self, message.payload);
      case QUITGROUP => QuitGroup(self, message.payload);
      case KICKUSER => KickUser(self, message.payload);
      case QUIT => Quit(self);
      case UNKOWN => Unknown(self);
    }

    // -------------------------------------------------------------------------
    // Leaving the server
    // -------------------------------------------------------------------------

    /** After the read loop: `threads.remove(this)`. */
    method Close(self: Session)
      requires Valid() && self in accepted && self.state == FINISHED
      modifies this
      ensures Valid()
      ensures threads == old(threads) - {self} && accepted == old(accepted) && groups == old(groups)
    {
      threads := threads - {self};
    }

    /** kill: the session leaves the connected set and finishes; its group memberships,
        username and outbox stay as they were. */
    method Kill(s: Session)
      requires Valid() && s in accepted
      modifies this, s
      ensures Valid()
      ensures threads == old(threads) - {s} && accepted == old(accepted) && groups == old(groups)
      ensures s.state == FINISHED && s.username == old(s.username)
      ensures s.sent == old(s.sent)
    {
      threads := threads - {s};
      s.state := FINISHED;
    }

    /** DropClientThread's effect: `ct.kill()` and then `threads.remove(ct)`, which finds
        nothing more to do. */
    method DropConnection(ct: Session)
      requires Valid() && ct in accepted
      modifies this, ct
      ensures Valid()
      ensures threads == old(threads) - {ct} && accepted == old(accepted) && groups == old(groups)
      ensures ct.state == FINISHED && ct.username == old(ct.username)
      ensures ct.sent == old(ct.sent)
    {
      Kill(ct);
      ghost var afterKill := threads;
      threads := threads - {ct};
      assert threads == afterKill;
    }

    /** A second kill of the same session changes nothing. */
    method KillTwice(s: Session)
      requires Valid() && s in accepted
      modifies this, s
      ensures Valid()
      ensures threads == old(threads) - {s} && accepted == old(accepted) && groups == old(groups)
      ensures s.state == FINISHED && s.username == old(s.username) && s.sent == old(s.sent)
    {
      Kill(s);
      ghost var threadsOnce, stateOnce, sentOnce := threads, s.state, s.sent;
      Kill(s);
      assert threads == threadsOnce && s.state == stateOnce && s.sent == sentOnce;
    }
  }
}
