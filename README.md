# Chat server core, modelled in Dafny

This project models the core of a small line-based chat server written in Java
(`src/nl/saxion/internettech/Server.java`). The server accepts connections and gives each
one a `ClientThread`. That thread greets the client, then reads one command per line.
Commands log in (HELO), broadcast (BCST), send a private message (PRIVATE), list the
clients (ALLCLIENTS), create, list, join and leave groups (NEWGROUP, ALLGROUPS, JOINGROUP,
QUITGROUP), kick a member from an owned group (KICKUSER) and quit (QUIT). Every reply goes
through `writeToClient`. When the configuration asks for it, `writeToClient` drops a line
or corrupts it by overwriting characters with `X`. A separate thread can kill a session to
simulate a lost connection.

Modules:

- `Text` (`text.dfy`) covers the Java `String` operations the handlers use:
  - `equalsIgnoreCase`, proved to be an equivalence relation;
  - `split("-")`, with its trailing-empty-piece rule, proved against a join;
  - `Integer.toString`, with a decimal round trip.
- `Protocol` (`protocol.dfy`) holds:
  - the message types and the configuration values the core reads;
  - the username format `[a-zA-Z0-9_]{3,14}`;
  - every reply line, spelled exactly as the server writes it.
- `Lists` (`lists.dfy`) covers `ArrayList.indexOf` and `ArrayList.remove(Object)`.
- `Faults` (`faults.dfy`) covers `writeToClient` and `corrupt`.
  - Each random draw is an explicit `Fault` value.
  - `corrupt` keeps its `char[]` loop, shown equal to a functional definition, `Corrupted`.
  - The lines that reach the socket (`Wire`) are a function of every message handed to
    `writeToClient`.
- `Sessions` (`sessions.dfy`) defines `Session`, the `ClientThread` object:
  - its mutable state, username and the list of messages handed to `writeToClient`;
  - the `writeToClient` method itself.
- `Groups` (`groups.dfy`) covers `ClientThreadGroup` as a value (name, owner, ordered
  member list). It gives the effect of JOINGROUP, QUITGROUP and KICKUSER on the group list
  as functions, with the lemmas about them.
- `ChatServer` (`server.dfy`) defines `Server`:
  - the connected-session set `threads` and the group list `groups`;
  - one method per command case of `ClientThread.run`, and the dispatcher over them;
  - the accept step, `kill` and the drop-connection thread.
  - Every method keeps the server invariant `Valid()`: usernames of connected sessions are
    unique, and groups only refer to sessions the server accepted. Each command method, and the
    dispatcher for every command, states the new group list and the lines handed to each
    session, in terms of the functions of `Groups`.

The model keeps the behaviour of the code as written, including its quirks:

- JOINGROUP writes `-ERR Group name not found` even after a successful join, because its
  `break` only leaves the `for` loop.
- QUITGROUP compares names case-sensitively. It writes one `-ERR Group name does not
  exist.` for every group whose name differs, and nothing for a matching group the caller
  is not in.
- KICKUSER examines only the first group that matches ignoring case and is owned by the
  caller.
- NEWGROUP never checks that the name is free.
- The private-message text has no space after the sender's name.
- A username that was never set prints as `null` (`Text.Show`).

## Model

| member | source | states |
|---|---|---|
| Text.Show | src/nl/saxion/internettech/Server.java:159 | Defines string concatenation of a username: the name itself, or `null` for a session that has not logged in. |
| Text.CharEqualsIgnoreCaseIsUpperEquality | src/nl/saxion/internettech/Server.java:213 | The per-character test of `equalsIgnoreCase` (equal, equal upper-cased, or equal upper- then lower-cased) holds exactly when the upper-cased characters are equal. |
| Text.EqualsIgnoreCaseIsEquivalence | src/nl/saxion/internettech/Server.java:213 | `equalsIgnoreCase`, as used for the group and user lookups, is reflexive, symmetric and transitive. |
| Text.EqualsIgnoreCase | src/nl/saxion/internettech/Server.java:213 | Defines `a.equalsIgnoreCase(b)`: same length, and each pair of characters passes the per-character test. |
| Text.Pieces | src/nl/saxion/internettech/Server.java:167 | Splitting on the separator always yields at least one piece. |
| Text.PiecesJoin | src/nl/saxion/internettech/Server.java:167 | Re-joining the pieces of a string with the separator gives the string back, and no piece holds the separator. |
| Text.StripTrailingEmpty | src/nl/saxion/internettech/Server.java:167 | The array `split` returns is a prefix of the pieces, does not end in an empty piece, and only empty pieces were dropped. |
| Text.JavaSplit | src/nl/saxion/internettech/Server.java:167 | `split("-")`: a string without the separator is returned whole. Otherwise the result is a prefix of the pieces, and only empty pieces at the end are dropped. No part holds the separator. |
| Text.PiecesOfPair | src/nl/saxion/internettech/Server.java:246-248 | `a-b` with dash-free parts has exactly the pieces `a` and `b`. |
| Text.PiecesOfSeparatorFree | src/nl/saxion/internettech/Server.java:167-168 | A string without a dash is one piece, itself. |
| Text.SplitPair | src/nl/saxion/internettech/Server.java:246-248 | `split("-")` of `a-b`, with dash-free parts and `b` non-empty, is exactly `[a, b]`, so a payload built that way gives these two parts to PRIVATE and KICKUSER. |
| Text.Decimal | src/nl/saxion/internettech/Server.java:206 | The printed participant count is a non-empty string of decimal digits with no leading zero. |
| Text.DecimalRoundTrip | src/nl/saxion/internettech/Server.java:206 | Reading the printed participant count back as a decimal number gives the count. |
| Protocol.ValidUsername | src/nl/saxion/internettech/Server.java:133 | Defines the HELO format check `[a-zA-Z0-9_]{3,14}`: 3 to 14 characters, each a letter, digit or underscore. |
| Protocol.ValidUsernameHasNoDash | src/nl/saxion/internettech/Server.java:133 | A name accepted by the HELO format check is non-empty and has no dash, so it can be the first part of a PRIVATE or KICKUSER payload. |
| Protocol.OkIsNotErr | src/nl/saxion/internettech/Server.java:235-240 | No `+OK` reply line equals a `-ERR` reply line. |
| Lists.IndexOf | src/nl/saxion/internettech/Server.java:440 | The position `ArrayList.remove(Object)` searches for is the first one holding the value, or the length when none does. |
| Lists.RemoveFirst | src/nl/saxion/internettech/Server.java:440 | `ArrayList.remove(Object)` shortens the list by one exactly when the value is present, and otherwise leaves the list unchanged. |
| Lists.RemoveFirstMultiset | src/nl/saxion/internettech/Server.java:440 | `deleteClientThread` removes exactly one copy of a member that is present and leaves the list unchanged otherwise. |
| Lists.RemoveFirstIsRemoveAt | src/nl/saxion/internettech/Server.java:230-234 | Deleting by value the member a scan stopped at (no earlier equal entry) removes that position. |
| Lists.RemoveAtShape | src/nl/saxion/internettech/Server.java:440 | Removing a position shortens the list by one and keeps the other members in order. |
| Lists.RemoveAtWithin | src/nl/saxion/internettech/Server.java:440 | Removing a member never adds a session to the list. |
| Faults.Corrupted | src/nl/saxion/internettech/Server.java:361-372 | Corruption keeps the length, changes characters only to `X`, leaves everything before the start offset alone, and overwrites the start offset when it lies inside the message. |
| Faults.CorruptedExactly | src/nl/saxion/internettech/Server.java:366-369 | A character becomes `X` exactly when corrupt's loop visits its offset, and is unchanged otherwise. |
| Faults.Corrupt | src/nl/saxion/internettech/Server.java:361-372 | The `char[]` loop of `corrupt` returns exactly `Corrupted` of the message, the start draw and the step draws. |
| Faults.Delivered | src/nl/saxion/internettech/Server.java:319-347 | Defines what one `writeToClient` call puts on the socket. Nothing, when the drop simulation is on and its draw hit. Otherwise the message, corrupted when that simulation is on and its draw hit. |
| Faults.DeliveredShape | src/nl/saxion/internettech/Server.java:314-353 | One `writeToClient` writes nothing exactly when the drop simulation is on and its draw hit. Otherwise it writes one line as long as the message, which is the message itself when neither fault applies. |
| Faults.Wire | src/nl/saxion/internettech/Server.java:340-347 | Defines the lines on the socket after a run of `writeToClient` calls: what each call delivers, in call order, the k-th call using the k-th draws. |
| Faults.WireAppend | src/nl/saxion/internettech/Server.java:314-353 | Each further `writeToClient` extends the socket output by exactly what that call delivers, using the draws of that call. |
| Faults.WireLossless | src/nl/saxion/internettech/Server.java:319-347 | With both simulations off, the socket carries every message, unchanged and in order. |
| Faults.WireWithoutDrops | src/nl/saxion/internettech/Server.java:340-347 | With drops off, every message produces one line of its length that differs from it only by `X` characters. |
| Faults.WireNeverGrows | src/nl/saxion/internettech/Server.java:340 | Whatever the draws, the socket never carries more lines than were handed to `writeToClient`. |
| Sessions.Session.constructor | src/nl/saxion/internettech/Server.java:93-96 | A new client thread is INIT, has no username and has written nothing. |
| Sessions.Session.WriteToClient | src/nl/saxion/internettech/Server.java:314-353 | The message is recorded as handed over, the line delivered is `Delivered` of the configuration, the draws of this call and the message, and state and username are untouched. |
| Sessions.Session.WriteReply | src/nl/saxion/internettech/Server.java:235-240 | The zero or one line a QUITGROUP pass produces is exactly what gets handed to `writeToClient`. |
| Sessions.ClientEntries | src/nl/saxion/internettech/Server.java:188-191 | Defines the ALLCLIENTS text for an order of the sessions: one `Username: ... Socket: ...` entry per session, in that order. |
| Groups.Group.Add | src/nl/saxion/internettech/Server.java:436-438 | `setClientThreads` appends the session at the end and keeps the name, owner and earlier members. |
| Groups.Group.Delete | src/nl/saxion/internettech/Server.java:440 | `deleteClientThread` keeps name and owner. It removes one copy of a member that is present, changes nothing otherwise, and never adds a member. |
| Groups.Group.Size | src/nl/saxion/internettech/Server.java:442-444 | Defines `getGroupSize` as the number of entries in the member list. |
| Groups.DeleteUndoesAdd | src/nl/saxion/internettech/Server.java:436-444 | Adding a non-member and deleting it restores the group; adding raises `getGroupSize` by one. |
| Groups.FindByName | src/nl/saxion/internettech/Server.java:212-213 | The JOINGROUP search stops at the first group whose name equals the key ignoring case, or at the end. |
| Groups.Joined | src/nl/saxion/internettech/Server.java:210-221 | The groups after JOINGROUP: as many as before, and every group but the first case-insensitive match is unchanged. That match has the caller appended. |
| Groups.JoinReplies | src/nl/saxion/internettech/Server.java:215-220 | Defines the lines JOINGROUP writes: the success line naming the first match, if there is one, then the not-found error in every case. |
| Groups.JoinedChangesOnlyFirstMatch | src/nl/saxion/internettech/Server.java:210-221 | JOINGROUP appends the caller to the first group matching the key ignoring case and to no other. Names, owners and all other member lists are unchanged. |
| Groups.JoinRepliesEndInError | src/nl/saxion/internettech/Server.java:210-221 | JOINGROUP's last line is always the not-found error. A success line comes before it exactly when some group matches. |
| Groups.FindByNameIgnoresKeyCase | src/nl/saxion/internettech/Server.java:213 | Keys equal ignoring case find the same group. |
| Groups.JoinIgnoresKeyCase | src/nl/saxion/internettech/Server.java:210-221 | JOINGROUP with keys equal ignoring case has the same effect and the same replies. |
| Groups.FindByNameAppend | src/nl/saxion/internettech/Server.java:194-221 | Appending a group (NEWGROUP) never moves an earlier match. Without one, the new group is found exactly when its name matches. |
| Groups.JoinAfterNewGroup | src/nl/saxion/internettech/Server.java:194-221 | NEWGROUP then JOINGROUP of the same name makes the joiner the only member of the new group, with replies success then not-found, when no older group matches. When an older group matches, that older group takes the joiner. |
| Groups.SameUser | src/nl/saxion/internettech/Server.java:232 | Defines `ct.getUsername().equals(getUsername())` for a member with a name: it holds only when the caller has a name and it is the member's. |
| Groups.FindUser | src/nl/saxion/internettech/Server.java:230-233 | The QUITGROUP member scan stops at the first member whose username is the caller's, or at the end. |
| Groups.LeftGroup | src/nl/saxion/internettech/Server.java:226-238 | Defines one QUITGROUP pass on a group: a group named exactly like the payload loses its first member with the caller's username, if any; any other group is unchanged. |
| Groups.LeaveReplies | src/nl/saxion/internettech/Server.java:226-241 | One QUITGROUP pass writes at most one line. |
| Groups.QuitGroups | src/nl/saxion/internettech/Server.java:222-243 | The groups after QUITGROUP: one pass per group, in list order, so there are as many as before. |
| Groups.QuitReplies | src/nl/saxion/internettech/Server.java:224-242 | Defines all the lines QUITGROUP writes: each group's pass lines, in list order. |
| Groups.QuitStep | src/nl/saxion/internettech/Server.java:224-242 | One more QUITGROUP pass appends that group's result and that pass's lines. |
| Groups.QuitGroupsEffect | src/nl/saxion/internettech/Server.java:222-243 | QUITGROUP keeps the number of groups, names and owners. It changes only groups named exactly like the payload, from each removing the first member with the caller's username. |
| Groups.CountAppend | src/nl/saxion/internettech/Server.java:224-242 | Counting a reply line over two runs of lines adds up. |
| Groups.QuitErrorPerOtherGroup | src/nl/saxion/internettech/Server.java:224-242 | QUITGROUP writes the does-not-exist error exactly once per group whose name differs from the payload. |
| Groups.OwnedMatch | src/nl/saxion/internettech/Server.java:253 | Defines the KICKUSER group test: the name equals the key ignoring case, and the owner's username (not the owner object) is the caller's. |
| Groups.FindOwned | src/nl/saxion/internettech/Server.java:251-253 | The KICKUSER group scan stops at the first group that matches ignoring case and whose owner's username is the caller's, or at the end. |
| Groups.TargetMatch | src/nl/saxion/internettech/Server.java:257 | Defines `userKick.equalsIgnoreCase(member.username)`: false for a member without a username. |
| Groups.FindTarget | src/nl/saxion/internettech/Server.java:255-257 | The KICKUSER member scan stops at the first member whose username equals the target ignoring case, or at the end. |
| Groups.Kicked | src/nl/saxion/internettech/Server.java:244-267 | The groups after KICKUSER: as many as before, and every group but the first owned case-insensitive match is unchanged. That match loses its first member matching the target. |
| Groups.KickSucceeds | src/nl/saxion/internettech/Server.java:251-267 | Defines the `kicked` flag: there is an owned case-insensitive match, and its member scan found the target. |
| Groups.KickSucceedsIff | src/nl/saxion/internettech/Server.java:251-267 | KICKUSER succeeds exactly when the first matching owned group has a member matching the target; later groups are never considered. |
| Groups.KickedEffect | src/nl/saxion/internettech/Server.java:244-274 | KICKUSER keeps the number of groups and every group but the first matching owned one. It changes the groups exactly when it reports success. |
| Groups.KickRemovesTarget | src/nl/saxion/internettech/Server.java:255-262 | A successful kick removes exactly the first matching member of the examined group (one copy), keeping the others in order. |
| Groups.KickNeedsOwnership | src/nl/saxion/internettech/Server.java:253-272 | A caller owning no group of that name changes nothing and is told the kick failed. |
| ChatServer.GroupsText | src/nl/saxion/internettech/Server.java:204-207 | Defines the ALLGROUPS text: one `Group: <name>, has <size> participants.` entry per group, in list order. |
| ChatServer.ListingAfterNewGroup | src/nl/saxion/internettech/Server.java:194-209 | After NEWGROUP, ALLGROUPS lists the new group last with 0 participants, after the old listing. |
| ChatServer.Server.UpdateGroupsOk | src/nl/saxion/internettech/Server.java:214 | Replacing one group by a well-formed one keeps every group referring only to accepted sessions. |
| ChatServer.Server.LeftGroupWithin | src/nl/saxion/internettech/Server.java:234 | A QUITGROUP pass keeps a group's owner and members accepted sessions. |
| ChatServer.Server.KeepsValid | src/nl/saxion/internettech/Server.java:118-286 | The server invariant survives a step that changes no state, username or session set and keeps the groups well formed. |
| ChatServer.Server.constructor | src/nl/saxion/internettech/Server.java:28-33 | The server starts with no connected sessions and no groups, and satisfies its invariant. |
| ChatServer.Server.Accept | src/nl/saxion/internettech/Server.java:37-49 | An accepted connection is a fresh INIT session with no username and nothing written, added to `threads`. A drop thread is started for it exactly when the connection-loss simulation is on. |
| ChatServer.Server.Start | src/nl/saxion/internettech/Server.java:114-116 | A starting session becomes CONNECTING and is sent `HELO <welcome message>`. |
| ChatServer.Server.UserExists | src/nl/saxion/internettech/Server.java:139-146 | The scan reports true exactly when some other connected session holds the name. |
| ChatServer.Server.Helo | src/nl/saxion/internettech/Server.java:131-154 | A malformed name finishes the session with the format error. A name held by another connected session is refused and nothing changes. Otherwise the session becomes CONNECTED under that name and is sent `+OK <name>`. The invariant, including unique names, is kept. |
| ChatServer.Server.Broadcast | src/nl/saxion/internettech/Server.java:155-163 | Every other connected session is sent `BCST [sender] payload` and the sender `+OK`. No state or username changes. |
| ChatServer.Server.Private | src/nl/saxion/internettech/Server.java:164-185 | The connected session named by the first part receives the note. The sender is sent the success line when such a session exists and the failure line otherwise. No one else receives anything. |
| ChatServer.Server.FindConnected | src/nl/saxion/internettech/Server.java:172-178 | The scan returns a connected session with the name when there is one, and reports none only when no connected session has it. |
| ChatServer.Server.ClientListing | src/nl/saxion/internettech/Server.java:188-191 | The listing has one entry per connected session, each exactly once, in the iteration order. |
| ChatServer.Server.AllClients | src/nl/saxion/internettech/Server.java:186-193 | The caller is sent `+OK ` followed by one entry per connected session. |
| ChatServer.Server.GroupListing | src/nl/saxion/internettech/Server.java:204-207 | The loop builds exactly the per-group entries with their sizes, in list order. |
| ChatServer.Server.AllGroups | src/nl/saxion/internettech/Server.java:203-209 | The caller is sent `+OK` followed by the group listing. |
| ChatServer.Server.NewGroup | src/nl/saxion/internettech/Server.java:194-202 | A group with the payload as name, the caller as owner and no members is appended, with no uniqueness check, and the caller is told so. |
| ChatServer.Server.FindGroup | src/nl/saxion/internettech/Server.java:212-219 | The JOINGROUP loop stops at `FindByName` of the groups and the payload. |
| ChatServer.Server.JoinGroup | src/nl/saxion/internettech/Server.java:210-221 | The groups become `Joined` and the caller is sent `JoinReplies`: the success line for a match, then always the not-found error. |
| ChatServer.Server.FindMember | src/nl/saxion/internettech/Server.java:230-238 | The inner QUITGROUP loop stops at `FindUser` of the member list. |
| ChatServer.Server.LeaveGroup | src/nl/saxion/internettech/Server.java:226-241 | One QUITGROUP pass yields exactly `LeftGroup` and `LeaveReplies` of that group. |
| ChatServer.Server.QuitGroup | src/nl/saxion/internettech/Server.java:222-243 | The groups become `QuitGroups` of the old groups and the caller is sent `QuitReplies`, keeping the invariant. |
| ChatServer.Server.FindOwnedGroup | src/nl/saxion/internettech/Server.java:251-253 | The outer KICKUSER loop stops at `FindOwned`. |
| ChatServer.Server.FindKickTarget | src/nl/saxion/internettech/Server.java:255-257 | The inner KICKUSER loop stops at `FindTarget`. |
| ChatServer.Server.KickFromGroups | src/nl/saxion/internettech/Server.java:249-267 | The groups become `Kicked` of the old groups, and the flag is set exactly when `KickSucceeds`. |
| ChatServer.Server.KickUser | src/nl/saxion/internettech/Server.java:244-274 | The groups become `Kicked` for the two parts of the payload. The caller is sent the success line with the whole payload when the kick succeeded, and the failure line otherwise. |
| ChatServer.Server.Quit | src/nl/saxion/internettech/Server.java:275-279 | The session finishes and is sent `+OK Goodbye`. |
| ChatServer.Server.Unknown | src/nl/saxion/internettech/Server.java:280-283 | The session is sent `-ERR Unkown command` and nothing else changes. |
| ChatServer.Server.Dispatch | src/nl/saxion/internettech/Server.java:118-286 | One pass of the read loop keeps the invariant and the session set. Only QUIT and a malformed HELO finish the session, and only HELO changes the username. Only the four group commands change the group list, and only BCST and PRIVATE write to other sessions. For each command it states the new group list and the lines it hands over, as the command's own method does. After HELO it states the caller's new state and username, and no other session's state or username ever changes. |
| ChatServer.Server.Close | src/nl/saxion/internettech/Server.java:288 | A finished session leaves `threads`; nothing else changes. |
| ChatServer.Server.Kill | src/nl/saxion/internettech/Server.java:298-308 | The session leaves `threads` and becomes FINISHED. Its username, its written lines and the groups are unchanged. |
| ChatServer.Server.DropConnection | src/nl/saxion/internettech/Server.java:67-78 | The drop thread's `kill` then `threads.remove` has the same effect as `kill` alone. |
| ChatServer.Server.KillTwice | src/nl/saxion/internettech/Server.java:298-308 | Killing a session twice has the effect of killing it once. It leaves `threads` and becomes FINISHED, and its username, its written lines and the groups are unchanged. |

## Left out

- Concurrency: each session's thread, the accept loop's `new Thread(ct).start()` and the drop thread all run interleaved in the server. The model runs one operation at a time on the shared state, and does not model races on `threads` or on the group list.
- The drop thread's random sleep of 10 to 20 seconds is left out; only its effect (`DropConnection`) is modelled.
- `new Random()` draws are parameters: each session gets an oracle giving the draws of its k-th `writeToClient` call.
- Faults.Corrupt: `corrupt` draws steps until the offset leaves the message. A zero step can repeat, so the model takes a finite list of steps and stops when it runs out. Offsets and lengths count Unicode scalar values (a Dafny `string`), while `toCharArray` counts UTF-16 code units. They agree only on text without supplementary characters. On a message such as `"😀a"`, Java can overwrite a different position, or half of a surrogate pair, which a Dafny `char` cannot hold.
- Sockets, streams and `IOException`: the output is the list of messages handed to `writeToClient`, and the socket's view of it is the ghost function `Session.Outbox`.
- `readLine` returning null is left out, as is closing the socket; the read loop itself is not modelled as a loop. `Dispatch` is one pass, and which line arrives next is the client's choice.
- `logMessage` and all console output are left out, because they do not affect the protocol.
- `Message` (the line parser behind `getMessageType` and `getPayload`) is not part of this model: `Dispatch` receives an already parsed message.
- `ServerConfiguration` is not part of this model: `Config` holds only the welcome message and the three simulation switches the core reads. `simulateConnectionLost` is read only by the accept step (`ChatServer.Server.Accept`), to decide whether a drop thread is started.
- `ServerState` is not part of this model: `Sessions.State` carries the four states the core uses.
- Text.EqualsIgnoreCase: `Text.ToUpper` and `Text.ToLower` map ASCII letters only, not Java's full Unicode case mapping. So `EqualsIgnoreCase`, and the JOINGROUP and KICKUSER lookups built on it (`Groups.FindByName`, `Groups.FindOwned`, `Groups.FindTarget`), agree with Java only on ASCII names. Under Java's mapping, `Text.CharEqualsIgnoreCaseIsUpperEquality` would fail: the Kelvin sign U+212A and `k` pass the three-step test but upper-case differently.
- Text.EqualsIgnoreCaseIsEquivalence: proved for the ASCII mapping above.
- ChatServer.Server.Private: requires every connected session to have a username and the payload to split into at least two parts. The loop throws `NullPointerException` on a session without a name scanned before the recipient, and `messageSplit[1]` throws on a payload without a second part; those crash paths are not modelled.
- ChatServer.Server.KickUser: requires the payload to split into at least two parts and `KickScanSafe` (no owner without a username among the matching groups scanned). Those are the cases where the source throws and ends the thread; they are not modelled.
- ChatServer.Server.Dispatch: passes on the requires of PRIVATE, QUITGROUP and KICKUSER, for the crash paths described on the neighbouring lines.
- ChatServer.Server.QuitGroup: requires `QuitScanSafe` (no member without a username scanned in a group named like the payload), for the same reason.
- ChatServer.Server.QuitGroup: the source changes each matching group's member list in place during the loop. The model collects the changed groups and installs the new list once the loop ends, which gives the same result because each pass touches only its own group.
- `ClientThreadGroup` objects are modelled as values in the group list, and their in-place updates (`setClientThreads`, `deleteClientThread`) as replacing that element. No group object is shared outside the list, so the two agree.
- `getName`, `setName`, `getOwner`, `setOwner` and `getClientThreads` are plain field accesses, modelled as field reads of `Group`. `setName` and `setOwner` are never called by the core.
- `getOutputStream` and a null output stream (a write before `run` opened it) are not modelled.
