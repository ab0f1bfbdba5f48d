// The protocol vocabulary: message types, the server configuration the core reads,
// the username format, and the exact response lines the dispatcher writes.

module Protocol {
  import opened Text

  /** The command tags a parsed line can carry (the source spells the last one UNKOWN). */
  datatype MessageType =
    | HELO | BCST | PRIVATE | ALLCLIENTS | NEWGROUP | ALLGROUPS
    | JOINGROUP | QUITGROUP | KICKUSER | QUIT | UNKOWN

  /** A parsed incoming line: its type and the rest of the line. */
  datatype Message = Message(kind: MessageType, payload: string)

  /** The configuration values the core reads. */
  datatype Config = Config(
    welcomeMessage: string,
    simulateConnectionLost: bool,
    simulateDroppedPackets: bool,
    simulateCorruptedPackets: bool)

  /** One character of the class `[a-zA-Z0-9_]`. */
  predicate IsUsernameChar(c: char)
  {
    'a' <= c <= 'z' || 'A' <= c <= 'Z' || '0' <= c <= '9' || c == '_'
  }

  /** `payload.matches("[a-zA-Z0-9_]{3,14}")`: the whole payload is 3 to 14 such characters. */
  predicate ValidUsername(s: string)
  {
    3 <= |s| <= 14 && forall i :: 0 <= i < |s| ==> IsUsernameChar(s[i])
  }

  /** A valid username never holds the dash that PRIVATE and KICKUSER split on,
      and it is never empty, so it can always be named as the first part of such a payload. */
  lemma ValidUsernameHasNoDash(s: string)
    requires ValidUsername(s)
    ensures '-' !in s && s != ""
  {
  }

  /** The two reply prefixes: every success line starts with Ok, every error line with Err. */
  const Ok := "+OK"
  const Err := "-ERR"

  /** No success line is an error line. */
  lemma OkIsNotErr(a: string, b: string)
    ensures Ok + a != Err + b
  {
    assert (Ok + a)[0] != (Err + b)[0];
  }

  function Welcome(text: string): string { "HELO " + text }

  const ErrInvalidUsername := Err + " username has an invalid format (only characters, numbers and underscores are allowed)"
  const ErrAlreadyLoggedIn := Err + " user already logged in"
  function OkUsername(name: string): string { Ok + " " + name }

  function BroadcastLine(sender: Option<string>, payload: string): string
  {
    "BCST [" + Show(sender) + "] " + payload
  }

  function PrivateNote(sender: Option<string>, text: string): string
  {
    Show(sender) + "has sent you a message: " + text
  }
  function OkPrivate(to: string): string { Ok + " Private message has been sent to client: " + to }
  const ErrPrivate := Err + " Private message sending has failed."

  function ClientEntry(username: Option<string>, descriptor: string): string
  {
    "Username: " + Show(username) + " is connected to the server. Socket: " + descriptor
  }

  function OkNewGroup(name: string): string { Ok + " New group with the name " + name + " has been added." }

  function GroupEntry(name: string, size: nat): string
  {
    "Group: " + name + ", has " + Decimal(size) + " participants. \n"
  }

  function OkJoined(name: string): string { Ok + " You have been added to the group: " + name }
  const ErrGroupNotFound := Err + " Group name not found"

  function OkLeft(name: string): string { Ok + " You are no longer a participant in this group: " + name }
  const ErrGroupNotExist := Err + " Group name does not exist."

  function OkKicked(payload: string): string { Ok + " User " + payload + " has been kicked from the group" }
  const ErrKickFailed := Err + " Failed to kick the selected user"

  const OkGoodbye := Ok + " Goodbye"
  const ErrUnknown := Err + " Unkown command"
}
