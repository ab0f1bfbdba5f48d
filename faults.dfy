// The fault injector on the outgoing write path: writeToClient and corrupt.
// Every random draw becomes part of an explicit `Fault` value.

module Faults {

  /** A value of `random.nextInt(4)`: the first offset corrupt overwrites. */
  type Offset = x: nat | x < 4

  /** A value of `random.nextInt(10)`: how far corrupt advances (it may be 0). */
  type Step = x: nat | x < 10

  /** The random choices one call of writeToClient makes:
      `drop` is "nextInt(6) came out 0", `corrupt` is "nextInt(4) came out 0",
      then corrupt's own draws. Corrupt's loop draws until it leaves the message;
      `steps` is the finite supply of those draws. */
  datatype Fault = Fault(drop: bool, corrupt: bool, start: Offset, steps: seq<Step>)

  /** The message after corrupt's loop run from offset `x`: the character at `x` becomes
      'X', then the offset advances by the next step, until it reaches the end of the
      message (or the supplied steps run out). */
  function Corrupted(m: string, x: nat, steps: seq<Step>): (r: string)
    ensures |r| == |m|
    ensures forall i :: 0 <= i < |r| ==> r[i] == m[i] || r[i] == 'X'
    ensures forall i :: 0 <= i < x && i < |r| ==> r[i] == m[i]
    ensures x < |m| ==> r[x] == 'X'
    ensures |m| <= x ==> r == m
    decreases |steps|
  {
    if |m| <= x then m
    else if steps == [] then m[x := 'X']
    else Corrupted(m[x := 'X'], x + steps[0], steps[1..])
  }

  /** The offsets corrupt's loop visits inside a message of length `n`. */
  function Visited(x: nat, steps: seq<Step>, n: nat): set<nat>
    decreases |steps|
  {
    if n <= x then {}
    else if steps == [] then {x}
    else {x} + Visited(x + steps[0], steps[1..], n)
  }

  /** Corruption writes 'X' exactly at the visited offsets and nowhere else. */
  lemma {:induction false} CorruptedExactly(m: string, x: nat, steps: seq<Step>, i: nat)
    requires i < |m|
    ensures Corrupted(m, x, steps)[i] == if i in Visited(x, steps, |m|) then 'X' else m[i]
    decreases |steps|
  {
    if |m| <= x {
    } else if steps == [] {
    } else {
      CorruptedExactly(m[x := 'X'], x + steps[0], steps[1..], i);
    }
  }

  /** corrupt: copy the message into a char array and overwrite it in place. */
  method Corrupt(message: string, start: Offset, steps: seq<Step>) returns (r: string)
    ensures r == Corrupted(message, start, steps)
  {
    var chars := new char[|message|](i requires 0 <= i < |message| => message[i]);
    assert chars[..] == message;
    var x: nat := start;
    var i := 0;
    while x < chars.Length
      invariant 0 <= i <= |steps|
      invariant chars.Length == |message|
      invariant Corrupted(chars[..], x, steps[i..]) == Corrupted(message, start, steps)
      decreases |steps| - i
    {
      ghost var before := chars[..];
      chars[x] := 'X';
      assert chars[..] == before[x := 'X'];
      if i == |steps| {
        break;
      }
      assert steps[i..][0] == steps[i] && steps[i..][1..] == steps[i + 1..];
      assert Corrupted(before, x, steps[i..]) == Corrupted(before[x := 'X'], x + steps[i], steps[i + 1..]);
      x := x + steps[i];
      i := i + 1;
    }
    r := chars[..];
  }

  /** What one writeToClient call puts on the socket: nothing when the drop simulation is on
      and the drop draw hit; otherwise the message, corrupted when that simulation is on and
      its draw hit. */
  function Delivered(dropPackets: bool, corruptPackets: bool, f: Fault, message: string): (lines: seq<string>)
  {
    if dropPackets && f.drop then []
    else if corruptPackets && f.corrupt then [Corrupted(message, f.start, f.steps)]
    else [message]
  }

  /** A dropped message writes nothing; any other writes exactly one line of the same length,
      and with neither fault applied that line is the message itself. */
  lemma DeliveredShape(dropPackets: bool, corruptPackets: bool, f: Fault, message: string)
    ensures Delivered(dropPackets, corruptPackets, f, message) == [] <==> dropPackets && f.drop
    ensures Delivered(dropPackets, corruptPackets, f, message) != [] ==>
              |Delivered(dropPackets, corruptPackets, f, message)| == 1 &&
              |Delivered(dropPackets, corruptPackets, f, message)[0]| == |message|
    ensures !(dropPackets && f.drop) && !(corruptPackets && f.corrupt) ==>
              Delivered(dropPackets, corruptPackets, f, message) == [message]
  {
  }

  /** The lines on the socket after the messages `sent` were handed to writeToClient in order,
      the k-th call using the draws `oracle(k)`. */
  function Wire(dropPackets: bool, corruptPackets: bool, oracle: nat -> Fault, sent: seq<string>): seq<string>
    decreases |sent|
  {
    if sent == [] then []
    else
      var n := |sent| - 1;
      Wire(dropPackets, corruptPackets, oracle, sent[..n]) + Delivered(dropPackets, corruptPackets, oracle(n), sent[n])
  }

  /** Handing one more message to writeToClient extends the socket by exactly what that
      call delivers, using the draws of call number |sent|. */
  lemma WireAppend(dropPackets: bool, corruptPackets: bool, oracle: nat -> Fault, sent: seq<string>, message: string)
    ensures Wire(dropPackets, corruptPackets, oracle, sent + [message]) ==
            Wire(dropPackets, corruptPackets, oracle, sent) + Delivered(dropPackets, corruptPackets, oracle(|sent|), message)
  {
    assert (sent + [message])[..|sent|] == sent;
  }

  /** With both simulations off, the socket carries every message unmodified and in order. */
  lemma {:induction false} WireLossless(oracle: nat -> Fault, sent: seq<string>)
    ensures Wire(false, false, oracle, sent) == sent
    decreases |sent|
  {
    if sent != [] {
      var n := |sent| - 1;
      WireLossless(oracle, sent[..n]);
      assert sent[..n] + [sent[n]] == sent;
    }
  }

  /** With drops off, every message is written, each as a line of its own length that differs
      from it only where an 'X' was written. */
  lemma {:induction false} WireWithoutDrops(corruptPackets: bool, oracle: nat -> Fault, sent: seq<string>)
    ensures |Wire(false, corruptPackets, oracle, sent)| == |sent|
    ensures forall k :: 0 <= k < |sent| ==>
              |Wire(false, corruptPackets, oracle, sent)[k]| == |sent[k]| &&
              forall i :: 0 <= i < |sent[k]| ==>
                Wire(false, corruptPackets, oracle, sent)[k][i] in {sent[k][i], 'X'}
    decreases |sent|
  {
    if sent != [] {
      var n := |sent| - 1;
      WireWithoutDrops(corruptPackets, oracle, sent[..n]);
      var w := Wire(false, corruptPackets, oracle, sent);
      assert w == Wire(false, corruptPackets, oracle, sent[..n]) + Delivered(false, corruptPackets, oracle(n), sent[n]);
    }
  }

  /** Whatever the draws, the socket never carries more lines than were sent. */
  lemma {:induction false} WireNeverGrows(dropPackets: bool, corruptPackets: bool, oracle: nat -> Fault, sent: seq<string>)
    ensures |Wire(dropPackets, corruptPackets, oracle, sent)| <= |sent|
    decreases |sent|
  {
    if sent != [] {
      WireNeverGrows(dropPackets, corruptPackets, oracle, sent[..|sent| - 1]);
    }
  }
}
