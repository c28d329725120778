/**
 * The serial line as the core sees it: the text the device sends, one poll
 * at a time, and the trace of what the program does to the line.
 */
module Channel {

  /**
   * What one poll of the line finds: nothing waiting (`in_waiting` is zero), or
   * the decoded text of the bytes that were waiting (possibly empty, when all
   * of them were dropped by lenient decoding).
   */
  datatype Poll = Idle | Data(text: string)

  /** The observable actions of a provisioning run, in order. */
  datatype Event =
    | Opened(port: string, baud: nat)
    | Wrote(line: string)
    | Closed
    | Handoff(address: string)

  /** The poll the line answers next; once the device is silent, `Idle`. */
  function NextPoll(polls: seq<Poll>): Poll {
    if polls == [] then Idle else polls[0]
  }

  /** What the line still holds after one poll. */
  function AfterPoll(polls: seq<Poll>): seq<Poll> {
    if polls == [] then [] else polls[1..]
  }

  /** The text a poll delivers. */
  function TextOf(p: Poll): string {
    match p
    case Idle => ""
    case Data(t) => t
  }

  /** All the text delivered by a sequence of polls, in arrival order. */
  function Received(polls: seq<Poll>): string {
    if polls == [] then "" else TextOf(polls[0]) + Received(polls[1..])
  }

  /** The text of two stretches of polls is the text of the first followed by that of the second. */
  lemma {:induction false} ReceivedAppend(a: seq<Poll>, b: seq<Poll>)
    ensures Received(a + b) == Received(a) + Received(b)
  {
    if a == [] {
      assert a + b == b;
    } else {
      assert (a + b)[0] == a[0];
      assert (a + b)[1..] == a[1..] + b;
      ReceivedAppend(a[1..], b);
    }
  }

  /** The number of polls that found bytes waiting. */
  function Chunks(polls: seq<Poll>): nat {
    if polls == [] then 0 else (if polls[0].Data? then 1 else 0) + Chunks(polls[1..])
  }

  /** The first `n` polls (all of them when there are fewer). */
  function Prefix(polls: seq<Poll>, n: nat): (p: seq<Poll>)
    ensures p <= polls
  {
    if n <= |polls| then polls[..n] else polls
  }

  /** Taking `n` polls is taking the next one and then `n - 1` more. */
  lemma PrefixStep(polls: seq<Poll>, n: nat)
    requires 0 < n
    ensures Received(Prefix(polls, n)) == TextOf(NextPoll(polls)) + Received(Prefix(AfterPoll(polls), n - 1))
    ensures Chunks(Prefix(polls, n)) == (if NextPoll(polls).Data? then 1 else 0) + Chunks(Prefix(AfterPoll(polls), n - 1))
  {
    if polls != [] {
      var p := Prefix(polls, n);
      assert p[0] == polls[0];
      assert p[1..] == Prefix(polls[1..], n - 1);
    }
  }

  /** The trace of writing `lines`, one `Wrote` event per line. */
  function Writes(lines: seq<string>): (events: seq<Event>)
    ensures |events| == |lines|
    ensures forall k :: 0 <= k < |lines| ==> events[k] == Wrote(lines[k])
  {
    seq(|lines|, k requires 0 <= k < |lines| => Wrote(lines[k]))
  }

  lemma WritesAppend(a: seq<string>, b: seq<string>)
    ensures Writes(a + b) == Writes(a) + Writes(b)
  {
  }

  /** The lines written to the line, read back from a trace. */
  function Sent(trace: seq<Event>): seq<string> {
    if trace == [] then []
    else (if trace[0].Wrote? then [trace[0].line] else []) + Sent(trace[1..])
  }

  lemma {:induction false} SentAppend(a: seq<Event>, b: seq<Event>)
    ensures Sent(a + b) == Sent(a) + Sent(b)
  {
    if a == [] {
      assert a + b == b;
    } else {
      assert (a + b)[0] == a[0];
      assert (a + b)[1..] == a[1..] + b;
      SentAppend(a[1..], b);
    }
  }

  /** Reading back the trace of a series of writes gives the lines written. */
  lemma {:induction false} SentWrites(lines: seq<string>)
    ensures Sent(Writes(lines)) == lines
  {
    if lines != [] {
      assert Writes(lines)[1..] == Writes(lines[1..]);
      SentWrites(lines[1..]);
    }
  }

  /** A trace without writes sends nothing. */
  lemma {:induction false} SentSilent(tail: seq<Event>)
    requires forall k :: 0 <= k < |tail| ==> !tail[k].Wrote?
    ensures Sent(tail) == []
  {
    if tail != [] {
      SentSilent(tail[1..]);
    }
  }

  /**
   * An open serial port. `incoming` is what the device will still send, poll
   * by poll; `log` is everything done to the port since it was opened.
   */
  class SerialPort {
    var isOpen: bool
    var incoming: seq<Poll>
    var log: seq<Event>

    /** Opens `port` at `baud`; the device will answer with `device`. */
    constructor Open(port: string, baud: nat, device: seq<Poll>)
      ensures isOpen && incoming == device && log == [Opened(port, baud)]
    {
      isOpen := true;
      incoming := device;
      log := [Opened(port, baud)];
    }

    /** One poll of the line: the next chunk the device sent, or `Idle` when nothing is waiting. */
    method Read() returns (p: Poll)
      requires isOpen
      modifies this
      ensures p == NextPoll(old(incoming)) && incoming == AfterPoll(old(incoming))
      ensures isOpen && log == old(log)
    {
      p := NextPoll(incoming);
      incoming := AfterPoll(incoming);
    }

    /** `ser.write(line)`. */
    method Write(line: string)
      requires isOpen
      modifies this
      ensures log == old(log) + [Wrote(line)]
      ensures isOpen && incoming == old(incoming)
    {
      log := log + [Wrote(line)];
    }

    /** `ser.read_all()`: everything the device has sent and nobody has read. */
    method ReadAll() returns (text: string)
      requires isOpen
      modifies this
      ensures text == Received(old(incoming)) && incoming == []
      ensures isOpen && log == old(log)
    {
      text := Received(incoming);
      incoming := [];
    }

    /** `ser.close()`; closing a closed port does nothing. */
    method Close()
      modifies this
      ensures !isOpen && incoming == old(incoming)
      ensures log == old(log) + (if old(isOpen) then [Closed] else [])
    {
      if isOpen {
        log := log + [Closed];
      }
      isOpen := false;
    }
  }
}
