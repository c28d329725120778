/**
 * The login conversation on the serial console: text arrives chunk by chunk
 * into a buffer, and after every chunk the buffer is tested for the login
 * prompt, then the password prompt, then a shell prompt.
 */
module Login {
  import opened Text
  import opened Channel

  const LoginPrompt := "login:"
  const PasswordPrompt := "Password:"

  /** A shell prompt has appeared: the buffer holds `$` or `#`. */
  ghost predicate ShellPrompt(buffer: string) {
    Contains(buffer, "$") || Contains(buffer, "#")
  }

  /** The buffer holds none of the four texts the login loop reacts to. */
  ghost predicate Quiet(buffer: string) {
    !Contains(buffer, LoginPrompt) && !Contains(buffer, PasswordPrompt) && !ShellPrompt(buffer)
  }

  /** What one loop iteration does: go on with a new buffer and these writes, or stop logged in. */
  datatype StepResult =
    | Continue(buffer: string, replies: seq<string>)
    | ShellReady(buffer: string)

  /** One iteration of the login loop, from the buffer and the poll it makes. */
  function Step(buffer: string, poll: Poll, username: string, password: string): (r: StepResult)
    ensures r.Continue? ==> |r.replies| <= 1 && (r.replies != [] ==> poll.Data? && r.buffer == "")
  {
    match poll
    case Idle => Continue(buffer, [])
    case Data(d) =>
      var b := buffer + d;
      if HasSubstring(b, LoginPrompt) then Continue("", [username + "\n"])
      else if HasSubstring(b, PasswordPrompt) then Continue("", [password + "\n"])
      else if HasSubstring(b, "$") || HasSubstring(b, "#") then ShellReady(b)
      else Continue(b, [])
  }

  /**
   * How a run of the login loop ends: whether it saw a shell prompt, the lines
   * it wrote, the polls it left unread and the buffer when it stopped.
   */
  datatype LoginRun = LoginRun(success: bool, writes: seq<string>, remaining: seq<Poll>, buffer: string)

  /** A run preceded by the writes `lines`. */
  function Prepend(lines: seq<string>, r: LoginRun): LoginRun {
    r.(writes := lines + r.writes)
  }

  lemma PrependTwice(a: seq<string>, b: seq<string>, r: LoginRun)
    ensures Prepend(a, Prepend(b, r)) == Prepend(a + b, r)
  {
    assert a + (b + r.writes) == (a + b) + r.writes;
  }

  /** The login loop from `buffer`, allowed `fuel` more polls before the deadline. */
  function Run(buffer: string, polls: seq<Poll>, fuel: nat, username: string, password: string): (r: LoginRun)
    decreases fuel
    ensures |r.remaining| <= |polls| && |polls| - |r.remaining| <= fuel
  {
    if fuel == 0 then LoginRun(false, [], polls, buffer)
    else
      match Step(buffer, NextPoll(polls), username, password)
      case ShellReady(b) => LoginRun(true, [], AfterPoll(polls), b)
      case Continue(b, replies) =>
        Prepend(replies, Run(b, AfterPoll(polls), fuel - 1, username, password))
  }

  /** The loop consumes polls from the front only: what it leaves unread is a suffix of what it was given. */
  lemma {:induction false} RunReadsFromFront(buffer: string, polls: seq<Poll>, fuel: nat, username: string, password: string)
    decreases fuel
    ensures var o := Run(buffer, polls, fuel, username, password);
      o.remaining == polls[|polls| - |o.remaining|..]
  {
    if fuel > 0 && polls != [] {
      match Step(buffer, polls[0], username, password)
      case ShellReady(b) =>
      case Continue(b, replies) =>
        RunReadsFromFront(b, polls[1..], fuel - 1, username, password);
        var o := Run(b, polls[1..], fuel - 1, username, password);
        assert polls[1..][|polls[1..]| - |o.remaining|..] == polls[|polls| - |o.remaining|..];
    }
  }

  /** The four tests of the loop decide the four `in` checks. */
  lemma TestsMean(b: string)
    ensures HasSubstring(b, LoginPrompt) <==> Contains(b, LoginPrompt)
    ensures HasSubstring(b, PasswordPrompt) <==> Contains(b, PasswordPrompt)
    ensures HasSubstring(b, "$") || HasSubstring(b, "#") <==> ShellPrompt(b)
  {
    HasSubstringMeans(b, LoginPrompt);
    HasSubstringMeans(b, PasswordPrompt);
    HasSubstringMeans(b, "$");
    HasSubstringMeans(b, "#");
  }

  /** A poll that finds nothing waiting leaves the buffer and the writes alone. */
  lemma StepIdle(buffer: string, username: string, password: string)
    ensures Step(buffer, Idle, username, password) == Continue(buffer, [])
  {
  }

  /**
   * The fixed priority of the tests, applied to the buffer with the chunk
   * appended: the login prompt wins over everything, the password prompt over
   * a shell prompt; a shell prompt counts only when neither login text is there.
   */
  lemma StepPriority(buffer: string, d: string, username: string, password: string)
    ensures var b := buffer + d; var r := Step(buffer, Data(d), username, password);
      (Contains(b, LoginPrompt) ==> r == Continue("", [username + "\n"])) &&
      (!Contains(b, LoginPrompt) && Contains(b, PasswordPrompt) ==> r == Continue("", [password + "\n"])) &&
      (r.ShellReady? <==> ShellPrompt(b) && !Contains(b, LoginPrompt) && !Contains(b, PasswordPrompt)) &&
      (r.ShellReady? ==> r.buffer == b)
  {
    TestsMean(buffer + d);
  }

  /** A buffer with the tie of the login prompt and a shell prompt answers with the user name. */
  lemma StepTieBreak(username: string, password: string)
    ensures Step("", Data("pynq login: $"), username, password) == Continue("", [username + "\n"])
  {
    var b := "pynq login: $";
    assert "" + b == b;
    assert b[5..11] == LoginPrompt;
    assert OccursAt(b, LoginPrompt, 5);
    TestsMean(b);
  }

  /**
   * Each chunk is appended to the buffer exactly; it causes at most one write,
   * which is a credential line, and after a write the buffer is empty.
   */
  lemma StepAppendsChunk(buffer: string, d: string, username: string, password: string)
    ensures var r := Step(buffer, Data(d), username, password);
      r.Continue? ==> (|r.replies| <= 1 &&
        (r.replies == [] ==> r.buffer == buffer + d && Quiet(buffer + d)) &&
        (r.replies != [] ==> r.buffer == "" && (r.replies[0] == username + "\n" || r.replies[0] == password + "\n")))
  {
    TestsMean(buffer + d);
  }

  /** The empty buffer the loop starts from is quiet. */
  lemma EmptyQuiet()
    ensures Quiet("")
  {
  }

  /** Every line the loop writes is the user name or the password with a newline, at most one per chunk. */
  lemma {:induction false} RunWritesCredentials(buffer: string, polls: seq<Poll>, fuel: nat, username: string, password: string)
    decreases fuel
    ensures var o := Run(buffer, polls, fuel, username, password);
      |o.writes| <= Chunks(Prefix(polls, fuel)) &&
      forall k :: 0 <= k < |o.writes| ==> o.writes[k] == username + "\n" || o.writes[k] == password + "\n"
  {
    if fuel > 0 {
      PrefixStep(polls, fuel);
      match Step(buffer, NextPoll(polls), username, password)
      case ShellReady(b) =>
      case Continue(b, replies) =>
        StepAppendsChunk(buffer, TextOf(NextPoll(polls)), username, password);
        RunWritesCredentials(b, AfterPoll(polls), fuel - 1, username, password);
    }
  }

  /**
   * The loop reports success only when, at that moment, the buffer holds a
   * shell prompt and neither login text; when it runs out of polls, the buffer
   * it leaves is quiet and it has read exactly `fuel` polls.
   */
  lemma {:induction false} RunVerdict(buffer: string, polls: seq<Poll>, fuel: nat, username: string, password: string)
    requires Quiet(buffer)
    decreases fuel
    ensures var o := Run(buffer, polls, fuel, username, password);
      (o.success ==> ShellPrompt(o.buffer) && !Contains(o.buffer, LoginPrompt) && !Contains(o.buffer, PasswordPrompt)) &&
      (!o.success ==> Quiet(o.buffer) && |o.remaining| == |polls| - |Prefix(polls, fuel)|)
  {
    if fuel > 0 {
      var p := NextPoll(polls);
      match Step(buffer, p, username, password)
      case ShellReady(b) =>
        StepPriority(buffer, TextOf(p), username, password);
      case Continue(b, replies) =>
        if p.Data? {
          StepAppendsChunk(buffer, p.text, username, password);
        }
        RunVerdict(b, AfterPoll(polls), fuel - 1, username, password);
    }
  }

  /** A prefix of quiet text is quiet. */
  lemma QuietPrefix(a: string, c: string)
    requires a <= c && Quiet(c)
    ensures Quiet(a)
  {
    if Contains(a, LoginPrompt) { ContainsPrefix(a, c, LoginPrompt); }
    if Contains(a, PasswordPrompt) { ContainsPrefix(a, c, PasswordPrompt); }
    if Contains(a, "$") { ContainsPrefix(a, c, "$"); }
    if Contains(a, "#") { ContainsPrefix(a, c, "#"); }
  }

  /**
   * If none of `login:`, `Password:`, `$` and `#` appears in what arrives
   * before the deadline, the loop fails, writes nothing, and its buffer is
   * everything that arrived.
   */
  lemma {:induction false} RunFailsSilently(buffer: string, polls: seq<Poll>, fuel: nat, username: string, password: string)
    requires Quiet(buffer + Received(Prefix(polls, fuel)))
    decreases fuel
    ensures var o := Run(buffer, polls, fuel, username, password);
      !o.success && o.writes == [] && o.buffer == buffer + Received(Prefix(polls, fuel))
  {
    if fuel == 0 {
      assert buffer + Received(Prefix(polls, fuel)) == buffer;
    } else {
      PrefixStep(polls, fuel);
      var d := TextOf(NextPoll(polls));
      var rest := Received(Prefix(AfterPoll(polls), fuel - 1));
      assert buffer + Received(Prefix(polls, fuel)) == (buffer + d) + rest;
      QuietPrefix(buffer + d, (buffer + d) + rest);
      match NextPoll(polls)
      case Idle =>
        assert buffer + d == buffer;
        RunFailsSilently(buffer, AfterPoll(polls), fuel - 1, username, password);
      case Data(_) =>
        TestsMean(buffer + d);
        assert Step(buffer, NextPoll(polls), username, password) == Continue(buffer + d, []);
        RunFailsSilently(buffer + d, AfterPoll(polls), fuel - 1, username, password);
    }
  }

  /**
   * `expect_login` starts from an empty buffer, so its verdict is the one
   * `RunVerdict` describes.
   */
  lemma LoginVerdict(polls: seq<Poll>, fuel: nat, username: string, password: string)
    ensures var o := Run("", polls, fuel, username, password);
      (o.success ==> ShellPrompt(o.buffer) && !Contains(o.buffer, LoginPrompt) && !Contains(o.buffer, PasswordPrompt)) &&
      (!o.success ==> Quiet(o.buffer) && |o.remaining| == |polls| - |Prefix(polls, fuel)|)
  {
    EmptyQuiet();
    RunVerdict("", polls, fuel, username, password);
  }

  /**
   * How the device's bytes are grouped into reads changes what is written:
   * both prompts in one read get only the user name (the buffer is cleared
   * after it), while the same text in two reads gets both credentials.
   */
  lemma ChunkBoundariesMatter(username: string, password: string)
    ensures Run("", [Data("login: Password: ")], 2, username, password).writes == [username + "\n"]
    ensures Run("", [Data("login: "), Data("Password: ")], 2, username, password).writes == [username + "\n", password + "\n"]
  {
    var both := "login: Password: ";
    assert "" + both == both;
    assert both[0..6] == LoginPrompt;
    assert OccursAt(both, LoginPrompt, 0);
    StepPriority("", both, username, password);
    var first := "login: ";
    assert "" + first == first;
    assert first[0..6] == LoginPrompt;
    assert OccursAt(first, LoginPrompt, 0);
    StepPriority("", first, username, password);
    BootPassword(username, password);
    var split := [Data(first), Data("Password: ")];
    assert split[1..] == [Data("Password: ")];
    assert Run("", [], 0, username, password).writes == [];
    assert Run("", [Data(both)][1..], 1, username, password).writes == [];
    assert Run("", split[1..][1..], 0, username, password).writes == [];
  }

  /** The banner of the usual boot ends in the login prompt. */
  lemma BootBanner(username: string, password: string)
    ensures Step("", Data("PYNQ Linux\r\npynq login: "), username, password) == Continue("", [username + "\n"])
  {
    var c := "PYNQ Linux\r\npynq login: ";
    assert "" + c == c;
    assert c[17..23] == LoginPrompt;
    assert OccursAt(c, LoginPrompt, 17);
    StepPriority("", c, username, password);
  }

  /** The password prompt is answered with the password. */
  lemma BootPassword(username: string, password: string)
    ensures Step("", Data("Password: "), username, password) == Continue("", [password + "\n"])
  {
    var c := "Password: ";
    assert "" + c == c;
    MissingChar(c, LoginPrompt, 0);
    assert c[0..9] == PasswordPrompt;
    assert OccursAt(c, PasswordPrompt, 0);
    StepPriority("", c, username, password);
  }

  /** The shell prompt of the default account ends the login. */
  lemma BootShell(username: string, password: string)
    ensures Step("", Data("\r\nxilinx@pynq:~$ "), username, password) == ShellReady("\r\nxilinx@pynq:~$ ")
  {
    var c := "\r\nxilinx@pynq:~$ ";
    assert "" + c == c;
    MissingChar(c, LoginPrompt, 2);
    MissingChar(c, PasswordPrompt, 0);
    assert c[15..16] == "$";
    assert OccursAt(c, "$", 15);
    StepPriority("", c, username, password);
  }

  /** The polls of the usual boot, up to the shell prompt. */
  const BootPolls: seq<Poll> := [Data("PYNQ Linux\r\npynq login: "), Idle, Data("Password: "), Data("\r\nxilinx@pynq:~$ ")]

  /**
   * The usual boot: one user name line, one password line, then the shell
   * prompt; whatever the device sends afterwards is left unread.
   */
  lemma BootExample(username: string, password: string, after: seq<Poll>)
    ensures Run("", BootPolls + after, 40, username, password)
            == LoginRun(true, [username + "\n", password + "\n"], after, "\r\nxilinx@pynq:~$ ")
  {
    var c3 := "\r\nxilinx@pynq:~$ ";
    var polls := BootPolls + after;
    BootBanner(username, password);
    BootPassword(username, password);
    BootShell(username, password);
    assert polls[0] == Data("PYNQ Linux\r\npynq login: ") && polls[1..][0] == Idle;
    assert polls[1..][1..][0] == Data("Password: ") && polls[1..][1..][1..][0] == Data(c3);
    assert polls[1..][1..][1..][1..] == after;
    assert Run("", polls[1..][1..][1..], 37, username, password) == LoginRun(true, [], after, c3);
    assert Run("", polls[1..][1..], 38, username, password) == LoginRun(true, [password + "\n"], after, c3);
    assert Run("", polls[1..], 39, username, password) == LoginRun(true, [password + "\n"], after, c3);
  }

  /**
   * `expect_login`: polls the port at most `maxPolls` times. After each chunk
   * it answers the login prompt with the user name, the password prompt with
   * the password (clearing the buffer each time), and stops with success at a
   * shell prompt; when the polls run out it fails.
   */
  method ExpectLogin(port: SerialPort, username: string, password: string, maxPolls: nat) returns (ok: bool)
    requires port.isOpen
    modifies port
    ensures var o := Run("", old(port.incoming), maxPolls, username, password);
      ok == o.success && port.incoming == o.remaining && port.log == old(port.log) + Writes(o.writes)
    ensures port.isOpen
  {
    ghost var whole := Run("", port.incoming, maxPolls, username, password);
    ghost var done: seq<string> := [];
    var buffer := "";
    var polls := 0;
    assert whole == Prepend(done, whole);
    while polls < maxPolls
      invariant polls <= maxPolls && port.isOpen
      invariant port.log == old(port.log) + Writes(done)
      invariant whole == Prepend(done, Run(buffer, port.incoming, maxPolls - polls, username, password))
    {
      var chunk := port.Read();
      polls := polls + 1;
      if chunk.Data? {
        buffer := buffer + chunk.text;
        if HasSubstring(buffer, LoginPrompt) {
          port.Write(username + "\n");
          WritesAppend(done, [username + "\n"]);
          PrependTwice(done, [username + "\n"], Run("", port.incoming, maxPolls - polls, username, password));
          done := done + [username + "\n"];
          buffer := "";
        } else if HasSubstring(buffer, PasswordPrompt) {
          port.Write(password + "\n");
          WritesAppend(done, [password + "\n"]);
          PrependTwice(done, [password + "\n"], Run("", port.incoming, maxPolls - polls, username, password));
          done := done + [password + "\n"];
          buffer := "";
        } else if HasSubstring(buffer, "$") || HasSubstring(buffer, "#") {
          return true;
        } else {
          PrependTwice(done, [], Run(buffer, port.incoming, maxPolls - polls, username, password));
          assert done + [] == done;
        }
      } else {
        PrependTwice(done, [], Run(buffer, port.incoming, maxPolls - polls, username, password));
        assert done + [] == done;
      }
    }
    return false;
  }
}
