/**
 * `run_setup`: open the selected port, log in, write the DHCP configuration,
 * restart networking, ask for the address of `eth0`, and hand off to SSH
 * when an address shows up in the answer.
 */
module Provision {
  import opened Wrappers
  import opened Text
  import opened Channel
  import opened Login
  import opened Address

  /** The fixed line rate of the serial console. */
  const BaudRate: nat := 115200

  /** The shell command that rewrites `/etc/network/interfaces` for DHCP on `eth0`. */
  const DhcpScript := "sudo bash -c 'cat > /etc/network/interfaces <<EOF\nauto lo\niface lo inet loopback\n\nauto eth0\nallow-hotplug eth0\niface eth0 inet dhcp\nEOF'"

  const RestartNetworking := "sudo systemctl restart networking || sudo service networking restart\n"

  const ShowAddress := "ip -4 addr show eth0\n"

  /** The lines written after a successful login, in order. */
  function ProvisionLines(password: string): seq<string> {
    [DhcpScript + "\n", password + "\n", RestartNetworking, ShowAddress]
  }

  /** How a provisioning run ends. */
  datatype Outcome =
    | NoPortSelected
    | LoginFailed
    | NoAddress
    | HandedOff(address: string)

  datatype SetupRun = SetupRun(outcome: Outcome, trace: seq<Event>)

  /**
   * The provisioning run on port `port` against a device that answers with
   * `device`, with `maxPolls` polls for the login before the deadline. The
   * output scanned for the address is everything the device sent after the
   * login loop stopped reading.
   */
  function Setup(port: string, device: seq<Poll>, username: string, password: string, maxPolls: nat): (r: SetupRun)
    ensures r.outcome == NoPortSelected <==> port == ""
    ensures port != "" ==> |r.trace| >= 1 && r.trace[0] == Opened(port, BaudRate)
    ensures r.outcome.HandedOff? ==> |r.trace| >= 2 && r.trace[|r.trace| - 1] == Handoff(r.outcome.address)
  {
    if port == "" then SetupRun(NoPortSelected, [])
    else
      var login := Run("", device, maxPolls, username, password);
      var began := [Opened(port, BaudRate)] + Writes(login.writes);
      if !login.success then SetupRun(LoginFailed, began)
      else
        var sent := began + Writes(ProvisionLines(password));
        match ExtractAddress(Received(login.remaining))
        case None => SetupRun(NoAddress, sent)
        case Some(ip) => SetupRun(HandedOff(ip), sent + [Closed, Handoff(ip)])
  }

  /**
   * `run_setup`. With no port selected it does nothing; otherwise it opens the
   * port and runs the login loop. After a successful login it writes the
   * script, the password, the restart command and the address query, reads
   * all the output, and, when an address matches, closes the port and hands
   * the address to SSH.
   */
  method RunSetup(port: string, device: seq<Poll>, username: string, password: string, maxPolls: nat)
    returns (outcome: Outcome, trace: seq<Event>)
    ensures SetupRun(outcome, trace) == Setup(port, device, username, password, maxPolls)
  {
    if port == "" {
      return NoPortSelected, [];
    }
    var ser := new SerialPort.Open(port, BaudRate, device);
    var loggedIn := ExpectLogin(ser, username, password, maxPolls);
    ghost var login := Run("", device, maxPolls, username, password);
    if !loggedIn {
      return LoginFailed, ser.log;
    }
    ser.Write(DhcpScript + "\n");
    ser.Write(password + "\n");
    ser.Write(RestartNetworking);
    ser.Write(ShowAddress);
    assert ser.log == [Opened(port, BaudRate)] + Writes(login.writes) + Writes(ProvisionLines(password));
    var output := ser.ReadAll();
    var ipMatch := ExtractAddress(output);
    if ipMatch.Some? {
      ser.Close();
      outcome, trace := HandedOff(ipMatch.value), ser.log + [Handoff(ipMatch.value)];
    } else {
      outcome, trace := NoAddress, ser.log;
    }
  }

  /** Nothing is opened, and nothing happens at all, exactly when no port is selected. */
  lemma NoPortNoTrace(port: string, device: seq<Poll>, username: string, password: string, maxPolls: nat)
    ensures var r := Setup(port, device, username, password, maxPolls);
      (r.trace == [] <==> port == "") &&
      (port == "" ==> r.outcome == NoPortSelected) &&
      (port != "" ==> r.trace[0] == Opened(port, BaudRate) && forall k :: 0 < k < |r.trace| ==> !r.trace[k].Opened?)
  {
  }

  /**
   * The lines written to the port: the login replies, then, only after a
   * successful login, the script, the password, the restart command and the
   * address query, in that order.
   */
  lemma SetupSentLines(port: string, device: seq<Poll>, username: string, password: string, maxPolls: nat)
    requires port != ""
    ensures var r := Setup(port, device, username, password, maxPolls);
      var login := Run("", device, maxPolls, username, password);
      Sent(r.trace) == login.writes + (if login.success then ProvisionLines(password) else [])
  {
    var r := Setup(port, device, username, password, maxPolls);
    var login := Run("", device, maxPolls, username, password);
    if !login.success {
      assert r.trace == [Opened(port, BaudRate)] + Writes(login.writes) + Writes([]) + [];
      SentOfTrace(port, login.writes, [], []);
    } else if r.outcome.HandedOff? {
      var ip := r.outcome.address;
      assert r.trace == [Opened(port, BaudRate)] + Writes(login.writes) + Writes(ProvisionLines(password)) + [Closed, Handoff(ip)];
      SentOfTrace(port, login.writes, ProvisionLines(password), [Closed, Handoff(ip)]);
    } else {
      assert r.trace == [Opened(port, BaudRate)] + Writes(login.writes) + Writes(ProvisionLines(password)) + [];
      SentOfTrace(port, login.writes, ProvisionLines(password), []);
    }
  }

  /** Reading the written lines back from a trace of this shape. */
  lemma SentOfTrace(port: string, a: seq<string>, b: seq<string>, tail: seq<Event>)
    requires forall k :: 0 <= k < |tail| ==> !tail[k].Wrote?
    ensures Sent([Opened(port, BaudRate)] + Writes(a) + Writes(b) + tail) == a + b
  {
    var head := [Opened(port, BaudRate)];
    var x := head + Writes(a);
    var y := x + Writes(b);
    assert Sent(head) == [];
    SentAppend(head, Writes(a));
    SentWrites(a);
    assert Sent(x) == a;
    SentAppend(x, Writes(b));
    SentWrites(b);
    assert Sent(y) == a + b;
    SentAppend(y, tail);
    SentSilent(tail);
  }

  /** When the login fails, nothing but credential lines is ever written, and the port is not handed off. */
  lemma LoginFailureStops(port: string, device: seq<Poll>, username: string, password: string, maxPolls: nat)
    requires Setup(port, device, username, password, maxPolls).outcome == LoginFailed
    ensures var r := Setup(port, device, username, password, maxPolls);
      |r.trace| >= 1 &&
      forall k :: 1 <= k < |r.trace| ==> r.trace[k] == Wrote(username + "\n") || r.trace[k] == Wrote(password + "\n")
  {
    RunWritesCredentials("", device, maxPolls, username, password);
  }

  /**
   * Handoff happens exactly when the login succeeded and an address matched
   * in the output; the address is a dotted-quad stretch of that output, the
   * port is closed just before, and the handoff is the last thing to happen.
   */
  lemma HandoffOnlyWithAddress(port: string, device: seq<Poll>, username: string, password: string, maxPolls: nat)
    ensures var r := Setup(port, device, username, password, maxPolls);
      var login := Run("", device, maxPolls, username, password);
      var output := Received(login.remaining);
      (r.outcome.HandedOff? <==> port != "" && login.success && ExtractAddress(output).Some?) &&
      (r.outcome.HandedOff? ==>
        ExtractAddress(output) == Some(r.outcome.address) &&
        DottedQuad(r.outcome.address) && Contains(output, r.outcome.address) &&
        |r.trace| >= 2 && r.trace[|r.trace| - 2] == Closed && r.trace[|r.trace| - 1] == Handoff(r.outcome.address))
  {
    var r := Setup(port, device, username, password, maxPolls);
    var login := Run("", device, maxPolls, username, password);
    if r.outcome.HandedOff? {
      ExtractAddressShape(Received(login.remaining));
    }
  }

  /** The port is closed at most once, only right before the handoff, and nothing follows the handoff. */
  lemma CloseThenHandoff(port: string, device: seq<Poll>, username: string, password: string, maxPolls: nat)
    ensures var r := Setup(port, device, username, password, maxPolls);
      (forall k :: 0 <= k < |r.trace| && r.trace[k] == Closed ==> k == |r.trace| - 2 && r.trace[k + 1].Handoff?) &&
      (forall k :: 0 <= k < |r.trace| && r.trace[k].Handoff? ==> k == |r.trace| - 1 && r.outcome.HandedOff?)
  {
    if port != "" {
      var login := Run("", device, maxPolls, username, password);
      var began := [Opened(port, BaudRate)] + Writes(login.writes);
      assert forall k :: 0 <= k < |began| ==> began[k].Opened? || began[k].Wrote?;
      if login.success {
        var sent := began + Writes(ProvisionLines(password));
        assert forall k :: 0 <= k < |sent| ==> sent[k].Opened? || sent[k].Wrote?;
      }
    }
  }

  /** A usual boot, then the answer of `ip -4 addr show eth0`: the address on the `inet` line is handed off. */
  lemma HandoffExample(username: string, password: string)
    ensures Setup("/dev/ttyUSB0", BootPolls + [Data("    inet " + "192.168.1.50" + "/24 brd 192.168.1.255 scope global eth0\r\n")], username, password, 40).outcome
            == HandedOff("192.168.1.50")
  {
    var out := "    inet " + "192.168.1.50" + "/24 brd 192.168.1.255 scope global eth0\r\n";
    BootExample(username, password, [Data(out)]);
    assert Received([Data(out)]) == out;
    ExampleAddrShow();
  }
}
