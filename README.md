# PYNQ network manager: serial provisioning core, in Dafny

This project models the core of the PYNQ network manager. That core sets up a
PYNQ board over its serial console in three parts:

- **Login conversation** (`expect_login`). Text from the board arrives chunk by
  chunk into a buffer. After each chunk the buffer is tested in a fixed order:
  `login:` is answered with the user name, `Password:` with the password (each
  time the buffer is cleared), and a `$` or `#` ends the login with success. A
  deadline ends it with failure.
- **Provisioning sequence** (`run_setup`). After a successful login, four lines
  are written in order: a fixed shell script that rewrites
  `/etc/network/interfaces` for DHCP on `eth0`, the password again, a command
  that restarts networking, and `ip -4 addr show eth0`. Then the output is read.
- **Address extraction**. The output is searched with
  `\b\d+\.\d+\.\d+\.\d+\b`. When it matches, the serial port is closed and the
  matched text is handed to the SSH step. Otherwise nothing more happens.

How the serial port is modelled (module `Channel`):

- The port is a class, `SerialPort`.
- `incoming` is what the board will send, as a sequence of polls. Each poll is
  `Idle` (no bytes waiting) or `Data(text)` (the decoded text of the bytes that
  were waiting).
- `log` is the trace of what the program does to the port: `Opened`, `Wrote`
  and `Closed` events, in order.
- `read_all` delivers every chunk still waiting.

What is proved:

- **Login** (module `Login`). `ExpectLogin` is a `while` loop. It is proved equal
  to the recursive specification `Run`, which applies `Step` once per poll.
  Lemmas about `Step` and `Run` state:
  - the fixed priority of the three tests;
  - that each chunk is appended to the buffer as is;
  - that each chunk causes at most one write, always a credential line;
  - that success requires a shell prompt with no login text in the buffer;
  - that a run where no prompt text arrives fails and writes nothing.
- **Address** (module `Address`). The regular expression is a ghost predicate,
  `MatchAt`. The scanner built from `DigitsEnd`, `MatchEnd` and `SearchFrom` is
  proved to return the leftmost match, which is unique.
- **Provisioning** (module `Provision`). `RunSetup` is proved equal to the
  specification `Setup`. Lemmas about `Setup` state:
  - the order of the written lines;
  - that nothing is opened without a port name;
  - that nothing else is written after a failed login;
  - that the handoff happens exactly when an address matched, comes right after
    the port is closed, and carries a dotted-quad stretch of the output.

Three things the code does, all modelled as written:

- The configuration script is a literal. It is fixed to `eth0` and DHCP, and it
  includes an `allow-hotplug eth0` line. There is no static-address variant.
- The port is not closed when the login fails or when no address is found.
  Only the handoff path closes it, and the trace shows that.
- The login state is not reified as an enumeration. As in the code, it lives in
  the buffer.

## Model

| member | source | states |
|---|---|---|
| `Text.HasSubstringMeans` | pynq_manager_gui.py:71-79 | the scan used for `"login:" in buffer` and the other tests is true exactly when the text occurs somewhere in the buffer |
| `Channel.ReceivedAppend` | pynq_manager_gui.py:67-77 | the text of two stretches of reads is the text of the first followed by that of the second, so splitting the reads does not change the text received |
| `Channel.SerialPort.Open` | pynq_manager_gui.py:95 | opening the port records one `Opened(port, 115200)` event; the port is open and will deliver the board's chunks |
| `Channel.SerialPort.Read` | pynq_manager_gui.py:66-67 | one poll takes the next chunk the board sent, or `Idle` once it is silent, and writes nothing |
| `Channel.SerialPort.Write` | pynq_manager_gui.py:115-123 | a write appends exactly one `Wrote(line)` event and reads nothing |
| `Channel.SerialPort.ReadAll` | pynq_manager_gui.py:126 | `read_all` returns the concatenated text of every chunk still waiting and leaves none |
| `Channel.SerialPort.Close` | pynq_manager_gui.py:134 | closing records `Closed` once; the port is closed afterwards |
| `Login.Step` | pynq_manager_gui.py:66-80 | one loop iteration: a poll with nothing waiting changes nothing; otherwise the chunk is appended and the buffer tested; at most one credential line is written, and a write is always followed by an empty buffer |
| `Login.Run` | pynq_manager_gui.py:65-82 | the loop from a buffer with `fuel` polls left before the deadline: whether it succeeded, the lines it wrote, the polls it left unread and its final buffer; it reads at most `fuel` polls |
| `Login.RunReadsFromFront` | pynq_manager_gui.py:66-67 | the loop reads the device's output in order: what it leaves unread is a suffix of what it was given |
| `Login.StepIdle` | pynq_manager_gui.py:66 | a poll with no bytes waiting changes neither the buffer nor the writes |
| `Login.StepPriority` | pynq_manager_gui.py:71-80 | after the chunk is appended: `login:` gives the user name line and an empty buffer whatever else the buffer holds; otherwise `Password:` gives the password line; success exactly when `$` or `#` is there and neither login text is |
| `Login.StepTieBreak` | pynq_manager_gui.py:71-80 | a chunk holding both `login:` and `$` is answered with the user name and is not reported as success |
| `Login.StepAppendsChunk` | pynq_manager_gui.py:67-77 | a chunk that causes no write leaves the old buffer followed by exactly the chunk; a chunk causes at most one write, the user name or password line, and after it the buffer is empty |
| `Login.EmptyQuiet` | pynq_manager_gui.py:62 | the initial empty buffer holds no prompt text |
| `Login.RunWritesCredentials` | pynq_manager_gui.py:65-77 | every line the login loop writes is `username + "\n"` or `password + "\n"`, and there are at most as many as chunks received before the deadline |
| `Login.RunVerdict` | pynq_manager_gui.py:65-82 | success only when the buffer at that moment holds `$` or `#` and neither `login:` nor `Password:`; on failure the buffer is free of all four and exactly the polls before the deadline were read |
| `Login.LoginVerdict` | pynq_manager_gui.py:62-82 | from the empty buffer the loop starts with, success means a shell prompt and no login text at that moment; failure means a quiet buffer after exactly the polls before the deadline |
| `Login.ChunkBoundariesMatter` | pynq_manager_gui.py:67-81 | `login: Password: ` in one read gets only the user name line, since the buffer is cleared after it; the same text in two reads gets both credential lines |
| `Login.RunFailsSilently` | pynq_manager_gui.py:65-82 | if none of `login:`, `Password:`, `$`, `#` appears in what arrives before the deadline, the loop fails, writes nothing and has buffered all of it |
| `Login.BootExample` | pynq_manager_gui.py:61-82 | the usual boot banner gets one user name line and one password line, then the shell prompt ends the login; later chunks stay unread |
| `Login.ExpectLogin` | pynq_manager_gui.py:61-82 | the loop's result, the lines it writes to the port and the chunks it leaves unread are those of the specification `Run` from an empty buffer |
| `Address.DigitsEnd` | pynq_manager_gui.py:129 | `\d+` taken greedily: the index where the digit run starting at `k` ends, every character before it a digit and the next one not |
| `Address.MatchEnd` | pynq_manager_gui.py:129 | the end of the match of the pattern that starts at `i`, if there is one; a match is at least seven characters long |
| `Address.MatchEndComplete` | pynq_manager_gui.py:129 | any match of the pattern starting at `i` ends where the matcher says, so a start has at most one match |
| `Address.MatchEndCorrect` | pynq_manager_gui.py:129 | the matcher at `i` finds a match exactly when the pattern matches at `i` |
| `Address.SearchFrom` | pynq_manager_gui.py:129 | `re.search`: a match whose start is the leftmost at or after `i`, or none when no match starts there |
| `Address.ExtractAddress` | pynq_manager_gui.py:129-132 | `ip_match.group()` when `re.search` finds a match, else nothing; an address is between seven characters and the whole output long |
| `Address.ExtractAddressNone` | pynq_manager_gui.py:129-131 | no address exactly when the pattern matches nowhere in the output |
| `Address.ExtractAddressLeftmost` | pynq_manager_gui.py:129-132 | when `s[i..j]` is the match with the leftmost start, the extracted address is exactly that text |
| `Address.ExtractAddressShape` | pynq_manager_gui.py:129-132 | the extracted address is four non-empty digit runs joined by dots and occurs in the output |
| `Address.ExtractAfterText` | pynq_manager_gui.py:129 | text without digits and ending in a non-word character (or empty), then a dotted quad, then a non-word character or the end: that quad is extracted |
| `Address.ExampleInet` | pynq_manager_gui.py:129 | `"inet 10.0.0.5/24"` yields `"10.0.0.5"`; the `/24` is not part of the match |
| `Address.ExampleNoBoundary` | pynq_manager_gui.py:129 | `"1.2.3.45x"` yields no address: the last digit run is followed by a word character |
| `Address.ExampleNoRangeCheck` | pynq_manager_gui.py:129 | `"999.999.999.999"` is accepted: octet values are not range-checked |
| `Address.ExampleAddrShow` | pynq_manager_gui.py:129 | on an `inet ... brd ...` line the address, not the broadcast address, is extracted |
| `Provision.Setup` | pynq_manager_gui.py:84-137 | the outcome and trace of a run: no port selected exactly when the port name is empty; otherwise the port is opened first at 115200 baud; a handoff outcome ends the trace with the handoff of that address |
| `Provision.RunSetup` | pynq_manager_gui.py:84-137 | the outcome and the full trace of `run_setup` (opening, writes, closing, handoff) are those of the specification `Setup` |
| `Provision.NoPortNoTrace` | pynq_manager_gui.py:85-95 | with an empty port name nothing at all happens and the outcome says so; otherwise the port is opened first and only once |
| `Provision.SetupSentLines` | pynq_manager_gui.py:98-123 | the lines written are the login replies, followed, only after a successful login, by the script plus newline, the password plus newline, the restart command and `ip -4 addr show eth0`, in that order |
| `Provision.LoginFailureStops` | pynq_manager_gui.py:98-102 | after a failed login nothing but credential lines was ever written: no script, no close, no handoff |
| `Provision.HandoffOnlyWithAddress` | pynq_manager_gui.py:126-137 | handoff exactly when a port was given, the login succeeded and an address matched in the output; the port is closed right before, and the handoff carries exactly the matched text, a dotted quad occurring in the output |
| `Provision.CloseThenHandoff` | pynq_manager_gui.py:131-137 | the port is closed only as the next-to-last event, right before the handoff; the handoff is the last event and happens only on the handoff outcome |
| `Provision.HandoffExample` | pynq_manager_gui.py:84-137 | a usual boot followed by the `inet 192.168.1.50/24` line hands `192.168.1.50` to SSH |

## Left out

- The tkinter window: `__init__`, `create_widgets`, `refresh_ports` and the message box. These are presentation only. The port name, user name and password are parameters of `RunSetup`. The "No COM port selected" message is the `NoPortSelected` outcome.
- `log`: every call is treated as a no-op. It does not affect the port or the outcome.
- `start_thread` and the worker thread. This is concurrency infrastructure, and the model has a single thread.
- The `time.sleep` pacing and the wall clock of the login loop. Timing itself is left out, but its effects are not: the 0.5 s pause decides how the device's bytes are grouped into reads, which enters the model as the chunk boundaries of `device` (`Login.ChunkBoundariesMatter` shows a grouping that changes the writes), and the 20 s deadline enters as the bound `maxPolls`.
- Login.ExpectLogin: the 20-second deadline is a bound `maxPolls` on the number of loop iterations, one poll each. The real count depends on how long reads and sleeps take.
- Byte decoding with `errors='ignore'`. Chunks are text that is already decoded.
- Python's Unicode `\d` and `\w`. The model recognises ASCII digits and ASCII letters, digits and `_`.
- `read_all` gets whatever the board sent after the login loop stopped reading. The model does not capture which of those bytes arrive within the settle delays.
- `ssh_fallback` (the paramiko connection and the `apt` commands). It is a foreign network client and appears only as the `Handoff(address)` event.
- Serial I/O errors and the catch-all exception handler of `run_setup`. The model has no failing reads, writes or opens.
