/** The command lines cpp-bindings/pruss.cpp writes to the daemon's socket and
    what prussd/prussd.py makes of them.  A line is a string of characters; the
    socket, the channel list and the presence of the device are parameters. */
module Commands {
  import opened Words
  import opened Text
  import RpmsgFormat

  const EPERM := 1
  const EINVAL := 22
  const ENODEV := 19

  /** What the daemon does with a request. */
  datatype Effect =
    | Errno(code: int)
    | WriteText(chan: string, port: int, text: string)
    | WriteRaw(chan: string, port: int, bytes: seq<Byte>)
    | PackError                                             // struct.error, not caught
    | Nothing                                               // returns None
    | Wait(chan: string, port: int, timeout: Option<int>)
    | Other(name: string, args: seq<string>)                // another command of the table
    | BadIndex                                              // no command word at all

  // --------------------------------------------------------- C++ encoders

  /** PRU::sendMsg_string and PRU::sendMsg_raw */
  function SendLine(mode: string, chan: string, port: int, message: string): string {
    "SENDMSG " + mode + " " + chan + " " + Dec(port) + " " + message
  }

  /** PRU::waitForEvent */
  function WaitLine(chan: string, port: int, timeout: Option<int>): string {
    "EVENTWAIT " + chan + " " + Dec(port) + (if timeout == None then "" else " " + Dec(timeout.value))
  }

  // -------------------------------------------------------- daemon decoders

  /** rfile.readline(): up to and including the first newline. */
  function ReadLine(stream: string): string {
    if stream == "" then "" else if stream[0] == '\n' then "\n" else [stream[0]] + ReadLine(stream[1..])
  }

  /** struct.pack('i', v): four little-endian bytes of two's complement. */
  function PackInt(v: int): Option<seq<Byte>> {
    if -(U32 / 2) <= v < U32 / 2 then Some(RpmsgFormat.LE(v % U32, 4)) else None
  }

  function SendMsg(cmd: seq<string>, channels: set<string>, present: bool): Effect {
    if |cmd| < 5 then Errno(-EINVAL)
    else
      var mode, chan, port := cmd[1], cmd[2], ParseInt(cmd[3]);
      var raw := if mode == "r" then ParseInt(cmd[4]) else None;
      if port == None || (mode == "r" && raw == None) then Errno(-EINVAL)
      else if chan !in channels then Errno(-EPERM)
      else if !present then Errno(-ENODEV)
      else if mode == "s" then WriteText(chan, port.value, Join(cmd[4..]) + "\n")
      else if mode == "r" then
        var bytes := PackInt(raw.value);
        if bytes == None then PackError else WriteRaw(chan, port.value, bytes.value)
      else Nothing
  }

  function EventWait(cmd: seq<string>, channels: set<string>, present: bool): Effect {
    if |cmd| != 3 && |cmd| != 4 then Errno(-EINVAL)
    else
      var port := ParseInt(cmd[2]);
      var timeout := if |cmd| == 4 then ParseInt(cmd[3]) else None;
      if port == None || (|cmd| == 4 && timeout == None) then Errno(-EINVAL)
      else if cmd[1] !in channels then Errno(-EPERM)
      else if !present then Errno(-ENODEV)
      else Wait(cmd[1], port.value, timeout)
  }

  const TABLE: set<string> := {
    "PROBE_RPROC", "UNPROBE_RPROC", "ENABLE_0", "ENABLE_1", "DISABLE_0", "DISABLE_1",
    "PAUSE_0", "PAUSE_1", "RESUME_0", "RESUME_1", "STATE_0", "STATE_1", "GETREGS_0", "GETREGS_1",
    "LOAD_0", "LOAD_1", "GETMSG", "SENDMSG", "EVENTWAIT",
    "MEMWRITE_D0", "MEMWRITE_D1", "MEMWRITE_S", "MEMREAD_D0", "MEMREAD_D1", "MEMREAD_S" }

  /** The table lookup of PRURequestHandler.handle. */
  function Dispatch(cmd: seq<string>, channels: set<string>, present: bool): Effect {
    if cmd == [] then BadIndex
    else if cmd[0] == "SENDMSG" then SendMsg(cmd, channels, present)
    else if cmd[0] == "EVENTWAIT" then EventWait(cmd, channels, present)
    else if cmd[0] in TABLE then Other(cmd[0], cmd[1..])
    else Errno(-EINVAL)
  }

  /** PRURequestHandler.handle */
  function Handle(stream: string, channels: set<string>, present: bool): Effect {
    Dispatch(Split(Strip(ReadLine(stream))), channels, present)
  }

  // ------------------------------------------------------------ round trip

  predicate OneLine(s: string) { forall i :: 0 <= i < |s| ==> s[i] != '\n' }

  /** What comes before the first newline. */
  function FirstLine(s: string): (r: string)
    ensures OneLine(r) && r <= s && (r == s || s[|r|] == '\n')
  {
    if s == "" || s[0] == '\n' then "" else [s[0]] + FirstLine(s[1..])
  }

  lemma {:induction false} ReadsFirstLine(text: string, rest: string)
    ensures ReadLine(text + "\n" + rest) == FirstLine(text) + "\n"
    decreases |text|
  {
    var stream := text + "\n" + rest;
    if text == "" {
      assert stream[0] == '\n';
    } else {
      ReadsFirstLine(text[1..], rest);
      assert stream[0] == text[0] && stream[1..] == text[1..] + "\n" + rest;
      Associate([text[0]], FirstLine(text[1..]), "\n");
    }
  }

  lemma {:induction false} FirstLineAfter(a: string, b: string)
    requires OneLine(a)
    ensures FirstLine(a + b) == a + FirstLine(b)
    decreases |a|
  {
    if a == "" {
      assert a + b == b;
    } else {
      FirstLineAfter(a[1..], b);
      assert (a + b)[1..] == a[1..] + b;
    }
  }

  lemma TokenIsOneLine(t: string)
    requires IsToken(t)
    ensures OneLine(t)
  {
  }

  /** The daemon's words are the words of the first line sent, whatever follows
      it in the socket. */
  lemma WordsOfLine(text: string, rest: string)
    ensures Split(Strip(ReadLine(text + "\n" + rest))) == Split(FirstLine(text))
  {
    var line := FirstLine(text);
    ReadsFirstLine(text, rest);
    SplitStrip(line + "\n");
    SplitTrailing(line, '\n');
    assert line + "\n" == line + ['\n'];
  }

  lemma SendWords(mode: string, chan: string, port: int, message: string)
    requires IsToken(mode) && IsToken(chan)
    ensures Split(SendLine(mode, chan, port, message)) == ["SENDMSG", mode, chan, Dec(port)] + Split(message)
  {
    assert "SENDMSG " + mode == "SENDMSG" + " " + mode;
    FiveWords("SENDMSG", mode, chan, Dec(port), message) by { DecIsToken(port); }
  }

  lemma FiveWords(a: string, b: string, c: string, d: string, rest: string)
    requires IsToken(a) && IsToken(b) && IsToken(c) && IsToken(d)
    ensures Split(a + " " + b + " " + c + " " + d + " " + rest) == [a, b, c, d] + Split(rest)
  {
    SplitBlank(a + " " + b + " " + c + " " + d, rest);
    FourWords(a, b, c, d);
  }

  lemma FourWords(a: string, b: string, c: string, d: string)
    requires IsToken(a) && IsToken(b) && IsToken(c) && IsToken(d)
    ensures Split(a + " " + b + " " + c + " " + d) == [a, b, c, d]
  {
    SplitBlank(a + " " + b + " " + c, d);
    ThreeWords(a, b, c);
    SplitOne(d);
  }

  lemma ThreeWords(a: string, b: string, c: string)
    requires IsToken(a) && IsToken(b) && IsToken(c)
    ensures Split(a + " " + b + " " + c) == [a, b, c]
  {
    SplitBlank(a + " " + b, c);
    SplitBlank(a, b);
    SplitOne(a);
    SplitOne(b);
    SplitOne(c);
  }

  lemma SendFirstLine(mode: string, chan: string, port: int, message: string)
    requires IsToken(mode) && IsToken(chan)
    ensures FirstLine(SendLine(mode, chan, port, message)) == SendLine(mode, chan, port, FirstLine(message))
  {
    DecIsToken(port);
    FirstLineAfter("SENDMSG " + mode + " " + chan + " " + Dec(port) + " ", message);
  }

  lemma SendDispatched(
    mode: string, chan: string, port: int, message: string, rest: string, channels: set<string>, present: bool)
    requires IsToken(mode) && IsToken(chan)
    ensures Handle(SendLine(mode, chan, port, message) + "\n" + rest, channels, present)
         == Dispatch(["SENDMSG", mode, chan, Dec(port)] + Split(FirstLine(message)), channels, present)
  {
    WordsOfLine(SendLine(mode, chan, port, message), rest);
    SendFirstLine(mode, chan, port, message);
    SendWords(mode, chan, port, FirstLine(message));
  }

  lemma DispatchText(chan: string, port: string, words: seq<string>, channels: set<string>, present: bool)
    ensures Dispatch(["SENDMSG", "s", chan, port] + words, channels, present)
         == if words == [] || ParseInt(port) == None then Errno(-22)
            else if chan !in channels then Errno(-1)
            else if !present then Errno(-19)
            else WriteText(chan, ParseInt(port).value, Join(words) + "\n")
  {
    var cmd := ["SENDMSG", "s", chan, port] + words;
    assert cmd[0] == "SENDMSG" && cmd[1] == "s" && cmd[2] == chan && cmd[3] == port && cmd[4..] == words;
  }

  /** A text message arrives on the channel and port it was sent to, with the
      words of its first line separated by single blanks and a newline after
      them; without words it is refused as too short. */
  lemma TextRoundTrip(
    chan: string, port: int, message: string, rest: string, channels: set<string>, present: bool)
    requires IsToken(chan)
    ensures Handle(SendLine("s", chan, port, message) + "\n" + rest, channels, present)
         == if Split(FirstLine(message)) == [] then Errno(-22)
            else if chan !in channels then Errno(-1)
            else if !present then Errno(-19)
            else WriteText(chan, port, Normalise(FirstLine(message)) + "\n")
  {
    SendDispatched("s", chan, port, message, rest, channels, present);
    ParseDec(port);
    DispatchText(chan, Dec(port), Split(FirstLine(message)), channels, present);
  }

  /** A message arrives unchanged, newline apart, exactly when it has single
      blanks between its words and no other whitespace. */
  lemma ArrivesUnchangedIff(message: string)
    ensures Normalise(FirstLine(message)) == message <==> IsNormal(message)
  {
    JoinIsNormal(Split(FirstLine(message)));
    if IsNormal(message) {
      assert FirstLine(message) == message;
      NormaliseFixesExactlyNormal(message);
    }
  }

  lemma DispatchRaw(chan: string, port: string, words: seq<string>, channels: set<string>, present: bool)
    ensures Dispatch(["SENDMSG", "r", chan, port] + words, channels, present)
         == if words == [] || ParseInt(port) == None || ParseInt(words[0]) == None then Errno(-22)
            else if chan !in channels then Errno(-1)
            else if !present then Errno(-19)
            else
              var v := ParseInt(words[0]).value;
              if -(U32 / 2) <= v < U32 / 2
              then WriteRaw(chan, ParseInt(port).value, RpmsgFormat.LE(v % U32, 4)) else PackError
  {
    var cmd := ["SENDMSG", "r", chan, port] + words;
    assert cmd[0] == "SENDMSG" && cmd[1] == "r" && cmd[2] == chan && cmd[3] == port && cmd[4..] == words;
  }

  /** A raw message arrives as the four little-endian bytes of the integer its
      first word spells, exactly when it spells one that fits an int. */
  lemma RawRoundTrip(
    chan: string, port: int, message: string, rest: string, channels: set<string>, present: bool)
    requires IsToken(chan)
    ensures var words := Split(FirstLine(message));
            Handle(SendLine("r", chan, port, message) + "\n" + rest, channels, present) ==
            if words == [] || ParseInt(words[0]) == None then Errno(-22)
            else if chan !in channels then Errno(-1)
            else if !present then Errno(-19)
            else
              var v := ParseInt(words[0]).value;
              if -(U32 / 2) <= v < U32 / 2
              then WriteRaw(chan, port, RpmsgFormat.LE(v % U32, 4)) else PackError
  {
    SendDispatched("r", chan, port, message, rest, channels, present);
    ParseDec(port);
    DispatchRaw(chan, Dec(port), Split(FirstLine(message)), channels, present);
  }

  /** On a known channel with its device there, a raw message is refused exactly
      when it has no word or its first word is no integer. */
  lemma RawRefusedIff(chan: string, port: int, message: string, rest: string, channels: set<string>)
    requires IsToken(chan) && chan in channels
    ensures Handle(SendLine("r", chan, port, message) + "\n" + rest, channels, true) == Errno(-22)
       <==> var words := Split(FirstLine(message));
            !(&& words != [] && words[0] != ""
              && var s := if words[0][0] == '+' || words[0][0] == '-' then words[0][1..] else words[0];
              && s != "" && '0' <= s[0] <= '9' && '0' <= s[|s| - 1] <= '9'
              && (forall i :: 0 <= i < |s| ==> '0' <= s[i] <= '9' || s[i] == '_')
              && (forall i :: 0 < i < |s| && s[i] == '_' ==> s[i - 1] != '_'))
  {
    RawRoundTrip(chan, port, message, rest, channels, true);
    var words := Split(FirstLine(message));
    if words != [] {
      assert IsToken(words[0]);
      ParseIntIff(words[0]);
    }
  }

  lemma PrintedWords(v: int)
    ensures Split(FirstLine(Dec(v))) == [Dec(v)] && ParseInt(Dec(v)) == Some(v)
  {
    DecIsToken(v);
    TokenIsOneLine(Dec(v));
    SplitOne(Dec(v));
    ParseDec(v);
  }

  function OptionalWord(w: Option<string>): seq<string> { if w == None then [] else [w.value] }

  function Printed(v: Option<int>): Option<string> { if v == None then None else Some(Dec(v.value)) }

  lemma WaitWords(chan: string, port: int, timeout: Option<int>)
    requires IsToken(chan)
    ensures Split(WaitLine(chan, port, timeout)) == ["EVENTWAIT", chan, Dec(port)] + OptionalWord(Printed(timeout))
  {
    DecIsToken(port);
    assert "EVENTWAIT " + chan == "EVENTWAIT" + " " + chan;
    if timeout == None {
      ThreeWords("EVENTWAIT", chan, Dec(port));
      assert WaitLine(chan, port, timeout) == "EVENTWAIT" + " " + chan + " " + Dec(port);
    } else {
      DecIsToken(timeout.value);
      FourWords("EVENTWAIT", chan, Dec(port), Dec(timeout.value));
      Associate("EVENTWAIT " + chan + " " + Dec(port), " ", Dec(timeout.value));
    }
  }

  lemma WaitIsOneLine(chan: string, port: int, timeout: Option<int>)
    requires IsToken(chan)
    ensures FirstLine(WaitLine(chan, port, timeout)) == WaitLine(chan, port, timeout)
  {
    DecIsToken(port);
    if timeout != None { DecIsToken(timeout.value); }
    assert OneLine(WaitLine(chan, port, timeout));
  }

  lemma DispatchWait(chan: string, port: string, timeout: Option<string>, channels: set<string>, present: bool)
    ensures Dispatch(["EVENTWAIT", chan, port] + OptionalWord(timeout), channels, present)
         == if ParseInt(port) == None || (timeout != None && ParseInt(timeout.value) == None) then Errno(-22)
            else if chan !in channels then Errno(-1)
            else if !present then Errno(-19)
            else Wait(chan, ParseInt(port).value, if timeout == None then None else ParseInt(timeout.value))
  {
  }

  lemma DispatchPrintedWait(chan: string, port: int, timeout: Option<int>, channels: set<string>, present: bool)
    ensures Dispatch(["EVENTWAIT", chan, Dec(port)] + OptionalWord(Printed(timeout)), channels, present)
         == if chan !in channels then Errno(-1)
            else if !present then Errno(-19)
            else Wait(chan, port, timeout)
  {
    ParseDec(port);
    if timeout != None { ParseDec(timeout.value); }
    DispatchWait(chan, Dec(port), Printed(timeout), channels, present);
  }

  /** A wait reaches its channel with the timeout given, if any. */
  lemma WaitRoundTrip(
    chan: string, port: int, timeout: Option<int>, rest: string, channels: set<string>, present: bool)
    requires IsToken(chan)
    ensures Handle(WaitLine(chan, port, timeout) + "\n" + rest, channels, present)
         == if chan !in channels then Errno(-1)
            else if !present then Errno(-19)
            else Wait(chan, port, timeout)
  {
    WaitIsOneLine(chan, port, timeout);
    WordsOfLine(WaitLine(chan, port, timeout), rest);
    WaitWords(chan, port, timeout);
    DispatchPrintedWait(chan, port, timeout, channels, present);
  }

  // ------------------------------------------------ everything else

  /** Requests that are neither a message nor a wait of the right shape. */
  lemma DispatchRest(cmd: seq<string>, channels: set<string>, present: bool)
    ensures cmd == [] ==> Dispatch(cmd, channels, present) == BadIndex
    ensures cmd != [] && cmd[0] == "SENDMSG" && |cmd| < 5 ==> Dispatch(cmd, channels, present) == Errno(-22)
    ensures cmd != [] && cmd[0] == "EVENTWAIT" && (|cmd| < 3 || |cmd| > 4) ==>
              Dispatch(cmd, channels, present) == Errno(-22)
    ensures cmd != [] && cmd[0] != "SENDMSG" && cmd[0] != "EVENTWAIT" ==>
              Dispatch(cmd, channels, present)
              == if cmd[0] in {"PROBE_RPROC", "UNPROBE_RPROC", "ENABLE_0", "ENABLE_1", "DISABLE_0", "DISABLE_1",
                               "PAUSE_0", "PAUSE_1", "RESUME_0", "RESUME_1", "STATE_0", "STATE_1",
                               "GETREGS_0", "GETREGS_1", "LOAD_0", "LOAD_1", "GETMSG",
                               "MEMWRITE_D0", "MEMWRITE_D1", "MEMWRITE_S",
                               "MEMREAD_D0", "MEMREAD_D1", "MEMREAD_S"}
                 then Other(cmd[0], cmd[1..]) else Errno(-22)
  {
  }

  /** A message in a mode other than s and r is checked and then dropped. */
  lemma DispatchNoMode(
    mode: string, chan: string, port: string, words: seq<string>, channels: set<string>, present: bool)
    requires mode != "s" && mode != "r"
    ensures Dispatch(["SENDMSG", mode, chan, port] + words, channels, present)
         == if words == [] || ParseInt(port) == None then Errno(-22)
            else if chan !in channels then Errno(-1)
            else if !present then Errno(-19)
            else Nothing
  {
    var cmd := ["SENDMSG", mode, chan, port] + words;
    assert cmd[0] == "SENDMSG" && cmd[1] == mode && cmd[2] == chan && cmd[3] == port && cmd[4..] == words;
  }

  // -------------------------------------- which channel names are reached

  /** Any channel the daemon writes to or waits on is a single word. */
  lemma ChannelIsWord(stream: string, channels: set<string>, present: bool)
    ensures var e := Handle(stream, channels, present);
            && (e.WriteText? ==> IsToken(e.chan)) && (e.WriteRaw? ==> IsToken(e.chan))
            && (e.Wait? ==> IsToken(e.chan))
  {
    var cmd := Split(Strip(ReadLine(stream)));
    if |cmd| >= 3 { assert IsToken(cmd[1]) && IsToken(cmd[2]); }
  }

  /** setChannel takes any name; the daemon is reached under it exactly when it is
      one word, known and present. */
  lemma TextReachesIff(
    chan: string, port: int, message: string, rest: string, channels: set<string>, present: bool)
    ensures (exists text ::
               Handle(SendLine("s", chan, port, message) + "\n" + rest, channels, present)
               == WriteText(chan, port, text))
       <==> IsToken(chan) && chan in channels && present && Split(FirstLine(message)) != []
  {
    ChannelIsWord(SendLine("s", chan, port, message) + "\n" + rest, channels, present);
    if IsToken(chan) { TextRoundTrip(chan, port, message, rest, channels, present); }
  }

  lemma WaitReachesIff(
    chan: string, port: int, timeout: Option<int>, rest: string, channels: set<string>, present: bool)
    ensures Handle(WaitLine(chan, port, timeout) + "\n" + rest, channels, present) == Wait(chan, port, timeout)
       <==> IsToken(chan) && chan in channels && present
  {
    ChannelIsWord(WaitLine(chan, port, timeout) + "\n" + rest, channels, present);
    if IsToken(chan) { WaitRoundTrip(chan, port, timeout, rest, channels, present); }
  }
}
