/**
 The forwarding-log reader (`parse_jcl_output`): a left fold over the lines of
 the log with two pieces of state, the device named by the last
 `Port forwarding for <name>` header and a toggle that records whether an odd
 number of forwarding lines has been taken into account.  Forwarding lines
 are taken into account only while a device is current; every second one
 emits one device record and clears the current device.
 */
module LogParser {
  import opened Wrappers
  import opened Text

  /** One discovered device and the SSH endpoint forwarded for it. */
  datatype Device = Device(name: string, host: string, port: string)

  // ---------------------------------------------------------------------------
  // The two recognised line shapes
  // ---------------------------------------------------------------------------

  const HeaderPrefix := "Port forwarding for "

  /** `^Port forwarding for (\S+)$`: the captured device name, if any. */
  function HeaderName(line: string): (r: Option<string>)
    ensures r.Some? ==> line == HeaderPrefix + r.value && IsWord(r.value)
  {
    var name :- Literal(line, HeaderPrefix);
    if IsWord(name) then Some(name) else None
  }

  /** Every header line is recognised, and yields its own name back. */
  lemma HeaderNameRoundTrip(name: string)
    requires IsWord(name)
    ensures HeaderName(HeaderPrefix + name) == Some(name)
  {
    LiteralSeam(HeaderPrefix, name);
  }

  /** The parts of a line `^ +Forwarding traffic ([\d\.]+):(\d+) --> [\d\.]+:22$`:
      the indentation, the two captured groups and the destination address. */
  datatype Forwarding = Forwarding(indent: string, host: string, port: string, dest: string)

  predicate WellFormedForwarding(f: Forwarding) {
    && Run(f.indent, Blank)
    && Run(f.host, DigitOrDot)
    && Run(f.port, Digit)
    && Run(f.dest, DigitOrDot)
  }

  const TrafficWord := "Forwarding traffic "
  const Arrow := " --> "
  const SshSuffix := ":22"

  /** The line a well-formed forwarding record is read from. */
  function ForwardLine(f: Forwarding): string {
    f.indent + (TrafficWord + (f.host + (":" + (f.port + (Arrow + (f.dest + SshSuffix))))))
  }

  /** The forwarding-line pattern, read greedily left to right; no part of it
      can backtrack because each character class stops at the literal that
      follows it. */
  function MatchForward(line: string): (r: Option<Forwarding>)
    ensures r.Some? ==> WellFormedForwarding(r.value) && ForwardLine(r.value) == line
  {
    var (indent, s1) :- TakeRun(line, Blank);
    var s2 :- Literal(s1, TrafficWord);
    var (host, s3) :- TakeRun(s2, DigitOrDot);
    var s4 :- Literal(s3, ":");
    var (port, s5) :- TakeRun(s4, Digit);
    var s6 :- Literal(s5, Arrow);
    var (dest, s7) :- TakeRun(s6, DigitOrDot);
    if s7 == SshSuffix then Some(Forwarding(indent, host, port, dest)) else None
  }

  /** Every well-formed forwarding line is recognised, with its own parts. */
  lemma MatchForwardRoundTrip(f: Forwarding)
    requires WellFormedForwarding(f)
    ensures MatchForward(ForwardLine(f)) == Some(f)
  {
    var s6 := f.dest + SshSuffix;
    var s5 := Arrow + s6;
    var s4 := f.port + s5;
    var s3 := ":" + s4;
    var s2 := f.host + s3;
    var s1 := TrafficWord + s2;
    TakeRunSeam(f.indent, s1, Blank);
    LiteralSeam(TrafficWord, s2);
    TakeRunSeam(f.host, s3, DigitOrDot);
    LiteralSeam(":", s4);
    TakeRunSeam(f.port, s5, Digit);
    LiteralSeam(Arrow, s6);
    TakeRunSeam(f.dest, SshSuffix, DigitOrDot);
  }

  // ---------------------------------------------------------------------------
  // The fold over the log
  // ---------------------------------------------------------------------------

  /** The reader's state: `current_device`, the `second` toggle, and the
      records emitted so far. */
  datatype Scan = Scan(current: Option<string>, second: bool, devices: seq<Device>)

  const Start := Scan(None, false, [])

  /** The line as the patterns see it (`line.rstrip()`). */
  function Trimmed(line: string): string {
    RStrip(line)
  }

  /** A forwarding line that arrives while a device is current: the only kind
      of line that moves the toggle. */
  predicate Accepts(st: Scan, line: string) {
    && HeaderName(Trimmed(line)).None?
    && MatchForward(Trimmed(line)).Some?
    && st.current.Some?
  }

  /** One iteration of the reading loop. */
  function Step(st: Scan, line: string): (r: Scan)
    // a header only replaces the current device; the toggle is kept
    ensures HeaderName(Trimmed(line)).Some? ==>
      r == st.(current := HeaderName(Trimmed(line)))
    // a line that is neither a header nor an accepted forwarding line is ignored
    ensures HeaderName(Trimmed(line)).None? && !Accepts(st, line) ==> r == st
    // the first accepted forwarding line only sets the toggle
    ensures Accepts(st, line) && !st.second ==> r == st.(second := true)
    // the second one emits the current device with THIS line's host and port
    // and clears both the device and the toggle
    ensures Accepts(st, line) && st.second ==>
      var f := MatchForward(Trimmed(line)).value;
      r == Scan(None, false, st.devices + [Device(st.current.value, f.host, f.port)])
  {
    var l := Trimmed(line);
    match HeaderName(l)
    case Some(name) => st.(current := Some(name))
    case None =>
      match MatchForward(l)
      case None => st
      case Some(f) =>
        if st.current.None? then st
        else if st.second then
          Scan(None, false, st.devices + [Device(st.current.value, f.host, f.port)])
        else
          st.(second := true)
  }

  /** The state after reading `lines` from the start. */
  function ScanLines(lines: seq<string>): Scan {
    if |lines| == 0 then Start
    else Step(ScanLines(lines[..|lines| - 1]), lines[|lines| - 1])
  }

  /** `parse_jcl_output` on the lines of the log. */
  function ParseLog(lines: seq<string>): seq<Device> {
    ScanLines(lines).devices
  }

  /** Number of forwarding lines taken into account while reading `lines`. */
  function Accepted(lines: seq<string>): nat {
    if |lines| == 0 then 0
    else
      var init := lines[..|lines| - 1];
      Accepted(init) + if Accepts(ScanLines(init), lines[|lines| - 1]) then 1 else 0
  }

  /** Number of header lines in `lines`. */
  function Headers(lines: seq<string>): nat {
    if |lines| == 0 then 0
    else
      var init := lines[..|lines| - 1];
      Headers(init) + if HeaderName(Trimmed(lines[|lines| - 1])).Some? then 1 else 0
  }

  /** Records are emitted for accepted forwarding lines in pairs: half of them
      (rounded down) have produced a record, and the toggle is set exactly
      when an odd one is waiting for its partner, whatever headers came in
      between. */
  lemma {:induction false} PairCounting(lines: seq<string>)
    ensures |ParseLog(lines)| == Accepted(lines) / 2
    ensures ScanLines(lines).second <==> Accepted(lines) % 2 == 1
  {
    if |lines| > 0 {
      PairCounting(lines[..|lines| - 1]);
    }
  }

  /** Each record uses up the header that named its device, so there are at
      most as many records as header lines (one more header is held by a
      device that is still current). */
  lemma {:induction false} OneRecordPerHeader(lines: seq<string>)
    ensures |ParseLog(lines)| + (if ScanLines(lines).current.Some? then 1 else 0) <= Headers(lines)
  {
    if |lines| > 0 {
      OneRecordPerHeader(lines[..|lines| - 1]);
    }
  }

  /** Output only grows by appending: reading more lines never changes the
      records already emitted. */
  lemma {:induction false} AppendOnly(lines: seq<string>, i: nat)
    requires i <= |lines|
    ensures ParseLog(lines[..i]) <= ParseLog(lines)
    decreases |lines|
  {
    if i < |lines| {
      var init := lines[..|lines| - 1];
      assert init[..i] == lines[..i];
      AppendOnly(init, i);
      var st := ScanLines(init);
      assert ScanLines(lines) == Step(st, lines[|lines| - 1]);
      var a, b, c := ParseLog(lines[..i]), st.devices, ParseLog(lines);
      assert b <= c;
      assert a == b[..|a|] && b == c[..|b|];
      assert a == c[..|a|];
    } else {
      assert lines[..i] == lines;
    }
  }

  /** Every record names a device from a header line of the log and carries
      the host and port of a forwarding line of the log. */
  lemma {:induction false} Provenance(lines: seq<string>)
    ensures ScanLines(lines).current.Some? ==>
      exists i :: 0 <= i < |lines| && HeaderName(Trimmed(lines[i])) == ScanLines(lines).current
    ensures forall d :: d in ParseLog(lines) ==>
      && (exists i :: 0 <= i < |lines| && HeaderName(Trimmed(lines[i])) == Some(d.name))
      && (exists j :: 0 <= j < |lines| && MatchForward(Trimmed(lines[j])).Some?
            && MatchForward(Trimmed(lines[j])).value.host == d.host
            && MatchForward(Trimmed(lines[j])).value.port == d.port)
  {
    if |lines| > 0 {
      var init := lines[..|lines| - 1];
      var last := |lines| - 1;
      Provenance(init);
      forall i | 0 <= i < |init| ensures lines[i] == init[i] { }
    }
  }

  // ---------------------------------------------------------------------------
  // Worked consequences on well-formed logs
  // ---------------------------------------------------------------------------

  /** A header line as the log prints it. */
  function HeaderLine(name: string): string {
    HeaderPrefix + name
  }

  /** A well-formed header line, with any trailing whitespace such as its
      line break, is read as that header and nothing else. */
  lemma ReadsAsHeader(name: string, eol: string)
    requires IsWord(name) && All(eol, Whitespace)
    ensures HeaderName(Trimmed(HeaderLine(name) + eol)) == Some(name)
  {
    var l := HeaderLine(name);
    assert l[|l| - 1] == name[|name| - 1];
    RStripPadded(l, eol);
    HeaderNameRoundTrip(name);
  }

  /** A line that starts with a blank is never a header. */
  lemma IndentedIsNoHeader(l: string)
    requires |l| > 0 && l[0] == ' '
    ensures HeaderName(l) == None
  {
    if |l| >= |HeaderPrefix| {
      assert l[..|HeaderPrefix|][0] == ' ';
    }
  }

  lemma ForwardLineEnds(f: Forwarding)
    requires WellFormedForwarding(f)
    ensures |ForwardLine(f)| > 0
    ensures ForwardLine(f)[0] == ' '
    ensures ForwardLine(f)[|ForwardLine(f)| - 1] == '2'
  {
    var tail := TrafficWord + (f.host + (":" + (f.port + (Arrow + (f.dest + SshSuffix)))));
    assert ForwardLine(f) == f.indent + tail;
    assert (f.indent + tail)[0] == f.indent[0];
    var t2 := f.dest + SshSuffix;
    assert t2[|t2| - 1] == '2';
  }

  /** A well-formed forwarding line, with any trailing whitespace such as
      its line break, is read as that forwarding line and nothing else. */
  lemma ReadsAsForward(f: Forwarding, eol: string)
    requires WellFormedForwarding(f) && All(eol, Whitespace)
    ensures HeaderName(Trimmed(ForwardLine(f) + eol)) == None
    ensures MatchForward(Trimmed(ForwardLine(f) + eol)) == Some(f)
  {
    var l := ForwardLine(f);
    ForwardLineEnds(f);
    RStripPadded(l, eol);
    MatchForwardRoundTrip(f);
    IndentedIsNoHeader(l);
  }

  /** Reading one more line is one more step. */
  lemma ScanSnoc(lines: seq<string>, line: string)
    ensures ScanLines(lines + [line]) == Step(ScanLines(lines), line)
  {
    assert (lines + [line])[..|lines|] == lines;
  }

  /** A header line only names the current device. */
  lemma HeaderStep(st: Scan, name: string, eol: string)
    requires IsWord(name) && All(eol, Whitespace)
    ensures Step(st, HeaderLine(name) + eol) == st.(current := Some(name))
  {
    ReadsAsHeader(name, eol);
  }

  /** A forwarding line under a current device moves the toggle, and on the
      second one emits the record. */
  lemma ForwardStep(st: Scan, f: Forwarding, eol: string)
    requires WellFormedForwarding(f) && All(eol, Whitespace) && st.current.Some?
    ensures Step(st, ForwardLine(f) + eol) ==
      if st.second then Scan(None, false, st.devices + [Device(st.current.value, f.host, f.port)])
      else st.(second := true)
  {
    ReadsAsForward(f, eol);
    assert Accepts(st, ForwardLine(f) + eol);
  }

  /** The state after a header and one forwarding line under it; `e0` and
      `e1` are whatever trails each line, its line break included. */
  lemma ScanHeaderForward(name: string, f: Forwarding, e0: string, e1: string)
    requires IsWord(name) && WellFormedForwarding(f)
    requires All(e0, Whitespace) && All(e1, Whitespace)
    ensures ScanLines([HeaderLine(name) + e0, ForwardLine(f) + e1]) == Scan(Some(name), true, [])
  {
    var l0, l1 := HeaderLine(name) + e0, ForwardLine(f) + e1;
    assert ScanLines([l0]) == Scan(Some(name), false, []) by {
      ScanSnoc([], l0);
      assert [] + [l0] == [l0];
      HeaderStep(Start, name, e0);
    }
    ScanSnoc([l0], l1);
    assert [l0] + [l1] == [l0, l1];
    ForwardStep(Scan(Some(name), false, []), f, e1);
  }

  /** A header followed by two forwarding lines yields one record, with the
      host and port of the SECOND forwarding line. */
  lemma SecondLineWins(name: string, f1: Forwarding, f2: Forwarding, e0: string, e1: string, e2: string)
    requires IsWord(name) && WellFormedForwarding(f1) && WellFormedForwarding(f2)
    requires All(e0, Whitespace) && All(e1, Whitespace) && All(e2, Whitespace)
    ensures ParseLog([HeaderLine(name) + e0, ForwardLine(f1) + e1, ForwardLine(f2) + e2])
         == [Device(name, f2.host, f2.port)]
  {
    var l0, l1, l2 := HeaderLine(name) + e0, ForwardLine(f1) + e1, ForwardLine(f2) + e2;
    ScanHeaderForward(name, f1, e0, e1);
    ScanSnoc([l0, l1], l2);
    assert [l0, l1] + [l2] == [l0, l1, l2];
    ForwardStep(Scan(Some(name), true, []), f2, e2);
  }

  /** The state after a header, one forwarding line and a second header. */
  lemma ScanAcross(a: string, f: Forwarding, b: string, e0: string, e1: string, e2: string)
    requires IsWord(a) && IsWord(b) && WellFormedForwarding(f)
    requires All(e0, Whitespace) && All(e1, Whitespace) && All(e2, Whitespace)
    ensures ScanLines([HeaderLine(a) + e0, ForwardLine(f) + e1, HeaderLine(b) + e2]) == Scan(Some(b), true, [])
  {
    var l0, l1, l2 := HeaderLine(a) + e0, ForwardLine(f) + e1, HeaderLine(b) + e2;
    ScanHeaderForward(a, f, e0, e1);
    ScanSnoc([l0, l1], l2);
    assert [l0, l1] + [l2] == [l0, l1, l2];
    HeaderStep(Scan(Some(a), true, []), b, e2);
  }

  /** A header does not reset the toggle: a lone forwarding line under one
      header pairs with the first forwarding line under the next header, and
      the record carries the second header's name. */
  lemma PairsAcrossHeaders(a: string, b: string, f1: Forwarding, f2: Forwarding,
                           e0: string, e1: string, e2: string, e3: string)
    requires IsWord(a) && IsWord(b) && WellFormedForwarding(f1) && WellFormedForwarding(f2)
    requires All(e0, Whitespace) && All(e1, Whitespace) && All(e2, Whitespace) && All(e3, Whitespace)
    ensures ParseLog([HeaderLine(a) + e0, ForwardLine(f1) + e1, HeaderLine(b) + e2, ForwardLine(f2) + e3])
         == [Device(b, f2.host, f2.port)]
  {
    var l0, l1, l2, l3 := HeaderLine(a) + e0, ForwardLine(f1) + e1, HeaderLine(b) + e2, ForwardLine(f2) + e3;
    ScanAcross(a, f1, b, e0, e1, e2);
    ScanSnoc([l0, l1, l2], l3);
    assert [l0, l1, l2] + [l3] == [l0, l1, l2, l3];
    ForwardStep(Scan(Some(b), true, []), f2, e3);
  }
}
