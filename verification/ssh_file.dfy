/**
 The ssh_config file as text.  `write_ssh_config` reads the existing file
 with `f.readlines()`, which keeps every line break and leaves a last line
 without one as it is, and writes each block back with `f.writelines(block)`,
 which adds nothing between lines.  When the existing file does not end with
 a line break, the first line of a block appended after it lands on the same
 line of text as the file's last line.
 */
module SshFile {
  import opened Text
  import opened OrderedMap
  import opened Resolver
  import opened SshConfig

  /** `s` holds no line break. */
  predicate NoBreak(s: string) {
    '\n' !in s
  }

  /** A complete line: text without a line break, then one line break. */
  predicate ProperLine(l: string) {
    |l| > 0 && l[|l| - 1] == '\n' && NoBreak(l[..|l| - 1])
  }

  /** A line as `readlines` can return it: non-empty, with a line break at
      most at its end. */
  predicate Piece(l: string) {
    |l| > 0 && NoBreak(l[..|l| - 1])
  }

  /** Position of the first line break of `s`, or `|s|` when it has none. */
  function LineEnd(s: string): (n: nat)
    ensures n <= |s|
    ensures n < |s| ==> s[n] == '\n'
  {
    BreakFrom(s, 0)
  }

  /** Position of the first line break of `s` at or after `i`. */
  function BreakFrom(s: string, i: nat): (n: nat)
    requires i <= |s|
    ensures i <= n <= |s|
    ensures n < |s| ==> s[n] == '\n'
    decreases |s| - i
  {
    if i == |s| || s[i] == '\n' then i else BreakFrom(s, i + 1)
  }

  /** No line break comes before the first one. */
  lemma {:induction false} BreakFromFirst(s: string, i: nat)
    requires i <= |s| && NoBreak(s[..i])
    ensures NoBreak(s[..BreakFrom(s, i)])
    decreases |s| - i
  {
    if i < |s| && s[i] != '\n' {
      assert s[..i + 1] == s[..i] + [s[i]];
      BreakFromFirst(s, i + 1);
    }
  }

  /** No line break is passed over. */
  lemma {:induction false} BreakFromLeast(s: string, i: nat, k: nat)
    requires i <= k < |s| && s[k] == '\n'
    ensures BreakFrom(s, i) <= k
    decreases k - i
  {
    if i < k && s[i] != '\n' {
      BreakFromLeast(s, i + 1, k);
    }
  }

  lemma LineEndFirst(s: string)
    ensures NoBreak(s[..LineEnd(s)])
  {
    assert s[..0] == [];
    BreakFromFirst(s, 0);
  }

  /** `f.readlines()`: the text cut after every line break. */
  function TextLines(text: string): (ls: seq<string>)
    decreases |text|
  {
    if |text| == 0 then []
    else
      var n := LineEnd(text);
      if n == |text| then [text]
      else [text[..n + 1]] + TextLines(text[n + 1..])
  }

  /** Text without a line break is read as one line. */
  lemma WholeLine(text: string)
    requires |text| > 0 && NoBreak(text)
    ensures TextLines(text) == [text]
  {
  }

  /** Reading cuts the text after its first line break. */
  lemma TextLinesCut(text: string, n: nat)
    requires n == LineEnd(text) && n < |text|
    ensures TextLines(text) == [text[..n + 1]] + TextLines(text[n + 1..])
  { }

  /** `f.writelines(lines)` into an empty file: the lines one after the other. */
  function JoinLines(lines: seq<string>): (text: string)
  {
    if |lines| == 0 then [] else lines[0] + JoinLines(lines[1..])
  }

  /** Writing the lines read loses and adds nothing. */
  lemma {:induction false} JoinTextLines(text: string)
    ensures JoinLines(TextLines(text)) == text
    decreases |text|
  {
    if |text| > 0 {
      var n := LineEnd(text);
      if n < |text| {
        TextLinesCut(text, n);
        JoinTextLines(text[n + 1..]);
        assert text == text[..n + 1] + text[n + 1..];
      }
    }
  }

  /** Lines that `readlines` can return: non-empty, with a line break at
      most at the end, and at the end of every line but the last. */
  predicate Pieces(ls: seq<string>) {
    && (forall i :: 0 <= i < |ls| ==> Piece(ls[i]))
    && (forall i :: 0 <= i < |ls| - 1 ==> ProperLine(ls[i]))
  }

  lemma PiecesCons(first: string, rest: seq<string>)
    requires ProperLine(first) && Pieces(rest)
    ensures Pieces([first] + rest)
  {
    var ls := [first] + rest;
    assert forall i :: 1 <= i < |ls| ==> ls[i] == rest[i - 1];
  }

  /** The first line cut off a text with a line break is a complete line. */
  lemma FirstLine(text: string)
    requires LineEnd(text) < |text|
    ensures ProperLine(text[..LineEnd(text) + 1])
  {
    var n := LineEnd(text);
    LineEndFirst(text);
    assert text[..n + 1][..n] == text[..n];
  }

  /** Every line read is non-empty with a line break at most at its end,
      and every line but the last ends with one. */
  lemma {:induction false} TextLinesPieces(text: string)
    ensures Pieces(TextLines(text))
    decreases |text|
  {
    if |text| > 0 {
      var n := LineEnd(text);
      if n == |text| {
        LineEndFirst(text);
        assert text[..|text| - 1] == text[..n][..|text| - 1];
      } else {
        FirstLine(text);
        TextLinesPieces(text[n + 1..]);
        PiecesCons(text[..n + 1], TextLines(text[n + 1..]));
      }
    }
  }

  /** The last of a line put in front of other lines is the last of those. */
  lemma LastOfCons(first: string, rest: seq<string>)
    requires |rest| > 0
    ensures ([first] + rest)[|rest|] == rest[|rest| - 1]
  {
  }

  /** The last line read ends with the text's last character. */
  lemma {:induction false} TextLinesLast(text: string)
    requires |text| > 0
    ensures var ls := TextLines(text);
      |ls| > 0 && |ls[|ls| - 1]| > 0 && ls[|ls| - 1][|ls[|ls| - 1]| - 1] == text[|text| - 1]
    decreases |text|
  {
    var n := LineEnd(text);
    if n < |text| - 1 {
      var rest := text[n + 1..];
      TextLinesCut(text, n);
      TextLinesLast(rest);
      LastOfCons(text[..n + 1], TextLines(rest));
      assert rest[|rest| - 1] == text[|text| - 1];
    } else if n == |text| - 1 {
      TextLinesCut(text, n);
      assert TextLines(text[n + 1..]) == [];
    }
  }

  /** The lines read are what `readlines` can return, and the last one is
      complete exactly when the text ends with a line break. */
  lemma TextLinesShape(text: string)
    ensures var ls := TextLines(text);
      && Pieces(ls)
      && (|ls| == 0 <==> |text| == 0)
      && (|ls| > 0 ==> (ProperLine(ls[|ls| - 1]) <==> text[|text| - 1] == '\n'))
  {
    TextLinesPieces(text);
    if |text| > 0 {
      TextLinesLast(text);
    }
  }

  /** The first line break of a text that starts with a complete line is the
      one ending that line. */
  lemma LineEndSeam(pre: string, rest: string)
    requires NoBreak(pre)
    requires |rest| > 0 && rest[0] == '\n'
    ensures LineEnd(pre + rest) == |pre|
  {
    BreakFromLeast(pre + rest, 0, |pre|);
  }

  /** Complete lines written one after the other read back as those lines. */
  lemma {:induction false} TextLinesJoin(lines: seq<string>)
    requires forall i :: 0 <= i < |lines| ==> ProperLine(lines[i])
    ensures TextLines(JoinLines(lines)) == lines
    decreases |lines|
  {
    if |lines| > 0 {
      var l := lines[0];
      var rest := JoinLines(lines[1..]);
      var text := l + rest;
      assert l == l[..|l| - 1] + "\n";
      assert text == l[..|l| - 1] + ("\n" + rest);
      LineEndSeam(l[..|l| - 1], "\n" + rest);
      assert text[..|l|] == l && text[|l|..] == rest;
      TextLinesJoin(lines[1..]);
      assert lines == [l] + lines[1..];
    }
  }

  /** `writelines` distributes over putting line lists together. */
  lemma {:induction false} JoinAppend(a: seq<string>, b: seq<string>)
    ensures JoinLines(a + b) == JoinLines(a) + JoinLines(b)
    decreases |a|
  {
    if |a| == 0 {
      assert a + b == b;
    } else {
      assert (a + b)[1..] == a[1..] + b;
      JoinAppend(a[1..], b);
    }
  }

  // ---------------------------------------------------------------------------
  // The file rewritten, as the code does it
  // ---------------------------------------------------------------------------

  /** `write_ssh_config` on the text of the existing file (empty when there
      is none): the text of the new file. */
  function WriteFile(text: string, mapped: Assoc<Host>): string {
    JoinLines(WriteSshConfig(TextLines(text), mapped))
  }

  /** A word holds no line break. */
  lemma WordNoBreak(s: string)
    requires IsWord(s)
    ensures NoBreak(s)
  {
    assert forall i :: 0 <= i < |s| ==> In(NonWhitespace, s[i]);
  }

  lemma NoBreakConcat(x: string, y: string)
    requires NoBreak(x) && NoBreak(y)
    ensures NoBreak(x + y)
  {
    assert forall i :: |x| <= i < |x + y| ==> (x + y)[i] == y[i - |x|];
  }

  /** Text without a line break, then one, is a complete line. */
  lemma CompleteLine(x: string)
    requires NoBreak(x)
    ensures ProperLine(x + "\n")
  {
    assert (x + "\n")[..|x|] == x;
  }

  /** `writelines` of lines and one more line. */
  lemma JoinSnoc(xs: seq<string>, y: string)
    ensures JoinLines(xs + [y]) == JoinLines(xs) + y
  {
    JoinAppend(xs, [y]);
    assert JoinLines([y]) == y + JoinLines([]);
  }

  /** `writelines` of one line and more lines. */
  lemma JoinCons(x: string, ys: seq<string>)
    ensures JoinLines([x] + ys) == x + JoinLines(ys)
  {
    assert ([x] + ys)[1..] == ys;
  }

  /** A file made of one well-formed block is read as that block alone. */
  lemma SingleBlock(key: string, block: Block)
    requires BlockOf(key, block)
    ensures ParseConfig(block) == [(key, block)]
    ensures Concat(Values([(key, block)])) == block
  {
    SplitAppendBlock([], key, block);
    assert [] + block == block;
    ParseConfigSplits(block);
    PutAllFresh([(key, block)]);
    ConcatSnoc([], (key, block));
    assert [] + [(key, block)] == [(key, block)];
  }

  /** Writing one hostname that is not in the file appends its block. */
  lemma AppendOne(existing: Assoc<Block>, h: string, info: Host)
    requires h !in Keys(existing)
    ensures Concat(Values(Merge(existing, [(h, info)])))
         == Concat(Values(existing)) + EntryBlock(h, info)
  {
    var es := Entries([(h, info)]);
    assert es == [(h, EntryBlock(h, info))];
    assert es[..0] == [];
    assert PutAll(existing, es[..0]) == existing;
    assert Merge(existing, [(h, info)]) == Put(existing, h, EntryBlock(h, info));
    PutNew(existing, h, EntryBlock(h, info));
    ConcatSnoc(existing, (h, EntryBlock(h, info)));
  }

  /** The lines of a written block are complete lines. */
  lemma EntryLinesProper(hostname: string, info: Host)
    requires NoBreak(hostname) && NoBreak(info.sshHost) && NoBreak(info.sshPort)
    ensures forall i :: 0 <= i < 4 ==> ProperLine(EntryBlock(hostname, info)[i])
  {
    NoBreakConcat("Host ", hostname);
    CompleteLine("Host " + hostname);
    NoBreakConcat("    HostName ", info.sshHost);
    CompleteLine("    HostName " + info.sshHost);
    NoBreakConcat("    Port ", info.sshPort);
    CompleteLine("    Port " + info.sshPort);
    CompleteLine("");
    assert "" + "\n" == "\n";
  }

  /** First run on the one-line file `Host a` without a final line break:
      the block of `b` is written right after that line. */
  lemma GluedFirstRun(a: string, b: string, info: Host)
    requires IsWord(a) && a != b
    ensures WriteFile("Host " + a, [(b, info)]) == "Host " + a + JoinLines(EntryBlock(b, info))
  {
    var last := "Host " + a;
    WordNoBreak(a);
    NoBreakConcat("Host ", a);
    WholeLine(last);
    HostLineOf(a, "");
    assert "Host " + a + "" == last;
    SingleBlock(a, [last]);
    AppendOne([(a, [last])], b, info);
    assert WriteSshConfig([last], [(b, info)]) == [last] + EntryBlock(b, info);
    JoinCons(last, EntryBlock(b, info));
  }

  /** Text written in front of the lines ends up on their first line. */
  lemma GlueFirst(x: string, y: string, ys: seq<string>)
    ensures JoinLines([x + y] + ys) == x + JoinLines([y] + ys)
  {
    JoinCons(x + y, ys);
    JoinCons(y, ys);
    assert (x + y) + JoinLines(ys) == x + (y + JoinLines(ys));
  }

  /** Every line of the block read back after the first run is complete. */
  lemma GluedLinesProper(a: string, b: string, info: Host)
    requires IsWord(a) && IsWord(b)
    requires NoBreak(info.sshHost) && NoBreak(info.sshPort)
    ensures var block := ["Host " + (a + "Host " + b) + "\n"] + EntryBlock(b, info)[1..];
      forall i :: 0 <= i < |block| ==> ProperLine(block[i])
  {
    var eb := EntryBlock(b, info);
    var key := a + "Host " + b;
    var block := ["Host " + key + "\n"] + eb[1..];
    WordNoBreak(a);
    WordNoBreak(b);
    NoBreakConcat(a, "Host ");
    NoBreakConcat(a + "Host ", b);
    NoBreakConcat("Host ", key);
    CompleteLine("Host " + key);
    EntryLinesProper(b, info);
    assert block[1] == eb[1] && block[2] == eb[2] && block[3] == eb[3];
  }

  /** What the first run wrote is, as text, the old last line and the new
      `Host` line as one line, then the rest of the new block. */
  lemma GluedText(a: string, b: string, info: Host)
    requires IsWord(a) && IsWord(b)
    requires NoBreak(info.sshHost) && NoBreak(info.sshPort)
    ensures var eb := EntryBlock(b, info);
      var block := ["Host " + (a + "Host " + b) + "\n"] + eb[1..];
      && TextLines("Host " + a + JoinLines(eb)) == block
      && JoinLines(block) == "Host " + a + JoinLines(eb)
  {
    var eb := EntryBlock(b, info);
    var glued := "Host " + (a + "Host " + b) + "\n";
    var block := [glued] + eb[1..];
    assert glued == ("Host " + a) + eb[0];
    GlueFirst("Host " + a, eb[0], eb[1..]);
    assert [eb[0]] + eb[1..] == eb;
    GluedLinesProper(a, b, info);
    TextLinesJoin(block);
  }

  /** A `Host` line followed by lines that are not `Host` lines is a block
      of that line's key. */
  lemma BlockOfHead(head: string, rest: seq<string>)
    requires IsHostLine(head)
    requires forall i :: 0 <= i < |rest| ==> !IsHostLine(rest[i])
    ensures BlockOf(HostKey(head), [head] + rest)
  {
    var block := [head] + rest;
    assert forall i :: 1 <= i < |block| ==> block[i] == rest[i - 1];
  }

  /** No line of a written block after its first is a `Host` line. */
  lemma EntryTailPlain(b: string, info: Host)
    ensures forall i :: 0 <= i < 3 ==> !IsHostLine(EntryBlock(b, info)[1..][i])
  {
    var eb := EntryBlock(b, info);
    EntryTailNotHost(b, info);
    assert eb[1..][0] == eb[1] && eb[1..][1] == eb[2] && eb[1..][2] == eb[3];
  }

  /** Any `Host` line followed by the rest of a written block is a block of
      that line's key. */
  lemma HeadWithEntryTail(key: string, b: string, info: Host)
    requires |key| > 0 && !IsSpace(key[0]) && !IsSpace(key[|key| - 1])
    ensures BlockOf(key, ["Host " + key + "\n"] + EntryBlock(b, info)[1..])
  {
    HostLineOf(key, "\n");
    EntryTailPlain(b, info);
    BlockOfHead("Host " + key + "\n", EntryBlock(b, info)[1..]);
  }

  /** A file holding a single block, rewritten with one hostname that is
      not its key: the new block follows the old text. */
  lemma AppendToSingle(text: string, key: string, block: Block, b: string, info: Host)
    requires TextLines(text) == block && JoinLines(block) == text
    requires BlockOf(key, block) && key != b
    ensures ParseConfig(TextLines(text)) == [(key, block)]
    ensures WriteFile(text, [(b, info)]) == text + JoinLines(EntryBlock(b, info))
  {
    SingleBlock(key, block);
    assert Keys([(key, block)]) == [key];
    AppendOne([(key, block)], b, info);
    JoinAppend(block, EntryBlock(b, info));
  }

  /** What the first run wrote reads back as a single block whose key is the
      old key, `Host ` and the new hostname run together. */
  lemma GluedRead(a: string, b: string, info: Host)
    requires IsWord(a) && IsWord(b)
    requires NoBreak(info.sshHost) && NoBreak(info.sshPort)
    ensures var key := a + "Host " + b;
      var block := ["Host " + key + "\n"] + EntryBlock(b, info)[1..];
      && TextLines("Host " + a + JoinLines(EntryBlock(b, info))) == block
      && JoinLines(block) == "Host " + a + JoinLines(EntryBlock(b, info))
      && BlockOf(key, block)
      && key != b
  {
    var key := a + "Host " + b;
    GluedText(a, b, info);
    assert key[0] == a[0] && key[|key| - 1] == b[|b| - 1];
    HeadWithEntryTail(key, b, info);
    assert |key| > |b|;
  }

  /** A written block is never empty text. */
  lemma EntryTextNonEmpty(b: string, info: Host)
    ensures |JoinLines(EntryBlock(b, info))| > 0
  {
    var eb := EntryBlock(b, info);
    JoinCons(eb[0], eb[1..]);
    assert eb == [eb[0]] + eb[1..];
  }

  /** A file whose last line has no line break, rewritten with one hostname
      it lacks: the new `Host` line is glued to that last line and read back
      as part of its key, so a second run finds the hostname missing again
      and appends another copy of its block. */
  lemma GluedHostLine(a: string, b: string, info: Host)
    requires IsWord(a) && IsWord(b) && a != b
    requires NoBreak(info.sshHost) && NoBreak(info.sshPort)
    ensures var once := WriteFile("Host " + a, [(b, info)]);
      && b !in Keys(ParseConfig(TextLines(once)))
      && WriteFile(once, [(b, info)]) != once
  {
    var key := a + "Host " + b;
    var block := ["Host " + key + "\n"] + EntryBlock(b, info)[1..];
    GluedFirstRun(a, b, info);
    GluedRead(a, b, info);
    AppendToSingle(WriteFile("Host " + a, [(b, info)]), key, block, b, info);
    assert Keys([(key, block)]) == [key];
    EntryTextNonEmpty(b, info);
  }

  // ---------------------------------------------------------------------------
  // The file rewritten with its last line terminated
  // ---------------------------------------------------------------------------

  /** The lines read, with a line break added to the last one when it has none. */
  function Terminated(lines: seq<string>): (r: seq<string>)
  {
    if |lines| > 0 && !ProperLine(lines[|lines| - 1]) then
      lines[..|lines| - 1] + [lines[|lines| - 1] + "\n"]
    else
      lines
  }

  /** Terminating the last of the lines `readlines` can return makes every
      line complete and adds one line break to the text exactly when its last
      line lacked one. */
  lemma TerminatedJoin(ls: seq<string>)
    requires Pieces(ls)
    ensures forall i :: 0 <= i < |Terminated(ls)| ==> ProperLine(Terminated(ls)[i])
    ensures JoinLines(Terminated(ls))
         == if |ls| == 0 || ProperLine(ls[|ls| - 1]) then JoinLines(ls) else JoinLines(ls) + "\n"
  {
    if |ls| > 0 && !ProperLine(ls[|ls| - 1]) {
      var init := ls[..|ls| - 1];
      var last := ls[|ls| - 1];
      assert NoBreak(last) by {
        assert forall i :: 0 <= i < |last| - 1 ==> last[i] == last[..|last| - 1][i];
      }
      CompleteLine(last);
      var t := init + [last + "\n"];
      assert forall i :: 0 <= i < |init| ==> t[i] == ls[i];
      AppendLast([], ls);
      JoinSnoc(init, last);
      JoinSnoc(init, last + "\n");
    }
  }

  /** The text read with its last line terminated: every line is complete,
      and writing them back gives the text with a line break added exactly
      when it lacked a final one. */
  lemma TerminatedLines(text: string)
    ensures forall i :: 0 <= i < |Terminated(TextLines(text))| ==> ProperLine(Terminated(TextLines(text))[i])
    ensures JoinLines(Terminated(TextLines(text)))
         == if |text| == 0 || text[|text| - 1] == '\n' then text else text + "\n"
  {
    TextLinesShape(text);
    JoinTextLines(text);
    TerminatedJoin(TextLines(text));
  }

  /** The corrected writer: the existing file's last line is terminated
      before the file is cut into blocks. */
  function WriteFileTerminated(text: string, mapped: Assoc<Host>): string {
    JoinLines(WriteSshConfig(Terminated(TextLines(text)), mapped))
  }

  /** On a file that is empty or ends with a line break the correction
      changes nothing. */
  lemma TerminatedAgrees(text: string, mapped: Assoc<Host>)
    requires |text| == 0 || text[|text| - 1] == '\n'
    ensures WriteFileTerminated(text, mapped) == WriteFile(text, mapped)
  {
    TextLinesShape(text);
  }

  /** What the mapping must hold for its blocks to be complete lines that
      read back as themselves: hostnames are words, host and port have no
      line break. */
  predicate Writable(mapped: Assoc<Host>) {
    forall i :: 0 <= i < |mapped| ==>
      IsWord(mapped[i].0) && NoBreak(mapped[i].1.sshHost) && NoBreak(mapped[i].1.sshPort)
  }

  /** Complete lines stay complete through the writer. */
  lemma WrittenProper(existing: seq<string>, mapped: Assoc<Host>)
    requires forall i :: 0 <= i < |existing| ==> ProperLine(existing[i])
    requires Writable(mapped)
    ensures forall i :: 0 <= i < |WriteSshConfig(existing, mapped)| ==> ProperLine(WriteSshConfig(existing, mapped)[i])
  {
    var out := WriteSshConfig(existing, mapped);
    forall k | 0 <= k < |out|
      ensures ProperLine(out[k])
    {
      WrittenLines(existing, mapped, out[k]);
      if out[k] !in existing {
        var i :| 0 <= i < |mapped| && out[k] in EntryBlock(mapped[i].0, mapped[i].1);
        WordNoBreak(mapped[i].0);
        EntryLinesProper(mapped[i].0, mapped[i].1);
      }
    }
  }

  /** Running the corrected writer again with the same mapping leaves the
      file as its first run wrote it. */
  lemma WriteFileTerminatedTwice(text: string, mapped: Assoc<Host>)
    requires Writable(mapped)
    ensures WriteFileTerminated(WriteFileTerminated(text, mapped), mapped)
         == WriteFileTerminated(text, mapped)
  {
    var lines := Terminated(TextLines(text));
    var out := WriteSshConfig(lines, mapped);
    TerminatedLines(text);
    WrittenProper(lines, mapped);
    TextLinesJoin(out);
    assert Terminated(out) == out;
    WriteTwice(lines, mapped);
  }
}
