/**
 The ssh_config writer (`write_ssh_config`): the existing file is cut into
 blocks, each starting at a `Host` line and keyed by the rest of that line;
 the blocks go into an insertion-ordered dictionary; every resolved hostname
 then gets a fresh four-line block, replacing the block of that key in place
 or appended after the others; the file is the blocks written one after the
 other.
 */
module SshConfig {
  import opened Wrappers
  import opened Text
  import opened OrderedMap
  import opened Resolver

  /** The lines of one `Host` block, newlines included. */
  type Block = seq<string>

  const HostWord := "Host "

  /** `line.strip().startswith("Host ")`. */
  predicate IsHostLine(line: string) {
    StartsWith(Strip(line), HostWord)
  }

  /** `line.strip().split(maxsplit=1)[1]`: everything after `Host` and the
      whitespace that follows it, inner whitespace included. */
  function HostKey(line: string): string
    requires IsHostLine(line)
  {
    AfterHost(Strip(line))
  }

  function AfterHost(s: string): string
    requires |s| >= 4
  {
    var rest := s[4..];
    rest[Span(rest, Whitespace)..]
  }

  lemma AfterHostShape(s: string)
    requires StartsWith(s, HostWord) && !IsSpace(s[|s| - 1])
    ensures var key := AfterHost(s);
      && |key| > 0 && !IsSpace(key[0]) && !IsSpace(key[|key| - 1])
      && exists gap :: Run(gap, Whitespace) && s == "Host" + gap + key
  {
    assert s[4] == HostWord[4];
    var rest := s[4..];
    var n := Span(rest, Whitespace);
    assert n > 0;
    assert rest[|rest| - 1] == s[|s| - 1];
    var key := rest[n..];
    assert key[|key| - 1] == s[|s| - 1];
    assert s == "Host" + rest[..n] + key;
  }

  /** The key is the non-empty, trimmed remainder of the stripped line after
      `Host` and a run of whitespace; in particular the `[1]` never fails. */
  lemma HostKeyShape(line: string)
    requires IsHostLine(line)
    ensures var key := HostKey(line);
      && |key| > 0 && !IsSpace(key[0]) && !IsSpace(key[|key| - 1])
      && exists gap :: Run(gap, Whitespace) && Strip(line) == "Host" + gap + key
  {
    AfterHostShape(Strip(line));
  }

  // ---------------------------------------------------------------------------
  // Reading the existing file
  // ---------------------------------------------------------------------------

  /** The reading loop's state: `current_host`, `current_block` and
      `existing_entries`. */
  datatype Reader = Reader(current: Option<string>, block: Block, entries: Assoc<Block>)

  /** One iteration of the reading loop. */
  function Feed(rd: Reader, line: string): Reader {
    if IsHostLine(line) then
      var entries := if rd.current.Some? then Put(rd.entries, rd.current.value, rd.block) else rd.entries;
      Reader(Some(HostKey(line)), [line], entries)
    else if rd.current.Some? then
      rd.(block := rd.block + [line])
    else
      rd
  }

  function ReadLines(lines: seq<string>): Reader {
    if |lines| == 0 then Reader(None, [], [])
    else Feed(ReadLines(lines[..|lines| - 1]), lines[|lines| - 1])
  }

  /** The blocks of the existing file, keyed (the file-reading half of
      `write_ssh_config`). */
  function ParseConfig(lines: seq<string>): Assoc<Block> {
    var rd := ReadLines(lines);
    if rd.current.Some? then Put(rd.entries, rd.current.value, rd.block) else rd.entries
  }

  /** Reference definition: the file cut into its blocks, in file order, with
      repeated keys kept apart. */
  function SplitBlocks(lines: seq<string>): Assoc<Block> {
    if |lines| == 0 then []
    else
      var bs := SplitBlocks(lines[..|lines| - 1]);
      var line := lines[|lines| - 1];
      if IsHostLine(line) then bs + [(HostKey(line), [line])]
      else if |bs| == 0 then []
      else bs[..|bs| - 1] + [(bs[|bs| - 1].0, bs[|bs| - 1].1 + [line])]
  }

  /** A block as the file holds it: its `Host` line, which carries its key,
      and then only lines that are not `Host` lines. */
  predicate BlockOf(key: string, block: Block) {
    && |block| > 0
    && IsHostLine(block[0])
    && HostKey(block[0]) == key
    && forall i :: 1 <= i < |block| ==> !IsHostLine(block[i])
  }

  /** Number of lines before the first `Host` line. */
  function Preamble(lines: seq<string>): (n: nat)
    ensures n <= |lines|
    ensures forall i :: 0 <= i < n ==> !IsHostLine(lines[i])
    ensures n < |lines| ==> IsHostLine(lines[n])
  {
    if |lines| == 0 || IsHostLine(lines[0]) then 0
    else
      var n := Preamble(lines[1..]);
      assert forall i :: 1 <= i <= n ==> lines[i] == lines[1..][i - 1];
      1 + n
  }

  /** The lines of `blocks` one after the other (`f.writelines` per block). */
  function Concat(blocks: seq<Block>): seq<string> {
    if |blocks| == 0 then [] else Concat(blocks[..|blocks| - 1]) + blocks[|blocks| - 1]
  }

  lemma PreambleSnoc(init: seq<string>, line: string)
    ensures Preamble(init + [line]) ==
      if Preamble(init) < |init| then Preamble(init)
      else if IsHostLine(line) then |init| else |init| + 1
  {
    var lines := init + [line];
    var p, q := Preamble(init), Preamble(lines);
    assert forall i :: 0 <= i < |init| ==> lines[i] == init[i];
    assert lines[|init|] == line;
  }

  lemma ConcatSnoc(bs: Assoc<Block>, x: (string, Block))
    ensures Concat(Values(bs + [x])) == Concat(Values(bs)) + x.1
  {
    var vs := Values(bs + [x]);
    assert vs[..|bs|] == Values(bs);
  }

  /** Every entry of `bs` is a block of its key. */
  predicate WellFormedBlocks(bs: Assoc<Block>) {
    forall i :: 0 <= i < |bs| ==> BlockOf(bs[i].0, bs[i].1)
  }

  /** Every block of the file is well-formed. */
  lemma {:induction false} SplitBlocksWellFormed(lines: seq<string>)
    ensures WellFormedBlocks(SplitBlocks(lines))
  {
    if |lines| > 0 {
      var init := lines[..|lines| - 1];
      var line := lines[|lines| - 1];
      SplitBlocksWellFormed(init);
      var bs := SplitBlocks(init);
      if IsHostLine(line) {
        BlockOfHost(line);
        WellFormedSnoc(bs, (HostKey(line), [line]));
      } else if |bs| > 0 {
        WellFormedExtendLast(bs, line);
      }
    }
  }

  lemma BlockOfHost(line: string)
    requires IsHostLine(line)
    ensures BlockOf(HostKey(line), [line])
  {
  }

  lemma WellFormedSnoc(bs: Assoc<Block>, x: (string, Block))
    requires WellFormedBlocks(bs) && BlockOf(x.0, x.1)
    ensures WellFormedBlocks(bs + [x])
  {
    assert forall i :: 0 <= i < |bs| ==> (bs + [x])[i] == bs[i];
  }

  /** A line that is not a `Host` line extends the last block. */
  lemma WellFormedExtendLast(bs: Assoc<Block>, line: string)
    requires WellFormedBlocks(bs) && |bs| > 0 && !IsHostLine(line)
    ensures WellFormedBlocks(bs[..|bs| - 1] + [(bs[|bs| - 1].0, bs[|bs| - 1].1 + [line])])
  {
    var last := bs[|bs| - 1];
    var front := bs[..|bs| - 1];
    assert BlockOf(last.0, last.1);
    BlockOfSnoc(last.0, last.1, line);
    assert WellFormedBlocks(front) by {
      assert forall i :: 0 <= i < |front| ==> front[i] == bs[i];
    }
    WellFormedSnoc(front, (last.0, last.1 + [line]));
  }

  lemma BlockOfSnoc(key: string, block: Block, line: string)
    requires BlockOf(key, block) && !IsHostLine(line)
    ensures BlockOf(key, block + [line])
  {
    var b := block + [line];
    assert b[0] == block[0];
    assert forall i :: 1 <= i < |block| ==> b[i] == block[i];
    assert b[|block|] == line;
  }

  /** There are no blocks exactly when the file has no `Host` line. */
  lemma {:induction false} SplitBlocksEmpty(lines: seq<string>)
    ensures |SplitBlocks(lines)| == 0 <==> Preamble(lines) == |lines|
  {
    if |lines| > 0 {
      var init := lines[..|lines| - 1];
      assert lines == init + [lines[|lines| - 1]];
      SplitBlocksEmpty(init);
      PreambleSnoc(init, lines[|lines| - 1]);
    }
  }

  /** Written back to back, the blocks give the file without the lines
      before its first `Host` line. */
  lemma {:induction false} SplitBlocksConcat(lines: seq<string>)
    ensures Concat(Values(SplitBlocks(lines))) == lines[Preamble(lines)..]
  {
    if |lines| > 0 {
      var init := lines[..|lines| - 1];
      var line := lines[|lines| - 1];
      assert lines == init + [line];
      SplitBlocksConcat(init);
      SplitBlocksEmpty(init);
      PreambleSnoc(init, line);
      ConcatStep(init, line);
    }
  }

  lemma ConcatStep(init: seq<string>, line: string)
    requires Concat(Values(SplitBlocks(init))) == init[Preamble(init)..]
    requires |SplitBlocks(init)| == 0 <==> Preamble(init) == |init|
    ensures Concat(Values(SplitBlocks(init + [line]))) == (init + [line])[Preamble(init + [line])..]
  {
    var lines := init + [line];
    assert lines[..|lines| - 1] == init;
    PreambleSnoc(init, line);
    if IsHostLine(line) {
      ConcatStepHost(init, line);
    } else if |SplitBlocks(init)| > 0 {
      ConcatStepMore(init, line);
    } else {
      assert SplitBlocks(lines) == [];
    }
  }

  lemma ConcatStepHost(init: seq<string>, line: string)
    requires Concat(Values(SplitBlocks(init))) == init[Preamble(init)..]
    requires |SplitBlocks(init)| == 0 <==> Preamble(init) == |init|
    requires IsHostLine(line)
    requires SplitBlocks(init + [line]) == SplitBlocks(init) + [(HostKey(line), [line])]
    requires Preamble(init + [line]) == if Preamble(init) < |init| then Preamble(init) else |init|
    ensures Concat(Values(SplitBlocks(init + [line]))) == (init + [line])[Preamble(init + [line])..]
  {
    var bs := SplitBlocks(init);
    var p := Preamble(init);
    ConcatSnoc(bs, (HostKey(line), [line]));
    SliceSnoc(init, line, if p < |init| then p else |init|);
  }

  lemma ConcatStepMore(init: seq<string>, line: string)
    requires Concat(Values(SplitBlocks(init))) == init[Preamble(init)..]
    requires |SplitBlocks(init)| > 0 && Preamble(init) < |init|
    requires var bs := SplitBlocks(init);
      SplitBlocks(init + [line]) == bs[..|bs| - 1] + [(bs[|bs| - 1].0, bs[|bs| - 1].1 + [line])]
    requires Preamble(init + [line]) == Preamble(init)
    ensures Concat(Values(SplitBlocks(init + [line]))) == (init + [line])[Preamble(init + [line])..]
  {
    var bs := SplitBlocks(init);
    ConcatExtendLast(bs, line);
    SliceSnoc(init, line, Preamble(init));
  }

  /** Extending the last block extends the written lines by the same line. */
  lemma ConcatExtendLast(bs: Assoc<Block>, line: string)
    requires |bs| > 0
    ensures Concat(Values(bs[..|bs| - 1] + [(bs[|bs| - 1].0, bs[|bs| - 1].1 + [line])]))
         == Concat(Values(bs)) + [line]
  {
    var last := bs[|bs| - 1];
    var front := bs[..|bs| - 1];
    AppendLast([], bs);
    assert [] + bs == bs;
    ConcatSnoc(front, last);
    ConcatSnoc(front, (last.0, last.1 + [line]));
    assert Concat(Values(front)) + (last.1 + [line]) == (Concat(Values(front)) + last.1) + [line];
  }

  lemma SliceSnoc(init: seq<string>, line: string, p: nat)
    requires p <= |init|
    ensures (init + [line])[p..] == init[p..] + [line]
  {
  }

  /** The reading loop computes the reference blocks assigned in order:
      a repeated key keeps its first position and takes its last block. */
  lemma {:induction false} ParseConfigSplits(lines: seq<string>)
    ensures ParseConfig(lines) == PutAll([], SplitBlocks(lines))
  {
    ReaderInvariant(lines);
  }

  lemma {:induction false} ReaderInvariant(lines: seq<string>)
    ensures var rd, bs := ReadLines(lines), SplitBlocks(lines);
      && (|bs| == 0 ==> rd.current.None? && rd.entries == [])
      && (|bs| > 0 ==> rd.current == Some(bs[|bs| - 1].0) && rd.block == bs[|bs| - 1].1
                       && rd.entries == PutAll([], bs[..|bs| - 1]))
  {
    if |lines| > 0 {
      var init := lines[..|lines| - 1];
      ReaderInvariant(init);
      var bs := SplitBlocks(init);
      var line := lines[|lines| - 1];
      if IsHostLine(line) && |bs| > 0 {
        var nb := bs + [(HostKey(line), [line])];
        assert nb[..|nb| - 1] == bs;
        assert bs == bs[..|bs| - 1] + [bs[|bs| - 1]];
      } else if IsHostLine(line) {
        assert (bs + [(HostKey(line), [line])])[..|bs|] == [];
      } else if |bs| > 0 {
        var nb := bs[..|bs| - 1] + [(bs[|bs| - 1].0, bs[|bs| - 1].1 + [line])];
        assert nb[..|nb| - 1] == bs[..|bs| - 1];
      }
    }
  }

  // ---------------------------------------------------------------------------
  // Merging and writing
  // ---------------------------------------------------------------------------

  /** The four-line block written for a resolved hostname. */
  function EntryBlock(hostname: string, info: Host): Block {
    [ "Host " + hostname + "\n",
      "    HostName " + info.sshHost + "\n",
      "    Port " + info.sshPort + "\n",
      "\n" ]
  }

  /** The block to assign for each resolved hostname, in mapping order. */
  function Entries(mapped: Assoc<Host>): (es: Assoc<Block>)
    ensures |es| == |mapped|
    ensures forall i :: 0 <= i < |mapped| ==>
      es[i] == (mapped[i].0, EntryBlock(mapped[i].0, mapped[i].1))
  {
    if |mapped| == 0 then []
    else
      var init := mapped[..|mapped| - 1];
      Entries(init) + [(mapped[|mapped| - 1].0, EntryBlock(mapped[|mapped| - 1].0, mapped[|mapped| - 1].1))]
  }

  /** The entries carry the mapping's hostnames, in order. */
  lemma EntriesKeys(mapped: Assoc<Host>)
    ensures Keys(Entries(mapped)) == Keys(mapped)
  {
  }

  /** The surviving entry of a hostname is the block of its surviving host. */
  lemma {:induction false} EntriesLastValue(mapped: Assoc<Host>, h: string)
    ensures LastValue(Entries(mapped), h) ==
      match LastValue(mapped, h)
      case Some(info) => Some(EntryBlock(h, info))
      case None => None
  {
    if |mapped| > 0 {
      var init := mapped[..|mapped| - 1];
      var es := Entries(mapped);
      assert es[..|es| - 1] == Entries(init);
      EntriesLastValue(init, h);
    }
  }

  /** The entries after the update loop of `write_ssh_config`. */
  function Merge(existing: Assoc<Block>, mapped: Assoc<Host>): Assoc<Block> {
    PutAll(existing, Entries(mapped))
  }

  /** `write_ssh_config` on the lines of the existing file (empty when there
      is none): the new contents of the file, line by line. */
  function WriteSshConfig(existing: seq<string>, mapped: Assoc<Host>): seq<string> {
    Concat(Values(Merge(ParseConfig(existing), mapped)))
  }

  /** Every mapped hostname ends with exactly its fresh four-line block;
      every other key keeps the lines it had. */
  lemma MergeGet(existing: Assoc<Block>, mapped: Assoc<Host>, h: string)
    requires Distinct(Keys(mapped))
    ensures Get(Merge(existing, mapped), h) ==
      match Get(mapped, h)
      case Some(info) => Some(EntryBlock(h, info))
      case None => Get(existing, h)
  {
    PutAllGet(existing, Entries(mapped), h);
    EntriesKeys(mapped);
    EntriesLastValue(mapped, h);
    LastValueIsGet(mapped, h);
  }

  /** Existing keys keep their position; new keys follow in mapping order. */
  lemma MergeKeys(existing: Assoc<Block>, mapped: Assoc<Host>)
    ensures Keys(Merge(existing, mapped)) == AppendNew(Keys(existing), Keys(mapped))
  {
    PutAllKeys(existing, Entries(mapped));
    EntriesKeys(mapped);
  }

  /** The existing file read as a dictionary: each key at the position of its
      first block, holding the lines of its last block. */
  lemma ParseConfigKeysAndBlocks(lines: seq<string>, key: string)
    ensures Keys(ParseConfig(lines)) == AppendNew([], Keys(SplitBlocks(lines)))
    ensures Get(ParseConfig(lines), key) == LastValue(SplitBlocks(lines), key)
  {
    ParseConfigSplits(lines);
    PutAllKeys([], SplitBlocks(lines));
    PutAllGet([], SplitBlocks(lines), key);
  }

  /** With nothing mapped and no repeated key, the file is written back as it
      was, except for the lines before its first `Host` line. */
  lemma RewriteUnchanged(lines: seq<string>)
    requires Distinct(Keys(SplitBlocks(lines)))
    ensures WriteSshConfig(lines, []) == lines[Preamble(lines)..]
  {
    ParseConfigSplits(lines);
    PutAllFresh(SplitBlocks(lines));
    SplitBlocksConcat(lines);
  }

  /** A line is in the concatenation exactly when it is in one of the blocks. */
  lemma {:induction false} ConcatHas(bs: seq<Block>, x: string)
    ensures x in Concat(bs) <==> exists i :: 0 <= i < |bs| && x in bs[i]
  {
    if |bs| > 0 {
      var init := bs[..|bs| - 1];
      ConcatHas(init, x);
      assert forall i :: 0 <= i < |init| ==> init[i] == bs[i];
    }
  }

  /** Every line written is a line of the existing file or a line of the
      block written for one of the mapped hostnames. */
  lemma WrittenLines(existing: seq<string>, mapped: Assoc<Host>, x: string)
    requires x in WriteSshConfig(existing, mapped)
    ensures || x in existing
            || exists i :: 0 <= i < |mapped| && x in EntryBlock(mapped[i].0, mapped[i].1)
  {
    var parsed := ParseConfig(existing);
    var merged := Merge(parsed, mapped);
    ConcatHas(Values(merged), x);
    var j :| 0 <= j < |merged| && x in Values(merged)[j];
    var e := merged[j];
    PutAllFrom(parsed, Entries(mapped));
    if e in Entries(mapped) {
      var k :| 0 <= k < |mapped| && Entries(mapped)[k] == e;
    } else {
      ParseConfigSplits(existing);
      var bs := SplitBlocks(existing);
      PutAllFrom([], bs);
      var k :| 0 <= k < |bs| && bs[k] == e;
      ConcatHas(Values(bs), x);
      SplitBlocksConcat(existing);
      assert x in existing[Preamble(existing)..];
    }
  }

  // ---------------------------------------------------------------------------
  // Writing the same mapping twice
  // ---------------------------------------------------------------------------

  /** What follows `Host ` and its whitespace is the key. */
  lemma AfterHostWord(key: string)
    requires |key| > 0 && !IsSpace(key[0])
    ensures StartsWith("Host " + key, HostWord)
    ensures AfterHost("Host " + key) == key
  {
    var head := "Host " + key;
    assert head[..5] == HostWord;
    SpanSeam(" ", key, Whitespace);
    assert head[4..] == " " + key;
  }

  /** `Host ` followed by a key, and then only whitespace, is a `Host` line
      with that key. */
  lemma HostLineOf(key: string, post: string)
    requires |key| > 0 && !IsSpace(key[0]) && !IsSpace(key[|key| - 1])
    requires All(post, Whitespace)
    ensures IsHostLine("Host " + key + post)
    ensures HostKey("Host " + key + post) == key
  {
    var head := "Host " + key;
    assert head[|head| - 1] == key[|key| - 1];
    assert "Host " + key + post == [] + head + post;
    StripPadded([], head, post);
    AfterHostWord(key);
  }

  /** The `Host` line written for a hostname reads back as that key. */
  lemma HostLineReadsBack(hostname: string)
    requires IsWord(hostname)
    ensures IsHostLine("Host " + hostname + "\n")
    ensures HostKey("Host " + hostname + "\n") == hostname
  {
    assert In(NonWhitespace, hostname[0]) && In(NonWhitespace, hostname[|hostname| - 1]);
    assert In(Whitespace, "\n"[0]);
    HostLineOf(hostname, "\n");
  }

  /** A line whose first word is `word` is a `Host` line only if `word` is
      `Host`. */
  lemma IndentedWordNotHost(indent: string, word: string, rest: string)
    requires All(indent, Whitespace)
    requires |word| >= 5 ==> word[..5] != HostWord
    requires |word| > 0 && !IsSpace(word[0]) && !IsSpace(word[|word| - 1])
    requires |word| < 5 ==> word != HostWord[..|word|]
    ensures !IsHostLine(indent + word + rest)
  {
    StripStartsWith(indent, word, rest);
    var s := Strip(indent + word + rest);
    if |word| >= 5 {
      assert s[..5] == word[..5];
    } else if |s| >= 5 {
      assert s[..5][..|word|] == word;
    }
  }

  /** An indented `HostName` or `Port` line is not a `Host` line. */
  lemma SettingNotHost(word: string, value: string)
    requires word == "HostName" || word == "Port"
    ensures !IsHostLine("    " + word + " " + value + "\n")
  {
    assert "    " + word + " " + value + "\n" == "    " + word + (" " + value + "\n");
    assert |word| >= 5 ==> word[..5] != HostWord by {
      if |word| >= 5 { assert word[4] != HostWord[4]; }
    }
    IndentedWordNotHost("    ", word, " " + value + "\n");
  }

  /** The blank separator line is not a `Host` line. */
  lemma BlankNotHost()
    ensures !IsHostLine("\n")
  {
    assert RStrip("\n") == [];
  }

  /** Only the first line of a written block is a `Host` line. */
  lemma EntryTailNotHost(hostname: string, info: Host)
    ensures !IsHostLine(EntryBlock(hostname, info)[1])
    ensures !IsHostLine(EntryBlock(hostname, info)[2])
    ensures !IsHostLine(EntryBlock(hostname, info)[3])
  {
    var b := EntryBlock(hostname, info);
    assert b[1] == "    " + "HostName" + " " + info.sshHost + "\n";
    SettingNotHost("HostName", info.sshHost);
    assert b[2] == "    " + "Port" + " " + info.sshPort + "\n";
    SettingNotHost("Port", info.sshPort);
    BlankNotHost();
  }

  /** The first line of a written block is the `Host` line of its hostname. */
  lemma EntryHeadHost(hostname: string, info: Host)
    requires IsWord(hostname)
    ensures IsHostLine(EntryBlock(hostname, info)[0])
    ensures HostKey(EntryBlock(hostname, info)[0]) == hostname
  {
    HostLineReadsBack(hostname);
  }

  /** The block written for a hostname reads back as that hostname's block. */
  lemma EntryBlockReadsBack(hostname: string, info: Host)
    requires IsWord(hostname)
    ensures BlockOf(hostname, EntryBlock(hostname, info))
  {
    var b := EntryBlock(hostname, info);
    EntryHeadHost(hostname, info);
    EntryTailNotHost(hostname, info);
    forall i | 1 <= i < |b|
      ensures !IsHostLine(b[i])
    {
      assert i == 1 || i == 2 || i == 3;
    }
  }

  lemma EntriesReadBack(mapped: Assoc<Host>)
    requires forall i :: 0 <= i < |mapped| ==> IsWord(mapped[i].0)
    ensures WellFormedBlocks(Entries(mapped))
  {
    forall i | 0 <= i < |mapped|
      ensures BlockOf(mapped[i].0, EntryBlock(mapped[i].0, mapped[i].1))
    {
      EntryBlockReadsBack(mapped[i].0, mapped[i].1);
    }
  }

  lemma PutReadsBack(m: Assoc<Block>, k: string, v: Block)
    requires WellFormedBlocks(m) && BlockOf(k, v)
    ensures WellFormedBlocks(Put(m, k, v))
  {
    PutEntries(m, k, v);
  }

  lemma {:induction false} PutAllReadsBack(m: Assoc<Block>, kvs: Assoc<Block>)
    requires WellFormedBlocks(m) && WellFormedBlocks(kvs)
    ensures WellFormedBlocks(PutAll(m, kvs))
  {
    if |kvs| > 0 {
      var init := kvs[..|kvs| - 1];
      PutAllReadsBack(m, init);
      PutReadsBack(PutAll(m, init), kvs[|kvs| - 1].0, kvs[|kvs| - 1].1);
    }
  }

  /** A well-formed block of two or more lines, without its last line, is
      still well-formed, and that last line is not a `Host` line. */
  lemma BlockOfInit(key: string, block: Block)
    requires BlockOf(key, block) && |block| > 1
    ensures BlockOf(key, block[..|block| - 1])
    ensures !IsHostLine(block[|block| - 1])
  {
    var init := block[..|block| - 1];
    assert init[0] == block[0];
    assert forall i :: 1 <= i < |init| ==> init[i] == block[i];
  }

  /** Appending a non-empty sequence is appending all but its last element,
      then that element. */
  lemma AppendLast<T>(xs: seq<T>, ys: seq<T>)
    requires |ys| > 0
    ensures xs + ys == (xs + ys[..|ys| - 1]) + [ys[|ys| - 1]]
    ensures ys[..|ys| - 1] + [ys[|ys| - 1]] == ys
  {
  }

  /** Reading a well-formed block after any text adds exactly that block. */
  lemma {:induction false} SplitAppendBlock(xs: seq<string>, key: string, block: Block)
    requires BlockOf(key, block)
    ensures SplitBlocks(xs + block) == SplitBlocks(xs) + [(key, block)]
    decreases |block|
  {
    if |block| == 1 {
      SplitAppendHead(xs, key, block);
    } else {
      var init := block[..|block| - 1];
      var line := block[|block| - 1];
      assert block == init + [line];
      BlockOfInit(key, block);
      SplitAppendBlock(xs, key, init);
      SplitExtendLast(xs, key, init, line);
    }
  }

  /** A block of its `Host` line alone read after any text. */
  lemma SplitAppendHead(xs: seq<string>, key: string, block: Block)
    requires BlockOf(key, block) && |block| == 1
    ensures SplitBlocks(xs + block) == SplitBlocks(xs) + [(key, block)]
  {
    assert block == [block[0]];
    SplitSnocHost(xs, block[0]);
  }

  /** A line that is not a `Host` line read after a block joins that block. */
  lemma SplitExtendLast(xs: seq<string>, key: string, init: Block, line: string)
    requires SplitBlocks(xs + init) == SplitBlocks(xs) + [(key, init)]
    requires !IsHostLine(line)
    ensures SplitBlocks(xs + (init + [line])) == SplitBlocks(xs) + [(key, init + [line])]
  {
    SplitSnocPlain(xs + init, line);
    SnocParts(SplitBlocks(xs), (key, init));
    assert xs + (init + [line]) == (xs + init) + [line];
  }

  /** The parts of a sequence with one more element. */
  lemma SnocParts<T>(xs: seq<T>, x: T)
    ensures var ys := xs + [x]; |ys| > 0 && ys[..|ys| - 1] == xs && ys[|ys| - 1] == x
  {
  }

  lemma SplitSnocHost(lines: seq<string>, line: string)
    requires IsHostLine(line)
    ensures SplitBlocks(lines + [line]) == SplitBlocks(lines) + [(HostKey(line), [line])]
  {
    assert (lines + [line])[..|lines|] == lines;
  }

  lemma SplitSnocPlain(lines: seq<string>, line: string)
    requires !IsHostLine(line) && |SplitBlocks(lines)| > 0
    ensures var bs := SplitBlocks(lines);
      SplitBlocks(lines + [line]) == bs[..|bs| - 1] + [(bs[|bs| - 1].0, bs[|bs| - 1].1 + [line])]
  {
    assert (lines + [line])[..|lines|] == lines;
  }

  /** Well-formed blocks written back to back read back as the same blocks. */
  lemma {:induction false} SplitConcat(bs: Assoc<Block>)
    requires WellFormedBlocks(bs)
    ensures SplitBlocks(Concat(Values(bs))) == bs
  {
    if |bs| > 0 {
      var init := bs[..|bs| - 1];
      var last := bs[|bs| - 1];
      assert bs == init + [last];
      SplitConcat(init);
      ConcatSnoc(init, last);
      SplitAppendBlock(Concat(Values(init)), last.0, last.1);
    }
  }

  /** Running the writer again with the same mapping leaves the file as the
      first run wrote it. */
  lemma WriteTwice(existing: seq<string>, mapped: Assoc<Host>)
    requires forall i :: 0 <= i < |mapped| ==> IsWord(mapped[i].0)
    ensures WriteSshConfig(WriteSshConfig(existing, mapped), mapped) == WriteSshConfig(existing, mapped)
  {
    var parsed := ParseConfig(existing);
    var merged := Merge(parsed, mapped);
    var out := Concat(Values(merged));
    ParseConfigSplits(existing);
    SplitBlocksWellFormed(existing);
    PutAllReadsBack([], SplitBlocks(existing));
    PutAllDistinct([], SplitBlocks(existing));
    EntriesReadBack(mapped);
    PutAllReadsBack(parsed, Entries(mapped));
    PutAllDistinct(parsed, Entries(mapped));
    SplitConcat(merged);
    ParseConfigSplits(out);
    PutAllFresh(merged);
    assert ParseConfig(out) == merged;
    PutAllTwice(parsed, Entries(mapped));
  }
}
