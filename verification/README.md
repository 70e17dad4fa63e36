# jcl_parse in Dafny

A model of `jcl_parse.py`. The script turns the console log of SSH port
forwarding into Ansible connection settings in four stages:

1. **Forwarding log** (`parse_jcl_output`). The log is read line by line.
   - A `Port forwarding for <device>` header names the current device.
   - `Forwarding traffic <host>:<port> --> <ip>:22` lines count only while a
     device is current. The second such line emits one device record, built
     from that line's host and port, and clears the current device, so
     further forwarding lines are ignored until the next header.
2. **Rule file** (`parse_output2host_ini`). Lines of the form
   `<pattern> <order> <hostname>` become naming rules.
   - Blank lines are skipped.
   - Lines starting with `#` or `;` are comments and are skipped.
   - Any other malformed line is dropped silently.
3. **Resolution** (`map_devices_to_hostnames`). Each rule binds its hostname
   to the `order`-th device whose name its pattern matches. The result is an
   insertion-ordered dictionary, so a later rule for the same hostname wins.
4. **Output**. Results go to one of two places:
   - **ssh_config** (`write_ssh_config`):
     - the existing file is cut into `Host` blocks;
     - each resolved hostname's block is replaced in place or appended;
     - the blocks are written back in order.
   - **Per-host YAML** (`write_host_vars_yaml`): `ansible_ssh_host` and
     `ansible_ssh_port` are set, and every other variable of an existing
     file is kept.

Modules, one per concern:

| module | file | contents |
|---|---|---|
| `Wrappers` | `wrappers.dfy` | `Option`, usable with `:-` |
| `Text` | `text.dfy` | Python's whitespace, `strip`/`rstrip`, greedy character-class runs, `int()` on digit strings |
| `OrderedMap` | `ordered_map.dfy` | Python's insertion-ordered `dict` / `OrderedDict` as an association list |
| `LogParser` | `log_parser.dfy` | the two log line shapes and the reading fold |
| `RuleLoader` | `rule_loader.dfy` | the rule line shape and the rule-file fold |
| `Resolver` | `resolver.dfy` | rule resolution, as a reference fold and as the nested loops |
| `SshConfig` | `ssh_config.dfy` | block splitting, merging and writing, read-back and idempotence |
| `SshFile` | `ssh_file.dfy` | the ssh_config file as text: `readlines`, `writelines`, and the missing-final-newline defect with its correction |
| `HostVars` | `host_vars.dfy` | the per-host variable update and the loop over resolved hosts |

Modelling notes:

- Regular expressions.
  - The fixed line patterns are spelled out with character classes. Each
    class run ends where the following literal or class begins, so a greedy
    left-to-right reading is the only match.
  - Each line-shape reader has a round-trip lemma: rendering a well-formed
    line and reading it back gives the same parts.
- Rule patterns. These are user-supplied regular expressions and are
  matched by `re.match`. That becomes a caller-supplied predicate,
  `Resolver.Matcher`.
- Dictionaries. Python dictionaries remember insertion order, and both the
  resolver and the ssh_config writer rely on that. They are association
  lists in which assigning an existing key keeps its position.
- Files. A file is its sequence of lines, as `readlines()` returns them.
  - A missing ssh_config is the empty sequence.
  - `SshFile` also models the ssh_config text itself: `readlines()` cuts it
    after every newline, and `writelines()` concatenates without adding
    any.
  - A YAML file is the document `yaml.safe_load` returned, with cases for a
    missing file and a load error.

Where the source differs from its own description, the model follows the
source:

- A forwarding line's indentation is spaces only: the pattern is ` +`, not `\s+`.
- Its host is `[\d\.]+`, which accepts non-addresses such as `...`.
- A new header does not clear the "second line" toggle. A header that
  arrives after one forwarding line lets the next forwarding line emit a
  record for the new device.
- An ssh_config block's key is everything after `Host` and the whitespace
  that follows it, inner spaces included. It is not just the first word.
- The ssh_config writer does not normalise blank lines.
- Lines before the first `Host` line are dropped when the file is rewritten
  (`SshConfig.RewriteUnchanged`).

## Model

| member | source | states |
|---|---|---|
| Text.RStrip | jcl_parse.py:22 | `rstrip()` keeps a prefix of the line, drops only whitespace, and leaves no trailing whitespace |
| Text.StripShape | jcl_parse.py:54 | `strip()` returns a slice of the line with only whitespace around it, neither starting nor ending with whitespace |
| Text.StripPadded | jcl_parse.py:54 | stripping whitespace padding around a trimmed text gives exactly that text back |
| Text.DecimalRoundTrip | jcl_parse.py:60 | `int()` of a decimal rendering gives the number back |
| OrderedMap.Get | jcl_parse.py:137 | reading a key of the dictionary: its value, or nothing when the key is absent; the value exists exactly when the key is among the keys. The assignment lemmas below state their effects through it |
| OrderedMap.Put | jcl_parse.py:137 | one assignment `d[k] = v`: a present key keeps its place and gets the new value, a new key is appended. `PutGet`, `PutKeys` and `PutNew` state its effect |
| OrderedMap.PutAll | jcl_parse.py:130-137 | a run of assignments in order, as the update loop of `write_ssh_config` and the resolver perform them. `PutAllKeys` and `PutAllGet` state its result against the reference definitions `AppendNew` and `LastValue` |
| OrderedMap.PutGet | jcl_parse.py:137 | after `d[k] = v`, `k` reads `v` and every other key reads what it read before |
| OrderedMap.PutKeys | jcl_parse.py:121 | assigning a present key keeps the key order; a new key is appended last |
| OrderedMap.PutAllKeys | jcl_parse.py:130-137 | after a run of assignments the keys are the old keys in order, then each new key at its first assignment |
| OrderedMap.PutAllGet | jcl_parse.py:130-137 | after a run of assignments, a key reads its last assigned value, or its old value if it was never assigned |
| OrderedMap.PutAllDistinct | jcl_parse.py:110 | a dictionary never holds a key twice |
| OrderedMap.PutAllTwice | jcl_parse.py:130-137 | repeating the same run of assignments changes nothing |
| LogParser.HeaderName | jcl_parse.py:14 | a line read as a header is the header prefix followed by a whitespace-free name |
| LogParser.HeaderNameRoundTrip | jcl_parse.py:14 | every whitespace-free name is read back from its header line |
| LogParser.MatchForward | jcl_parse.py:15-17 | a line read as a forwarding line is the rendering of well-formed parts (spaces, dotted host, digit port, dotted destination, `:22`) |
| LogParser.MatchForwardRoundTrip | jcl_parse.py:15-17 | every well-formed forwarding line is read back into exactly its parts |
| LogParser.ScanLines | jcl_parse.py:20-41 | the `for line in f` loop of `parse_jcl_output` as a left fold of `Step` from no device, toggle clear and no records. `PairCounting`, `OneRecordPerHeader`, `AppendOnly` and `Provenance` state what it computes |
| LogParser.ParseLog | jcl_parse.py:10-43 | `parse_jcl_output` on the lines of the log: the records left after the whole fold |
| LogParser.Step | jcl_parse.py:22-41 | a header only replaces the current device; other lines that are not accepted change nothing; the first accepted forwarding line sets the toggle; the second emits the current device with that line's host and port and clears device and toggle |
| LogParser.PairCounting | jcl_parse.py:20-41 | the number of records is half the number of accepted forwarding lines, rounded down; the toggle is set exactly when that number is odd |
| LogParser.OneRecordPerHeader | jcl_parse.py:24-38 | records plus a pending device never outnumber the header lines |
| LogParser.AppendOnly | jcl_parse.py:33-37 | the records of a prefix of the log are a prefix of the records of the whole log |
| LogParser.Provenance | jcl_parse.py:24-37 | every record's name comes from some header line, and its host and port from some forwarding line |
| LogParser.ReadsAsHeader | jcl_parse.py:21-25 | a header line followed by any trailing whitespace, its newline included, is read after `rstrip` as its name |
| LogParser.ReadsAsForward | jcl_parse.py:21-28 | a forwarding line followed by any trailing whitespace, its newline included, is not a header and is read after `rstrip` into its parts |
| LogParser.SecondLineWins | jcl_parse.py:21-39 | a header followed by two forwarding lines, each line with any trailing whitespace, yields one record carrying the second line's host and port |
| LogParser.PairsAcrossHeaders | jcl_parse.py:20-41 | with one forwarding line before a second header and one after, each line with any trailing whitespace, the second device is emitted, because a header does not clear the toggle |
| RuleLoader.MatchRule | jcl_parse.py:51 | a line read as a rule is three whitespace-free fields, the middle one decimal, separated by whitespace |
| RuleLoader.MatchRuleRoundTrip | jcl_parse.py:51 | every well-formed rule line is read back into exactly its fields |
| RuleLoader.RuleOfLine | jcl_parse.py:54-60 | a line yields a rule only if its stripped text is a well-formed rule line that is not a comment, with the order read as a decimal |
| RuleLoader.RuleOfPaddedLine | jcl_parse.py:54-60 | a well-formed rule line with whitespace padding yields exactly its rule |
| RuleLoader.OrderIsDecimal | jcl_parse.py:59-60 | the order field reads back as the number written there |
| RuleLoader.CommentIgnored | jcl_parse.py:53-56 | a line starting with `#` or `;` after leading whitespace yields no rule, whatever whitespace (its newline included) trails it |
| RuleLoader.LoadRules | jcl_parse.py:50-61 | there are never more rules than lines |
| RuleLoader.LoadRulesSound | jcl_parse.py:53-61 | every loaded rule comes from some line of the file |
| RuleLoader.LoadRulesComplete | jcl_parse.py:53-61 | every line that yields a rule contributes it |
| RuleLoader.LoadRulesAppend | jcl_parse.py:53-61 | the rules of two files read one after the other are the rules of the first followed by those of the second |
| Resolver.KthMatch | jcl_parse.py:74-78 | the `k`-th matching device exists exactly when `1 <= k` and at least `k` devices match; it is a device of the list and it matches |
| Resolver.KthMatchPosition | jcl_parse.py:74-78 | the `k`-th match sits where exactly `k - 1` matches precede it |
| Resolver.KthMatchSnoc | jcl_parse.py:75-78 | one more device changes the `k`-th match only when the count reaches `k` at that device |
| Resolver.Binding | jcl_parse.py:74-83 | what one rule assigns: its hostname bound to its `order`-th matching device, or nothing when there is no such device |
| Resolver.Resolve | jcl_parse.py:72-85 | the reference definition of `map_devices_to_hostnames`: each rule's binding assigned in rule order into an empty dictionary. `MapDevices` is proved equal to it; `ResolveKeys`, `ResolveLastWins` and `ResolveOrder` state what it holds |
| Resolver.ApplyRule | jcl_parse.py:74-83 | the inner loop assigns the rule's hostname to its `order`-th match, if there is one, and otherwise leaves the mapping alone |
| Resolver.MapDevices | jcl_parse.py:72-85 | the nested loops compute the ordered mapping built by assigning each rule's binding in rule order |
| Resolver.ResolveStep | jcl_parse.py:73-83 | resolving one more rule applies exactly that rule's binding |
| Resolver.ResolveKeys | jcl_parse.py:72-85 | a hostname is in the mapping exactly when some rule for it finds its `order`-th match |
| Resolver.ResolveLastWins | jcl_parse.py:73-83 | a hostname is bound to the match of the last successful rule for it |
| Resolver.ResolveOrder | jcl_parse.py:72-85 | hostnames appear in the order of their first successful rule, each once |
| Resolver.TooFewMatches | jcl_parse.py:78 | a rule whose order exceeds the number of matches binds nothing |
| Resolver.SecondMatchExample | jcl_parse.py:73-84 | the rule `dev.* 2 host-a` over `dev1, dev2, other, dev3` binds `host-a` to `dev2` |
| SshConfig.Feed | jcl_parse.py:118-125 | one iteration of the reading loop: a `Host` line saves the open block and opens a new one under its key; another line joins the open block, or is skipped when none is open |
| SshConfig.ReadLines | jcl_parse.py:116-125 | the reading loop as a fold of `Feed`. `ReaderInvariant` relates its state to the reference `SplitBlocks` |
| SshConfig.ParseConfig | jcl_parse.py:110-127 | the existing entries after reading, with the last open block saved. `ParseConfigSplits` and `ParseConfigKeysAndBlocks` state what it holds |
| SshConfig.HostKeyShape | jcl_parse.py:122 | a `Host` line's key is non-empty, starts and ends with non-whitespace, and is what follows `Host` and its whitespace in the stripped line |
| SshConfig.Preamble | jcl_parse.py:118-125 | the lines skipped while no block is open are exactly the leading lines that are not `Host` lines; the next line, if any, is a `Host` line |
| SshConfig.SplitBlocksWellFormed | jcl_parse.py:116-127 | every block starts with a `Host` line carrying its key, and no other line of it is a `Host` line |
| SshConfig.SplitBlocksEmpty | jcl_parse.py:116-127 | there are no blocks exactly when no line is a `Host` line |
| SshConfig.SplitBlocksConcat | jcl_parse.py:116-127 | the blocks, one after another, are the file without its preamble |
| SshConfig.ReaderInvariant | jcl_parse.py:118-125 | during reading, the open block is the last block and the saved entries are the earlier blocks assigned in order |
| SshConfig.ParseConfigSplits | jcl_parse.py:116-127 | the entries read from the file are its blocks assigned in file order |
| SshConfig.ParseConfigKeysAndBlocks | jcl_parse.py:116-127 | each key appears at its first block's position and holds its last block |
| SshConfig.Merge | jcl_parse.py:129-137 | the update loop: each mapped hostname's fresh block assigned in mapping order over the existing entries. `MergeGet` and `MergeKeys` state its result |
| SshConfig.WriteSshConfig | jcl_parse.py:105-142 | `write_ssh_config` on the lines of the existing file: read, update, then every block written in dictionary order. `WriteTwice`, `RewriteUnchanged` and `WrittenLines` state properties of it |
| SshConfig.Entries | jcl_parse.py:130-136 | every mapped hostname is given its four-line block, in mapping order |
| SshConfig.MergeGet | jcl_parse.py:130-137 | after the update, every mapped hostname holds exactly its fresh block and every other key its old lines |
| SshConfig.MergeKeys | jcl_parse.py:130-137 | existing keys keep their places and new hostnames are appended in mapping order |
| SshConfig.RewriteUnchanged | jcl_parse.py:113-142 | with nothing mapped and no repeated key, the file is rewritten as it was, minus its preamble |
| SshConfig.HostLineReadsBack | jcl_parse.py:132 | a written `Host` line is read back as a `Host` line whose key is the hostname |
| SshConfig.EntryBlockReadsBack | jcl_parse.py:131-136 | a written block is read back as one well-formed block keyed by its hostname |
| SshConfig.PutAllReadsBack | jcl_parse.py:137 | assigning well-formed blocks keeps every block well-formed |
| SshConfig.SplitConcat | jcl_parse.py:139-142 | well-formed blocks written one after another are cut back into exactly those blocks |
| SshConfig.WriteTwice | jcl_parse.py:105-142 | writing the same mapping again over the written lines gives the same lines |
| OrderedMap.PutAllFrom | jcl_parse.py:137 | every entry after the assignments was already there or is one of the assigned pairs |
| SshConfig.ConcatHas | jcl_parse.py:141-142 | a line is written exactly when it belongs to one of the blocks |
| SshConfig.WrittenLines | jcl_parse.py:113-142 | every written line is a line of the old file or of a fresh block for a mapped hostname |
| SshFile.TextLines | jcl_parse.py:114-115 | `f.readlines()`: the text cut after each newline, a last line without one kept as it is. `JoinTextLines` and `TextLinesShape` state what it returns |
| SshFile.JoinLines | jcl_parse.py:141-142 | `f.writelines(block)` for each block: the lines one after the other with nothing added. `TextLinesJoin` and `JoinAppend` state its properties |
| SshFile.WriteFile | jcl_parse.py:105-142 | `write_ssh_config` on the file's text, as written. `GluedHostLine` shows it is not idempotent when the old file lacks a final newline |
| SshFile.WriteFileTerminated | jcl_parse.py:113-142 | the corrected writer, which terminates the last line read before cutting the file into blocks. `WriteFileTerminatedTwice` and `TerminatedAgrees` state its properties |
| SshFile.JoinTextLines | jcl_parse.py:115 | writing back the lines `readlines()` returned gives the text unchanged |
| SshFile.TextLinesShape | jcl_parse.py:115 | each line read is non-empty and holds a newline only at its end; every line but the last ends with one; the last ends with one exactly when the text does |
| SshFile.TextLinesJoin | jcl_parse.py:115 | lines that each end with their only newline, written one after another, read back as the same lines |
| SshFile.JoinAppend | jcl_parse.py:141-142 | writing two runs of lines one after the other writes their texts one after the other |
| SshFile.GluedHostLine | jcl_parse.py:113-142 | a file `Host a` without a final newline, updated with a new hostname `b`, gets `b`'s `Host` line glued to its last line; read back, `b` is not a key, and a second run changes the file again |
| SshFile.TerminatedLines | jcl_parse.py:115 | once the last line read is terminated, every line is complete, and the text gains a newline exactly when it lacked a final one |
| SshFile.TerminatedAgrees | jcl_parse.py:113-142 | on an empty file or one ending with a newline, the corrected writer writes what the original does |
| SshFile.WrittenProper | jcl_parse.py:113-142 | when all old lines are complete and the mapping has no newlines, all written lines are complete |
| SshFile.WriteFileTerminatedTwice | jcl_parse.py:105-142 | with the last line terminated on reading, a second run with the same mapping leaves the file text as the first run wrote it |
| HostVars.Prior | jcl_parse.py:91-98 | the variables before the update, `yaml.safe_load(f) or {}`: a missing file, a load error or an empty document gives `{}`; a mapping gives itself; a truthy non-mapping gives a value that cannot take assignments |
| HostVars.UpdateHostVars | jcl_parse.py:91-101 | both connection variables are set from the host, the keys are the old keys plus those two, and every other variable keeps its value; the update fails only on a non-empty document that is not a mapping |
| HostVars.UpdateTwice | jcl_parse.py:91-101 | updating a written file again equals a single update with the second host |
| HostVars.UpdateIdempotent | jcl_parse.py:91-103 | rewriting with the same host changes nothing |
| HostVars.WriteAll | jcl_parse.py:161-164 | files of hosts that are not resolved are untouched |
| HostVars.WriteAllCompletes | jcl_parse.py:161-164 | the loop completes exactly when every resolved host's file can take the update |
| HostVars.WriteAllFiles | jcl_parse.py:161-164 | after a completed loop, each resolved host's file holds one update of its previous content |

## Left out

- File I/O and directories are not modelled. This covers `open`, `os.makedirs`, `os.path.exists` and `os.path.join`. Files are values: a sequence of lines, or a loaded YAML document.
- YAML text is not modelled:
  - `yaml.safe_load` and `yaml.dump` are not modelled; a file is the document they read and write.
  - Variable values are strings.
  - A non-mapping document is represented only by its Python truth value.
- The regular-expression engine is not modelled. `re.match` on a rule pattern is the caller-supplied `Resolver.Matcher`. The `re.error` an invalid pattern raises is not modelled.
- Unicode decimal digits are not modelled. Python's `\d` and `int()` also accept them; the model uses ASCII digits only.
- `$` matching before a final newline is not modelled. Every line is stripped before matching, so the case cannot arise.
- The command line is not modelled (`argparse`, `pprint`, `print`, the `__main__` block). Only its loop over resolved hosts for the YAML output is modelled (`HostVars.WriteAll`).
- HostVars.WriteAll: a failing update stops the loop. The model records that as an incomplete outcome and does not model the exception.
- LogParser.Step: the check `if ssh_match and current_device` is modelled as "a device is current". A current device name is never the empty string, because a header name matches `\S+`.
- SshConfig.WriteTwice: this states idempotence on lists of lines. On the file's text it fails when the old file lacks a final newline (see Findings). For the corrected writer it holds on the text (`SshFile.WriteFileTerminatedTwice`).
- Line endings are only `\n`. Text-mode translation of `\r\n` and universal newlines is not modelled.

## Findings

| source | as written | input that shows it | evidently intended | confidence | as-written member | corrected member |
|---|---|---|---|---|---|---|
| jcl_parse.py:113-142 | `readlines()` keeps a last line that has no newline as it is, and `f.writelines(block)` writes the next block straight after it | an existing ssh_config holding only `Host a` with no final newline, updated with a new hostname `b` | each block starts on a line of its own, so the new `Host b` line is read back as `b` and a second run changes nothing | high; not executed | SshFile.GluedHostLine | SshFile.WriteFileTerminatedTwice |

The corrected writer is `SshFile.WriteFileTerminated`. It adds a newline to the last line read when that line has none, before the file is cut into blocks. On files that already end with a newline it writes exactly what the original writes (`SshFile.TerminatedAgrees`).
