/**
 The per-host Ansible variables file `host_vars/<hostname>.yml`: the two
 connection variables are set from the resolved host, and every other
 variable already in the file is kept.  The YAML text itself is not modelled:
 a file is what `yaml.safe_load` gave back for it.
 */
module HostVars {
  import opened Wrappers
  import opened OrderedMap
  import opened Resolver

  /** A loaded YAML document. */
  datatype Yaml =
    | Mapping(entries: map<string, string>)
    | Other(truthy: bool)   // a list, a scalar or null, with its Python truth value

  /** What the file holds before it is written. */
  datatype Loaded =
    | Missing               // no file yet
    | Malformed             // `yaml.safe_load` raised
    | Document(doc: Yaml)

  const SshHostVar := "ansible_ssh_host"
  const SshPortVar := "ansible_ssh_port"

  /** The file's variables as `yaml.safe_load(f) or {}` leaves them: a missing
      file, a load error and an empty (falsy) document all start from `{}`.
      A non-empty document that is not a mapping cannot take new keys, which
      is the `None` case. */
  function Prior(l: Loaded): Option<map<string, string>> {
    match l
    case Document(Mapping(entries)) => Some(entries)
    case Document(Other(truthy)) => if truthy then None else Some(map[])
    case _ => Some(map[])
  }

  /** The variables written back for one host; `None` where the assignment
      into the loaded document fails. */
  function UpdateHostVars(l: Loaded, info: Host): (r: Option<map<string, string>>)
    ensures r.None? <==> l.Document? && l.doc.Other? && l.doc.truthy
    ensures r.Some? ==>
      && SshHostVar in r.value && r.value[SshHostVar] == info.sshHost
      && SshPortVar in r.value && r.value[SshPortVar] == info.sshPort
    ensures r.Some? ==>
      && r.value.Keys == Prior(l).value.Keys + {SshHostVar, SshPortVar}
      && forall k :: k in Prior(l).value && k != SshHostVar && k != SshPortVar ==>
           r.value[k] == Prior(l).value[k]
  {
    var data :- Prior(l);
    Some(data[SshHostVar := info.sshHost][SshPortVar := info.sshPort])
  }

  /** A file this tool wrote reads back as the mapping it wrote. */
  function Written(data: map<string, string>): Loaded {
    Document(Mapping(data))
  }

  /** Writing a second time depends only on the second host: the first
      write's connection variables are overwritten and nothing else differs. */
  lemma UpdateTwice(l: Loaded, first: Host, second: Host)
    requires UpdateHostVars(l, first).Some?
    ensures UpdateHostVars(Written(UpdateHostVars(l, first).value), second)
         == UpdateHostVars(l, second)
  {
    var once := UpdateHostVars(l, first).value;
    var base := Prior(l).value;
    assert once == base[SshHostVar := first.sshHost][SshPortVar := first.sshPort];
    var twice := once[SshHostVar := second.sshHost][SshPortVar := second.sshPort];
    var direct := base[SshHostVar := second.sshHost][SshPortVar := second.sshPort];
    assert UpdateHostVars(Written(once), second) == Some(twice);
    assert UpdateHostVars(l, second) == Some(direct);
    assert twice.Keys == direct.Keys;
    assert forall k :: k in twice ==> twice[k] == direct[k];
    assert twice == direct;
  }

  /** Rewriting a host's file with the same host changes nothing. */
  lemma UpdateIdempotent(l: Loaded, info: Host)
    requires UpdateHostVars(l, info).Some?
    ensures UpdateHostVars(Written(UpdateHostVars(l, info).value), info)
         == UpdateHostVars(l, info)
  {
    UpdateTwice(l, info, info);
  }

  /** The `host_vars` directory: the loaded content of each host's file. */
  type Directory = map<string, Loaded>

  function FileOf(dir: Directory, hostname: string): Loaded {
    if hostname in dir then dir[hostname] else Missing
  }

  /** The outcome of writing every resolved host's file in mapping order: the
      directory afterwards, and whether every write succeeded.  The first
      failing write stops the loop, leaving the files written before it. */
  datatype Outcome = Outcome(dir: Directory, completed: bool)

  function WriteAll(dir: Directory, mapped: Assoc<Host>): (r: Outcome)
    ensures forall h :: h !in Keys(mapped) ==> FileOf(r.dir, h) == FileOf(dir, h)
    decreases |mapped|
  {
    if |mapped| == 0 then Outcome(dir, true)
    else
      var (h, info) := mapped[0];
      match UpdateHostVars(FileOf(dir, h), info)
      case None => Outcome(dir, false)
      case Some(data) => WriteAll(dir[h := Written(data)], mapped[1..])
  }

  /** The loop completes exactly when no resolved host already has a
      non-empty file that is not a mapping. */
  lemma {:induction false} WriteAllCompletes(dir: Directory, mapped: Assoc<Host>)
    requires Distinct(Keys(mapped))
    ensures WriteAll(dir, mapped).completed
        <==> forall i :: 0 <= i < |mapped| ==> UpdateHostVars(FileOf(dir, mapped[i].0), mapped[i].1).Some?
    decreases |mapped|
  {
    if |mapped| > 0 {
      var (h, info) := mapped[0];
      var rest := mapped[1..];
      DistinctTail(mapped);
      match UpdateHostVars(FileOf(dir, h), info)
      case None =>
      case Some(data) =>
        var dir' := dir[h := Written(data)];
        WriteAllCompletes(dir', rest);
        assert forall i :: 0 <= i < |rest| ==> FileOf(dir', rest[i].0) == FileOf(dir, rest[i].0);
        assert forall i :: 0 <= i < |rest| ==> mapped[i + 1] == rest[i];
    }
  }

  /** After a completed loop every resolved host's file holds exactly what
      one update of its previous content gives. */
  lemma {:induction false} WriteAllFiles(dir: Directory, mapped: Assoc<Host>, i: nat)
    requires Distinct(Keys(mapped))
    requires WriteAll(dir, mapped).completed
    requires i < |mapped|
    ensures UpdateHostVars(FileOf(dir, mapped[i].0), mapped[i].1).Some?
    ensures FileOf(WriteAll(dir, mapped).dir, mapped[i].0)
         == Written(UpdateHostVars(FileOf(dir, mapped[i].0), mapped[i].1).value)
    decreases |mapped|
  {
    var (h, info) := mapped[0];
    var rest := mapped[1..];
    DistinctTail(mapped);
    var data := UpdateHostVars(FileOf(dir, h), info).value;
    var dir' := dir[h := Written(data)];
    assert WriteAll(dir, mapped) == WriteAll(dir', rest);
    if i > 0 {
      assert rest[i - 1] == mapped[i];
      assert mapped[i].0 != h by {
        assert Keys(mapped)[i] == mapped[i].0 && Keys(mapped)[0] == h;
      }
      WriteAllFiles(dir', rest, i - 1);
    }
  }
}
