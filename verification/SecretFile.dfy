/**
 First use of the persisted secret: any number of processes race to create one
 file, each by writing a temporary file and linking it to the destination.
 */
module SecretFile {
  import opened Common
  import opened Unicode
  import opened WhiteSpace
  import Utf8

  /** Directory entries: the shared destination, and a temporary name for each process. */
  datatype Name = Dest | Temp(id: nat)

  /** What a call gives: a persisted value, an in-memory one, or nothing when no randomness is available. */
  datatype Result = Persisted(value: bytes) | InMemory | NoSecret

  /**
   Where a process stands. `own` is the file it has created, `inode` the file
   behind the destination when it opened it.
   */
  datatype Process =
    | Starting
    | Reading(inode: nat)
    | Checking
    | Generating
    | Creating(secret: bytes)
    | Writing(secret: bytes, own: nat, written: nat)
    | Linking(secret: bytes, own: nat)
    | Taken(own: nat)
    | ReadingTaken(own: nat, inode: nat)
    | Removing(own: nat, result: Result)
    | Done(result: Result)
    | Crashed

  /** Links from names to files, the contents of the files, and what the destination held at first. */
  datatype State = State(
    links: map<Name, nat>,
    files: map<nat, bytes>,
    processes: map<nat, Process>,
    before: Option<bytes>)
  {
    function Move(id: nat, p: Process): State {
      this.(processes := processes[id := p])
    }

    function Unlink(name: Name): State {
      this.(links := links - {name})
    }
  }

  /** `Fail` is an error of the file system at the present step, `Crash` the end of the process. */
  datatype Action =
    | Spawn(id: nat)
    | Go(id: nat)
    | Generate(id: nat, secret: bytes, named: bool)
    | Create(id: nat, inode: nat)
    | Write(id: nat, n: nat)
    | Fail(id: nat)
    | Crash(id: nat)

  /** 32 random bytes in hexadecimal. */
  predicate IsSecret(s: bytes) {
    |s| == 64 && forall i :: 0 <= i < |s| ==> 0x30 <= s[i] <= 0x39 || 0x61 <= s[i] <= 0x66
  }

  /** The secret in a file: an error when it is not text, nothing when it is blank. */
  datatype ReadResult = Text(value: bytes) | Blank | NotText

  function ReadSecret(contents: bytes): ReadResult {
    if !Utf8.Valid(contents) then NotText
    else if Trim(contents) == [] then Blank
    else Text(Trim(contents))
  }

  /** The secret is the text without the white space around it; there is none when nothing else is left. */
  lemma ReadSecretExact(contents: bytes, v: bytes)
    ensures ReadSecret(contents) == Text(v) <==>
      && Utf8.Valid(contents) && v != [] && Trimmed(v)
      && exists a, b :: AllWhite(a) && AllWhite(b) && contents == EncodeAll(a) + v + EncodeAll(b)
    ensures ReadSecret(contents).Blank? <==> exists a :: AllWhite(a) && contents == EncodeAll(a)
    ensures ReadSecret(contents).NotText? <==> !exists cs :: contents == EncodeAll(cs)
  {
    hide Trim, Trimmed, EncodeAll, Utf8.Valid;
    Utf8.ValidExact(contents);
    var a, b := TrimmedBoth(contents);
    forall a, b | AllWhite(a) && AllWhite(b) && Trimmed(v) && contents == EncodeAll(a) + v + EncodeAll(b)
      ensures Trim(contents) == v { TrimAround(a, v, b); }
    forall a | AllWhite(a) && contents == EncodeAll(a) ensures Trim(contents) == [] { BlankTrimmed(a); }
    if Trim(contents) == [] {
      assert EncodeAll(a) + [] + EncodeAll(b) == EncodeAll(a) + EncodeAll(b);
      EncodeConcat(a, b);
      assert AllWhite(a + b) && contents == EncodeAll(a + b);
    }
  }

  /** A step of process `id` that goes as it should. */
  function Step(s: State, id: nat, p: Process): Option<State> {
    match p
    case Starting =>
      Some(if Dest in s.links then s.Move(id, Reading(s.links[Dest])) else s.Move(id, Checking))
    case Reading(inode) =>
      if inode !in s.files then None
      else
        (match ReadSecret(s.files[inode])
         case Text(v) => Some(s.Move(id, Done(Persisted(v))))
         case Blank => Some(s.Move(id, Checking))
         case NotText => Some(s.Move(id, Done(InMemory))))
    case Checking =>
      Some(if Dest in s.links then s.Move(id, Done(InMemory)) else s.Move(id, Generating))
    case Writing(secret, own, written) =>
      if written == |secret| then Some(s.Move(id, Linking(secret, own))) else None
    case Linking(secret, own) =>
      if Temp(id) !in s.links then Some(s.Move(id, Removing(own, InMemory)))
      else if Dest in s.links then Some(s.Move(id, Taken(own)))
      else Some(s.(links := s.links[Dest := s.links[Temp(id)]]).Move(id, Removing(own, Persisted(secret))))
    case Taken(own) =>
      Some(if Dest in s.links then s.Move(id, ReadingTaken(own, s.links[Dest])) else s.Move(id, Removing(own, InMemory)))
    case ReadingTaken(own, inode) =>
      if inode !in s.files then None
      else
        var r := ReadSecret(s.files[inode]);
        Some(s.Move(id, Removing(own, if r.Text? then Persisted(r.value) else InMemory)))
    case Removing(own, result) => Some(s.Unlink(Temp(id)).Move(id, Done(result)))
    case _ => None
  }

  function Failed(s: State, id: nat, p: Process): Option<State> {
    match p
    case Creating(_) => Some(s.Unlink(Temp(id)).Move(id, Done(InMemory)))
    case Writing(_, _, _) => Some(s.Unlink(Temp(id)).Move(id, Done(InMemory)))
    case Linking(_, own) => Some(s.Move(id, Removing(own, InMemory)))
    case Taken(own) => Some(s.Move(id, Removing(own, InMemory)))
    case ReadingTaken(own, _) => Some(s.Move(id, Removing(own, InMemory)))
    case Starting => Some(s.Move(id, Done(InMemory)))
    case Reading(_) => Some(s.Move(id, Done(InMemory)))
    case Checking => Some(s.Move(id, Done(InMemory)))
    case _ => None
  }

  /** A new file under the temporary name of the process. */
  function Created(s: State, id: nat, inode: nat, secret: bytes): State {
    s.(links := s.links[Temp(id) := inode], files := s.files[inode := []]).Move(id, Writing(secret, inode, 0))
  }

  /** Some more of the secret in the file. */
  function Extended(s: State, id: nat, secret: bytes, own: nat, written: nat, n: nat): State
    requires own in s.files && written + n <= |secret|
  {
    s.(files := s.files[own := s.files[own] + secret[written..written + n]]).Move(id, Writing(secret, own, written + n))
  }

  function Apply(s: State, a: Action): Option<State> {
    if a.Spawn? then
      if a.id in s.processes then None else Some(s.Move(a.id, Starting))
    else if a.id !in s.processes then None
    else
      var p := s.processes[a.id];
      match a
      case Go(id) => Step(s, id, p)
      case Generate(id, secret, named) =>
        if !p.Generating? then None
        else if secret == [] || !named then Some(s.Move(id, Done(NoSecret)))
        else if IsSecret(secret) then Some(s.Move(id, Creating(secret)))
        else None
      case Create(id, inode) =>
        if !p.Creating? || inode in s.files || Temp(id) in s.links then None
        else Some(Created(s, id, inode, p.secret))
      case Write(id, n) =>
        if !p.Writing? || p.own !in s.files || n == 0 || p.written + n > |p.secret| then None
        else
          Some(Extended(s, id, p.secret, p.own, p.written, n))
      case Fail(id) => Failed(s, id, p)
      case Crash(id) => if p.Done? || p.Crashed? then None else Some(s.Move(id, Crashed))
      case Spawn(_) => None
  }

  // ---------- the invariant ----------

  predicate Initial(s: State) {
    && s.processes == map[]
    && s.links.Keys == (if s.before.Some? then {Dest} else {})
    && (forall name :: name in s.links ==> s.links[name] in s.files)
    && (s.before.Some? ==> s.files[s.links[Dest]] == s.before.value)
  }

  /** The file that a process has created and still has under its temporary name. */
  function Own(p: Process): Option<nat> {
    match p
    case Writing(_, own, _) => Some(own)
    case Linking(_, own) => Some(own)
    case Taken(own) => Some(own)
    case ReadingTaken(own, _) => Some(own)
    case Removing(own, _) => Some(own)
    case _ => None
  }

  predicate DestIs(s: State, inode: nat) {
    Dest in s.links && s.links[Dest] == inode && inode in s.files
  }

  /** A value that is reported as persisted is the value that the destination holds. */
  predicate Agrees(s: State, r: Result) {
    r.Persisted? ==> Dest in s.links && s.links[Dest] in s.files && ReadSecret(s.files[s.links[Dest]]) == Text(r.value)
  }

  predicate ProcessInv(s: State, id: nat, p: Process) {
    && (Own(p).Some? ==> Temp(id) in s.links && s.links[Temp(id)] == Own(p).value && Own(p).value in s.files)
    && (Own(p).None? && !p.Crashed? ==> Temp(id) !in s.links)
    && match p
       case Reading(inode) => DestIs(s, inode)
       case Creating(secret) => IsSecret(secret)
       case Writing(secret, own, written) =>
         IsSecret(secret) && written <= |secret| && s.files[own] == secret[..written] && !DestIs(s, own)
       case Linking(secret, own) => IsSecret(secret) && s.files[own] == secret
       case ReadingTaken(_, inode) => DestIs(s, inode)
       case Removing(_, r) => Agrees(s, r)
       case Done(r) => Agrees(s, r)
       case _ => true
  }

  /** The destination holds what it held at first, or one whole secret. */
  predicate WholeDest(s: State) {
    Dest in s.links ==>
      s.links[Dest] in s.files && (s.before == Some(s.files[s.links[Dest]]) || IsSecret(s.files[s.links[Dest]]))
  }

  /** No two processes have created the same file. */
  predicate Apart(s: State) {
    forall a, b :: a in s.processes && b in s.processes && a != b && Own(s.processes[a]).Some? ==>
      Own(s.processes[a]) != Own(s.processes[b])
  }

  ghost predicate Owned(s: State) {
    forall id :: Temp(id) in s.links ==> id in s.processes
  }

  ghost predicate Inv(s: State) {
    && (forall id :: id in s.processes ==> ProcessInv(s, id, s.processes[id]))
    && WholeDest(s) && Apart(s) && Owned(s)
  }

  /** The destination stays as it is. */
  predicate SameDest(s: State, s': State) {
    Dest in s.links ==>
      && Dest in s'.links && s'.links[Dest] == s.links[Dest]
      && (s.links[Dest] in s.files ==> s.links[Dest] in s'.files && s'.files[s.links[Dest]] == s.files[s.links[Dest]])
  }

  /** What a step of one process leaves alone. */
  ghost predicate Undisturbed(s: State, s': State, id: nat, own: Option<nat>) {
    && SameDest(s, s') && s'.before == s.before
    && (forall n :: n in s.links && n != Temp(id) ==> n in s'.links && s'.links[n] == s.links[n])
    && (forall n :: n in s'.links && n != Temp(id) && n != Dest ==> n in s.links)
    && (forall i :: i in s.files && own != Some(i) ==> i in s'.files && s'.files[i] == s.files[i])
    && (forall other :: other != id ==> (other in s.processes <==> other in s'.processes))
    && (forall other :: other in s.processes && other != id ==> s'.processes[other] == s.processes[other])
  }

  lemma OthersKept(s: State, s': State, id: nat, other: nat, own: Option<nat>)
    requires Inv(s) && Undisturbed(s, s', id, own) && other != id && other in s.processes
    requires own.Some? ==> Own(s.processes[other]) != own && !DestIs(s, own.value)
    requires Dest !in s.links && Dest in s'.links ==>
      s'.links[Dest] in s.files && Own(s.processes[other]) != Some(s'.links[Dest])
    ensures ProcessInv(s', other, s.processes[other])
  {
    assert ProcessInv(s, other, s.processes[other]);
  }

  lemma OthersInv(s: State, s': State, id: nat, own: Option<nat>)
    requires Inv(s) && Undisturbed(s, s', id, own) && id in s'.processes
    requires own.Some? ==> forall other :: other in s.processes && other != id ==> Own(s.processes[other]) != own
    requires own.Some? ==> !DestIs(s, own.value)
    requires Dest !in s.links && Dest in s'.links ==>
      && s'.links[Dest] in s.files
      && forall other :: other in s.processes && other != id ==> Own(s.processes[other]) != Some(s'.links[Dest])
    requires ProcessInv(s', id, s'.processes[id]) && WholeDest(s')
    requires forall other :: other in s.processes && other != id && Own(s.processes[other]).Some? ==>
      Own(s.processes[other]) != Own(s'.processes[id])
    ensures Inv(s')
  {
    forall other | other in s'.processes ensures ProcessInv(s', other, s'.processes[other]) {
      if other != id { OthersKept(s, s', id, other, own); }
    }
  }

  /** A step that changes no file and no link. */
  lemma MoveInv(s: State, id: nat, p: Process)
    requires Inv(s) && ProcessInv(s, id, p)
    requires Own(p).Some? ==> id in s.processes && Own(p) == Own(s.processes[id])
    ensures Inv(s.Move(id, p))
  {
    OthersInv(s, s.Move(id, p), id, None);
  }

  /** The process gives its temporary name up. */
  lemma UnlinkInv(s: State, id: nat, p: Process)
    requires Inv(s) && id in s.processes && Own(p).None? && p.Done? && Agrees(s, p.result)
    ensures Inv(s.Unlink(Temp(id)).Move(id, p))
  {
    var s' := s.Unlink(Temp(id)).Move(id, p);
    OthersInv(s, s', id, None);
  }

  lemma SecretIsText(secret: bytes)
    requires IsSecret(secret)
    ensures ReadSecret(secret) == Text(secret)
  {
    Utf8.ValidAscii(secret);
    Untrimmed(secret);
  }

  /** The one step by which the destination comes to exist. */
  lemma LinkInv(s: State, id: nat, secret: bytes, own: nat)
    requires Inv(s) && id in s.processes && s.processes[id] == Linking(secret, own) && Dest !in s.links
    ensures Inv(s.(links := s.links[Dest := s.links[Temp(id)]]).Move(id, Removing(own, Persisted(secret))))
  {
    assert ProcessInv(s, id, s.processes[id]);
    SecretIsText(secret);
    var s' := s.(links := s.links[Dest := s.links[Temp(id)]]).Move(id, Removing(own, Persisted(secret)));
    OthersInv(s, s', id, None);
  }

  lemma CreateInv(s: State, id: nat, secret: bytes, inode: nat)
    requires Inv(s) && id in s.processes && s.processes[id] == Creating(secret) && inode !in s.files
    ensures Inv(Created(s, id, inode, secret))
  {
    var s' := Created(s, id, inode, secret);
    assert ProcessInv(s, id, s.processes[id]);
    forall other | other in s.processes && other != id ensures Own(s.processes[other]) != Some(inode) {
      assert ProcessInv(s, other, s.processes[other]);
    }
    OthersInv(s, s', id, Some(inode));
  }

  lemma WriteInv(s: State, id: nat, secret: bytes, own: nat, written: nat, n: nat)
    requires Inv(s) && id in s.processes && s.processes[id] == Writing(secret, own, written)
    requires own in s.files && written + n <= |secret|
    ensures Inv(Extended(s, id, secret, own, written, n))
  {
    var s' := Extended(s, id, secret, own, written, n);
    assert ProcessInv(s, id, s.processes[id]);
    assert secret[..written + n] == secret[..written] + secret[written..written + n];
    OthersInv(s, s', id, Some(own));
  }

  lemma StepInv(s: State, id: nat, s': State)
    requires Inv(s) && id in s.processes && Step(s, id, s.processes[id]) == Some(s')
    ensures Inv(s')
  {
    hide Inv, ReadSecret, IsSecret;
    var p := s.processes[id];
    InvGives(s, id);
    if p.Linking? && Dest !in s.links {
      LinkInv(s, id, p.secret, p.own);
    } else if p.Removing? {
      UnlinkInv(s, id, Done(p.result));
    } else {
      MoveInv(s, id, s'.processes[id]);
    }
  }

  lemma InvGives(s: State, id: nat)
    requires Inv(s) && id in s.processes
    ensures ProcessInv(s, id, s.processes[id]) && WholeDest(s)
  {
  }

  lemma FailedInv(s: State, id: nat, s': State)
    requires Inv(s) && id in s.processes && Failed(s, id, s.processes[id]) == Some(s')
    ensures Inv(s')
  {
    hide Inv, ReadSecret, IsSecret;
    InvGives(s, id);
    if s.processes[id].Creating? || s.processes[id].Writing? {
      UnlinkInv(s, id, Done(InMemory));
    } else {
      MoveInv(s, id, s'.processes[id]);
    }
  }

  lemma ApplyInv(s: State, a: Action, s': State)
    requires Inv(s) && Apply(s, a) == Some(s')
    ensures Inv(s')
  {
    hide Inv, Step, Failed, ReadSecret, IsSecret;
    match a
    case Spawn(id) =>
      SpawnFree(s, id);
      MoveInv(s, id, Starting);
    case Go(id) => StepInv(s, id, s');
    case Generate(id, secret, named) =>
      InvGives(s, id);
      MoveInv(s, id, s'.processes[id]);
    case Create(id, inode) => CreateInv(s, id, s.processes[id].secret, inode);
    case Write(id, n) =>
      var p := s.processes[id];
      WriteInv(s, id, p.secret, p.own, p.written, n);
    case Fail(id) => FailedInv(s, id, s');
    case Crash(id) =>
      InvGives(s, id);
      MoveInv(s, id, Crashed);
  }

  lemma SpawnFree(s: State, id: nat)
    requires Inv(s) && id !in s.processes
    ensures Temp(id) !in s.links
  {
  }

  // ---------- runs ----------

  predicate Run(states: seq<State>, actions: seq<Action>) {
    && |states| == |actions| + 1
    && Initial(states[0])
    && forall i :: 0 <= i < |actions| ==> Follows(states, actions, i)
  }

  predicate Follows(states: seq<State>, actions: seq<Action>, i: nat)
    requires i < |actions| < |states|
  {
    Apply(states[i], actions[i]) == Some(states[i + 1])
  }

  lemma {:induction false} RunInv(states: seq<State>, actions: seq<Action>, i: nat)
    requires Run(states, actions) && i < |states|
    ensures Inv(states[i])
  {
    if i == 0 {
    } else {
      hide Inv, Apply, Initial;
      RunInv(states, actions, i - 1);
      assert Follows(states, actions, i - 1);
      ApplyInv(states[i - 1], actions[i - 1], states[i]);
    }
  }

  lemma ApplyKeepsDest(s: State, a: Action, s': State)
    requires Inv(s) && Apply(s, a) == Some(s')
    ensures SameDest(s, s') && s'.before == s.before
  {
    hide Inv, ReadSecret, IsSecret, WholeDest;
    if a.Write? { InvGives(s, a.id); }
    if a.Create? { InvWholeDest(s); }
  }

  lemma InvWholeDest(s: State)
    requires Inv(s)
    ensures Dest in s.links ==> s.links[Dest] in s.files
  {
  }

  /** Once the destination exists, it never changes and never goes away. */
  lemma {:induction false} DestNeverChanges(states: seq<State>, actions: seq<Action>, i: nat, j: nat)
    requires Run(states, actions) && i <= j < |states| && Dest in states[i].links
    ensures states[i].links[Dest] in states[i].files && DestIs(states[j], states[i].links[Dest])
    ensures states[j].files[states[j].links[Dest]] == states[i].files[states[i].links[Dest]]
    decreases j
  {
    hide Inv, Apply, Initial;
    RunInv(states, actions, i);
    InvWholeDest(states[i]);
    if i < j {
      DestNeverChanges(states, actions, i, j - 1);
      RunInv(states, actions, j - 1);
      assert Follows(states, actions, j - 1);
      ApplyKeepsDest(states[j - 1], actions[j - 1], states[j]);
    }
  }

  /** The destination is never partial: it holds one whole secret, or what it held before. */
  lemma DestNeverPartial(states: seq<State>, actions: seq<Action>, i: nat)
    requires Run(states, actions) && i < |states| && Dest in states[i].links
    ensures var s := states[i];
      s.links[Dest] in s.files && (s.before == Some(s.files[s.links[Dest]]) || IsSecret(s.files[s.links[Dest]]))
  {
    RunInv(states, actions, i);
  }

  /**
   All processes that report a persisted secret report the same one, whenever
   they finish, and it is what the destination holds ever after.
   */
  lemma Agreement(states: seq<State>, actions: seq<Action>, i: nat, a: nat, j: nat, b: nat)
    requires Run(states, actions) && i < |states| && j < |states|
    requires a in states[i].processes && states[i].processes[a].Done? && states[i].processes[a].result.Persisted?
    requires b in states[j].processes && states[j].processes[b].Done? && states[j].processes[b].result.Persisted?
    ensures states[i].processes[a].result == states[j].processes[b].result
    ensures Dest in states[i].links && Dest in states[|actions|].links
    ensures var end := states[|actions|];
      end.links[Dest] in end.files && ReadSecret(end.files[end.links[Dest]]) == Text(states[i].processes[a].result.value)
  {
    hide Inv, Run, ReadSecret;
    RunInv(states, actions, i);
    RunInv(states, actions, j);
    InvGives(states[i], a);
    InvGives(states[j], b);
    RunLength(states, actions);
    DestNeverChanges(states, actions, i, |actions|);
    DestNeverChanges(states, actions, j, |actions|);
  }

  lemma RunLength(states: seq<State>, actions: seq<Action>)
    requires Run(states, actions)
    ensures |states| == |actions| + 1
  {
  }

  /** A process that runs to its end leaves no temporary file behind. */
  lemma TemporaryRemoved(states: seq<State>, actions: seq<Action>, i: nat, id: nat)
    requires Run(states, actions) && i < |states| && id in states[i].processes && states[i].processes[id].Done?
    ensures Temp(id) !in states[i].links
  {
    RunInv(states, actions, i);
    InvGives(states[i], id);
  }

  // ---------- what a process reports ----------

  /** What a process will report, once that is decided. */
  function Verdict(p: Process): Option<Result> {
    match p
    case Removing(_, r) => Some(r)
    case Done(r) => Some(r)
    case _ => None
  }

  /** The process in a state of a run; one that does not exist has not started. */
  function At(s: State, id: nat): Process {
    if id in s.processes then s.processes[id] else Starting
  }

  /** What the destination held before the run keeps its secret from being read. */
  predicate BadBefore(before: Option<bytes>) {
    before.Some? && !ReadSecret(before.value).Text?
  }

  /** The process has found no destination when it opened it, and now finds one when it checks. */
  predicate LosesRace(s: State, a: Action, id: nat) {
    a == Go(id) && At(s, id).Checking? && s.before.None? && Dest in s.links
  }

  predicate LacksRandomness(a: Action, id: nat) {
    a.Generate? && a.id == id && (a.secret == [] || !a.named)
  }

  /** Where a process is in a run that began with a destination, or without. */
  predicate Stage(s: State, p: Process) {
    && (s.before.Some? ==>
         && Dest in s.links && s.links[Dest] in s.files && s.files[s.links[Dest]] == s.before.value
         && (p.Starting? || p.Reading? || p.Done? || p.Crashed? || (p.Checking? && ReadSecret(s.before.value).Blank?)))
    && (p.Taken? ==> Dest in s.links)
  }

  lemma StageStep(s: State, a: Action, s': State, id: nat)
    requires Inv(s) && Stage(s, At(s, id)) && Apply(s, a) == Some(s')
    ensures Stage(s', At(s', id))
  {
    hide Inv, ReadSecret, IsSecret;
    ApplyKeepsDest(s, a, s');
    if a.id == id {
      if id in s.processes { InvGives(s, id); }
    } else {
      OthersStay(s, a, s', id);
    }
  }

  lemma OthersStay(s: State, a: Action, s': State, id: nat)
    requires Apply(s, a) == Some(s') && a.id != id
    ensures At(s', id) == At(s, id)
  {
    hide ReadSecret, IsSecret, Step, Failed;
    if a.Go? { StepAlone(s, a.id, s.processes[a.id], s', id); }
    if a.Fail? { FailedAlone(s, a.id, s.processes[a.id], s', id); }
  }

  lemma StepAlone(s: State, id: nat, p: Process, s': State, other: nat)
    requires Step(s, id, p) == Some(s') && other != id
    ensures At(s', other) == At(s, other)
  {
    hide ReadSecret;
  }

  lemma FailedAlone(s: State, id: nat, p: Process, s': State, other: nat)
    requires Failed(s, id, p) == Some(s') && other != id
    ensures At(s', other) == At(s, other)
  {
  }

  lemma {:induction false} RunStage(states: seq<State>, actions: seq<Action>, i: nat, id: nat)
    requires Run(states, actions) && i < |states|
    ensures Stage(states[i], At(states[i], id)) && states[i].before == states[0].before
  {
    hide Inv, Apply;
    if i > 0 {
      hide Initial, Stage;
      RunStage(states, actions, i - 1, id);
      RunInv(states, actions, i - 1);
      assert Follows(states, actions, i - 1);
      StageStep(states[i - 1], actions[i - 1], states[i], id);
      ApplyKeepsDest(states[i - 1], actions[i - 1], states[i]);
    }
  }

  /** Once decided, the report stays. */
  lemma VerdictStays(s: State, a: Action, s': State, id: nat)
    requires Apply(s, a) == Some(s') && Verdict(At(s, id)).Some?
    ensures Verdict(At(s', id)) == Verdict(At(s, id)) || At(s', id).Crashed?
    ensures a != Fail(id) && !LacksRandomness(a, id) && !LosesRace(s, a, id)
  {
    hide ReadSecret, IsSecret;
    if a.id != id { OthersStay(s, a, s', id); }
  }

  /** The step that decides, and by what. */
  lemma VerdictFalls(s: State, a: Action, s': State, id: nat)
    requires Inv(s) && Stage(s, At(s, id)) && Apply(s, a) == Some(s')
    requires Verdict(At(s, id)).None? && Verdict(At(s', id)).Some?
    ensures var r := Verdict(At(s', id)).value;
      && (r.InMemory? <==> a == Fail(id) || BadBefore(s.before) || LosesRace(s, a, id))
      && (r.NoSecret? <==> LacksRandomness(a, id))
  {
    hide Inv, IsSecret;
    if a.id != id { OthersStay(s, a, s', id); }
    InvGives(s, id);
    var p := s.processes[id];
    hide ReadSecret;
    if (p.Reading? || p.ReadingTaken?) && s.before.None? { WholeDestText(s); }
  }

  lemma WholeDestText(s: State)
    requires WholeDest(s) && Dest in s.links && s.before.None?
    ensures s.links[Dest] in s.files && ReadSecret(s.files[s.links[Dest]]).Text?
  {
    hide ReadSecret, IsSecret;
    SecretIsText(s.files[s.links[Dest]]);
  }

  /** These events decide what is reported. */
  lemma Deciding(s: State, a: Action, s': State, id: nat)
    requires Apply(s, a) == Some(s')
    requires a == Fail(id) || LacksRandomness(a, id) || LosesRace(s, a, id)
    ensures Verdict(At(s, id)).None? && Verdict(At(s', id)).Some?
  {
    hide ReadSecret, IsSecret;
  }

  ghost predicate HasFailed(actions: seq<Action>, i: nat, id: nat)
    requires i <= |actions|
  {
    exists j :: 0 <= j < i && actions[j] == Fail(id)
  }

  ghost predicate HasLacked(actions: seq<Action>, i: nat, id: nat)
    requires i <= |actions|
  {
    exists j :: 0 <= j < i && LacksRandomness(actions[j], id)
  }

  ghost predicate HasLost(states: seq<State>, actions: seq<Action>, i: nat, id: nat)
    requires i <= |actions| <= |states|
  {
    exists j :: 0 <= j < i && LosesRace(states[j], actions[j], id)
  }

  /** Up to state i of the run: what is decided, and why. */
  ghost predicate Explained(states: seq<State>, actions: seq<Action>, i: nat, id: nat)
    requires i <= |actions| < |states|
  {
    var p := At(states[i], id);
    match Verdict(p)
    case Some(r) =>
      && (r.InMemory? <==> HasFailed(actions, i, id) || BadBefore(states[0].before) || HasLost(states, actions, i, id))
      && (r.NoSecret? <==> HasLacked(actions, i, id))
    case None =>
      p.Crashed? || !(HasFailed(actions, i, id) || HasLacked(actions, i, id) || HasLost(states, actions, i, id))
  }

  lemma ExplainedNext(states: seq<State>, actions: seq<Action>, i: nat, id: nat)
    requires i < |actions| < |states| && Explained(states, actions, i, id)
    requires Inv(states[i]) && Stage(states[i], At(states[i], id)) && states[i].before == states[0].before
    requires Apply(states[i], actions[i]) == Some(states[i + 1])
    ensures Explained(states, actions, i + 1, id)
  {
    hide Inv, Apply, Stage, LosesRace, LacksRandomness, BadBefore;
    var s, a, s' := states[i], actions[i], states[i + 1];
    if Verdict(At(s, id)).Some? {
      VerdictStays(s, a, s', id);
    } else if Verdict(At(s', id)).Some? {
      VerdictFalls(s, a, s', id);
      NotCrashed(s, a, s', id);
    } else if a == Fail(id) || LacksRandomness(a, id) || LosesRace(s, a, id) {
      Deciding(s, a, s', id);
    } else {
      CrashStays(s, a, s', id);
    }
  }

  lemma CrashStays(s: State, a: Action, s': State, id: nat)
    requires Apply(s, a) == Some(s')
    ensures At(s, id).Crashed? ==> At(s', id).Crashed?
  {
    hide ReadSecret, IsSecret;
    if a.id != id { OthersStay(s, a, s', id); }
  }

  lemma NotCrashed(s: State, a: Action, s': State, id: nat)
    requires Apply(s, a) == Some(s') && Verdict(At(s', id)).Some?
    ensures !At(s, id).Crashed?
  {
    CrashStays(s, a, s', id);
  }

  lemma {:induction false} RunExplained(states: seq<State>, actions: seq<Action>, i: nat, id: nat)
    requires Run(states, actions) && i < |states|
    ensures i <= |actions| < |states| && Explained(states, actions, i, id)
  {
    hide Inv, Apply, Stage, LosesRace, LacksRandomness, ReadSecret;
    if i > 0 {
      hide Explained, Initial;
      RunExplained(states, actions, i - 1, id);
      RunInv(states, actions, i - 1);
      RunStage(states, actions, i - 1, id);
      assert Follows(states, actions, i - 1);
      ExplainedNext(states, actions, i - 1, id);
    }
  }

  /**
   Over all runs, what a process that has come to its end reports: a secret that
   is not persisted exactly when one of its own steps failed, or the destination
   was blank or no text from the start, or it lost the race between opening and
   checking; none at all exactly when it had no randomness; otherwise the
   persisted secret.
   */
  lemma ReportExact(states: seq<State>, actions: seq<Action>, i: nat, id: nat)
    requires Run(states, actions) && i < |states| && id in states[i].processes && states[i].processes[id].Done?
    ensures i <= |actions| < |states|
    ensures var r := states[i].processes[id].result;
      && (r.InMemory? <==> HasFailed(actions, i, id) || BadBefore(states[0].before) || HasLost(states, actions, i, id))
      && (r.NoSecret? <==> HasLacked(actions, i, id))
      && (r.Persisted? <==>
           !HasFailed(actions, i, id) && !BadBefore(states[0].before) && !HasLost(states, actions, i, id) && !HasLacked(actions, i, id))
  {
    hide Run, BadBefore, HasFailed, HasLacked, HasLost;
    RunExplained(states, actions, i, id);
  }

  // ---------- the race ----------

  predicate OpensNothing(s: State, a: Action, id: nat) {
    a == Go(id) && id in s.processes && s.processes[id].Starting? && Dest !in s.links
  }

  lemma CheckingStep(s: State, a: Action, s': State, id: nat)
    requires Inv(s) && Apply(s, a) == Some(s') && s.before.None? && At(s', id).Checking?
    ensures At(s, id).Checking? || OpensNothing(s, a, id)
  {
    hide Inv, IsSecret, ReadSecret;
    if a.id != id {
      OthersStay(s, a, s', id);
    } else if id in s.processes {
      InvGives(s, id);
      if s.processes[id].Reading? { WholeDestText(s); }
    }
  }

  /** A process that loses the race has opened the directory while there was no destination yet. */
  lemma {:induction false} RaceOpened(states: seq<State>, actions: seq<Action>, j: nat, id: nat) returns (k: nat)
    requires Run(states, actions) && j < |states| && states[0].before.None? && At(states[j], id).Checking?
    ensures k < j && OpensNothing(states[k], actions[k], id)
  {
    hide Inv, Apply;
    if j == 0 {
      assert false;
    } else {
      RunInv(states, actions, j - 1);
      RunStage(states, actions, j - 1, id);
      assert Follows(states, actions, j - 1);
      CheckingStep(states[j - 1], actions[j - 1], states[j], id);
      if At(states[j - 1], id).Checking? { k := RaceOpened(states, actions, j - 1, id); } else { k := j - 1; }
    }
  }

  function RaceActions(secret: bytes): seq<Action> {
    [Spawn(0), Spawn(1), Go(1), Go(0), Go(0), Generate(0, secret, true), Create(0, 0), Write(0, 64), Go(0), Go(0), Go(1)]
  }

  function RaceStates(secret: bytes): seq<State>
    requires IsSecret(secret)
  {
    var s0 := State(map[], map[], map[], None);
    var s3 := s0.Move(0, Starting).Move(1, Starting).Move(1, Checking);
    var s6 := s3.Move(0, Checking).Move(0, Generating).Move(0, Creating(secret));
    var s7 := Created(s6, 0, 0, secret);
    var s8 := Extended(s7, 0, secret, 0, 0, 64);
    var s9 := s8.Move(0, Linking(secret, 0));
    var s10 := s9.(links := s9.links[Dest := 0]).Move(0, Removing(0, Persisted(secret)));
    [s0, s0.Move(0, Starting), s0.Move(0, Starting).Move(1, Starting), s3,
     s3.Move(0, Checking), s3.Move(0, Checking).Move(0, Generating), s6, s7, s8, s9, s10, s10.Move(1, Done(InMemory))]
  }

  lemma RaceBegins(secret: bytes, i: nat)
    requires IsSecret(secret) && i < 6
    ensures Follows(RaceStates(secret), RaceActions(secret), i)
  {
    assert |secret| == 64;
    hide ReadSecret, Failed;
  }

  lemma RaceWrites(secret: bytes, i: nat)
    requires IsSecret(secret) && 6 <= i < 9
    ensures Follows(RaceStates(secret), RaceActions(secret), i)
  {
    assert |secret| == 64;
    hide ReadSecret, Failed;
  }

  lemma RaceLinks(secret: bytes)
    requires IsSecret(secret)
    ensures Follows(RaceStates(secret), RaceActions(secret), 9)
  {
    assert |secret| == 64;
    hide ReadSecret, Failed, IsSecret;
    var s := RaceStates(secret)[9];
    assert s.processes[0] == Linking(secret, 0) && s.links == map[Temp(0) := 0];
  }

  lemma RaceEnds(secret: bytes)
    requires IsSecret(secret)
    ensures Follows(RaceStates(secret), RaceActions(secret), 10)
  {
    assert |secret| == 64;
    hide ReadSecret, Failed, IsSecret;
    var s := RaceStates(secret)[10];
    assert s.processes[1] == Checking && Dest in s.links;
  }

  /** Two processes, no failure: the second opens before the first links, checks after, and keeps its secret in memory. */
  lemma RaceLost(secret: bytes)
    requires IsSecret(secret)
    ensures Run(RaceStates(secret), RaceActions(secret))
    ensures var s := RaceStates(secret)[11];
      At(s, 0) == Removing(0, Persisted(secret)) && At(s, 1) == Done(InMemory)
  {
    hide IsSecret, Follows;
    forall i | 0 <= i < 11 ensures Follows(RaceStates(secret), RaceActions(secret), i) {
      if i < 6 { RaceBegins(secret, i); } else if i < 9 { RaceWrites(secret, i); } else if i == 9 { RaceLinks(secret); } else { RaceEnds(secret); }
    }
  }

  // ---------- who reports what ----------

  /** Where a process can be that was started when the destination existed. */
  predicate ReadsOnly(p: Process, v: bytes, failed: bool) {
    p.Starting? || p.Reading? || p.Crashed? || p == Done(Persisted(v)) || (failed && p == Done(InMemory))
  }

  predicate Holds(s: State, v: bytes) {
    Dest in s.links && s.links[Dest] in s.files && ReadSecret(s.files[s.links[Dest]]) == Text(v)
  }

  lemma ReadsOnlyStep(s: State, a: Action, s': State, id: nat, v: bytes, failed: bool)
    requires Inv(s) && Apply(s, a) == Some(s') && Holds(s, v) && ReadsOnly(At(s, id), v, failed)
    ensures ReadsOnly(At(s', id), v, failed || a == Fail(id)) && Holds(s', v)
  {
    hide Inv, IsSecret, ReadSecret;
    ApplyKeepsDest(s, a, s');
    if a.id != id { OthersStay(s, a, s', id); } else if id in s.processes { InvGives(s, id); }
  }

  lemma {:induction false} ReadsOnlyRun(states: seq<State>, actions: seq<Action>, k: nat, i: nat, id: nat, v: bytes)
    requires Run(states, actions) && k <= i < |states| && id !in states[k].processes && Holds(states[k], v)
    ensures i <= |actions| && Holds(states[i], v) && ReadsOnly(At(states[i], id), v, HasFailed(actions, i, id))
    decreases i
  {
    hide Inv, Apply, Initial, Holds;
    if i > k {
      ReadsOnlyRun(states, actions, k, i - 1, id, v);
      RunInv(states, actions, i - 1);
      assert Follows(states, actions, i - 1);
      ReadsOnlyStep(states[i - 1], actions[i - 1], states[i], id, v, HasFailed(actions, i - 1, id));
    }
  }

  /** A process that starts when the destination holds a secret reports that secret, unless a step of its own fails. */
  lemma ExistingReported(states: seq<State>, actions: seq<Action>, k: nat, i: nat, id: nat, v: bytes)
    requires Run(states, actions) && k <= i < |states| && id !in states[k].processes && Holds(states[k], v)
    requires id in states[i].processes && states[i].processes[id].Done?
    ensures i <= |actions|
    ensures states[i].processes[id].result == if HasFailed(actions, i, id) then InMemory else Persisted(v)
  {
    hide Run, Holds, HasFailed, HasLacked, HasLost, BadBefore;
    ReadsOnlyRun(states, actions, k, i, id, v);
    ReportExact(states, actions, i, id);
  }

  lemma LinkingStep(s: State, id: nat, s': State)
    requires Inv(s) && Apply(s, Go(id)) == Some(s') && id in s.processes && s.processes[id].Linking? && Dest !in s.links
    ensures Verdict(At(s', id)) == Some(Persisted(s.processes[id].secret)) && Holds(s', s.processes[id].secret)
  {
    hide Inv, IsSecret, ReadSecret;
    InvGives(s, id);
    SecretIsText(s.processes[id].secret);
  }

  lemma {:induction false} VerdictKept(states: seq<State>, actions: seq<Action>, k: nat, i: nat, id: nat)
    requires Run(states, actions) && k <= i < |states| && Verdict(At(states[k], id)).Some?
    ensures Verdict(At(states[i], id)) == Verdict(At(states[k], id)) || At(states[i], id).Crashed?
    decreases i
  {
    hide Apply, Initial, LosesRace, LacksRandomness;
    if i > k {
      VerdictKept(states, actions, k, i - 1, id);
      assert Follows(states, actions, i - 1);
      if Verdict(At(states[i - 1], id)).Some? {
        VerdictStays(states[i - 1], actions[i - 1], states[i], id);
      } else {
        CrashStays(states[i - 1], actions[i - 1], states[i], id);
      }
    }
  }

  /** The process whose link makes the destination reports its own secret, and that is what the destination holds. */
  lemma CreatorReports(states: seq<State>, actions: seq<Action>, k: nat, i: nat, id: nat)
    requires Run(states, actions) && k < i < |states| && actions[k] == Go(id)
    requires id in states[k].processes && states[k].processes[id].Linking? && Dest !in states[k].links
    requires id in states[i].processes && states[i].processes[id].Done?
    ensures states[i].processes[id].result == Persisted(states[k].processes[id].secret)
    ensures Holds(states[i], states[k].processes[id].secret)
  {
    hide Inv, Apply, Initial, ReadSecret;
    RunInv(states, actions, k);
    assert Follows(states, actions, k);
    LinkingStep(states[k], id, states[k + 1]);
    VerdictKept(states, actions, k + 1, i, id);
    DestNeverChanges(states, actions, k + 1, i);
  }

  // ---------- progress ----------

  lemma {:induction false} FreshInode(inodes: set<nat>) returns (n: nat)
    ensures forall i :: i in inodes ==> i < n
  {
    n := 0;
    if inodes != {} {
      var i :| i in inodes;
      n := FreshInode(inodes - {i});
      if n <= i { n := i + 1; }
      assert inodes == (inodes - {i}) + {i};
    }
  }

  /** No process is ever stuck: until it is done or has crashed, it can take a step that is no failure. */
  lemma NeverStuck(s: State, id: nat) returns (a: Action)
    requires Inv(s) && id in s.processes && !s.processes[id].Done? && !s.processes[id].Crashed?
    ensures a.id == id && !a.Fail? && !a.Crash? && Apply(s, a).Some?
  {
    hide Inv, ReadSecret;
    InvGives(s, id);
    match s.processes[id]
    case Generating => a := Generate(id, [], false);
    case Creating(_) =>
      var inode := FreshInode(s.files.Keys);
      a := Create(id, inode);
    case Writing(secret, _, written) => a := if written < |secret| then Write(id, 1) else Go(id);
    case _ => a := Go(id);
  }

  /** Everything that touches the file system can fail; then the secret stays in memory, and no file is written any more. */
  lemma FailsInMemory(s: State, id: nat)
    requires Inv(s) && id in s.processes
    ensures var p, r := s.processes[id], Apply(s, Fail(id));
      && (r.Some? <==> Verdict(p).None? && !p.Generating? && !p.Crashed?)
      && (r.Some? ==> Verdict(At(r.value, id)) == Some(InMemory) && r.value.files == s.files && SameDest(s, r.value))
  {
    hide Inv, ReadSecret, IsSecret;
  }

  /** A process can be started at any time, and crash at any time; a crash leaves all files and links as they are. */
  lemma StartsAndCrashes(s: State, id: nat)
    ensures id !in s.processes ==> Apply(s, Spawn(id)) == Some(s.Move(id, Starting))
    ensures id in s.processes && !s.processes[id].Done? && !s.processes[id].Crashed? ==>
      Apply(s, Crash(id)) == Some(s.Move(id, Crashed))
  {
    hide ReadSecret, IsSecret;
  }
}
