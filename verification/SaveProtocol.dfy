/**
 Saving of a dump, step by step, while another process creates, replaces and
 removes files (libopendmi/src/context-save.c). Files are contents which names
 lead to; links, renames and removals are atomic.
 */
module SaveProtocol {
  import opened Wrappers
  import opened Bytes

  const ATTEMPTS: nat := 100

  /** The target, the names its temporary file may get, and all the other ones. */
  datatype Name = Target | Temp(attempt: nat) | Other(id: nat)

  datatype Node = File(inode: nat) | Stream | Link(to: Name)

  /** Where the process has got to: which call comes next. */
  datatype Pc =
    | Stat | Follow | OpenDirect(exclusive: bool) | OpenTemp(attempt: nat)
    | Write | Close
    | Hardlink | StatAgain | Rename | Unlink | RemoveTemp
    | Done(ok: bool)

  /** What the dump is written through. */
  datatype Fd = Closed | ToFile(inode: nat) | ToStream

  datatype State = State(
    dir: map<Name, Node>, files: map<nat, seq<Byte>>,
    pc: Pc, fd: Fd, temp: Option<nat>, written: nat, success: bool,
    published: bool, leftBehind: bool)

  datatype Config = Config(overwrite: bool, hardLinks: bool, dump: seq<Byte>)

  /**
   What a call meets: a failure, a link which is refused though there is no such
   file, how much is written at once, and the number of a new file.
   */
  datatype Chance = Chance(fails: bool, refused: bool, chunk: nat, inode: nat)

  function Start(dir: map<Name, Node>, files: map<nat, seq<Byte>>): State {
    State(dir, files, Stat, Closed, None, 0, true, false, false)
  }

  /** A link is followed once. */
  function Resolve(dir: map<Name, Node>, name: Name): Option<Node> {
    if name !in dir then None
    else if dir[name].Link? then
      (if dir[name].to in dir && !dir[dir[name].to].Link? then Some(dir[dir[name].to]) else None)
    else Some(dir[name])
  }

  function Failed(s: State): State {
    s.(pc := if s.temp.Some? then RemoveTemp else Done(false), success := false)
  }

  /** A file is told by its own status, a device or a pipe is written directly, and a link is followed first. */
  function AfterStat(c: Config, s: State): State {
    if Target !in s.dir then s.(pc := OpenTemp(0))
    else if s.dir[Target].File? then
      (if c.overwrite then s.(pc := OpenTemp(0)) else s.(pc := Done(false), success := false))
    else if s.dir[Target].Stream? then s.(pc := OpenDirect(false))
    else s.(pc := Follow)
  }

  function AfterFollow(c: Config, s: State): State {
    var node := Resolve(s.dir, Target);
    var isStream := node.Some? && node.value.Stream?;
    s.(pc := OpenDirect(!c.overwrite && !isStream))
  }

  /** Opening follows a link, and creates or empties what is not there or is. */
  function AfterOpenDirect(s: State, exclusive: bool, o: Chance): (r: State)
    ensures r.pc.Done? || r.pc.Write?
  {
    if o.fails || (exclusive && Target in s.dir) then s.(pc := Done(false), success := false)
    else
      var node := Resolve(s.dir, Target);
      if node.Some? && node.value.Stream? then s.(pc := Write, fd := ToStream)
      else if node.Some? && node.value.File? then
        s.(pc := Write, fd := ToFile(node.value.inode), files := s.files[node.value.inode := []])
      else
        var name := if Target in s.dir && s.dir[Target].Link? then s.dir[Target].to else Target;
        s.(pc := Write, fd := ToFile(o.inode), files := s.files[o.inode := []], dir := s.dir[name := File(o.inode)])
  }

  /** A name which is taken is passed over. */
  function AfterOpenTemp(s: State, attempt: nat, o: Chance): (r: State)
    ensures r.pc.Done? || r.pc.OpenTemp? || r.pc.Write?
  {
    if attempt >= ATTEMPTS then s.(pc := Done(false), success := false)
    else if Temp(attempt) in s.dir then s.(pc := OpenTemp(attempt + 1))
    else if o.fails then s.(pc := Done(false), success := false)
    else s.(pc := Write, fd := ToFile(o.inode), temp := Some(attempt),
            files := s.files[o.inode := []], dir := s.dir[Temp(attempt) := File(o.inode)])
  }

  function AfterWrite(c: Config, s: State, o: Chance): (r: State)
    requires s.pc.Write?
    ensures r.pc.Write? || r.pc.Close?
  {
    if s.written >= |c.dump| then s.(pc := Close)
    else if o.fails then s.(pc := Close, success := false)
    else
      var end := Min(s.written + o.chunk, |c.dump|);
      var next := s.(written := end);
      if s.fd.ToFile? && s.fd.inode in s.files then
        next.(files := s.files[s.fd.inode := s.files[s.fd.inode] + c.dump[s.written..end]])
      else next
  }

  function AfterClose(c: Config, s: State, o: Chance): State {
    var success := s.success && !o.fails;
    if !success then Failed(s)
    else if s.temp.None? then s.(pc := Done(true))
    else s.(pc := if c.overwrite then Rename else Hardlink)
  }

  /** A link is made only where there is no file yet. */
  function AfterHardlink(c: Config, s: State, o: Chance): State
    requires s.temp.Some?
  {
    var name := Temp(s.temp.value);
    if Target in s.dir && !o.refused then Failed(s)
    else if !c.hardLinks || o.refused || name !in s.dir then s.(pc := StatAgain)
    else s.(pc := Unlink, dir := s.dir[Target := s.dir[name]], published := true)
  }

  function AfterRename(s: State, o: Chance): State
    requires s.temp.Some?
  {
    var name := Temp(s.temp.value);
    if o.fails || name !in s.dir then Failed(s)
    else s.(pc := Done(true), dir := s.dir[Target := s.dir[name]] - {name}, published := true)
  }

  function AfterRemove(s: State, o: Chance): State
    requires s.temp.Some?
  {
    var next := s.(pc := Done(s.success));
    if o.fails then next.(leftBehind := true) else next.(dir := s.dir - {Temp(s.temp.value)})
  }

  /** A temporary file is there only as long as it is needed. */
  predicate IsReady(s: State) {
    s.pc.Hardlink? || s.pc.StatAgain? || s.pc.Rename? || s.pc.Unlink? || s.pc.RemoveTemp? ==> s.temp.Some?
  }

  function Step(c: Config, s: State, o: Chance): State
    requires IsReady(s)
  {
    match s.pc
    case Stat => AfterStat(c, s)
    case Follow => AfterFollow(c, s)
    case OpenDirect(exclusive) => AfterOpenDirect(s, exclusive, o)
    case OpenTemp(attempt) => AfterOpenTemp(s, attempt, o)
    case Write => AfterWrite(c, s, o)
    case Close => AfterClose(c, s, o)
    case Hardlink => AfterHardlink(c, s, o)
    case StatAgain => if Target in s.dir then Failed(s) else s.(pc := Rename)
    case Rename => AfterRename(s, o)
    case Unlink => AfterRemove(s, o)
    case RemoveTemp => AfterRemove(s, o)
    case Done(_) => s
  }

  /** A new file has a number of its own. */
  predicate IsFresh(s: State, o: Chance) {
    o.inode !in s.files && forall name | name in s.dir :: s.dir[name] != File(o.inode)
  }

  ghost predicate ProcessStep(c: Config, s: State, t: State) {
    IsReady(s) && exists o: Chance :: IsFresh(s, o) && t == Step(c, s, o)
  }

  /** The file the dump is being written to, if it is a temporary one. */
  function Own(s: State): Option<nat> {
    if s.temp.Some? && s.fd.ToFile? then Some(s.fd.inode) else None
  }

  /** A name leads where it has led. */
  predicate IsKept(name: Name, s: State, t: State) {
    (name in s.dir <==> name in t.dir) && (name in s.dir ==> t.dir[name] == s.dir[name])
  }

  /**
   Another process may do anything but touch the temporary file: it neither
   writes to it, nor removes its name, nor gives it another one before it is
   the target.
   */
  predicate OtherStep(s: State, t: State) {
    && t == s.(dir := t.dir, files := t.files)
    && (s.temp.Some? ==> IsKept(Temp(s.temp.value), s, t))
    && (Own(s).Some? && Own(s).value in s.files ==>
      Own(s).value in t.files && t.files[Own(s).value] == s.files[Own(s).value])
    && (Own(s).Some? && !s.published ==> forall name | name in t.dir && name != Temp(s.temp.value) ::
      t.dir[name] != File(Own(s).value))
  }

  /** A run: the process and the other one take steps in any order. */
  ghost predicate IsRun(c: Config, run: seq<State>) {
    && run != [] && run[0] == Start(run[0].dir, run[0].files)
    && forall i | 0 <= i < |run| - 1 :: ProcessStep(c, run[i], run[i + 1]) || OtherStep(run[i], run[i + 1])
  }

  /** A step of a run, with what it meets should it be one of the process. */
  ghost predicate StepBy(c: Config, s: State, o: Chance, t: State) {
    (IsReady(s) && IsFresh(s, o) && t == Step(c, s, o)) || OtherStep(s, t)
  }

  /** A run whose steps of the process meet what is given. */
  ghost predicate IsRunBy(c: Config, run: seq<State>, met: seq<Chance>) {
    && run != [] && run[0] == Start(run[0].dir, run[0].files) && |met| == |run| - 1
    && forall i | 0 <= i < |met| :: StepBy(c, run[i], met[i], run[i + 1])
  }

  lemma RunByIsRun(c: Config, run: seq<State>, met: seq<Chance>)
    requires IsRunBy(c, run, met)
    ensures IsRun(c, run)
  {
    hide Step, OtherStep, IsFresh;
    forall i | 0 <= i < |run| - 1
      ensures ProcessStep(c, run[i], run[i + 1]) || OtherStep(run[i], run[i + 1])
    {
      assert StepBy(c, run[i], met[i], run[i + 1]);
    }
  }

  // Invariant

  /**
   What is in the temporary file is what has been written of the dump, and
   nobody has seen it yet unless it is all.
   */
  ghost predicate Inv(c: Config, s: State) {
    && IsReady(s) && s.written <= |c.dump|
    && (s.temp.Some? ==>
          && s.fd.ToFile? && s.fd.inode in s.files
          && s.files[s.fd.inode] == c.dump[..s.written])
    && (s.temp.Some? && !s.published ==>
          && (s.pc.Write? || s.pc.Close? || s.pc.Hardlink? || s.pc.StatAgain? || s.pc.Rename? || s.pc.RemoveTemp?
            || s.pc.Done?)
          && forall name | name in s.dir && name != Temp(s.temp.value) :: s.dir[name] != File(s.fd.inode))
    && (s.temp.Some? && !s.pc.Done? ==> Temp(s.temp.value) in s.dir && s.dir[Temp(s.temp.value)] == File(s.fd.inode))
    && (s.temp.Some? && s.pc.Done? && !s.leftBehind ==> Temp(s.temp.value) !in s.dir)
    && (s.published ==> s.temp.Some? && s.written == |c.dump| && s.success && (s.pc.Unlink? || s.pc.Done?))
    && (s.pc.Hardlink? || s.pc.StatAgain? || s.pc.Rename? || s.pc.Unlink? ==> s.written == |c.dump| && s.success)
    && (s.pc.Close? && s.success ==> s.written == |c.dump|)
    && (s.pc.Write? ==> s.success)
    && (s.pc.Stat? || s.pc.Follow? || s.pc.OpenDirect? || s.pc.OpenTemp? ==> s.success && s.written == 0)
    && (s.pc.Unlink? ==> s.published)
    && (s.pc.Done? && s.temp.Some? ==> s.pc.ok == s.published)
    && (s.pc.RemoveTemp? ==> !s.success)
    && (s.temp.None? ==> !s.published && !s.pc.Unlink? && !s.leftBehind)
    && (s.temp.Some? ==> !s.pc.Stat? && !s.pc.Follow? && !s.pc.OpenDirect? && !s.pc.OpenTemp?)
    && (s.fd.Closed? ==> s.temp.None?)
  }

  lemma StepKeeps(c: Config, s: State, o: Chance)
    requires Inv(c, s) && IsFresh(s, o)
    ensures Inv(c, Step(c, s, o))
  {
    hide Inv, IsFresh, Step, IsReady;
    assert IsReady(s) by {
      InvIsReady(c, s);
    }
    if s.pc.Stat? || s.pc.Follow? || s.pc.OpenDirect? || s.pc.OpenTemp? {
      OpenKeeps(c, s, o);
    } else if s.pc.Write? || s.pc.Close? {
      WriteKeeps(c, s, o);
    } else {
      CommitKeeps(c, s, o);
    }
  }

  lemma InvIsReady(c: Config, s: State)
    requires Inv(c, s)
    ensures IsReady(s)
  {
  }

  lemma OpenKeeps(c: Config, s: State, o: Chance)
    requires Inv(c, s) && IsFresh(s, o) && (s.pc.Stat? || s.pc.Follow? || s.pc.OpenDirect? || s.pc.OpenTemp?)
    ensures Inv(c, Step(c, s, o))
  {
    hide AfterWrite, AfterClose, AfterHardlink, AfterRename, AfterRemove;
  }

  lemma WriteKeeps(c: Config, s: State, o: Chance)
    requires Inv(c, s) && IsFresh(s, o) && (s.pc.Write? || s.pc.Close?)
    ensures Inv(c, Step(c, s, o))
  {
    hide AfterOpenDirect, AfterOpenTemp, AfterHardlink, AfterRename, AfterRemove, Resolve;
    var end := Min(s.written + o.chunk, |c.dump|);
    if s.pc.Write? {
      assert c.dump[..s.written] + c.dump[s.written..end] == c.dump[..end];
    }
  }

  lemma CommitKeeps(c: Config, s: State, o: Chance)
    requires Inv(c, s) && IsFresh(s, o)
    requires !s.pc.Stat? && !s.pc.Follow? && !s.pc.OpenDirect? && !s.pc.OpenTemp? && !s.pc.Write? && !s.pc.Close?
    ensures Inv(c, Step(c, s, o))
  {
    hide AfterOpenDirect, AfterOpenTemp, AfterWrite, AfterClose, Resolve;
  }

  lemma OtherKeeps(c: Config, s: State, t: State)
    requires Inv(c, s) && OtherStep(s, t)
    ensures Inv(c, t)
  {
  }

  lemma {:induction false} RunKeeps(c: Config, run: seq<State>, i: nat)
    requires IsRun(c, run) && i < |run|
    ensures Inv(c, run[i])
  {
    if i > 0 {
      RunKeeps(c, run, i - 1);
      if ProcessStep(c, run[i - 1], run[i]) {
        var o: Chance :| IsFresh(run[i - 1], o) && run[i] == Step(c, run[i - 1], o);
        StepKeeps(c, run[i - 1], o);
      } else {
        OtherKeeps(c, run[i - 1], run[i]);
      }
    }
  }

  // Safety

  /** The target has been missing or a regular file when its status was told. */
  predicate IsIndirect(run: seq<State>) {
    forall i | 0 <= i < |run| :: !run[i].pc.OpenDirect? && !run[i].pc.Follow?
  }

  /**
   Whatever the steps come in, the file of the dump is seen under no name but
   the one of the temporary file unless it is complete: a missing or a regular
   target never shows a part of a dump.
   */
  lemma TargetIsWhole(c: Config, run: seq<State>, i: nat, name: Name)
    requires IsRun(c, run) && i < |run| && Own(run[i]).Some?
    requires name in run[i].dir && name != Temp(run[i].temp.value) && run[i].dir[name] == File(Own(run[i]).value)
    ensures Own(run[i]).value in run[i].files && run[i].files[Own(run[i]).value] == c.dump
  {
    RunKeeps(c, run, i);
    assert c.dump[..|c.dump|] == c.dump;
  }

  /** The files of others are not written to. */
  lemma OthersAreKept(c: Config, run: seq<State>, i: nat, inode: nat)
    requires IsRun(c, run) && IsIndirect(run) && i + 1 < |run| && ProcessStep(c, run[i], run[i + 1])
    requires inode in run[i].files && Own(run[i + 1]) != Some(inode)
    ensures inode in run[i + 1].files && run[i + 1].files[inode] == run[i].files[inode]
  {
    RunKeeps(c, run, i);
    NotDirect(c, run, i);
    assert !run[i].pc.OpenDirect?;
  }

  /** Without being opened directly, nothing is written through but the temporary file. */
  lemma {:induction false} NotDirect(c: Config, run: seq<State>, i: nat)
    requires IsRun(c, run) && IsIndirect(run) && i < |run|
    ensures run[i].temp.None? ==> run[i].fd.Closed? && (run[i].pc.Stat? || run[i].pc.OpenTemp? || run[i].pc.Done?)
  {
    hide Step, OtherStep, Inv, IsFresh;
    if i > 0 {
      NotDirect(c, run, i - 1);
      RunKeeps(c, run, i - 1);
      assert !run[i - 1].pc.OpenDirect? && !run[i - 1].pc.Follow? && !run[i].pc.OpenDirect? && !run[i].pc.Follow?;
      IndirectOnly(c, run[i - 1], run[i]);
    }
  }

  lemma IndirectOnly(c: Config, s: State, t: State)
    requires Inv(c, s) && (ProcessStep(c, s, t) || OtherStep(s, t))
    requires !s.pc.OpenDirect? && !s.pc.Follow? && !t.pc.OpenDirect? && !t.pc.Follow?
    requires s.temp.None? ==> s.fd.Closed? && (s.pc.Stat? || s.pc.OpenTemp? || s.pc.Done?)
    ensures t.temp.None? ==> t.fd.Closed? && (t.pc.Stat? || t.pc.OpenTemp? || t.pc.Done?)
  {
    hide AfterOpenDirect, Resolve;
  }

  /** The target is changed by the step which publishes the dump, and by no other one. */
  lemma OnlyPublishingChanges(c: Config, run: seq<State>, i: nat)
    requires IsRun(c, run) && IsIndirect(run) && i + 1 < |run| && ProcessStep(c, run[i], run[i + 1])
    ensures run[i + 1].published == run[i].published ==> IsKept(Target, run[i], run[i + 1])
    ensures run[i + 1].published != run[i].published ==>
      && Own(run[i + 1]).Some? && Target in run[i + 1].dir && run[i + 1].dir[Target] == File(Own(run[i + 1]).value)
      && run[i + 1].published
  {
    RunKeeps(c, run, i);
    assert !run[i].pc.OpenDirect?;
  }

  lemma {:induction false} PublishedStays(c: Config, run: seq<State>, i: nat, j: nat)
    requires IsRun(c, run) && i <= j < |run| && run[i].published
    ensures run[j].published
    decreases j
  {
    hide Step, Inv, OtherStep;
    if i < j {
      PublishedStays(c, run, i, j - 1);
      RunKeeps(c, run, j - 1);
      PublishedStep(c, run[j - 1], run[j]);
    }
  }

  lemma PublishedStep(c: Config, s: State, t: State)
    requires Inv(c, s) && s.published && (ProcessStep(c, s, t) || OtherStep(s, t))
    ensures t.published
  {
  }

  /** A run which fails leaves the target to the others; one which succeeds has published the dump. */
  lemma OutcomeIsTold(c: Config, run: seq<State>, i: nat)
    requires IsRun(c, run) && IsIndirect(run) && i < |run| && run[i].pc.Done?
    ensures !run[i].pc.ok ==> forall j | 0 <= j < i && ProcessStep(c, run[j], run[j + 1]) ::
      IsKept(Target, run[j], run[j + 1])
    ensures run[i].pc.ok ==> exists j :: 0 < j <= i && run[j].published && !run[j - 1].published
  {
    RunKeeps(c, run, i);
    NotDirect(c, run, i);
    DoneDirectly(c, run, i);
    if run[i].pc.ok {
      FirstPublished(c, run, i);
    } else {
      forall j | 0 <= j < i && ProcessStep(c, run[j], run[j + 1])
        ensures IsKept(Target, run[j], run[j + 1])
      {
        OnlyPublishingChanges(c, run, j);
        if run[j + 1].published {
          PublishedStays(c, run, j + 1, i);
        }
      }
    }
  }

  lemma {:induction false} DoneDirectly(c: Config, run: seq<State>, i: nat)
    requires IsRun(c, run) && IsIndirect(run) && i < |run|
    ensures run[i].pc.Done? && run[i].temp.None? ==> !run[i].pc.ok
  {
    hide Step, Inv, OtherStep;
    if i > 0 {
      DoneDirectly(c, run, i - 1);
      NotDirect(c, run, i - 1);
      RunKeeps(c, run, i - 1);
      assert !run[i - 1].pc.OpenDirect? && !run[i - 1].pc.Follow?;
      DoneStep(c, run[i - 1], run[i]);
    }
  }

  lemma DoneStep(c: Config, s: State, t: State)
    requires Inv(c, s) && (ProcessStep(c, s, t) || OtherStep(s, t))
    requires s.temp.None? ==> s.pc.Stat? || s.pc.OpenTemp? || s.pc.Done?
    requires s.pc.Done? && s.temp.None? ==> !s.pc.ok
    ensures t.pc.Done? && t.temp.None? ==> !t.pc.ok
  {
  }

  lemma {:induction false} FirstPublished(c: Config, run: seq<State>, i: nat)
    requires IsRun(c, run) && i < |run| && run[i].published
    ensures exists j :: 0 < j <= i && run[j].published && !run[j - 1].published
  {
    hide Step, OtherStep, IsFresh;
    assert !run[0].published;
    if run[i - 1].published {
      FirstPublished(c, run, i - 1);
    }
  }

  /** Hard links work: the file system has them, and none is refused. */
  predicate LinksWork(c: Config, met: seq<Chance>) {
    c.hardLinks && forall i | 0 <= i < |met| :: !met[i].refused
  }

  /** Where hard links work, a dump is moved into place only if it is to overwrite. */
  lemma {:induction false} NeverRenamed(c: Config, run: seq<State>, met: seq<Chance>, i: nat)
    requires IsRunBy(c, run, met) && LinksWork(c, met) && !c.overwrite && i < |run|
    ensures !run[i].pc.StatAgain? && !run[i].pc.Rename?
  {
    hide Step, OtherStep, Inv, IsRun;
    if i > 0 {
      NeverRenamed(c, run, met, i - 1);
      RunByIsRun(c, run, met);
      RunKeeps(c, run, i - 1);
      assert StepBy(c, run[i - 1], met[i - 1], run[i]);
      RenamedStep(c, run[i - 1], met[i - 1], run[i]);
    }
  }

  lemma RenamedStep(c: Config, s: State, o: Chance, t: State)
    requires Inv(c, s) && StepBy(c, s, o, t) && c.hardLinks && !o.refused && !c.overwrite
    requires !s.pc.StatAgain? && !s.pc.Rename?
    ensures !t.pc.StatAgain? && !t.pc.Rename?
  {
    hide AfterOpenDirect, AfterOpenTemp, AfterWrite, AfterRemove;
    if s.temp.Some? {
      NotRenamed(s, o);
    }
  }

  lemma NotRenamed(s: State, o: Chance)
    requires s.temp.Some?
    ensures AfterRemove(s, o).pc.Done?
  {
  }

  /**
   When an existing target is replaced: by the renaming which succeeds, and by
   no other step of a process which does not open the target directly.
   */
  lemma ReplacedByRename(c: Config, run: seq<State>, i: nat, o: Chance)
    requires IsRun(c, run) && IsIndirect(run) && i + 1 < |run| && Target in run[i].dir
    requires IsReady(run[i]) && IsFresh(run[i], o) && run[i + 1] == Step(c, run[i], o)
    ensures !IsKept(Target, run[i], run[i + 1]) <==> run[i].pc.Rename? && !o.fails
  {
    RunKeeps(c, run, i);
    assert !run[i].pc.OpenDirect?;
  }

  /**
   Without overwriting, and where hard links work, an existing file is never
   replaced, and what is in it is left alone.
   */
  lemma NeverReplaced(c: Config, run: seq<State>, met: seq<Chance>, i: nat)
    requires IsRunBy(c, run, met) && IsIndirect(run) && LinksWork(c, met) && !c.overwrite
    requires i + 1 < |run| && ProcessStep(c, run[i], run[i + 1]) && Target in run[i].dir
    ensures IsKept(Target, run[i], run[i + 1])
    ensures forall inode | run[i].dir[Target] == File(inode) && inode in run[i].files
      && Own(run[i + 1]) != Some(inode) ::
      inode in run[i + 1].files && run[i + 1].files[inode] == run[i].files[inode]
  {
    hide Step, IsRun, IsRunBy, IsFresh;
    RunByIsRun(c, run, met);
    NeverRenamed(c, run, met, i);
    var o: Chance :| IsFresh(run[i], o) && run[i + 1] == Step(c, run[i], o);
    ReplacedByRename(c, run, i, o);
    forall inode | run[i].dir[Target] == File(inode) && inode in run[i].files && Own(run[i + 1]) != Some(inode)
      ensures inode in run[i + 1].files && run[i + 1].files[inode] == run[i].files[inode]
    {
      OthersAreKept(c, run, i, inode);
    }
  }

  /** Where nothing but regular files ever gets the name of the target, it is not opened directly. */
  lemma {:induction false} RegularIsIndirect(c: Config, run: seq<State>, i: nat)
    requires IsRun(c, run) && i < |run|
    requires forall j | 0 <= j < |run| && Target in run[j].dir :: run[j].dir[Target].File?
    ensures !run[i].pc.OpenDirect? && !run[i].pc.Follow?
  {
    hide Step, OtherStep;
    if i > 0 {
      RegularIsIndirect(c, run, i - 1);
      IndirectStep(c, run[i - 1], run[i]);
    }
  }

  lemma IndirectStep(c: Config, s: State, t: State)
    requires ProcessStep(c, s, t) || OtherStep(s, t)
    requires !s.pc.OpenDirect? && !s.pc.Follow? && (Target in s.dir ==> s.dir[Target].File?)
    ensures !t.pc.OpenDirect? && !t.pc.Follow?
  {
    hide Step, IsFresh;
    if !OtherStep(s, t) {
      var o: Chance :| IsFresh(s, o) && t == Step(c, s, o);
      NotOpenedDirectly(c, s, o);
    }
  }

  lemma NotOpenedDirectly(c: Config, s: State, o: Chance)
    requires IsReady(s) && IsFresh(s, o)
    requires !s.pc.OpenDirect? && !s.pc.Follow? && (Target in s.dir ==> s.dir[Target].File?)
    ensures !Step(c, s, o).pc.OpenDirect? && !Step(c, s, o).pc.Follow?
  {
    hide AfterOpenDirect, AfterHardlink, AfterRename, AfterRemove;
    if s.temp.Some? {
      LastSteps(c, s);
    }
  }

  lemma LastSteps(c: Config, s: State)
    requires s.temp.Some?
    ensures forall o: Chance :: var t := AfterHardlink(c, s, o); !t.pc.OpenDirect? && !t.pc.Follow?
    ensures forall o: Chance :: AfterRemove(s, o).pc.Done?
    ensures forall o: Chance :: var t := AfterRename(s, o); !t.pc.OpenDirect? && !t.pc.Follow?
  {
  }

  /** No temporary file outlives a run whose removals succeed. */
  lemma NothingIsLeftBehind(c: Config, run: seq<State>, i: nat)
    requires IsRun(c, run) && i < |run| && run[i].pc.Done? && run[i].temp.Some? && !run[i].leftBehind
    ensures Temp(run[i].temp.value) !in run[i].dir
  {
    RunKeeps(c, run, i);
  }

  /** A target opened directly: without overwriting, a file loses its contents only if it has come there since. */
  lemma DirectKeepsFiles(c: Config, s: State, told: State, o: Chance, inode: nat)
    requires s.pc.OpenDirect? && !c.overwrite && IsFresh(s, o) && inode in s.files
    requires told.dir == s.dir
      && ((told.pc.Stat? && s == AfterStat(c, told)) || (told.pc.Follow? && s == AfterFollow(c, told)))
    ensures inode in Step(c, s, o).files && Step(c, s, o).files[inode] == s.files[inode]
  {
  }

  /** What has to be true of a file for it to be emptied: it is what the target leads to, and may be opened. */
  lemma DirectEmpties(c: Config, s: State, o: Chance, inode: nat)
    requires s.pc.OpenDirect? && IsFresh(s, o) && inode in s.files && s.files[inode] != []
    ensures Step(c, s, o).files[inode] != s.files[inode]
       <==> Resolve(s.dir, Target) == Some(File(inode)) && !o.fails && !s.pc.exclusive
  {
  }

  /**
   Where there are no hard links, or one is refused, a process alone gets as far
   as to the renaming, whatever it dumps.
   */
  lemma RenameIsReached(dump: seq<Byte>, hardLinks: bool, refused: bool) returns (run: seq<State>, met: seq<Chance>)
    requires !hardLinks || refused
    ensures IsRunBy(Config(false, hardLinks, dump), run, met) && IsIndirect(run)
    ensures run[|run| - 1]
         == State(map[Temp(0) := File(7)], map[7 := dump], Rename, ToFile(7), Some(0), |dump|, true, false, false)
    ensures |met| >= 2 && forall i | 0 <= i < |met| :: met[i].refused <==> refused && i == |met| - 2
  {
    hide IsIndirect, ProcessStep;
    hide IsRunBy, StepBy, OtherStep, Step, IsFresh;
    var c := Config(false, hardLinks, dump);
    var first, other := Chance(false, false, 0, 7), Chance(false, false, |dump|, 8);
    var s := Start(map[], map[]);
    RunBegins(c, s);
    run, met := [s], [];
    var empty := State(map[Temp(0) := File(7)], map[7 := []], Write, ToFile(7), Some(0), 0, true, false, false);
    FirstSteps(c, first);
    run, met := Grown(c, run, met, first, s.(pc := OpenTemp(0)));
    run, met := Grown(c, run, met, first, empty);
    var filled := empty.(files := map[7 := dump], written := |dump|);
    WriteSteps(c, empty, filled, other);
    if dump != [] {
      run, met := Grown(c, run, met, other, filled);
    }
    run, met := Grown(c, run, met, other, filled.(pc := Close));
    CloseSteps(c, filled, other, refused);
    run, met := Grown(c, run, met, other, filled.(pc := Hardlink));
    run, met := Grown(c, run, met, other.(refused := refused), filled.(pc := StatAgain));
    run, met := Grown(c, run, met, other, filled.(pc := Rename));
  }

  lemma FirstSteps(c: Config, o: Chance)
    requires o == Chance(false, false, 0, 7)
    ensures var s := Start(map[], map[]); IsFresh(s, o) && Step(c, s, o) == s.(pc := OpenTemp(0))
    ensures var s := Start(map[], map[]).(pc := OpenTemp(0));
      && IsFresh(s, o)
      && Step(c, s, o)
         == State(map[Temp(0) := File(7)], map[7 := []], Write, ToFile(7), Some(0), 0, true, false, false)
  {
  }

  lemma WriteSteps(c: Config, s: State, filled: State, o: Chance)
    requires s == State(map[Temp(0) := File(7)], map[7 := []], Write, ToFile(7), Some(0), 0, true, false, false)
    requires filled == s.(files := map[7 := c.dump], written := |c.dump|) && o == Chance(false, false, |c.dump|, 8)
    ensures IsFresh(s, o) && IsFresh(filled, o)
    ensures if c.dump == [] then filled == s else Step(c, s, o) == filled
    ensures Step(c, filled, o) == filled.(pc := Close)
  {
    assert [] + c.dump[0..|c.dump|] == c.dump;
    assert map[7 := []][7 := c.dump] == map[7 := c.dump];
  }

  lemma CloseSteps(c: Config, s: State, o: Chance, refused: bool)
    requires !c.overwrite && (!c.hardLinks || refused) && s.success && s.temp == Some(0) && s.dir.Keys == {Temp(0)}
    requires !o.fails && !o.refused && IsFresh(s, o)
    ensures forall pc :: IsFresh(s.(pc := pc), o) && IsFresh(s.(pc := pc), o.(refused := refused))
    ensures Step(c, s.(pc := Close), o) == s.(pc := Hardlink)
    ensures Step(c, s.(pc := Hardlink), o.(refused := refused)) == s.(pc := StatAgain)
    ensures Step(c, s.(pc := StatAgain), o) == s.(pc := Rename)
  {
  }

  lemma Grown(c: Config, run: seq<State>, met: seq<Chance>, o: Chance, t: State)
    returns (run': seq<State>, met': seq<Chance>)
    requires IsRunBy(c, run, met) && IsIndirect(run)
    requires var s := run[|run| - 1]; IsReady(s) && IsFresh(s, o) && t == Step(c, s, o)
    requires !t.pc.OpenDirect? && !t.pc.Follow?
    ensures run' == run + [t] && met' == met + [o] && IsRunBy(c, run', met') && IsIndirect(run')
    ensures ProcessStep(c, run[|run| - 1], t)
  {
    hide Step, OtherStep, IsFresh;
    RunGrows(c, run, met, o, t);
    run', met' := run + [t], met + [o];
  }

  /** A run which replaces a file: one which comes between the last look at the target and the renaming. */
  lemma ReplacingRun(dump: seq<Byte>, hardLinks: bool, refused: bool) returns (run: seq<State>, met: seq<Chance>)
    requires !hardLinks || refused
    ensures IsRunBy(Config(false, hardLinks, dump), run, met) && IsIndirect(run) && |run| >= 2
    ensures var s, t := run[|run| - 2], run[|run| - 1];
      ProcessStep(Config(false, hardLinks, dump), s, t) && Target in s.dir && !IsKept(Target, s, t)
    ensures |met| >= 4 && forall i | 0 <= i < |met| :: met[i].refused <==> refused && i == |met| - 4
  {
    hide ProcessStep, OtherStep, StepBy;
    var c := Config(false, hardLinks, dump);
    run, met := RenameIsReached(dump, hardLinks, refused);
    var s := run[|run| - 1];
    var t := s.(dir := s.dir[Target := File(1)], files := s.files[1 := [42]]);
    var o := Chance(false, false, 0, 8);
    OtherIsAble(s, t);
    OtherSteps(c, s, o, t);
    RunGrows(c, run, met, o, t);
    run, met := run + [t], met + [o];
    run, met := Grown(c, run, met, o, Step(c, t, o));
  }

  /**
   Where hard links do not work, a file created between the last look at the
   target and the renaming is replaced, even without overwriting: whatever is
   dumped, there is a run which does so.
   */
  lemma RenameMayReplace(dump: seq<Byte>) returns (run: seq<State>)
    ensures IsRun(Config(false, false, dump), run) && IsIndirect(run) && |run| >= 2
    ensures var s, t := run[|run| - 2], run[|run| - 1];
      ProcessStep(Config(false, false, dump), s, t) && Target in s.dir && !IsKept(Target, s, t)
  {
    hide IsRun, IsRunBy, ProcessStep;
    var met;
    run, met := ReplacingRun(dump, false, false);
    RunByIsRun(Config(false, false, dump), run, met);
  }

  /** One link which is refused is enough, though the file system has hard links. */
  lemma RefusedMayReplace(dump: seq<Byte>) returns (run: seq<State>, met: seq<Chance>)
    ensures IsRunBy(Config(false, true, dump), run, met) && IsIndirect(run) && |run| >= 2
    ensures var s, t := run[|run| - 2], run[|run| - 1];
      ProcessStep(Config(false, true, dump), s, t) && Target in s.dir && !IsKept(Target, s, t)
    ensures exists i :: 0 <= i < |met| && met[i].refused && forall j | 0 <= j < |met| && met[j].refused :: j == i
  {
    hide IsRunBy, ProcessStep;
    run, met := ReplacingRun(dump, true, true);
    assert met[|met| - 4].refused;
  }

  /** No step of the process changes what the target has come to be. */
  ghost predicate ReplacesNothing(c: Config, run: seq<State>) {
    forall i | 0 <= i < |run| - 1 && ProcessStep(c, run[i], run[i + 1]) && Target in run[i].dir ::
      IsKept(Target, run[i], run[i + 1])
  }

  predicate NoneIsRefused(met: seq<Chance>) {
    forall i | 0 <= i < |met| :: !met[i].refused
  }

  /**
   Without overwriting, and as long as no link is refused, existing files are
   safe in all the runs which do not open the target directly exactly where the
   file system has hard links.
   */
  lemma LinksDecide(dump: seq<Byte>, hardLinks: bool)
    ensures var c := Config(false, hardLinks, dump);
      (forall run: seq<State>, met: seq<Chance> | IsRunBy(c, run, met) && IsIndirect(run) && NoneIsRefused(met) ::
         ReplacesNothing(c, run))
      <==> hardLinks
  {
    hide IsRunBy, ProcessStep, IsKept, IsIndirect;
    var c := Config(false, hardLinks, dump);
    if hardLinks {
      forall run: seq<State>, met: seq<Chance> | IsRunBy(c, run, met) && IsIndirect(run) && NoneIsRefused(met)
        ensures ReplacesNothing(c, run)
      {
        forall i | 0 <= i < |run| - 1 && ProcessStep(c, run[i], run[i + 1]) && Target in run[i].dir
          ensures IsKept(Target, run[i], run[i + 1])
        {
          NeverReplaced(c, run, met, i);
        }
      }
    } else {
      var run, met := ReplacingRun(dump, false, false);
      assert run[|run| - 1] == run[|run| - 2 + 1];
      assert !ReplacesNothing(c, run);
    }
  }

  lemma RunBegins(c: Config, s: State)
    requires s == Start(s.dir, s.files)
    ensures IsRunBy(c, [s], []) && (!s.pc.OpenDirect? && !s.pc.Follow? ==> IsIndirect([s]))
  {
  }

  lemma RunGrows(c: Config, run: seq<State>, met: seq<Chance>, o: Chance, t: State)
    requires IsRunBy(c, run, met) && StepBy(c, run[|run| - 1], o, t)
    ensures IsRunBy(c, run + [t], met + [o])
  {
    hide StepBy;
    var all, chances := run + [t], met + [o];
    forall i | 0 <= i < |chances|
      ensures StepBy(c, all[i], chances[i], all[i + 1])
    {
      if i < |met| {
        assert StepBy(c, run[i], met[i], run[i + 1]);
      }
    }
  }

  lemma OtherSteps(c: Config, s: State, o: Chance, t: State)
    requires OtherStep(s, t)
    ensures StepBy(c, s, o, t)
  {
  }

  lemma OtherIsAble(s: State, t: State)
    requires s.temp == Some(0) && Own(s) == Some(7) && s.dir.Keys == {Temp(0)}
    requires t == s.(dir := s.dir[Target := File(1)], files := s.files[1 := [42]])
    ensures OtherStep(s, t)
  {
  }
}
