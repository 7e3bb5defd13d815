/**
 The two-file runtime store. Every step on the disk may succeed, be refused, or be cut short by a crash; each
 operation is proved against a relation between the files before and after, and runs are sequences of them.
 */
module RuntimeStore {
  import opened Bytes
  import opened RuntimeCodec

  const TOP: u64 := 0xFFFF_FFFF_FFFF_FFFF

  /** A protected file: `Garbage` stands for bytes that do not decrypt, a half-written file among them. */
  datatype File = Absent | Garbage | Sealed(plain: seq<byte>)
  datatype Disk = Disk(primary: File, recovery: File, legacy: Option<seq<byte>>)

  datatype Status = InvalidArgument | IntegrityFailure
  datatype Reply = Ok(state: RuntimeState) | Failed(status: Status) | Crashed

  // ---- what the environment may do to a step -------------------------------------------------

  datatype Fate = Done | Refused | Cut
  datatype Residue = Untouched | Torn | Whole

  /** `filled` and `renamed` say whether a step that was cut short took effect, `cleaned` whether the clean-up did. */
  datatype WriteFates = WriteFates(create: Fate, fill: Fate, filled: bool, cleaned: bool, rename: Fate, renamed: bool)

  /** Encryption may fail, and the copy may leave anything behind. */
  datatype SaveFates = SaveFates(protect: bool, copy: Fate, left: Residue, write: WriteFates)
  datatype RemoveFates = RemoveFates(fate: Fate, gone: bool)
  /** `created` is the random key drawn when a store is created, if the generator delivers one. */
  datatype OpenFates = OpenFates(remove: RemoveFates, restore: SaveFates, created: Option<Key>, create: SaveFates,
                                 legacy: RemoveFates)

  predicate Gone(f: RemoveFates) { f.fate.Done? || (f.fate.Cut? && f.gone) }

  // ---- what the files mean -------------------------------------------------------------------

  function Holding(s: RuntimeState): File { Sealed(Wire(s)) }

  function Content(f: File): Option<RuntimeState> {
    if f.Sealed? && Parse(f.plain).Read? then Some(Parse(f.plain).state) else None
  }

  /** The state the store stands for: the primary's, or else the recovery copy's. */
  function Current(d: Disk): Option<RuntimeState> {
    if Content(d.primary).Some? then Content(d.primary) else Content(d.recovery)
  }

  predicate Unused(d: Disk) { d.primary.Absent? && d.recovery.Absent? }

  function Initial(key: Key): RuntimeState { RuntimeState(1, 0, 1, 0, key, seq(32, _ => 0)) }

  function FirstKey(legacy: Option<seq<byte>>, random: Option<Key>): Option<Key> {
    if legacy.Some? && |legacy.value| == 32 then Some(legacy.value) else random
  }

  /** The state an open stands for, read from the disk or newly made. */
  function Base(d: Disk, random: Option<Key>): Option<RuntimeState> {
    if Current(d).Some? then Current(d)
    else if Unused(d) && FirstKey(d.legacy, random).Some? then Some(Initial(FirstKey(d.legacy, random).value))
    else None
  }

  datatype Change = Versions(policy: u64, model: u64) | NewKey(random: Option<Key>)

  /** The state a change asks for, unless it is not allowed: versions do not go back, generations do not wrap. */
  function Apply(c: Change, s: RuntimeState): Option<RuntimeState> {
    match c
    case Versions(policy, model) =>
      if policy < s.policyVersion || model < s.modelVersion then None
      else Some(s.(policyVersion := policy, modelVersion := model))
    case NewKey(random) =>
      if s.generation == TOP || random.None? then None
      else Some(RuntimeState(s.generation + 1, s.policyVersion, s.modelVersion, s.generation, random.value, s.channelKey))
  }

  /** The new key is in use, the one it replaced is kept, the versions stay. */
  predicate Rotates(s: RuntimeState, key: Key, t: RuntimeState) {
    && t.channelKey == key && t.previousChannelKey == s.channelKey
    && t.generation == s.generation + 1 && t.previousGeneration == s.generation
    && t.policyVersion == s.policyVersion && t.modelVersion == s.modelVersion
  }

  /** The versions are those asked for and not older, both keys and both generations stay. */
  predicate Updates(s: RuntimeState, policy: u64, model: u64, t: RuntimeState) {
    && t.policyVersion == policy >= s.policyVersion && t.modelVersion == model >= s.modelVersion
    && t.channelKey == s.channelKey && t.previousChannelKey == s.previousChannelKey
    && t.generation == s.generation && t.previousGeneration == s.previousGeneration
  }

  // ---- what is reported ----------------------------------------------------------------------

  /** Of two steps the first that is not done decides. */
  function Then(a: Fate, b: Fate): Fate { if a.Done? then b else a }

  function If(b: bool): Fate { if b then Done else Refused }

  function WriteFate(f: WriteFates): Fate { Then(f.create, Then(f.fill, f.rename)) }

  /** There is nothing to copy before the first save. */
  function SaveFate(d: Disk, f: SaveFates): Fate {
    Then(If(f.protect), Then(if d.primary.Absent? then Done else f.copy, WriteFate(f.write)))
  }

  /** Nothing is written if the primary can be read; else it is restored, or a store that is unused is created. */
  function OpenFate(d: Disk, f: OpenFates): Fate {
    if Content(d.primary).Some? then Done
    else if Content(d.recovery).Some? then Then(f.remove.fate, SaveFate(d.(primary := Absent), f.restore))
    else
      Then(If(Unused(d) && FirstKey(d.legacy, f.created).Some?),
           Then(SaveFate(d, f.create), if d.legacy.None? then Done else f.legacy.fate))
  }

  /** A change opens the store, is allowed or not, and then saves over a primary that is there. */
  function ChangeFate(d: Disk, c: Change, open: OpenFates, save: SaveFates): Fate {
    Then(OpenFate(d, open),
         Then(If(Base(d, open.created).Some? && Apply(c, Base(d, open.created).value).Some?),
              Then(If(save.protect), Then(save.copy, WriteFate(save.write)))))
  }

  predicate Answers(r: Reply, f: Fate) {
    match f
    case Done => r.Ok?
    case Refused => r.Failed?
    case Cut => r.Crashed?
  }

  // ---- what each operation may do to the files -----------------------------------------------

  /** The recovery file once a save has copied the primary over it. */
  function Copied(d: Disk): File { if d.primary.Absent? then d.recovery else d.primary }

  /** The primary is replaced as a whole, and only after it has been copied as a whole. */
  ghost predicate Saves(d: Disk, s: RuntimeState, e: Disk, r: Reply) {
    && e.legacy == d.legacy
    && (e.primary == d.primary || (e.primary == Holding(s) && e.recovery == Copied(d)))
    && (e.recovery == d.recovery || (!d.primary.Absent? && (e.recovery == Garbage || e.recovery == d.primary)))
    && (r.Ok? ==> r.state == s && e.primary == Holding(s) && e.recovery == Copied(d))
    && (r.Failed? ==> r.status.IntegrityFailure? && e.primary == d.primary)
  }

  /** A readable primary is left alone; an unreadable one is replaced from a readable recovery copy. */
  ghost predicate Loads(d: Disk, e: Disk, r: Reply) {
    && e == d.(primary := e.primary)
    && (Content(d.primary).Some? || Content(d.recovery).None? ==> e == d)
    && match Current(d)
       case None => r.Failed?
       case Some(s) =>
         && (e.primary == d.primary || e.primary == Absent || e.primary == Holding(s))
         && (r.Ok? ==> r.state == s && e.primary == Holding(s))
         && (Content(d.primary).Some? ==> r.Ok?)
  }

  ghost predicate Opens(d: Disk, random: Option<Key>, e: Disk, r: Reply) {
    match Base(d, random)
    case None => e == d && r == Failed(IntegrityFailure)
    case Some(s) =>
      && e.recovery == d.recovery
      && (e.primary == d.primary || (e.primary == Absent && Content(d.recovery) == Some(s)) || e.primary == Holding(s))
      && (Content(d.primary).Some? ==> e == d && r.Ok?)
      && (e.legacy == d.legacy || (Unused(d) && e.legacy.None? && e.primary == Holding(s)))
      && (r.Ok? ==> r.state == s && e.primary == Holding(s) && (Unused(d) ==> e.legacy.None?))
      && (r.Failed? ==> r.status.IntegrityFailure?)
  }

  /** Nothing interferes with the creation of a store but, perhaps, with the removal of the old key file. */
  predicate Creates(d: Disk, f: OpenFates) {
    Unused(d) && FirstKey(d.legacy, f.created).Some? && SaveFate(d, f.create).Done?
  }

  /** Then the new store stands, and the old key file is gone exactly if its removal took effect. */
  function Created(d: Disk, f: OpenFates): Disk
    requires Creates(d, f)
  {
    Disk(Holding(Initial(FirstKey(d.legacy, f.created).value)), Absent, if Gone(f.legacy) then None else d.legacy)
  }

  /** The files hold the old state or the new one; a change that is not allowed never shows. */
  ghost predicate Changes(d: Disk, random: Option<Key>, c: Change, e: Disk, r: Reply) {
    if c.Versions? && (c.policy == 0 || c.model == 0) then e == d && r == Failed(InvalidArgument)
    else
      match Base(d, random)
      case None => e == d && r == Failed(IntegrityFailure)
      case Some(s) =>
        && (e.legacy == d.legacy || (Unused(d) && e.legacy.None? && Current(e).Some?))
        && (r.Failed? ==> r.status.IntegrityFailure?)
        && (Current(e) == Current(d) || Current(e) == Some(s)
            || (Apply(c, s).Some? && Current(e) == Apply(c, s) && e.recovery == Holding(s)))
        && (Current(d).Some? && e.recovery != d.recovery ==> Content(e.primary).Some?)
        && (Unused(d) && Current(e).None? ==> Unused(e))
        && match r
           case Crashed => true
           case Ok(t) =>
             && Apply(c, s) == Some(t) && e.primary == Holding(t) && e.recovery == Holding(s)
             && (Unused(d) ==> e.legacy.None?)
           case Failed(_) => Current(e) == Current(d) || Current(e) == Some(s)
  }

  // ---- the implementation --------------------------------------------------------------------

  class SecureRuntimeStore {
    var primary: File
    var recovery: File
    /** What a write has put down so far; no operation reads it, and an interrupted one may leave it behind. */
    var temporary: File
    var legacy: Option<seq<byte>>

    function Files(): Disk
      reads this
    {
      Disk(primary, recovery, legacy)
    }

    constructor (files: Disk, temporary: File)
      ensures Files() == files
    {
      primary, recovery, legacy := files.primary, files.recovery, files.legacy;
      this.temporary := temporary;
    }

    method ReadProtected(f: File) returns (r: Option<RuntimeState>)
      ensures r == Content(f)
    {
      if !f.Sealed? { return None; }
      var plain := Deserialize(f.plain);
      return if plain.Read? then Some(plain.state) else None;
    }

    method CopyToRecovery(fate: Fate, left: Residue)
      modifies this`recovery
      ensures fate.Done? ==> recovery == primary
      ensures recovery == old(recovery) || recovery == Garbage || recovery == primary
    {
      if fate.Done? || left.Whole? {
        recovery := primary;
      } else if left.Torn? {
        recovery := Garbage;
      }
    }

    /**
     Fills a temporary file and renames it over the primary. Whichever step is refused or cut short, the primary
     holds either what it held before or all the new bytes; it does not change if the write is reported refused.
     */
    method AtomicWrite(bytes: seq<byte>, f: WriteFates) returns (outcome: Fate)
      modifies this`primary, this`temporary
      ensures outcome.Done? ==> primary == Sealed(bytes) && temporary == Absent
      ensures outcome.Refused? ==> primary == old(primary)
      ensures primary == old(primary) || primary == Sealed(bytes)
      ensures outcome == WriteFate(f)
    {
      if f.create.Refused? { return Refused; }
      if f.create.Cut? {
        temporary := if f.filled then Garbage else temporary;
        return Cut;
      }
      temporary := Garbage;
      if f.fill.Done? || (f.fill.Cut? && f.filled) { temporary := Sealed(bytes); }
      if f.fill.Cut? { return Cut; }
      if f.fill.Refused? {
        if f.cleaned { temporary := Absent; }
        return Refused;
      }
      if f.rename.Done? || (f.rename.Cut? && f.renamed) { primary, temporary := temporary, Absent; }
      return f.rename;
    }

    method Save(s: RuntimeState, f: SaveFates) returns (r: Reply)
      modifies this
      ensures Saves(old(Files()), s, Files(), r)
      ensures Answers(r, SaveFate(old(Files()), f))
      ensures !f.protect ==> Files() == old(Files())
    {
      var plain := Serialize(s);
      if !f.protect { return Failed(IntegrityFailure); }
      if !primary.Absent? {
        CopyToRecovery(f.copy, f.left);
        if f.copy.Cut? { return Crashed; }
        if f.copy.Refused? { return Failed(IntegrityFailure); }
      }
      var outcome := AtomicWrite(plain, f.write);
      match outcome {
        case Done => return Ok(s);
        case Refused => return Failed(IntegrityFailure);
        case Cut => return Crashed;
      }
    }

    method Load(f: OpenFates) returns (r: Reply)
      modifies this
      ensures Loads(old(Files()), Files(), r)
      ensures Current(old(Files())).Some? ==> Answers(r, OpenFate(old(Files()), f))
    {
      hide Wire, Parse;
      var state := ReadProtected(primary);
      ReadIsHolding(primary);
      if state.Some? { return Ok(state.value); }
      state := ReadProtected(recovery);
      if state.None? { return Failed(IntegrityFailure); }
      if Gone(f.remove) { primary := Absent; }
      if f.remove.fate.Cut? { return Crashed; }
      if f.remove.fate.Refused? { return Failed(IntegrityFailure); }
      r := Save(state.value, f.restore);
    }

    method LoadOrCreate(f: OpenFates) returns (r: Reply)
      modifies this
      ensures Opens(old(Files()), f.created, Files(), r)
      ensures Answers(r, OpenFate(old(Files()), f))
      ensures Creates(old(Files()), f) ==> Files() == Created(old(Files()), f)
    {
      hide Wire, Parse;
      ReadIsHolding(primary);
      EmptyContent();
      var loaded := Load(f);
      if !loaded.Failed? { return loaded; }
      if !primary.Absent? || !recovery.Absent? { return Failed(IntegrityFailure); }
      var key: Key;
      if legacy.Some? && |legacy.value| == 32 {
        key := legacy.value;
      } else {
        if f.created.None? { return Failed(IntegrityFailure); }
        key := f.created.value;
      }
      var state := Initial(key);
      var saved := Save(state, f.create);
      if !saved.Ok? { return saved; }
      if legacy.Some? {
        if Gone(f.legacy) { legacy := None; }
        if f.legacy.fate.Cut? { return Crashed; }
        if f.legacy.fate.Refused? { return Failed(IntegrityFailure); }
      }
      return Ok(state);
    }

    method UpdateVersions(policy: u64, model: u64, open: OpenFates, save: SaveFates) returns (r: Reply)
      modifies this
      ensures Changes(old(Files()), open.created, Versions(policy, model), Files(), r)
      ensures r == Failed(InvalidArgument) <==> policy == 0 || model == 0
      ensures policy != 0 && model != 0 ==>
        Answers(r, ChangeFate(old(Files()), Versions(policy, model), open, save))
      ensures r.Ok? ==>
        && Base(old(Files()), open.created).Some?
        && Updates(Base(old(Files()), open.created).value, policy, model, r.state)
    {
      hide Wire, Parse;
      if policy == 0 || model == 0 { return Failed(InvalidArgument); }
      ghost var start := Files();
      var found := LoadOrCreate(open);
      ghost var mid := Files();
      if found.Crashed? { OpenKeeps(start, open.created, mid, found); return Crashed; }
      if found.Failed? || policy < found.state.policyVersion || model < found.state.modelVersion {
        OpenKeeps(start, open.created, mid, found);
        return Failed(IntegrityFailure);
      }
      var state := found.state.(policyVersion := policy, modelVersion := model);
      r := Save(state, save);
      SaveChanges(start, open.created, mid, found.state, Versions(policy, model), state, Files(), r);
    }

    method RotateKey(random: Option<Key>, open: OpenFates, save: SaveFates) returns (r: Reply)
      modifies this
      ensures Changes(old(Files()), open.created, NewKey(random), Files(), r)
      ensures Answers(r, ChangeFate(old(Files()), NewKey(random), open, save)) && r != Failed(InvalidArgument)
      ensures r.Ok? ==>
        && random.Some? && Base(old(Files()), open.created).Some?
        && Rotates(Base(old(Files()), open.created).value, random.value, r.state)
    {
      hide Wire, Parse;
      ghost var start := Files();
      var found := LoadOrCreate(open);
      ghost var mid := Files();
      if found.Crashed? { OpenKeeps(start, open.created, mid, found); return Crashed; }
      if found.Failed? || found.state.generation == TOP || random.None? {
        OpenKeeps(start, open.created, mid, found);
        return Failed(IntegrityFailure);
      }
      var s := found.state;
      var state := RuntimeState(s.generation + 1, s.policyVersion, s.modelVersion, s.generation, random.value, s.channelKey);
      r := Save(state, save);
      SaveChanges(start, open.created, mid, s, NewKey(random), state, Files(), r);
    }
  }

  // ---- why it is right -----------------------------------------------------------------------

  lemma ReadIsHolding(f: File)
    ensures Content(f).Some? ==> f == Holding(Content(f).value) && Sound(Content(f).value)
  {
    hide Wire, Parse;
    if Content(f).Some? { ParseExact(f.plain, Content(f).value); }
  }

  lemma HoldingReads(s: RuntimeState)
    requires Sound(s)
    ensures Content(Holding(s)) == Some(s)
  {
    hide Wire, Parse;
    ParseExact(Wire(s), s);
  }

  lemma BaseSound(d: Disk, random: Option<Key>)
    ensures Base(d, random).Some? ==> Sound(Base(d, random).value)
  {
    hide Content;
    ReadIsHolding(d.primary);
    ReadIsHolding(d.recovery);
  }

  lemma OpenKeeps(d: Disk, random: Option<Key>, e: Disk, r: Reply)
    requires Opens(d, random, e, r)
    ensures Base(d, random).Some? ==>
      && (Current(e) == Current(d) || Current(e) == Base(d, random))
      && (r.Ok? ==> Current(e) == Base(d, random))
      && (Unused(d) && Current(e).None? ==> Unused(e))
  {
    hide Holding, Content;
    BaseSound(d, random);
    EmptyContent();
    if Base(d, random).Some? { HoldingReads(Base(d, random).value); }
  }

  lemma EmptyContent()
    ensures Content(Absent).None? && Content(Garbage).None?
  {
  }

  lemma SaveChanges(d: Disk, random: Option<Key>, m: Disk, s: RuntimeState, c: Change, t: RuntimeState, e: Disk, r: Reply)
    requires Opens(d, random, m, Ok(s)) && Apply(c, s) == Some(t) && Saves(m, t, e, r)
    requires c.Versions? ==> c.policy != 0 && c.model != 0
    ensures Changes(d, random, c, e, r)
  {
    hide Content, Wire;
    BaseSound(d, random);
    OpenKeeps(d, random, m, Ok(s));
    HoldingReads(s);
    HoldingReads(t);
    EmptyContent();
  }

  // ---- runs ----------------------------------------------------------------------------------

  datatype Op = Open | Alter(change: Change)
  datatype Step = Step(op: Op, random: Option<Key>, reply: Reply)

  ghost predicate Took(d: Disk, step: Step, e: Disk) {
    match step.op
    case Open => Opens(d, step.random, e, step.reply)
    case Alter(c) => Changes(d, step.random, c, e, step.reply)
  }

  /** The files before, between and after a sequence of operations, each of which may have been cut short. */
  ghost predicate Trace(disks: seq<Disk>, steps: seq<Step>) {
    |disks| == |steps| + 1 && forall i | 0 <= i < |steps| :: Took(disks[i], steps[i], disks[i + 1])
  }

  /** A store that nothing but its own operations has touched. */
  predicate Intact(d: Disk) { Current(d).Some? || Unused(d) }

  predicate NotOlder(a: RuntimeState, b: RuntimeState) {
    a.generation <= b.generation && a.policyVersion <= b.policyVersion && a.modelVersion <= b.modelVersion
  }

  /** A state remembers the generation its key replaced. */
  predicate Chained(s: RuntimeState) { s.previousGeneration + 1 == s.generation }

  lemma StepKeeps(d: Disk, step: Step, e: Disk)
    requires Took(d, step, e) && Intact(d)
    ensures Intact(e)
    ensures Current(d).Some? ==>
      && Current(e).Some? && e.legacy == d.legacy
      && (Current(e) == Current(d) || (step.op.Alter? && Current(e) == Apply(step.op.change, Current(d).value)))
    ensures Current(d).None? && Current(e).Some? ==>
      && Base(d, step.random).Some?
      && (Current(e) == Base(d, step.random)
          || (step.op.Alter? && Current(e) == Apply(step.op.change, Base(d, step.random).value)))
  {
    hide Content, Holding, Apply;
    EmptyContent();
    if step.op.Open? { OpenKeeps(d, step.random, e, step.reply); }
  }

  /**
   Over any run, wherever its operations fail or are cut short, a store that can be read stays readable, and
   its generation and versions never go back.
   */
  lemma {:induction false} NeverGoesBack(disks: seq<Disk>, steps: seq<Step>, i: nat, j: nat)
    requires Trace(disks, steps) && i <= j < |disks| && Current(disks[i]).Some?
    ensures Current(disks[j]).Some? && NotOlder(Current(disks[i]).value, Current(disks[j]).value)
    ensures disks[j].legacy == disks[i].legacy
    decreases j
  {
    hide Current, Took;
    if i < j {
      NeverGoesBack(disks, steps, i, j - 1);
      assert Took(disks[j - 1], steps[j - 1], disks[j]);
      StepKeeps(disks[j - 1], steps[j - 1], disks[j]);
    }
  }

  /** Until a store can be read its old key file stays; from then on nothing ever happens to it again. */
  lemma {:induction false} LegacyBefore(disks: seq<Disk>, steps: seq<Step>, j: nat)
    requires Trace(disks, steps) && j < |disks| && Unused(disks[0])
    requires forall k | 0 <= k <= j :: Current(disks[k]).None?
    ensures Unused(disks[j]) && disks[j].legacy == disks[0].legacy
    decreases j
  {
    hide Content, Holding, Took;
    EmptyContent();
    if j > 0 {
      LegacyBefore(disks, steps, j - 1);
      assert Took(disks[j - 1], steps[j - 1], disks[j]);
      StepKeeps(disks[j - 1], steps[j - 1], disks[j]);
      LegacyStep(disks[j - 1], steps[j - 1], disks[j]);
    }
  }

  lemma LegacyStep(d: Disk, step: Step, e: Disk)
    requires Took(d, step, e) && Unused(d)
    ensures Current(e).None? ==> e.legacy == d.legacy
    ensures e.legacy == d.legacy || e.legacy.None?
    ensures step.reply.Ok? ==> e.legacy.None?
  {
    hide Content, Holding, Apply;
    EmptyContent();
    BaseSound(d, step.random);
    if Base(d, step.random).Some? { HoldingReads(Base(d, step.random).value); }
  }

  /**
   Over any run of a new store, an old key file is there at any later time exactly if it was there when the
   store could first be read; the step that made it readable then did not report success.
   */
  lemma LegacyExact(disks: seq<Disk>, steps: seq<Step>, i: nat, j: nat)
    requires Trace(disks, steps) && Unused(disks[0]) && 0 < i <= j < |disks|
    requires Current(disks[i]).Some? && forall k | 0 <= k < i :: Current(disks[k]).None?
    ensures disks[j].legacy.Some? <==> disks[i].legacy.Some?
    ensures disks[j].legacy.Some? ==> disks[j].legacy == disks[0].legacy && !steps[i - 1].reply.Ok?
  {
    hide Current, Took;
    NeverGoesBack(disks, steps, i, j);
    LegacyBefore(disks, steps, i - 1);
    assert Took(disks[i - 1], steps[i - 1], disks[i]);
    LegacyStep(disks[i - 1], steps[i - 1], disks[i]);
  }

  /** And it may be there: when its removal is refused or never reached, every later open succeeds and leaves it. */
  lemma LegacyOutlives(key: Key, reply: Reply)
    requires reply == Failed(IntegrityFailure) || reply == Crashed
    ensures var before, after := Disk(Absent, Absent, Some(key)), Disk(Holding(Initial(key)), Absent, Some(key));
      Trace([before, after, after], [Step(Open, None, reply), Step(Open, None, Ok(Initial(key)))])
  {
    hide Content, Holding;
    EmptyContent();
    HoldingReads(Initial(key));
    var before, after := Disk(Absent, Absent, Some(key)), Disk(Holding(Initial(key)), Absent, Some(key));
    assert Took(before, Step(Open, None, reply), after);
    assert Took(after, Step(Open, None, Ok(Initial(key))), after);
  }

  /** Over any run of a new store, either nothing has been stored yet or the stored state names its predecessor. */
  lemma {:induction false} RunsStayIntact(disks: seq<Disk>, steps: seq<Step>, j: nat)
    requires Trace(disks, steps) && j < |disks| && Unused(disks[0])
    ensures Intact(disks[j])
    ensures Current(disks[j]).Some? ==> Chained(Current(disks[j]).value)
    decreases j
  {
    hide Content, Took;
    EmptyContent();
    if j > 0 {
      RunsStayIntact(disks, steps, j - 1);
      assert Took(disks[j - 1], steps[j - 1], disks[j]);
      StepKeeps(disks[j - 1], steps[j - 1], disks[j]);
    }
  }

  /** Which changes are allowed: versions that are not older, and a new key while generations are left. */
  lemma AllowedExactly(c: Change, s: RuntimeState)
    ensures Apply(c, s).Some? <==>
      match c
      case Versions(policy, model) => policy >= s.policyVersion && model >= s.modelVersion
      case NewKey(random) => s.generation < 0xFFFF_FFFF_FFFF_FFFF && random.Some?
  {
  }

  /** A rotation that succeeds stores the new key, and the channel key of the state before as the previous one. */
  lemma RotationInstalls(d: Disk, created: Option<Key>, random: Option<Key>, e: Disk, t: RuntimeState)
    requires Changes(d, created, NewKey(random), e, Ok(t)) && Base(d, created).Some?
    ensures random.Some? && Rotates(Base(d, created).value, random.value, t) && Current(e) == Some(t)
  {
    hide Parse, Wire, Content;
    BaseSound(d, created);
    HoldingReads(t);
  }

  /** An update that succeeds stores exactly the versions asked for and keeps both keys. */
  lemma UpdateSets(d: Disk, created: Option<Key>, policy: u64, model: u64, e: Disk, t: RuntimeState)
    requires Changes(d, created, Versions(policy, model), e, Ok(t)) && Base(d, created).Some?
    ensures policy != 0 && model != 0 && Updates(Base(d, created).value, policy, model, t) && Current(e) == Some(t)
  {
    hide Parse, Wire, Content;
    BaseSound(d, created);
    HoldingReads(t);
  }

  /** What a single step makes of a stored state. */
  predicate Follows(op: Op, s: RuntimeState, t: RuntimeState) {
    || t == s
    || (op.Alter? && op.change.Versions? && Updates(s, op.change.policy, op.change.model, t))
    || (op.Alter? && op.change.NewKey? && op.change.random.Some? && Rotates(s, op.change.random.value, t))
  }

  /** The key of a new store is that of the old key file, if it holds one, and a random one otherwise. */
  predicate FirstUsed(legacy: Option<seq<byte>>, random: Option<Key>, key: Key) {
    if legacy.Some? && |legacy.value| == 32 then key == legacy.value else random.Some? && random.value == key
  }

  /** A new store begins with generation and model version one. */
  predicate Begins(legacy: Option<seq<byte>>, random: Option<Key>, s: RuntimeState) {
    && s.generation == s.modelVersion == 1 && s.policyVersion == s.previousGeneration == 0
    && s.previousChannelKey == seq(32, _ => 0) && FirstUsed(legacy, random, s.channelKey)
  }

  lemma StepFollows(d: Disk, step: Step, e: Disk)
    requires Took(d, step, e) && Intact(d) && Current(e).Some?
    ensures Base(d, step.random).Some? && Follows(step.op, Base(d, step.random).value, Current(e).value)
    ensures Current(d).Some? ==> Base(d, step.random) == Current(d)
    ensures Current(d).None? ==> Begins(d.legacy, step.random, Base(d, step.random).value)
  {
    hide Content, Holding, Took;
    StepKeeps(d, step, e);
  }

  /** Two states of the same generation have the same keys. */
  predicate SameKeys(a: RuntimeState, b: RuntimeState) {
    a.generation == b.generation ==> a.channelKey == b.channelKey && a.previousChannelKey == b.previousChannelKey
  }

  /** Over any run, a generation's keys never change. */
  lemma {:induction false} GenerationsKeepKeys(disks: seq<Disk>, steps: seq<Step>, i: nat, j: nat)
    requires Trace(disks, steps) && i <= j < |disks| && Current(disks[i]).Some?
    ensures Current(disks[j]).Some? && SameKeys(Current(disks[i]).value, Current(disks[j]).value)
    decreases j
  {
    hide Current, Took;
    NeverGoesBack(disks, steps, i, j);
    if i < j {
      GenerationsKeepKeys(disks, steps, i, j - 1);
      NeverGoesBack(disks, steps, i, j - 1);
      assert Took(disks[j - 1], steps[j - 1], disks[j]);
      StepFollows(disks[j - 1], steps[j - 1], disks[j]);
    }
  }

  /** An earlier disk of the run could be read and held this key at this generation. */
  predicate Held(disks: seq<Disk>, j: nat, generation: u64, key: Key)
    requires j <= |disks|
  {
    exists i | 0 <= i < j :: Current(disks[i]).Some? && Current(disks[i]).value.generation == generation
                             && Current(disks[i]).value.channelKey == key
  }

  /** A single step created the store with this key. */
  predicate CreatedWith(disks: seq<Disk>, steps: seq<Step>, j: nat, key: Key)
    requires j < |disks| == |steps| + 1
  {
    exists i | 0 <= i < j :: Current(disks[i]).None? && Current(disks[i + 1]).Some?
                             && FirstUsed(disks[0].legacy, steps[i].random, key)
  }

  /**
   Over any run of a new store, the stored previous key is the channel key that an earlier readable disk held at
   the stored previous generation, or the key with which one step both created the store and rotated its key; it is
   all zero exactly until the first rotation.
   */
  lemma {:induction false} PreviousKeyWasInUse(disks: seq<Disk>, steps: seq<Step>, j: nat)
    requires Trace(disks, steps) && j < |disks| && Unused(disks[0]) && Current(disks[j]).Some?
    ensures var t := Current(disks[j]).value;
      if t.previousGeneration == 0 then t.previousChannelKey == seq(32, _ => 0)
      else
        || Held(disks, j, t.previousGeneration, t.previousChannelKey)
        || (t.previousGeneration == 1 && CreatedWith(disks, steps, j, t.previousChannelKey))
    decreases j
  {
    hide Current, Took;
    assert j > 0 by { NothingStored(disks[0]); }
    var d, e := disks[j - 1], disks[j];
    assert Took(d, steps[j - 1], e);
    RunsStayIntact(disks, steps, j - 1);
    StepFollows(d, steps[j - 1], e);
    if Current(d).Some? {
      PreviousKeyWasInUse(disks, steps, j - 1);
    } else {
      StillUnread(disks, steps, j - 1);
    }
  }

  lemma NothingStored(d: Disk)
    requires Unused(d)
    ensures Current(d).None?
  {
    EmptyContent();
  }

  /** A store that cannot be read has not been read before, and its old key file is the one there was at first. */
  lemma StillUnread(disks: seq<Disk>, steps: seq<Step>, j: nat)
    requires Trace(disks, steps) && j < |disks| && Unused(disks[0]) && Current(disks[j]).None?
    ensures Unused(disks[j]) && disks[j].legacy == disks[0].legacy
  {
    hide Current, Took;
    forall k | 0 <= k <= j
      ensures Current(disks[k]).None?
    {
      if Current(disks[k]).Some? { NeverGoesBack(disks, steps, k, j); }
    }
    LegacyBefore(disks, steps, j);
  }

  /**
   Crash consistency. Whatever becomes of a change, the next open that succeeds returns the state before it or
   the state it asked for; the new one for certain if the change was acknowledged, the old one if it was refused.
   */
  lemma CrashConsistent(d: Disk, step: Step, e: Disk, random: Option<Key>, f: Disk, t: RuntimeState)
    requires Took(d, step, e) && step.op.Alter? && Current(d).Some? && Opens(e, random, f, Ok(t))
    ensures Some(t) == Current(d) || Some(t) == Apply(step.op.change, Current(d).value)
    ensures step.reply.Ok? ==> t == step.reply.state && Some(t) == Apply(step.op.change, Current(d).value)
    ensures step.reply.Failed? ==> Some(t) == Current(d)
  {
    hide Apply, Parse, Wire;
    StepKeeps(d, step, e);
    BaseSound(d, step.random);
    if step.reply.Ok? {
      ApplySound(step.op.change, Base(d, step.random).value);
      HoldingReads(step.reply.state);
    }
  }

  lemma ApplySound(c: Change, s: RuntimeState)
    requires Sound(s) && (c.Versions? ==> c.model != 0)
    ensures Apply(c, s).Some? ==> Sound(Apply(c, s).value)
  {
  }

  /**
   Once a change has been acknowledged either copy alone is enough: without the recovery copy the store still
   stands for the new state, and without a readable primary for the one before it.
   */
  lemma OneCopyIsEnough(d: Disk, random: Option<Key>, c: Change, e: Disk, t: RuntimeState, other: File)
    requires Changes(d, random, c, e, Ok(t)) && Base(d, random).Some?
    ensures Current(e.(recovery := other)) == Some(t)
    ensures Content(other).None? ==> Current(e.(primary := other)) == Base(d, random)
  {
    hide Apply, Parse, Wire, Content;
    BaseSound(d, random);
    ApplySound(c, Base(d, random).value);
    HoldingReads(t);
    HoldingReads(Base(d, random).value);
  }

  /** On any disk, a readable recovery copy is only ever overwritten while the primary can be read. */
  lemma GarbageNeverReplacesRecovery(d: Disk, step: Step, e: Disk)
    requires Took(d, step, e) && Content(d.recovery).Some?
    ensures Content(e.recovery) == Content(d.recovery) || Content(e.primary).Some?
    ensures Current(e).Some?
  {
    hide Apply, Content;
    EmptyContent();
    StepKeeps(d, step, e);
  }
}
