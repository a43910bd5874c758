/** Runs of the driver as compiled: they are the documented runs exactly while
    the guards hold, so every theorem about runs carries over to them. */
module CompiledRuns {
  import opened Layout
  import opened State
  import opened Alloc
  import opened Creation
  import opened FileData
  import opened Runs
  import opened Compiled

  function StateOf<T>(o: Outcome<T>): Option<Fs> {
    if o.Derails? then None else Some(o.step.fs)
  }

  /** The state the compiled driver leaves; None when it derails. */
  ghost function ApplyCompiled(fs: Fs, op: Op): Option<Fs>
    requires Inv(fs) && Allowed(fs, op)
  {
    match op
    case CreateOp(dir, name) => StateOf(CreateCompiled(fs, dir, name, Reg))
    case MkdirOp(dir, name) => StateOf(CreateCompiled(fs, dir, name, Dir))
    case MapOp(ino, iblock, create) => StateOf(MapBlockCompiled(fs, ino, iblock, create))
    case WriteOp(ino, pos, bytes) => StateOf(WriteCompiled(fs, ino, pos, bytes))
    case _ => Some(Apply(fs, op))
  }

  /** What a caller can check before an operation. */
  ghost predicate CompiledGuard(fs: Fs, op: Op)
    requires Inv(fs) && Allowed(fs, op)
  {
    match op
    case CreateOp(dir, name) => |name| > NAME_LEN || CreateGuard(fs, dir)
    case MkdirOp(dir, name) => |name| > NAME_LEN || CreateGuard(fs, dir)
    case MapOp(ino, iblock, create) => SlotsNeeded(fs, ino, iblock, create) <= FirstBlockRoom(fs)
    case WriteOp(ino, pos, bytes) => WriteGuard(fs, ino, pos, bytes)
    case _ => true
  }

  /** Under its guard an operation does as documented; without it, it derails. */
  lemma ApplyCompiledAgrees(fs: Fs, op: Op)
    requires Inv(fs) && Allowed(fs, op)
    ensures ApplyCompiled(fs, op) == if CompiledGuard(fs, op) then Some(Apply(fs, op)) else None
  {
    hide Inv, Maps, IsDir, IsFile, Create, CreateCompiled, MapBlock, MapBlockCompiled, Write, WriteCompiled,
      CreateGuard, SlotsNeeded, FirstBlockRoom, WriteGuard;
    match op {
      case CreateOp(dir, name) => CompiledCreateAgrees(fs, dir, name, Reg);
      case MkdirOp(dir, name) => CompiledCreateAgrees(fs, dir, name, Dir);
      case MapOp(ino, iblock, create) => CompiledMapAgrees(fs, ino, iblock, create);
      case WriteOp(ino, pos, bytes) => CompiledWriteAgrees(fs, ino, pos, bytes);
      case _ =>
    }
  }

  /** A run of the compiled driver that never derails. */
  ghost predicate ReachesCompiled(fs: Fs, ops: seq<Op>, fs': Fs)
    requires Inv(fs)
    decreases |ops|
  {
    if ops == [] then fs' == fs
    else
      && Allowed(fs, ops[0])
      && ApplyCompiled(fs, ops[0]).Some?
      && (ApplyCompiledAgrees(fs, ops[0]);
          ApplyKeeps(fs, ops[0]);
          ReachesCompiled(ApplyCompiled(fs, ops[0]).value, ops[1..], fs'))
  }

  ghost predicate GuardsHold(fs: Fs, ops: seq<Op>, fs': Fs)
    requires Inv(fs) && Reaches(fs, ops, fs')
    decreases |ops|
  {
    ops == [] || (CompiledGuard(fs, ops[0])
                  && (ApplyKeeps(fs, ops[0]); GuardsHold(Apply(fs, ops[0]), ops[1..], fs')))
  }

  /** The compiled driver makes a run exactly when the documented driver makes
      it, through the same states, with the guard holding at each step. */
  lemma {:induction false} CompiledRunAgrees(fs: Fs, ops: seq<Op>, fs': Fs)
    requires Inv(fs)
    ensures ReachesCompiled(fs, ops, fs') <==> Reaches(fs, ops, fs') && GuardsHold(fs, ops, fs')
    decreases |ops|
  {
    hide Inv, Allowed, Apply, ApplyCompiled, CompiledGuard;
    if ops != [] && Allowed(fs, ops[0]) {
      ApplyCompiledAgrees(fs, ops[0]);
      ApplyKeeps(fs, ops[0]);
      CompiledRunAgrees(Apply(fs, ops[0]), ops[1..], fs');
    }
  }

  /** Every state the compiled driver reaches without derailing is good. */
  lemma CompiledRunKeeps(fs: Fs, ops: seq<Op>, fs': Fs)
    requires Inv(fs) && ReachesCompiled(fs, ops, fs')
    ensures Inv(fs') && fs'.sb == fs.sb
  {
    hide Inv, ReachesCompiled, Reaches;
    CompiledRunAgrees(fs, ops, fs');
    RunKeeps(fs, ops, fs');
  }

  /** One more operation after a run. */
  lemma {:induction false} ReachesCompiledThen(fs: Fs, ops: seq<Op>, fs1: Fs, op: Op)
    requires Inv(fs) && ReachesCompiled(fs, ops, fs1)
    requires Inv(fs1) && Allowed(fs1, op) && CompiledGuard(fs1, op)
    ensures ReachesCompiled(fs, ops + [op], Apply(fs1, op))
    decreases |ops|
  {
    hide Inv, Allowed, Apply, ApplyCompiled, CompiledGuard;
    if ops == [] {
      ApplyKeeps(fs, op);
      ApplyCompiledAgrees(fs, op);
      assert ReachesCompiled(Apply(fs, op), [], Apply(fs, op));
      assert [op][1..] == [];
    } else {
      ApplyKeeps(fs, ops[0]);
      ApplyCompiledAgrees(fs, ops[0]);
      ReachesCompiledThen(Apply(fs, ops[0]), ops[1..], fs1, op);
      assert (ops + [op])[1..] == ops[1..] + [op];
    }
  }
}
