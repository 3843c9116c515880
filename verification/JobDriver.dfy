/**
 driver/strela_job.c as the code that changes the device: the submit ioctl, the locked regions
 and the retirement loop of removal. Each method is proved to perform a step, or a sequence of
 steps, of the state machine in JobProtocol.
 */
module JobDriver {
  import opened JobProtocol
  import opened JobProtocolProofs
  import Binding
  import SimExec

  const ENOMEM: int := 12
  const ENOENT: int := 2
  const WAIT_SYNCOBJ: nat := 1

  /** A buffer object behind a handle of the open file. */
  datatype Object = Object(id: nat, bytes: nat)

  /** One binding of a submit: a handle and the words it names. */
  datatype Wanted = Wanted(handle: nat, range: Binding.Strided)

  /** struct drm_strela_submit; the config and the outputs have a stride of 1. */
  datatype SubmitArgs = SubmitArgs(
    config: Wanted, inputs: seq<Wanted>, outputs: seq<Wanted>, flags: nat, pad: nat)

  /** How the calls into the kernel answer: negative errnos, and whether lookups succeed. */
  datatype Answers = Answers(
    jobAllocated: bool, fenceAllocated: bool, jobInit: int, dependency: int, outSyncobjFound: bool)

  /** The result of resolving one binding. */
  function BindError(objects: map<nat, Object>, w: Wanted): int {
    if w.handle !in objects then -ENOENT else Binding.Check(objects[w.handle].bytes, w.range)
  }

  /** The first error among bindings resolved in order, or 0. */
  function FirstError(objects: map<nat, Object>, ws: seq<Wanted>): int {
    if ws == [] then 0
    else if BindError(objects, ws[0]) != 0 then BindError(objects, ws[0])
    else FirstError(objects, ws[1..])
  }

  /** The config and the outputs have no stride: they are contiguous words. */
  function Plain(w: Wanted): Wanted { w.(range := w.range.(stride := 1)) }

  /** The bindings a submit resolves, in order, up to a column. */
  function Upto(args: SubmitArgs, columns: nat): seq<Wanted>
    requires columns <= |args.inputs| && columns <= |args.outputs|
  {
    if columns == 0 then [Plain(args.config)]
    else Upto(args, columns - 1) + [args.inputs[columns - 1], Plain(args.outputs[columns - 1])]
  }

  function Order(args: SubmitArgs): seq<Wanted>
    requires WellFormed(args)
  {
    Upto(args, |args.inputs|)
  }

  predicate WellFormed(args: SubmitArgs) {
    |args.inputs| == COLUMNS && |args.outputs| == COLUMNS
  }

  /** A fence was made, and with it a sequence number used up, even if the submit fails later. */
  predicate TakesSeqno(args: SubmitArgs, env: Answers) {
    args.flags <= WAIT_SYNCOBJ && args.pad == 0 && env.jobAllocated && env.fenceAllocated
  }

  /** What strela_submit_ioctl() returns: the first thing that fails, in its order. */
  function SubmitResult(objects: map<nat, Object>, args: SubmitArgs, env: Answers): int
    requires WellFormed(args)
  {
    if args.flags > WAIT_SYNCOBJ || args.pad != 0 then -Binding.EINVAL
    else if !env.jobAllocated || !env.fenceAllocated then -ENOMEM
    else if env.jobInit != 0 then env.jobInit
    else if args.flags == WAIT_SYNCOBJ && env.dependency != 0 then env.dependency
    else BindResult(objects, args, env.outSyncobjFound)
  }

  function BindResult(objects: map<nat, Object>, args: SubmitArgs, outSyncobjFound: bool): int
    requires WellFormed(args)
  {
    if FirstError(objects, Order(args)) != 0 then FirstError(objects, Order(args))
    else if !outSyncobjFound then -ENOENT
    else 0
  }

  /** The slots are the objects the bindings name. */
  ghost predicate Names(objects: map<nat, Object>, ws: seq<Wanted>, slots: seq<nat>) {
    && |slots| == |ws|
    && forall i | 0 <= i < |ws| :: ws[i].handle in objects && slots[i] == objects[ws[i].handle].id
  }

  lemma {:induction false} FirstErrorAppend(objects: map<nat, Object>, a: seq<Wanted>, b: seq<Wanted>)
    ensures FirstError(objects, a + b) == if FirstError(objects, a) != 0 then FirstError(objects, a) else FirstError(objects, b)
  {
    if a == [] {
      assert a + b == b;
    } else {
      assert (a + b)[1..] == a[1..] + b;
      FirstErrorAppend(objects, a[1..], b);
    }
  }

  lemma {:induction false} NamesAppend(
    objects: map<nat, Object>, a: seq<Wanted>, slots: seq<nat>, b: seq<Wanted>, more: seq<nat>)
    requires Names(objects, a, slots) && Names(objects, b, more)
    ensures Names(objects, a + b, slots + more)
  {
  }

  // ---------- what is accepted ----------

  /** Binding n of a submit, in the order the driver takes them: the config, then input and output of each column. */
  function RequestAt(args: SubmitArgs, n: nat): Wanted
    requires WellFormed(args) && n < BINDINGS
  {
    if n == 0 then args.config else if n % 2 == 1 then args.inputs[n / 2] else args.outputs[n / 2 - 1]
  }

  /** The range of a contiguous binding fits its object and the device, whatever its stride field holds. */
  predicate FitsPlain(bytes: nat, r: Binding.Strided) {
    4 * r.count <= 0xFFFF && 4 * (r.offset + r.count) <= bytes
  }

  /** The range of an input does, where a stride of 0 reads one word again and again. */
  predicate FitsStrided(bytes: nat, r: Binding.Strided) {
    var step := if r.stride == 0 then 1 else r.stride;
    4 * (r.count * step) <= 0xFFFF && 4 * (r.offset + r.count * step) <= bytes
  }

  /** Binding n is one the driver may run with. */
  predicate SoundAt(objects: map<nat, Object>, args: SubmitArgs, n: nat)
    requires WellFormed(args) && n < BINDINGS
  {
    var w := RequestAt(args, n);
    w.handle in objects
    && if n % 2 == 1 then FitsStrided(objects[w.handle].bytes, w.range) else FitsPlain(objects[w.handle].bytes, w.range)
  }

  predicate AllU32(args: SubmitArgs) {
    && args.config.range.IsU32() && (forall w | w in args.inputs :: w.range.IsU32())
    && (forall w | w in args.outputs :: w.range.IsU32())
  }

  lemma {:induction false} UptoIs(args: SubmitArgs, k: nat, n: nat)
    requires WellFormed(args) && k <= COLUMNS && n < 2 * k + 1
    ensures |Upto(args, k)| == 2 * k + 1
    ensures Upto(args, k)[n] == if n % 2 == 1 then RequestAt(args, n) else Plain(RequestAt(args, n))
  {
    if k > 0 {
      UptoIs(args, k - 1, if n < 2 * k - 1 then n else 0);
    }
  }

  lemma {:induction false} BindErrorIs(objects: map<nat, Object>, args: SubmitArgs, n: nat)
    requires WellFormed(args) && AllU32(args) && n < BINDINGS
    ensures |Order(args)| == BINDINGS
    ensures var e := BindError(objects, Order(args)[n]);
      && (e == 0 <==> SoundAt(objects, args, n))
      && (e != 0 ==> e == if RequestAt(args, n).handle in objects then -Binding.EINVAL else -ENOENT)
  {
    UptoIs(args, |args.inputs|, n);
    var w := Order(args)[n];
    assert RequestAt(args, n).range.IsU32();
    if w.handle in objects {
      Binding.CheckIsExact(objects[w.handle].bytes, w.range);
    }
  }

  /** The first error in a list is that of its first faulty binding. */
  lemma {:induction false} FirstErrorIs(objects: map<nat, Object>, ws: seq<Wanted>)
    ensures FirstError(objects, ws) == 0 <==> forall i | 0 <= i < |ws| :: BindError(objects, ws[i]) == 0
    ensures forall i | 0 <= i < |ws| && BindError(objects, ws[i]) != 0 && (forall j | 0 <= j < i :: BindError(objects, ws[j]) == 0) ::
      FirstError(objects, ws) == BindError(objects, ws[i])
  {
    if ws != [] {
      FirstErrorIs(objects, ws[1..]);
      forall i | 0 <= i < |ws| && BindError(objects, ws[i]) != 0 && (forall j | 0 <= j < i :: BindError(objects, ws[j]) == 0)
        ensures FirstError(objects, ws) == BindError(objects, ws[i])
      {
        if i > 0 {
          assert ws[1..][i - 1] == ws[i];
          assert forall j | 0 <= j < i - 1 :: ws[1..][j] == ws[j + 1];
        }
      }
      assert forall i | 0 < i < |ws| :: ws[i] == ws[1..][i - 1];
    }
  }

  lemma {:induction false} AllBindings(objects: map<nat, Object>, args: SubmitArgs)
    requires WellFormed(args) && AllU32(args)
    ensures FirstError(objects, Order(args)) == 0 <==> forall n | 0 <= n < BINDINGS :: SoundAt(objects, args, n)
  {
    BindErrorIs(objects, args, 0);
    forall n | 0 <= n < BINDINGS
      ensures BindError(objects, Order(args)[n]) == 0 <==> SoundAt(objects, args, n)
    {
      BindErrorIs(objects, args, n);
    }
    FirstErrorIs(objects, Order(args));
  }

  predicate OpenPlain(objects: map<nat, Object>, w: Wanted) {
    w.handle in objects && FitsPlain(objects[w.handle].bytes, w.range)
  }

  predicate OpenStrided(objects: map<nat, Object>, w: Wanted) {
    w.handle in objects && FitsStrided(objects[w.handle].bytes, w.range)
  }

  lemma {:induction false} ByKind(objects: map<nat, Object>, args: SubmitArgs)
    requires WellFormed(args)
    ensures (forall n | 0 <= n < BINDINGS :: SoundAt(objects, args, n)) <==>
      && OpenPlain(objects, args.config)
      && (forall i | 0 <= i < COLUMNS :: OpenStrided(objects, args.inputs[i]) && OpenPlain(objects, args.outputs[i]))
  {
    if forall n | 0 <= n < BINDINGS :: SoundAt(objects, args, n) {
      forall i | 0 <= i < COLUMNS
        ensures OpenStrided(objects, args.inputs[i]) && OpenPlain(objects, args.outputs[i])
      {
        assert SoundAt(objects, args, 2 * i + 1) && SoundAt(objects, args, 2 * i + 2);
      }
      assert SoundAt(objects, args, 0);
    }
  }

  /** The flags are known and every call into the kernel succeeds. */
  predicate Willing(args: SubmitArgs, env: Answers) {
    && args.flags <= WAIT_SYNCOBJ && args.pad == 0
    && env.jobAllocated && env.fenceAllocated && env.jobInit == 0
    && (args.flags == WAIT_SYNCOBJ ==> env.dependency == 0)
  }

  /**
   A submit is accepted exactly when its flags are known, the kernel's calls succeed, every handle
   is open, the config and each output name contiguous words inside their objects and below the
   device's 64 KiB, and each input does with its stride.
   */
  lemma {:induction false} SubmitAcceptsIff(objects: map<nat, Object>, args: SubmitArgs, env: Answers)
    requires WellFormed(args) && AllU32(args)
    ensures SubmitResult(objects, args, env) == 0 <==>
      && Willing(args, env) && env.outSyncobjFound
      && OpenPlain(objects, args.config)
      && (forall i | 0 <= i < COLUMNS :: OpenStrided(objects, args.inputs[i]) && OpenPlain(objects, args.outputs[i]))
  {
    AllBindings(objects, args);
    ByKind(objects, args);
  }

  /** Otherwise it fails with the first thing that is wrong: of the bindings, the first unsound one in order. */
  lemma {:induction false} SubmitFailsWith(objects: map<nat, Object>, args: SubmitArgs, env: Answers)
    requires WellFormed(args) && AllU32(args)
    ensures var r := SubmitResult(objects, args, env);
      && (args.flags > WAIT_SYNCOBJ || args.pad != 0 ==> r == -Binding.EINVAL)
      && (args.flags <= WAIT_SYNCOBJ && args.pad == 0 && !(env.jobAllocated && env.fenceAllocated) ==> r == -ENOMEM)
      && (TakesSeqno(args, env) && env.jobInit != 0 ==> r == env.jobInit)
      && (TakesSeqno(args, env) && env.jobInit == 0 && !Willing(args, env) ==> r == env.dependency)
      && (forall n | 0 <= n < BINDINGS && Willing(args, env) && FirstUnsound(objects, args, n) ::
            r == if RequestAt(args, n).handle in objects then -Binding.EINVAL else -ENOENT)
      && (Willing(args, env) && (forall n | 0 <= n < BINDINGS :: SoundAt(objects, args, n)) && !env.outSyncobjFound ==> r == -ENOENT)
  {
    AllBindings(objects, args);
    forall n | 0 <= n < BINDINGS && FirstUnsound(objects, args, n)
      ensures FirstError(objects, Order(args)) == if RequestAt(args, n).handle in objects then -Binding.EINVAL else -ENOENT
    {
      FirstUnsoundError(objects, args, n);
    }
  }

  ghost predicate FirstUnsound(objects: map<nat, Object>, args: SubmitArgs, n: nat)
    requires WellFormed(args) && n < BINDINGS
  {
    !SoundAt(objects, args, n) && forall m | 0 <= m < n :: SoundAt(objects, args, m)
  }

  lemma {:induction false} FirstUnsoundError(objects: map<nat, Object>, args: SubmitArgs, n: nat)
    requires WellFormed(args) && AllU32(args) && n < BINDINGS && FirstUnsound(objects, args, n)
    ensures FirstError(objects, Order(args)) == if RequestAt(args, n).handle in objects then -Binding.EINVAL else -ENOENT
  {
    BindErrorIs(objects, args, n);
    forall m | 0 <= m < n
      ensures BindError(objects, Order(args)[m]) == 0
    {
      BindErrorIs(objects, args, m);
    }
    FirstErrorIs(objects, Order(args));
  }

  // ---------- what an accepted submit runs ----------

  /** The words of each column pair. */
  function LanesOf(args: SubmitArgs): (r: seq<Lane>)
    requires WellFormed(args)
    ensures |r| == COLUMNS
  {
    seq(COLUMNS, i requires 0 <= i < COLUMNS => 
      Lane(args.inputs[i].range, Binding.Strided(args.outputs[i].range.offset, args.outputs[i].range.count, 1)))
  }

  /** Column i as the simulated device runs it, for objects that are placed in memory. */
  function ColumnOf(objects: map<nat, Object>, args: SubmitArgs, place: nat -> nat, i: nat): SimExec.Column
    requires WellFormed(args) && i < COLUMNS && args.inputs[i].handle in objects && args.outputs[i].handle in objects
  {
    var input, output := args.inputs[i], args.outputs[i];
    SimExec.Column(
      SimExec.Bound(Placed(objects[input.handle], place), input.range.offset, input.range.count), input.range.stride,
      SimExec.Bound(Placed(objects[output.handle], place), output.range.offset, output.range.count))
  }

  function Placed(o: Object, place: nat -> nat): SimExec.Object { SimExec.Object(place(o.id), o.bytes) }

  /** The columns of an accepted submit stay inside their buffers: SimExec.AccessInBounds applies to them. */
  lemma {:induction false} AcceptedColumns(objects: map<nat, Object>, args: SubmitArgs, env: Answers, place: nat -> nat, n: nat, i: nat)
    requires WellFormed(args) && AllU32(args) && SubmitResult(objects, args, env) == 0 && i < COLUMNS
    requires forall h | h in objects :: SimExec.InMemory(n, Placed(objects[h], place))
    ensures args.inputs[i].handle in objects && args.outputs[i].handle in objects
    ensures SimExec.Accepted(n, ColumnOf(objects, args, place, i))
    ensures LanesOf(args)[i].Fed() <==>
      ColumnOf(objects, args, place, i).output.count <= ColumnOf(objects, args, place, i).input.count
  {
    SubmitAcceptsIff(objects, args, env);
    var input, output := args.inputs[i], args.outputs[i];
    assert OpenStrided(objects, input) && OpenPlain(objects, output) && input in args.inputs && output in args.outputs;
    Binding.CheckIsExact(objects[input.handle].bytes, input.range);
    Binding.CheckIsExact(objects[output.handle].bytes, Binding.Strided(output.range.offset, output.range.count, 1));
  }

  /** The job queued holds one reference on each of the nine objects, and the words of its columns. */
  ghost predicate Accepted(objects: map<nat, Object>, args: SubmitArgs, s: State, s': State)
    requires WellFormed(args)
  {
    exists bindings :: Holds(objects, args, bindings) && s' == Queues(s, args, bindings)
  }

  ghost predicate Holds(objects: map<nat, Object>, args: SubmitArgs, bindings: seq<nat>)
    requires WellFormed(args)
  {
    && |bindings| == BINDINGS
    && forall n | 0 <= n < BINDINGS ::
         RequestAt(args, n).handle in objects && bindings[n] == objects[RequestAt(args, n).handle].id
  }

  ghost function Queues(s: State, args: SubmitArgs, bindings: seq<nat>): State
    requires WellFormed(args)
  {
    s.(jobs := s.jobs + [Job(Queued, Config, false, bindings, LanesOf(args), [])], refs := s.refs + multiset(bindings))
  }

  /** This is the protocol's submit step. */
  lemma {:induction false} QueuesIsSubmit(s: State, args: SubmitArgs, bindings: seq<nat>)
    requires WellFormed(args) && |bindings| == BINDINGS
    ensures Enabled(s, JobProtocol.Submit(bindings, LanesOf(args)))
    ensures Apply(s, JobProtocol.Submit(bindings, LanesOf(args))) == Queues(s, args, bindings)
  {
  }

  lemma {:induction false} NamesHold(objects: map<nat, Object>, args: SubmitArgs, bindings: seq<nat>)
    requires WellFormed(args) && Names(objects, Order(args), bindings) && |bindings| == BINDINGS
    ensures Holds(objects, args, bindings)
  {
    forall n | 0 <= n < BINDINGS
      ensures RequestAt(args, n).handle in objects && bindings[n] == objects[RequestAt(args, n).handle].id
    {
      UptoIs(args, |args.inputs|, n);
    }
  }

  class Device {
    // the driver's own state
    const sim: bool
    var jobs: seq<Job>
    var active: int
    var refs: multiset<nat>
    var fenceSeqno: nat
    var simAbort: bool
    var queued: bool
    // what the scheduler, the handler, removal and the worker are doing
    ghost var running: int
    ghost var parked: bool
    ghost var dead: bool
    ghost var handler: Handler
    ghost var removal: Removal
    ghost var worker: Worker
    ghost var copies: seq<Copy>
    ghost var bad: set<Violation>

    ghost function View(): State
      reads this
    {
      State(sim, jobs, active, refs, running, parked, dead, handler, removal, simAbort, queued, worker, copies, bad)
    }

    /** strela_strided_binding_get(): a reference is kept only on success. */
    method BindingGet(objects: map<nat, Object>, w: Wanted) returns (ret: int, obj: int)
      modifies `refs
      ensures ret == BindError(objects, w)
      ensures ret != 0 ==> refs == old(refs)
      ensures ret == 0 ==> w.handle in objects && obj == objects[w.handle].id && refs == old(refs) + multiset{objects[w.handle].id}
    {
      obj := NULL;
      if w.handle !in objects {
        return -ENOENT, NULL;
      }
      refs := refs + multiset{objects[w.handle].id};
      ret := Binding.Check(objects[w.handle].bytes, w.range);
      if ret != 0 {
        refs := refs - multiset{objects[w.handle].id};
        return ret, NULL;
      }
      obj := objects[w.handle].id;
    }

    /** strela_job_put_bindings(): drops what was taken; slots that were never filled are NULL. */
    method PutBindings(slots: seq<nat>)
      requires multiset(slots) <= refs
      modifies `refs
      ensures refs == old(refs) - multiset(slots)
    {
      ghost var before := refs;
      for i := 0 to |slots|
        invariant refs == before - multiset(slots[..i])
      {
        assert slots[..i + 1] == slots[..i] + [slots[i]];
        assert slots == slots[..i + 1] + slots[i + 1..];
        refs := refs - multiset{slots[i]};
      }
      assert slots[..|slots|] == slots;
    }

    /** Resolve the input and the output of one column; `got` are the references taken. */
    method ResolveColumn(objects: map<nat, Object>, input: Wanted, output: Wanted) returns (ret: int, got: seq<nat>)
      modifies `refs
      ensures ret == FirstError(objects, [input, output])
      ensures refs == old(refs) + multiset(got)
      ensures ret == 0 ==> Names(objects, [input, output], got)
    {
      PairError(objects, input, output);
      got := [];
      var obj;
      ret, obj := BindingGet(objects, input);
      if ret != 0 {
        return;
      }
      got := [obj];
      ret, obj := BindingGet(objects, output);
      if ret != 0 {
        return;
      }
      got := got + [obj];
    }

    /** Resolve all nine bindings; on failure `slots` are those that hold a reference. */
    method ResolveBindings(objects: map<nat, Object>, args: SubmitArgs) returns (ret: int, slots: seq<nat>)
      requires WellFormed(args)
      modifies `refs
      ensures ret == FirstError(objects, Order(args))
      ensures refs == old(refs) + multiset(slots)
      ensures ret == 0 ==> Names(objects, Order(args), slots) && |slots| == BINDINGS
    {
      ghost var before := refs;
      slots := [];
      var obj;
      ret, obj := BindingGet(objects, Plain(args.config));
      JustOne(objects, Plain(args.config));
      Prefixes(objects, args, 0);
      if ret != 0 {
        return;
      }
      slots := [obj];
      var i := 0;
      while i < |args.inputs|
        invariant 0 <= i <= |args.inputs| && ret == 0
        invariant refs == before + multiset(slots)
        invariant FirstError(objects, Upto(args, i)) == 0
        invariant Names(objects, Upto(args, i), slots)
        invariant |slots| == 2 * i + 1
      {
        OneMore(objects, args, i);
        var got;
        ret, got := ResolveColumn(objects, args.inputs[i], Plain(args.outputs[i]));
        if ret == 0 {
          NamesAppend(objects, Upto(args, i), slots, [args.inputs[i], Plain(args.outputs[i])], got);
        }
        slots := slots + got;
        if ret != 0 {
          return;
        }
        i := i + 1;
      }
    }

    /** strela_submit_ioctl() from the first binding on. */
    method BindAndPush(objects: map<nat, Object>, args: SubmitArgs, outSyncobjFound: bool) returns (ret: int)
      requires WellFormed(args)
      modifies `jobs, `refs
      ensures ret == BindResult(objects, args, outSyncobjFound)
      ensures ret != 0 ==> View() == old(View())
      ensures ret == 0 ==> Accepted(objects, args, old(View()), View())
    {
      ghost var before := refs;
      var slots;
      ret, slots := ResolveBindings(objects, args);
      if ret == 0 && !outSyncobjFound {
        ret := -ENOENT;
      }
      if ret != 0 {
        PutBindings(slots);
        assert refs == before;
        return;
      }
      NamesHold(objects, args, slots);
      jobs := jobs + [Job(Queued, Config, false, slots, LanesOf(args), [])];
      assert View() == Queues(old(View()), args, slots);
    }

    /** strela_submit_ioctl(). */
    method Submit(objects: map<nat, Object>, args: SubmitArgs, env: Answers) returns (ret: int)
      requires WellFormed(args)
      modifies `jobs, `refs, `fenceSeqno
      ensures ret == SubmitResult(objects, args, env)
      ensures fenceSeqno == old(fenceSeqno) + if TakesSeqno(args, env) then 1 else 0
      ensures ret != 0 ==> View() == old(View())
      ensures ret == 0 ==> Accepted(objects, args, old(View()), View())
    {
      if args.flags > WAIT_SYNCOBJ || args.pad != 0 {
        return -Binding.EINVAL;
      }
      if !env.jobAllocated {
        return -ENOMEM;
      }
      if !env.fenceAllocated {
        return -ENOMEM;
      }
      fenceSeqno := fenceSeqno + 1;
      if env.jobInit != 0 {
        return env.jobInit;
      }
      if args.flags == WAIT_SYNCOBJ && env.dependency != 0 {
        PutBindings([]);
        return env.dependency;
      }
      ret := BindAndPush(objects, args, env.outSyncobjFound);
    }

    /** The locked region of strela_run_job(); drm_WARN_ON only warns. */
    method RunJob(i: nat)
      requires Enabled(View(), JobProtocol.RunJob(i))
      modifies `jobs, `active, `simAbort, `queued, `running, `bad
      ensures View() == Apply(old(View()), JobProtocol.RunJob(i))
      ensures active == i && refs == old(refs) && (sim ==> !simAbort && queued)
      ensures var j := old(jobs)[i];
        jobs == old(jobs)[i := j.(stage := Running, phase := Config, history := j.history + [Started])]
    {
      if active != NULL {
        bad := bad + {WarnRunJob};
      }
      jobs := jobs[i := Note(jobs[i].(stage := Running, phase := Config), [Started])];
      active := i;
      running := i;
      if sim {
        simAbort := false;
        queued := true;
      }
    }

    /** strela_job_phase_done(); `source` is the job the completion is for, NULL for an interrupt. */
    method PhaseDone(finished: Phase, source: int)
      requires active == NULL || 0 <= active < |jobs|
      modifies `jobs, `active, `bad
      ensures View() == DoPhaseDone(old(View()), finished, source)
      ensures old(active == NULL || jobs[active].phase != finished) ==> View() == old(View())
      ensures old(active != NULL && jobs[active].phase == finished) ==>
        Completes(old(jobs)[old(active)], jobs[old(active)], finished, source)
        && jobs == old(jobs)[old(active) := jobs[old(active)]]
        && active == (if finished == Config then old(active) else NULL)
    {
      if active == NULL || jobs[active].phase != finished {
        return;
      }
      if source != NULL && source != active {
        bad := bad + {Misattributed};
      }
      match finished {
        case Config =>
          jobs := jobs[active := Note(jobs[active].(phase := Exec), [ConfigAccepted(source)])];
        case Exec =>
          var j := Note(jobs[active].(signalled := true), [ExecAccepted(source), Signalled]);
          jobs := jobs[active := if j.stage.Attached? then End(j, Success) else j];
          active := NULL;
      }
    }

    /** strela_free_job(). */
    method FreeJob(i: nat)
      requires i < |jobs| && multiset(jobs[i].bindings) <= refs
      modifies `jobs, `refs, `bad
      ensures View() == DoFree(old(View()), i)
      ensures refs == old(refs) - multiset(old(jobs)[i].bindings)
      ensures var j := old(jobs)[i]; jobs == old(jobs)[i := j.(stage := Freed, history := j.history + [Released])]
    {
      if jobs[i].stage.Freed? {
        bad := bad + {TouchesFreed};
      }
      var j := jobs[i];
      PutBindings(j.bindings);
      jobs := jobs[i := Note(j.(stage := Freed), [Released])];
    }

    /** A fence that never signalled is signalled with -ENODEV. */
    method FailFence(i: nat)
      requires i < |jobs|
      modifies `jobs
      ensures jobs == old(jobs)[i := Failed(old(jobs)[i])]
    {
      if !jobs[i].signalled {
        var j := Note(jobs[i].(signalled := true), [Signalled]);
        jobs := jobs[i := if j.stage.Attached? then End(j, NoDevice) else j];
      }
    }

    /** One turn of the loop in strela_job_fini(). */
    method RetireJob(i: nat)
      requires i < |jobs| && multiset(jobs[i].bindings) <= refs
      modifies `jobs, `refs, `bad
      ensures View() == DoRetire(old(View()), i)
    {
      ghost var s := View();
      FailFence(i);
      assert View() == Put(s, i, Failed(s.jobs[i]));
      FreeJob(i);
    }

    /** The end of strela_job_fini(): every job on the pending list is finished and freed. */
    method RetirePending(pending: seq<nat>)
      requires Inv(View()) && removal.Retiring? && ListsPending(jobs, pending)
      modifies `jobs, `refs, `bad, `removal
      ensures Inv(View()) && removal.Removed?
      ensures AllRetired(old(jobs), jobs)
      ensures refs == Held(jobs)
    {
      ghost var was := jobs;
      for n := 0 to |pending|
        invariant Retired(View(), was, pending, n)
      {
        RetireOne(View(), was, pending, n);
        RetireJob(pending[n]);
      }
      RetireEnds(View(), was, pending);
      removal := Removed;
    }
  }

  /** What a completion does to the job on the device: the next phase, or its fence signals, once. */
  ghost predicate Completes(j: Job, j': Job, finished: Phase, source: int) {
    if finished == Config then j' == j.(phase := Exec, history := j.history + [ConfigAccepted(source)])
    else
      && j'.signalled && j'.phase == Exec && j'.bindings == j.bindings && j'.lanes == j.lanes
      && (j.stage.Attached? ==> j'.stage.Finished? && j'.history == j.history + [ExecAccepted(source), Signalled, Ended(Success)])
      && (!j.stage.Attached? ==> j'.stage == j.stage && j'.history == j.history + [ExecAccepted(source), Signalled])
  }

  /** Started, and still with the scheduler when removal gets to it. */
  predicate Pending(j: Job) { j.stage.Attached? || j.stage.Finished? }

  /** The scheduler's pending list: those jobs, once each, in any order. */
  ghost predicate ListsPending(jobs: seq<Job>, pending: seq<nat>) {
    && (forall n | 0 <= n < |pending| :: pending[n] < |jobs| && Pending(jobs[pending[n]]))
    && (forall n, m | 0 <= n < m < |pending| :: pending[n] != pending[m])
    && (forall i | 0 <= i < |jobs| && Pending(jobs[i]) :: i in pending)
  }

  /** A job after its turn: its hardware fence is signalled once, it is ended once, and released. */
  function RetiredJob(j: Job): Job {
    var ends := if j.signalled then [] else if j.stage.Attached? then [Signalled, Ended(NoDevice)] else [Signalled];
    j.(stage := Freed, signalled := true, history := j.history + ends + [Released])
  }

  function Failed(j: Job): Job {
    var j1 := if !j.signalled then Note(j.(signalled := true), [Signalled]) else j;
    if !j.signalled && j.stage.Attached? then End(j1, NoDevice) else j1
  }

  ghost predicate AllRetired(was: seq<Job>, jobs: seq<Job>) {
    && |jobs| == |was|
    && forall i | 0 <= i < |jobs| :: jobs[i] == if Pending(was[i]) then RetiredJob(was[i]) else was[i]
  }

  /** The loop of strela_job_fini() after n turns. */
  ghost predicate Retired(s: State, was: seq<Job>, pending: seq<nat>, n: nat) {
    Inv(s) && s.removal.Retiring? && ListsPending(was, pending) && n <= |pending| && Turned(s.jobs, was, pending[..n])
  }

  ghost predicate Turned(jobs: seq<Job>, was: seq<Job>, done: seq<nat>) {
    && |jobs| == |was|
    && forall i | 0 <= i < |was| :: jobs[i] == if i in done then RetiredJob(was[i]) else was[i]
  }

  lemma {:induction false} TurnNext(jobs: seq<Job>, was: seq<Job>, pending: seq<nat>, n: nat)
    requires n < |pending| && Turned(jobs, was, pending[..n]) && ListsPending(was, pending)
    ensures var i := pending[n];
      i < |jobs| && jobs[i] == was[i] && Pending(jobs[i]) && Turned(jobs[i := RetiredJob(jobs[i])], was, pending[..n + 1])
  {
    var i := pending[n];
    assert i !in pending[..n];
    assert pending[..n + 1] == pending[..n] + [i];
  }

  lemma {:induction false} RetiredJobIs(s: State, i: nat)
    requires i < |s.jobs| && Pending(s.jobs[i])
    ensures DoRetire(s, i).jobs == s.jobs[i := RetiredJob(s.jobs[i])]
    ensures DoRetire(s, i).removal == s.removal
  {
    var j := s.jobs[i];
    assert DoRetire(s, i).jobs == s.jobs[i := Note(Failed(j).(stage := Freed), [Released])];
    assert j.history + [] + [Released] == j.history + [Released];
    assert j.history + [Signalled] + [Ended(NoDevice)] == j.history + [Signalled, Ended(NoDevice)];
  }

  lemma {:induction false} RetireOne(s: State, was: seq<Job>, pending: seq<nat>, n: nat)
    requires Retired(s, was, pending, n) && n < |pending|
    ensures var i := pending[n];
      && i < |s.jobs| && multiset(s.jobs[i].bindings) <= s.refs
      && Retired(DoRetire(s, i), was, pending, n + 1)
  {
    var i := pending[n];
    TurnNext(s.jobs, was, pending, n);
    HoldsItsBindings(s, i);
    StepKeeps(s, Retire(i));
    RetiredJobIs(s, i);
  }

  lemma {:induction false} RetireEnds(s: State, was: seq<Job>, pending: seq<nat>)
    requires Retired(s, was, pending, |pending|)
    ensures Inv(s.(removal := Removed)) && AllRetired(was, s.jobs) && s.refs == Held(s.jobs)
  {
    assert pending[..|pending|] == pending;
    forall i | 0 <= i < |was|
      ensures (i in pending) == Pending(was[i])
    {
    }
    assert Apply(s, RemoveDone) == s.(removal := Removed);
    StepKeeps(s, RemoveDone);
  }

  lemma {:induction false} HoldsItsBindings(s: State, i: nat)
    requires RefsOk(s.refs, s.jobs) && i < |s.jobs| && !s.jobs[i].stage.Freed?
    ensures multiset(s.jobs[i].bindings) <= s.refs
  {
    HeldSplit(s.jobs, i);
  }

  lemma {:induction false} JustOne(objects: map<nat, Object>, w: Wanted)
    ensures FirstError(objects, [w]) == BindError(objects, w)
  {
    assert [w][1..] == [];
  }

  /** The first error of a prefix of the order is the first error of the order. */
  lemma {:induction false} Prefixes(objects: map<nat, Object>, args: SubmitArgs, i: nat)
    requires WellFormed(args) && i <= |args.inputs|
    ensures FirstError(objects, Upto(args, i)) != 0 ==>
      FirstError(objects, Order(args)) == FirstError(objects, Upto(args, i))
    decreases |args.inputs| - i
  {
    if i < |args.inputs| {
      Prefixes(objects, args, i + 1);
      FirstErrorAppend(objects, Upto(args, i), [args.inputs[i], Plain(args.outputs[i])]);
    }
  }

  lemma {:induction false} PairError(objects: map<nat, Object>, a: Wanted, b: Wanted)
    ensures FirstError(objects, [a, b]) == if BindError(objects, a) != 0 then BindError(objects, a) else BindError(objects, b)
  {
    assert [a, b][1..] == [b];
    JustOne(objects, b);
  }

  lemma {:induction false} OneMore(objects: map<nat, Object>, args: SubmitArgs, i: nat)
    requires WellFormed(args) && i < |args.inputs| && FirstError(objects, Upto(args, i)) == 0
    ensures var e := FirstError(objects, [args.inputs[i], Plain(args.outputs[i])]);
      FirstError(objects, Upto(args, i + 1)) == e && (e != 0 ==> FirstError(objects, Order(args)) == e)
  {
    FirstErrorAppend(objects, Upto(args, i), [args.inputs[i], Plain(args.outputs[i])]);
    Prefixes(objects, args, i + 1);
  }
}
