/** Saving and restoring the vector registers on x86: a slot per CPU records
    which thread holds them and how deep its saves are nested. */
module VectorRegisters {

  const COUNT_MASK: nat := 0x3fff_ffff
  const INHIBITED_FLAG: nat := 0x4000_0000

  /** fpu_state & WC_FPU_COUNT_MASK, and the test of the flag bit. */
  function Count(state: nat): nat { state % INHIBITED_FLAG }
  predicate Inhibited(state: nat) { state / INHIBITED_FLAG % 2 == 1 }

  /** A slot of wc_linuxkm_fpu_states with what the kernel calls have done to
      its CPU: the nesting of disabled softirqs, of kernel_fpu_begin, of
      disabled migration and of disabled preemption. */
  datatype Cpu = Cpu(pid: nat, state: nat, bh: int, fpu: int, migrate: int, preempt: int)

  const IDLE := Cpu(0, 0, 0, 0, 0, 0)

  /** What one successful save asked for. */
  datatype Frame = Plain | Inhibit

  datatype Code = SUCCESS | ACCEL_INHIBIT_E | BAD_STATE_E | INTERRUPTED

  /** The state of a CPU whose thread `p` has the saves `frames` outstanding.
      `migrates` and `rt` are the kernel configuration. */
  ghost predicate Holds(c: Cpu, p: nat, frames: seq<Frame>, migrates: bool, rt: bool) {
    if frames == [] then c == IDLE
    else
      && c.pid == p && 0 < |frames| <= COUNT_MASK
      && (forall i :: 0 <= i < |frames| - 1 ==> frames[i] == Plain)
      && c.state == |frames| + (if frames[|frames| - 1] == Inhibit then INHIBITED_FLAG else 0)
      && c.bh == 1 && c.migrate == (if migrates then 1 else 0)
      && c.fpu == (if frames[0] == Plain then 1 else 0)
      && c.preempt == (if frames[0] == Plain && rt then 1 else 0)
  }

  /** When a save succeeds: a nested one below an inhibiting save never does. */
  ghost predicate Grants(frames: seq<Frame>, free: bool) {
    if frames == [] then free else frames[|frames| - 1] == Plain && |frames| < COUNT_MASK
  }

  /** The answer to a save inside the saves `frames`. */
  function NestedCode(frames: seq<Frame>): Code
    requires frames != []
  {
    if frames[|frames| - 1] == Inhibit then ACCEL_INHIBIT_E
    else if |frames| >= 0x3fff_ffff then BAD_STATE_E
    else SUCCESS
  }

  lemma StateParts(n: nat, flag: bool)
    requires n <= COUNT_MASK
    ensures Count(n + if flag then INHIBITED_FLAG else 0) == n
    ensures Inhibited(n + if flag then INHIBITED_FLAG else 0) == flag
  {
  }

  class FpuStates {
    const migrates: bool
    const rt: bool
    const home: nat -> nat                          // the CPU a thread is pinned to
    var cpus: seq<Cpu>
    ghost var outstanding: map<nat, seq<Frame>>     // successful saves by thread

    constructor (n: nat, home: nat -> nat, migrates: bool, rt: bool)
      requires forall p: nat :: home(p) < n
      ensures Valid() && this.home == home && |cpus| == n
      ensures forall p: nat :: Frames(p) == []
    {
      this.home, this.migrates, this.rt := home, migrates, rt;
      cpus := seq(n, _ => IDLE);
      outstanding := map[];
    }

    ghost function Frames(p: nat): seq<Frame>
      reads this
    {
      if p in outstanding then outstanding[p] else []
    }

    /** Every slot is the slot of the one thread of its CPU that has saves
        outstanding, or idle when there is none. */
    ghost predicate Valid()
      reads this
    {
      && (forall p: nat :: home(p) < |cpus|)
      && (forall p: nat {:trigger Frames(p)} :: Frames(p) != [] ==>
        p != 0 && Holds(cpus[home(p)], p, Frames(p), migrates, rt))
      && (forall k {:trigger cpus[k]} :: 0 <= k < |cpus| && cpus[k] != IDLE ==>
            home(cpus[k].pid) == k && Frames(cpus[k].pid) != [])
    }

    /** A step of `p` on its own slot leaves every other thread's slot. */
    twostate lemma OthersKept(p: nat)
      requires old(Valid()) && |cpus| == old(|cpus|)
      requires old(cpus[home(p)]).pid == p || old(cpus[home(p)]) == IDLE
      requires forall k {:trigger cpus[k]} :: 0 <= k < |cpus| && k != home(p) ==> cpus[k] == old(cpus)[k]
      requires forall q: nat {:trigger Frames(q)} :: q != p ==> Frames(q) == old(Frames(q))
      ensures forall q: nat {:trigger Frames(q)} :: q != p && Frames(q) != [] ==>
        q != 0 && Holds(cpus[home(q)], q, Frames(q), migrates, rt)
    {
      forall q: nat {:trigger Frames(q)} | q != p && Frames(q) != []
        ensures q != 0 && Holds(cpus[home(q)], q, Frames(q), migrates, rt)
      {
        assert old(Frames(q)) == Frames(q);
        assert old(Holds(cpus[home(q)], q, Frames(q), migrates, rt));
        assert home(q) != home(p);
      }
    }

    /** A slot is a thread's exactly while that has saves outstanding; it counts
        them, and its flag says that the innermost inhibits. */
    lemma SlotFacts(p: nat)
      requires Valid() && p != 0
      ensures cpus[home(p)].pid == p <==> Frames(p) != []
      ensures Frames(p) != [] ==>
        && Count(cpus[home(p)].state) == |Frames(p)|
        && (Inhibited(cpus[home(p)].state) <==> Frames(p)[|Frames(p)| - 1] == Inhibit)
        && 0 < |Frames(p)| <= 0x3fff_ffff && cpus[home(p)].state % 0x4000_0000 == |Frames(p)|
        && cpus[home(p)].state / 0x4000_0000 == if Frames(p)[|Frames(p)| - 1] == Inhibit then 1 else 0
    {
      if Frames(p) != [] { StateParts(|Frames(p)|, Frames(p)[|Frames(p)| - 1] == Inhibit); }
    }

    /** When nothing is outstanding every CPU is as it was at the start. */
    lemma Balanced()
      requires Valid() && forall p: nat :: Frames(p) == []
      ensures forall k :: 0 <= k < |cpus| ==> cpus[k] == IDLE
    {
    }

    /** wc_save_vector_registers_x86. `hardirq`: called from a hard interrupt;
        `simdOk`: preempt_count() is zero or may_use_simd(); `signal`: a signal
        interrupts. It succeeds exactly when told here, and a call that fails
        leaves everything as it was. */
    method Save(p: nat, flag: Frame, hardirq: bool, simdOk: bool, signal: bool) returns (ret: Code)
      requires Valid() && p != 0
      modifies this
      ensures Valid()
      ensures ret == SUCCESS ==> outstanding == old(outstanding)[p := old(Frames(p)) + [flag]]
      ensures ret != SUCCESS ==> cpus == old(cpus) && outstanding == old(outstanding)
      ensures ret == SUCCESS <==> !hardirq && Grants(old(Frames(p)), !signal && simdOk && old(cpus[home(p)]) == IDLE)
      ensures ret ==
        if hardirq then ACCEL_INHIBIT_E
        else if old(Frames(p)) != [] then NestedCode(old(Frames(p)))
        else if signal then INTERRUPTED
        else if !simdOk then ACCEL_INHIBIT_E
        else if old(cpus[home(p)] == IDLE) then SUCCESS else BAD_STATE_E
    {
      if hardirq { return ACCEL_INHIBIT_E; }
      var k := home(p);
      if cpus[k].pid == p && cpus[k].state != 0 { ret := SaveNested(p, flag); return; }
      if signal { return INTERRUPTED; }
      if !simdOk { return ACCEL_INHIBIT_E; }
      ret := SaveFirst(p, flag);
    }

    /** A save inside another one of the same thread. */
    method SaveNested(p: nat, flag: Frame) returns (ret: Code)
      requires Valid() && p != 0 && cpus[home(p)].pid == p && cpus[home(p)].state != 0
      modifies this
      ensures Valid() && old(Frames(p)) != []
      ensures ret == SUCCESS ==> outstanding == old(outstanding)[p := old(Frames(p)) + [flag]]
      ensures ret != SUCCESS ==> cpus == old(cpus) && outstanding == old(outstanding)
      ensures ret == SUCCESS <==> Grants(old(Frames(p)), false)
      ensures ret == NestedCode(old(Frames(p)))
    {
      var inner, code := Nest(p, cpus[home(p)], flag, Frames(p));
      hide Holds;
      if code != SUCCESS { return code; }
      cpus := cpus[home(p) := inner];
      outstanding := outstanding[p := Frames(p) + [flag]];
      OthersKept(p);
      return SUCCESS;
    }

    /** A thread's first save. */
    method SaveFirst(p: nat, flag: Frame) returns (ret: Code)
      requires Valid() && p != 0 && !(cpus[home(p)].pid == p && cpus[home(p)].state != 0)
      modifies this
      ensures Valid() && old(Frames(p)) == []
      ensures ret == SUCCESS ==> outstanding == old(outstanding)[p := old(Frames(p)) + [flag]]
      ensures ret != SUCCESS ==> cpus == old(cpus) && outstanding == old(outstanding)
      ensures ret == if old(cpus[home(p)] == IDLE) then SUCCESS else BAD_STATE_E
    {
      var k := home(p);
      assert Frames(p) == [] && [] + [flag] == [flag];
      var c, ok := Enter(p, cpus[k], flag);
      hide Holds;
      if !ok {
        assert cpus[k := c] == cpus;
        cpus := cpus[k := c];
        return BAD_STATE_E;
      }
      cpus := cpus[k := c];
      outstanding := outstanding[p := [flag]];
      OthersKept(p);
      return SUCCESS;
    }

    /** wc_can_save_vector_registers_x86: the answer is exactly that a save which
        no signal interrupts and which finds the slot its own or free succeeds. */
    method CanSave(p: nat, hardirq: bool, simdOk: bool) returns (can: bool)
      requires Valid() && p != 0
      ensures can <==> !hardirq && Grants(Frames(p), simdOk)
    {
      if hardirq { return false; }
      var k := home(p);
      if cpus[k].pid == p && cpus[k].state != 0 {
        StateParts(|Frames(p)|, Frames(p)[|Frames(p)| - 1] == Inhibit);
        return !Inhibited(cpus[k].state) && Count(cpus[k].state) != COUNT_MASK;
      }
      return simdOk;
    }

    /** A save inside the saves `frames` of the same thread. */
    method Nest(p: nat, cpu: Cpu, flag: Frame, ghost frames: seq<Frame>) returns (c: Cpu, code: Code)
      requires frames != [] && Holds(cpu, p, frames, migrates, rt)
      ensures code == SUCCESS <==> Grants(frames, true)
      ensures code == SUCCESS ==> Holds(c, p, frames + [flag], migrates, rt)
      ensures code == NestedCode(frames)
    {
      c := cpu;
      StateParts(|frames|, frames[|frames| - 1] == Inhibit);
      if Inhibited(c.state) { return c, ACCEL_INHIBIT_E; }
      if Count(c.state) == COUNT_MASK { return c, BAD_STATE_E; }
      c := c.(state := c.state + 1);
      if flag == Inhibit { c := c.(state := c.state + INHIBITED_FLAG); }
      code := SUCCESS;
    }

    /** The outermost save on the thread's CPU: disable, claim the slot, and
        undo when the slot is another thread's. */
    method Enter(p: nat, cpu: Cpu, flag: Frame) returns (c: Cpu, ok: bool)
      requires p != 0
      ensures ok == (cpu.pid == 0)
      ensures !ok ==> c == cpu
      ensures ok && cpu == IDLE ==> Holds(c, p, [flag], migrates, rt)
    {
      c := cpu;
      if migrates { c := c.(migrate := c.migrate + 1); }
      c := c.(bh := c.bh + 1);
      if flag == Plain {
        if rt { c := c.(preempt := c.preempt + 1); }
        c := c.(fpu := c.fpu + 1);
      }
      ok := c.pid == 0;
      if ok {
        c := c.(pid := p, state := if flag == Inhibit then INHIBITED_FLAG + 1 else 1);
        return;
      }
      if flag == Plain {
        c := c.(fpu := c.fpu - 1);
        if rt { c := c.(preempt := c.preempt - 1); }
      }
      c := c.(bh := c.bh - 1);
      if migrates { c := c.(migrate := c.migrate - 1); }
    }

    /** wc_restore_vector_registers_x86, called with the flag of the innermost
        save: one save fewer is outstanding; the outermost restore returns the
        CPU to its initial state. */
    method Restore(p: nat, flag: Frame)
      requires Valid() && p != 0
      requires Frames(p) != [] && flag == Frames(p)[|Frames(p)| - 1]
      modifies this
      ensures Valid()
      ensures outstanding == old(outstanding)[p := old(Frames(p))[..|old(Frames(p))| - 1]]
      ensures |old(Frames(p))| == 1 ==> cpus == old(cpus)[home(p) := IDLE]
    {
      ghost var frames := Frames(p);
      var k := home(p);
      var c := Leave(p, cpus[k], flag, frames);
      hide Holds;
      cpus := cpus[k := c];
      outstanding := outstanding[p := frames[..|frames| - 1]];
      OthersKept(p);
    }

    /** A restore of the innermost of the saves `frames`. */
    method Leave(p: nat, cpu: Cpu, flag: Frame, ghost frames: seq<Frame>) returns (c: Cpu)
      requires p != 0 && frames != [] && flag == frames[|frames| - 1] && Holds(cpu, p, frames, migrates, rt)
      ensures Holds(c, p, frames[..|frames| - 1], migrates, rt)
    {
      StateParts(|frames| - 1, flag == Inhibit);
      StateParts(|frames| - 1, false);
      c := cpu.(state := cpu.state - 1);
      if Count(c.state) > 0 {
        if flag == Inhibit {
          if Inhibited(c.state) { c := c.(state := c.state - INHIBITED_FLAG); }
        }
      } else {
        if c.state == 0 {
          c := c.(pid := 0, fpu := c.fpu - 1);
          if rt { c := c.(preempt := c.preempt - 1); }
          c := c.(bh := c.bh - 1);
        } else if Inhibited(c.state) {
          c := c.(state := 0, pid := 0);
          c := c.(bh := c.bh - 1);
        }
        if migrates { c := c.(migrate := c.migrate - 1); }
      }
    }
  }
}
