/**
 The breakpoint table and the memory it patches, changed in place (debugger/break.c).  Each
 method is proved against the function of Breakpoints.dfy that bears its name.
 */
module BreakTable {
  import opened Breakpoints

  class Patcher {
    const breakpoints: array<Breakpoint>
    const memory: array<byte>
    var nextBp: nat
    ghost var orig: Memory     // the memory as the program alone would have it

    ghost predicate Valid()
      reads this, breakpoints, memory
    {
      WellFormed(Abs())
    }

    ghost function Abs(): Debugger
      reads this, breakpoints, memory
    {
      Debugger(breakpoints[..], nextBp, memory[..], orig)
    }

    /** No breakpoints, and the program's memory as it is. */
    constructor (memory: array<byte>)
      ensures Valid() && fresh(breakpoints) && this.memory == memory
      ensures orig == memory[..] && nextBp == 1
      ensures forall i | 0 <= i < MAX_BREAKPOINTS :: !breakpoints[i].inUse
      ensures forall mc: Machine :: Stopped(mc, Abs())
    {
      breakpoints := new Breakpoint[MAX_BREAKPOINTS](_ => Breakpoint(Address(0, 0), 0, false, 0, false));
      this.memory := memory;
      nextBp := 1;
      orig := memory[..];
    }

    method SetOpcode(mc: Machine, addr: Address, op: byte)
      requires mc.linear(addr) < memory.Length
      modifies memory
      ensures memory[..] == old(memory[..])[mc.linear(addr) := op]
    {
      memory[mc.linear(addr)] := op;
    }

    method SetBreakpoints(mc: Machine, set_: bool)
      requires Valid() && mc.Sane() && mc.size == memory.Length
      modifies breakpoints, memory
      ensures Valid() && Abs() == Breakpoints.SetBreakpoints(mc, old(Abs()), set_)
    {
      ghost var t, mem := breakpoints[..], memory[..];
      for i := 0 to MAX_BREAKPOINTS
        invariant memory[..] == Patched(mc, t, mem, set_, i)
        invariant forall k | 0 <= k < i :: breakpoints[k] == Passed(mc, t[k])
        invariant forall k | i <= k < MAX_BREAKPOINTS :: breakpoints[k] == t[k]
      {
        var b := breakpoints[i];
        if b.inUse && b.enabled {
          if mc.bad(b.addr) {
            breakpoints[i] := b.(enabled := false);
          } else {
            assert mc.Mapped(b.addr);
            SetOpcode(mc, b.addr, if set_ then INT3 else b.opcode);
          }
        }
      }
      assert breakpoints[..] == Breakpoints.SetBreakpoints(mc, Debugger(t, nextBp, mem, orig), set_).t;
    }

    method FindBreakpoint(addr: Address) returns (num: int)
      requires Valid()
      ensures num == FindFrom(breakpoints[..], addr, 0)
    {
      for i := 0 to MAX_BREAKPOINTS
        invariant FindFrom(breakpoints[..], addr, 0) == FindFrom(breakpoints[..], addr, i)
      {
        var b := breakpoints[i];
        if b.inUse && b.enabled && b.addr.seg == addr.seg && b.addr.off == addr.off {
          return i;
        }
      }
      return -1;
    }

    method AddBreakpoint(mc: Machine, addr: Address)
      requires Valid() && mc.Sane() && mc.size == memory.Length
      modifies this`nextBp, breakpoints
      ensures Valid() && Abs() == Add(mc, old(Abs()), addr)
    {
      if mc.bad(addr) {
        return;
      }
      assert mc.Mapped(addr);
      var num: nat;
      if nextBp < MAX_BREAKPOINTS {
        num := nextBp;
        nextBp := nextBp + 1;
      } else {
        num := 1;
        while num < MAX_BREAKPOINTS && breakpoints[num].inUse
          invariant 1 <= num <= MAX_BREAKPOINTS
          invariant FreeFrom(breakpoints[..], 1) == FreeFrom(breakpoints[..], num)
        {
          num := num + 1;
        }
        if num >= MAX_BREAKPOINTS {
          return;
        }
      }
      breakpoints[num] := Breakpoint(addr, memory[mc.linear(addr)], true, 0, true);
    }

    method DelBreakpoint(num: int)
      requires Valid()
      modifies breakpoints
      ensures Valid() && Abs() == Delete(old(Abs()), num)
    {
      if num <= 0 || num >= nextBp || !breakpoints[num].inUse {
        return;
      }
      breakpoints[num] := breakpoints[num].(enabled := false, inUse := false, skipcount := 0);
    }

    method EnableBreakpoint(num: int, enable: bool)
      requires Valid()
      modifies breakpoints
      ensures Valid() && Abs() == Enable(old(Abs()), num, enable)
    {
      if num <= 0 || num >= nextBp || !breakpoints[num].inUse {
        return;
      }
      breakpoints[num] := breakpoints[num].(enabled := enable, skipcount := 0);
    }

    /** DEBUG_ShouldContinue up to the decision at a breakpoint of the user: whether the
        program stops there. */
    method HitBreakpoint(pc: Address, condition: bool) returns (stops: bool)
      requires Valid()
      modifies breakpoints
      ensures Valid() && Abs() == Hit(old(Abs()), pc, condition)
      ensures stops == Stops(old(Abs()), pc, condition)
    {
      var bpnum := FindBreakpoint(pc);
      breakpoints[0] := breakpoints[0].(enabled := false);
      if bpnum == 0 || bpnum == -1 {
        return false;
      }
      if !condition {
        return false;
      }
      if breakpoints[bpnum].skipcount > 0 {
        breakpoints[bpnum] := breakpoints[bpnum].(skipcount := breakpoints[bpnum].skipcount - 1);
        if breakpoints[bpnum].skipcount > 0 {
          return false;
        }
      }
      return true;
    }

    /** DEBUG_RestartExecution once the mode is settled. */
    method RestartExecution(mc: Machine, pc: Address, mode: Mode, count: int)
      requires Valid() && mc.Sane() && mc.size == memory.Length
      requires mode.StepOver? ==> mc.linear(mode.next) < memory.Length
      modifies breakpoints, memory
      ensures Valid() && Abs() == Restart(mc, old(Abs()), pc, mode, count)
    {
      var bp := FindBreakpoint(pc);
      if bp != -1 && bp != 0 {
        if count != 0 && mode.Cont? {
          breakpoints[bp] := breakpoints[bp].(skipcount := ToWord(count));
        }
        return;
      }
      match mode
      case Cont =>
        SetBreakpoints(mc, true);
      case StepOver(next) =>
        breakpoints[0] := Breakpoint(next, memory[mc.linear(next)], true, 0, true);
        SetBreakpoints(mc, true);
      case Single =>
    }

    /** One stop and one start, with the debugger in control between them: the program finds
        memory as the two leave it, and nothing of the first run's patches is lost. */
    method StopAndContinue(mc: Machine, pc: Address)
      requires Valid() && mc.Sane() && mc.size == memory.Length
      requires Running(mc, Abs()) && AllReachable(mc, Abs())
      modifies breakpoints, memory
      ensures Valid() && Running(mc, Abs())
      ensures orig == old(orig)
      ensures var t := Breakpoints.SetBreakpoints(mc, old(Abs()), false).t;
              FindFrom(t, pc, 0) <= 0 ==>
                forall a | 0 <= a < memory.Length :: memory[a] == if Covers(mc, t, |t|, a) then INT3 else orig[a]
    {
      RunningRestorableIff(mc, Abs());
      SetBreakpoints(mc, false);
      RestartMakesRunning(mc, Abs(), pc, Cont, 0);
      if FindFrom(breakpoints[..], pc, 0) <= 0 {
        ContinuingSets(mc, Abs(), pc, 0);
      }
      RestartExecution(mc, pc, Cont, 0);
    }
  }
}
