/**
 The debugger's breakpoints (debugger/break.c): a table of 100 entries whose enabled ones are
 patched into the program's memory while it runs and taken out again while the debugger has
 control.  Entry 0 is the temporary breakpoint of stepping over.

 BreakTable.dfy changes table and memory in place; here are the table operations as functions,
 the invariant that ties the table to the original memory, and what holds over whole runs.
 */
module Breakpoints {

  newtype byte = i: int | 0 <= i < 0x100

  const INT3: byte := 0xcc
  const MAX_BREAKPOINTS: nat := 100

  datatype Address = Address(seg: nat, off: nat)

  datatype Breakpoint = Breakpoint(
    addr: Address,
    opcode: byte,
    enabled: bool,
    skipcount: int,
    inUse: bool)
  {
    predicate Active() { inUse && enabled }
  }

  /** Program memory, by linear address. */
  type Memory = seq<byte>

  /** The part of the machine the debugger relies on: how an address is made linear, and which
      addresses DEBUG_IsBadReadPtr turns down. */
  datatype Machine = Machine(size: nat, linear: Address -> nat, bad: Address -> bool) {
    predicate Mapped(a: Address) { !bad(a) }

    /** What can be read lies in memory. */
    ghost predicate Sane() { forall a: Address | Mapped(a) :: linear(a) < size }
  }

  // ---------------------------------------------------------------- setting and removing

  /** Entry b once SetBreakpoints has passed over it. */
  function Passed(mc: Machine, b: Breakpoint): Breakpoint {
    if b.Active() && mc.bad(b.addr) then b.(enabled := false) else b
  }

  /** The memory once SetBreakpoints has passed over the first k entries. */
  function Patched(mc: Machine, t: seq<Breakpoint>, mem: Memory, set_: bool, k: nat): (m: Memory)
    requires k <= |t|
    ensures |m| == |mem|
  {
    if k == 0 then mem
    else
      var m := Patched(mc, t, mem, set_, k - 1);
      var b := t[k - 1];
      if b.Active() && !mc.bad(b.addr) && mc.linear(b.addr) < |m|
      then m[mc.linear(b.addr) := if set_ then INT3 else b.opcode]
      else m
  }

  /** An enabled entry among the first k sits at linear address a, and a can be written. */
  ghost predicate Covers(mc: Machine, t: seq<Breakpoint>, k: nat, a: nat)
    requires k <= |t|
  {
    exists i | 0 <= i < k :: t[i].Active() && !mc.bad(t[i].addr) && mc.linear(t[i].addr) == a
  }

  /** Setting puts INT3 at every covered address and changes nothing else. */
  lemma {:induction false} SettingPatches(mc: Machine, t: seq<Breakpoint>, mem: Memory, k: nat, a: nat)
    requires k <= |t| && a < |mem|
    ensures Patched(mc, t, mem, true, k)[a] == if Covers(mc, t, k, a) then INT3 else mem[a]
  {
    if k > 0 {
      SettingPatches(mc, t, mem, k - 1, a);
      var b := t[k - 1];
      if b.Active() && !mc.bad(b.addr) && mc.linear(b.addr) == a {
        assert Covers(mc, t, k, a);
      } else if Covers(mc, t, k, a) {
        assert Covers(mc, t, k - 1, a);
      }
    }
  }

  /** Every entry that is enabled, and every entry of the user that could be enabled again,
      remembers the byte the program has at its address. */
  ghost predicate Remembers(mc: Machine, t: seq<Breakpoint>, orig: Memory) {
    forall i | 0 <= i < |t| :: t[i].inUse && (i > 0 || t[i].enabled) && mc.linear(t[i].addr) < |orig| ==>
      t[i].opcode == orig[mc.linear(t[i].addr)]
  }

  /** Removing puts the original byte back at every covered address, whichever of several entries
      there comes last, and changes nothing else. */
  lemma {:induction false} RemovingRestores(mc: Machine, t: seq<Breakpoint>, mem: Memory, orig: Memory, k: nat, a: nat)
    requires k <= |t| && a < |mem| == |orig|
    requires Remembers(mc, t, orig)
    ensures Patched(mc, t, mem, false, k)[a] == if Covers(mc, t, k, a) then orig[a] else mem[a]
  {
    if k > 0 {
      RemovingRestores(mc, t, mem, orig, k - 1, a);
      var b := t[k - 1];
      if b.Active() && !mc.bad(b.addr) && mc.linear(b.addr) == a {
        assert Covers(mc, t, k, a);
      } else if Covers(mc, t, k, a) {
        assert Covers(mc, t, k - 1, a);
      }
    }
  }

  /** The last of the first k entries that is enabled, readable and at linear address a, or -1. */
  function LastAt(mc: Machine, t: seq<Breakpoint>, k: nat, a: nat): (i: int)
    requires k <= |t|
    ensures -1 <= i < k
    ensures i == -1 <==> !Covers(mc, t, k, a)
    ensures i >= 0 ==> t[i].Active() && !mc.bad(t[i].addr) && mc.linear(t[i].addr) == a
  {
    if k == 0 then -1
    else if t[k - 1].Active() && !mc.bad(t[k - 1].addr) && mc.linear(t[k - 1].addr) == a then k - 1
    else
      var i := LastAt(mc, t, k - 1, a);
      assert Covers(mc, t, k, a) <==> Covers(mc, t, k - 1, a);
      i
  }

  /** Whatever the entries remember, removing writes what the last one at each address does. */
  lemma {:induction false} RemovingWritesLast(mc: Machine, t: seq<Breakpoint>, mem: Memory, k: nat, a: nat)
    requires k <= |t| && a < |mem|
    ensures var i := LastAt(mc, t, k, a);
            Patched(mc, t, mem, false, k)[a] == if i == -1 then mem[a] else t[i].opcode
  {
    if k > 0 {
      RemovingWritesLast(mc, t, mem, k - 1, a);
    }
  }

  // ---------------------------------------------------------------- the debugger

  /** Table, next free entry and memory, with the memory as the program alone would have it. */
  datatype Debugger = Debugger(t: seq<Breakpoint>, next: nat, mem: Memory, orig: Memory)

  /** Entries from the next one on have never been used. */
  predicate WellFormed(d: Debugger) {
    && |d.t| == MAX_BREAKPOINTS && 1 <= d.next <= MAX_BREAKPOINTS && |d.mem| == |d.orig|
    && forall i | d.next <= i < MAX_BREAKPOINTS :: !d.t[i].inUse
  }

  /** The debugger has control: no patch is in memory. */
  ghost predicate Stopped(mc: Machine, d: Debugger) {
    WellFormed(d) && Remembers(mc, d.t, d.orig) && d.mem == d.orig
  }

  /** The program has control: memory differs from the original at most under enabled entries,
      and there it holds INT3. */
  ghost predicate Running(mc: Machine, d: Debugger) {
    && WellFormed(d)
    && Remembers(mc, d.t, d.orig)
    && forall a | 0 <= a < |d.mem| :: d.mem[a] != d.orig[a] ==> d.mem[a] == INT3 && UnderEntry(mc, d.t, a)
  }

  /** An enabled entry sits at linear address a, readable or not. */
  ghost predicate UnderEntry(mc: Machine, t: seq<Breakpoint>, a: nat) {
    exists i | 0 <= i < |t| :: t[i].Active() && mc.linear(t[i].addr) == a
  }

  /** DEBUG_SetBreakpoints. */
  function SetBreakpoints(mc: Machine, d: Debugger, set_: bool): Debugger {
    d.(mem := Patched(mc, d.t, d.mem, set_, |d.t|), t := seq(|d.t|, i requires 0 <= i < |d.t| => Passed(mc, d.t[i])))
  }

  /** After setting, every enabled entry is readable and INT3 sits exactly under the enabled
      entries (or where the program has one of its own). */
  lemma SetMakesRunning(mc: Machine, d: Debugger)
    requires Stopped(mc, d)
    ensures var r := SetBreakpoints(mc, d, true);
            && Running(mc, r)
            && r.orig == d.orig
            && forall a | 0 <= a < |r.mem| :: r.mem[a] == if Covers(mc, d.t, |d.t|, a) then INT3 else d.orig[a]
    ensures var r := SetBreakpoints(mc, d, true);
            forall i | 0 <= i < |r.t| && r.t[i].Active() :: !mc.bad(r.t[i].addr)
  {
    var r := SetBreakpoints(mc, d, true);
    forall a | 0 <= a < |r.mem|
      ensures r.mem[a] == if Covers(mc, d.t, |d.t|, a) then INT3 else d.orig[a]
      ensures r.mem[a] != r.orig[a] ==> UnderEntry(mc, r.t, a)
    {
      SettingPatches(mc, d.t, d.mem, |d.t|, a);
      if Covers(mc, d.t, |d.t|, a) {
        var i :| 0 <= i < |d.t| && d.t[i].Active() && !mc.bad(d.t[i].addr) && mc.linear(d.t[i].addr) == a;
        assert r.t[i] == d.t[i];
      }
    }
  }

  /** At every address, the last enabled readable entry there remembers the original byte, or
      else the byte is in memory. */
  ghost predicate Restorable(mc: Machine, d: Debugger)
    requires WellFormed(d)
  {
    forall a | 0 <= a < |d.mem| ::
      var i := LastAt(mc, d.t, |d.t|, a);
      (if i == -1 then d.mem[a] else d.t[i].opcode) == d.orig[a]
  }

  /** Removing the breakpoints gives back the original memory, byte for byte, if and only if what
      each last entry remembers and what is in memory elsewhere is right. */
  lemma RemoveRestoresIff(mc: Machine, d: Debugger)
    requires WellFormed(d)
    ensures var r := SetBreakpoints(mc, d, false); r.orig == d.orig && (r.mem == r.orig <==> Restorable(mc, d))
  {
    var r := SetBreakpoints(mc, d, false);
    forall a | 0 <= a < |d.mem|
      ensures var i := LastAt(mc, d.t, |d.t|, a); r.mem[a] == if i == -1 then d.mem[a] else d.t[i].opcode
    {
      RemovingWritesLast(mc, d.t, d.mem, |d.t|, a);
    }
  }

  /** Every patch in memory is under an enabled entry that can still be read. */
  ghost predicate AllReachable(mc: Machine, d: Debugger) {
    forall a | 0 <= a < |d.mem| && |d.mem| == |d.orig| :: d.mem[a] != d.orig[a] ==> Covers(mc, d.t, |d.t|, a)
  }

  /** While a program runs whose breakpoints remember the right bytes, that is so if and only if
      every patch can still be reached. */
  lemma RunningRestorableIff(mc: Machine, d: Debugger)
    requires Running(mc, d)
    ensures Restorable(mc, d) <==> AllReachable(mc, d)
    ensures AllReachable(mc, d) ==> Stopped(mc, SetBreakpoints(mc, d, false))
  {
    RemoveRestoresIff(mc, d);
    forall a | 0 <= a < |d.mem|
      ensures var i := LastAt(mc, d.t, |d.t|, a);
              ((if i == -1 then d.mem[a] else d.t[i].opcode) == d.orig[a]) ==
              (d.mem[a] != d.orig[a] ==> Covers(mc, d.t, |d.t|, a))
    {
    }
  }

  // ---------------------------------------------------------------- table operations

  /** The entry DEBUG_AddBreakpoint takes: the next one never used, later the first free one. */
  function FreeFrom(t: seq<Breakpoint>, i: nat): (r: nat)
    requires i <= |t|
    ensures i <= r <= |t|
    ensures r < |t| ==> !t[r].inUse
    ensures forall j | i <= j < r :: t[j].inUse
    decreases |t| - i
  {
    if i < |t| && t[i].inUse then FreeFrom(t, i + 1) else i
  }

  function Slot(d: Debugger): nat
    requires WellFormed(d)
  {
    if d.next < MAX_BREAKPOINTS then d.next else FreeFrom(d.t, 1)
  }

  /** DEBUG_AddBreakpoint. */
  function Add(mc: Machine, d: Debugger, a: Address): Debugger
    requires WellFormed(d)
  {
    if mc.bad(a) || mc.linear(a) >= |d.mem| then d
    else
      var num := Slot(d);
      var next := if d.next < MAX_BREAKPOINTS then d.next + 1 else d.next;
      if num >= MAX_BREAKPOINTS then d
      else d.(t := d.t[num := Breakpoint(a, d.mem[mc.linear(a)], true, 0, true)], next := next)
  }

  /** The number names an entry of the user. */
  predicate Valid(d: Debugger, num: int)
    requires WellFormed(d)
  {
    0 < num < d.next && d.t[num].inUse
  }

  /** DEBUG_DelBreakpoint. */
  function Delete(d: Debugger, num: int): Debugger
    requires WellFormed(d)
  {
    if !Valid(d, num) then d else d.(t := d.t[num := d.t[num].(enabled := false, inUse := false, skipcount := 0)])
  }

  /** DEBUG_EnableBreakpoint. */
  function Enable(d: Debugger, num: int, on: bool): Debugger
    requires WellFormed(d)
  {
    if !Valid(d, num) then d else d.(t := d.t[num := d.t[num].(enabled := on, skipcount := 0)])
  }

  /** DEBUG_FindBreakpoint from entry i on: the first enabled one at exactly this address. */
  function FindFrom(t: seq<Breakpoint>, a: Address, i: nat): (r: int)
    requires i <= |t|
    ensures r == -1 || i <= r < |t|
    ensures r >= 0 ==> t[r].Active() && t[r].addr == a && forall j | i <= j < r :: !(t[j].Active() && t[j].addr == a)
    ensures r == -1 ==> forall j | i <= j < |t| :: !(t[j].Active() && t[j].addr == a)
    decreases |t| - i
  {
    if i == |t| then -1
    else if t[i].Active() && t[i].addr == a then i
    else FindFrom(t, a, i + 1)
  }

  /** Entry n, free before, has become a breakpoint at a. */
  ghost predicate Placed(mc: Machine, d: Debugger, r: Debugger, a: Address, n: nat) {
    && 1 <= n < |d.t| == |r.t| && !d.t[n].inUse && mc.linear(a) < |d.mem|
    && r.t == d.t[n := Breakpoint(a, d.mem[mc.linear(a)], true, 0, true)]
  }

  /** A breakpoint is added if and only if its address can be read and the user's entries are not
      all in use.  It never takes the place of one in use, and it is found where it is. */
  lemma AddTakesAFreeEntry(mc: Machine, d: Debugger, a: Address)
    requires WellFormed(d) && mc.Sane() && mc.size == |d.mem|
    ensures var r := Add(mc, d, a);
            && WellFormed(r) && r.mem == d.mem && r.orig == d.orig
            && if mc.Mapped(a) && exists i | 1 <= i < |d.t| :: !d.t[i].inUse
               then FindFrom(r.t, a, 0) >= 0 && exists n: nat :: Placed(mc, d, r, a, n) && Valid(r, n)
               else r.t == d.t
    ensures mc.Mapped(a) && d.next < MAX_BREAKPOINTS ==>
              Placed(mc, d, Add(mc, d, a), a, d.next) && Add(mc, d, a).next == d.next + 1
  {
    var r := Add(mc, d, a);
    if i :| 1 <= i < |d.t| && !d.t[i].inUse && mc.Mapped(a) {
      var n := Slot(d);
      assert n <= i || d.next < MAX_BREAKPOINTS;
      assert r.t[n].Active() && r.t[n].addr == a;
      assert Placed(mc, d, r, a, n) && Valid(r, n);
    }
  }

  /** Deleting the entry that was added leaves the enabled breakpoints as they were. */
  lemma AddedAndDeleted(mc: Machine, d: Debugger, a: Address, n: nat)
    requires WellFormed(d) && mc.Sane() && mc.size == |d.mem|
    requires Placed(mc, d, Add(mc, d, a), a, n) && WellFormed(Add(mc, d, a))
    ensures var r := Delete(Add(mc, d, a), n);
            && |r.t| == |d.t| && !r.t[n].inUse && !d.t[n].inUse
            && (forall i | 0 <= i < |d.t| && i != n :: r.t[i] == d.t[i])
            && (forall b: Address :: FindFrom(r.t, b, 0) == FindFrom(d.t, b, 0))
  {
    var r := Delete(Add(mc, d, a), n);
    forall b: Address ensures FindFrom(r.t, b, 0) == FindFrom(d.t, b, 0) {
      SameFound(d.t, r.t, b);
    }
  }

  /** Tables that agree on their enabled entries find the same. */
  lemma SameFound(t: seq<Breakpoint>, u: seq<Breakpoint>, a: Address)
    requires |t| == |u|
    requires forall j | 0 <= j < |t| :: t[j].Active() == u[j].Active() && (t[j].Active() ==> t[j].addr == u[j].addr)
    ensures FindFrom(t, a, 0) == FindFrom(u, a, 0)
  {
  }

  /** DEBUG_ShouldContinue as far as it changes the table: the step-over entry is switched off,
      and the entry that was hit, unless its condition is false, uses up one of its skips. */
  function Hit(d: Debugger, pc: Address, condition: bool): Debugger
    requires WellFormed(d)
  {
    var bpnum := FindFrom(d.t, pc, 0);
    var t := d.t[0 := d.t[0].(enabled := false)];
    if bpnum > 0 && condition && t[bpnum].skipcount > 0
    then d.(t := t[bpnum := t[bpnum].(skipcount := t[bpnum].skipcount - 1)])
    else d.(t := t)
  }

  datatype Mode = Cont | StepOver(next: Address) | Single

  /** An int stored in a 16-bit word. */
  function ToWord(i: int): nat { i % 0x1_0000 }

  /** DEBUG_RestartExecution once the mode is settled: at an enabled entry of the user the next
      instruction is single-stepped, without any patch in memory; otherwise continuing sets the
      breakpoints, and stepping over sets entry 0 behind the call and then all of them. */
  function Restart(mc: Machine, d: Debugger, pc: Address, mode: Mode, count: int): Debugger
    requires WellFormed(d)
  {
    var bp := FindFrom(d.t, pc, 0);
    if bp > 0 then
      if count != 0 && mode.Cont? then d.(t := d.t[bp := d.t[bp].(skipcount := ToWord(count))]) else d
    else match mode
      case Cont => SetBreakpoints(mc, d, true)
      case StepOver(next) => SetBreakpoints(mc, ArmStepOver(mc, d, next), true)
      case Single => d
  }

  function ArmStepOver(mc: Machine, d: Debugger, next: Address): Debugger
    requires WellFormed(d)
  {
    if mc.linear(next) >= |d.mem| then d
    else d.(t := d.t[0 := Breakpoint(next, d.mem[mc.linear(next)], true, 0, true)])
  }

  /** The debugger's or the program's own store of v at linear address a. */
  function Store(d: Debugger, a: nat, v: byte): Debugger
    requires WellFormed(d) && a < |d.mem|
  {
    d.(mem := d.mem[a := v], orig := d.orig[a := v])
  }

  /** No entry remembers the byte at a: none of the user's that is in use sits there, enabled or
      not, nor the step-over entry while it is enabled. */
  ghost predicate Unwatched(mc: Machine, t: seq<Breakpoint>, a: nat) {
    forall i | 0 <= i < |t| :: t[i].inUse && (i > 0 || t[i].enabled) ==> mc.linear(t[i].addr) != a
  }

  // ---------------------------------------------------------------- runs

  datatype Event =
    | EvAdd(a: Address)
    | EvDelete(num: int)
    | EvEnable(num: int, on: bool)
    | EvHit(pc: Address, condition: bool)
    | EvStore(at: nat, v: byte)
    | EvRestart(pc: Address, mode: Mode, count: int)   // the debugger gives up control
    | EvTrap(mc: Machine)                              // and gets it back, on a possibly changed map

  /** A state of the protocol: who has control, and the memory map in force. */
  datatype State = State(running: bool, mc: Machine, d: Debugger)

  /** The original memory can be told from what is in memory now. */
  ghost predicate Consistent(s: State) {
    s.mc.Sane() && s.mc.size == |s.d.orig| &&
    if s.running then Running(s.mc, s.d) else Stopped(s.mc, s.d)
  }

  /** The protocol: the table changes only while the debugger has control, nobody stores another
      byte where a breakpoint remembers one, addresses keep their meaning, and pages that hold a
      patch stay readable. */
  ghost predicate Allowed(s: State, ev: Event)
    requires Consistent(s)
  {
    match ev
    case EvStore(a, v) => a < |s.d.mem| && (Unwatched(s.mc, s.d.t, a) || v == s.d.orig[a])
    case EvTrap(mc) =>
      s.running && mc.Sane() && mc.size == s.mc.size && mc.linear == s.mc.linear && AllReachable(mc, s.d)
    case EvRestart(_, _, _) => !s.running
    case _ => !s.running
  }

  function Next(s: State, ev: Event): State
    requires WellFormed(s.d)
    requires ev.EvStore? ==> ev.at < |s.d.mem|
  {
    match ev
    case EvAdd(a) => s.(d := Add(s.mc, s.d, a))
    case EvDelete(num) => s.(d := Delete(s.d, num))
    case EvEnable(num, on) => s.(d := Enable(s.d, num, on))
    case EvHit(pc, condition) => s.(d := Hit(s.d, pc, condition))
    case EvStore(a, v) => s.(d := Store(s.d, a, v))
    case EvRestart(pc, mode, count) => s.(running := true, d := Restart(s.mc, s.d, pc, mode, count))
    case EvTrap(mc) => State(false, mc, SetBreakpoints(mc, s.d, false))
  }

  lemma EditKeepsRemembering(mc: Machine, t: seq<Breakpoint>, orig: Memory, num: nat, b: Breakpoint)
    requires Remembers(mc, t, orig) && num < |t|
    requires b.inUse && (num > 0 || b.enabled) && mc.linear(b.addr) < |orig| ==>
               b.opcode == orig[mc.linear(b.addr)]
    ensures Remembers(mc, t[num := b], orig)
  {
  }

  lemma HitKeepsRemembering(mc: Machine, d: Debugger, pc: Address, condition: bool)
    requires WellFormed(d) && Remembers(mc, d.t, d.orig)
    ensures Remembers(mc, Hit(d, pc, condition).t, d.orig)
  {
    var t := d.t[0 := d.t[0].(enabled := false)];
    EditKeepsRemembering(mc, d.t, d.orig, 0, t[0]);
    var bpnum := FindFrom(d.t, pc, 0);
    if bpnum > 0 && t[bpnum].skipcount > 0 {
      EditKeepsRemembering(mc, t, d.orig, bpnum, t[bpnum].(skipcount := t[bpnum].skipcount - 1));
    }
  }

  /** Giving up control from a stopped state. */
  lemma RestartMakesRunning(mc: Machine, d: Debugger, pc: Address, mode: Mode, count: int)
    requires Stopped(mc, d)
    ensures var r := Restart(mc, d, pc, mode, count); Running(mc, r) && r.orig == d.orig
  {
    var bp := FindFrom(d.t, pc, 0);
    if bp > 0 {
      EditKeepsRemembering(mc, d.t, d.orig, bp, d.t[bp].(skipcount := ToWord(count)));
    } else {
      match mode
      case Cont => SetMakesRunning(mc, d);
      case StepOver(next) =>
        if mc.linear(next) < |d.mem| {
          EditKeepsRemembering(mc, d.t, d.orig, 0, ArmStepOver(mc, d, next).t[0]);
        }
        SetMakesRunning(mc, ArmStepOver(mc, d, next));
      case Single =>
    }
  }

  /** A store leaves the original memory recoverable if and only if nothing is remembered at its
      address or the byte is the one that is there anyway. */
  lemma StoreKeepsConsistentIff(s: State, at: nat, v: byte)
    requires Consistent(s) && at < |s.d.mem|
    ensures Consistent(Next(s, EvStore(at, v))) <==> Unwatched(s.mc, s.d.t, at) || v == s.d.orig[at]
  {
    var d, r := s.d, Store(s.d, at, v);
    if Unwatched(s.mc, d.t, at) || v == d.orig[at] {
      forall i | 0 <= i < |r.t| && r.t[i].inUse && (i > 0 || r.t[i].enabled) && s.mc.linear(r.t[i].addr) < |r.orig|
        ensures r.t[i].opcode == r.orig[s.mc.linear(r.t[i].addr)]
      {
      }
      if s.running {
        forall a | 0 <= a < |r.mem| && r.mem[a] != r.orig[a] ensures r.mem[a] == INT3 && UnderEntry(s.mc, r.t, a) {
          assert d.mem[a] != d.orig[a];
        }
      }
    } else {
      var i :| 0 <= i < |d.t| && d.t[i].inUse && (i > 0 || d.t[i].enabled) && s.mc.linear(d.t[i].addr) == at;
      assert d.t[i].opcode == d.orig[at] != r.orig[at];
    }
  }

  lemma EventKeepsConsistent(s: State, ev: Event)
    requires Consistent(s) && Allowed(s, ev)
    ensures Consistent(Next(s, ev))
  {
    match ev
    case EvAdd(a) =>
      var num := Slot(s.d);
      if !s.mc.bad(a) && num < MAX_BREAKPOINTS {
        EditKeepsRemembering(s.mc, s.d.t, s.d.orig, num, Breakpoint(a, s.d.mem[s.mc.linear(a)], true, 0, true));
      }
    case EvDelete(num) =>
    case EvEnable(num, on) =>
    case EvHit(pc, condition) => HitKeepsRemembering(s.mc, s.d, pc, condition);
    case EvStore(at, v) => StoreKeepsConsistentIff(s, at, v);
    case EvRestart(pc, mode, count) => RestartMakesRunning(s.mc, s.d, pc, mode, count);
    case EvTrap(mc) =>
      assert Running(mc, s.d);
      RunningRestorableIff(mc, s.d);
  }

  ghost predicate IsRun(s: State, evs: seq<Event>)
    requires Consistent(s)
    decreases evs
  {
    evs == [] || (Allowed(s, evs[0]) && (EventKeepsConsistent(s, evs[0]); IsRun(Next(s, evs[0]), evs[1..])))
  }

  ghost function Run(s: State, evs: seq<Event>): State
    requires Consistent(s) && IsRun(s, evs)
    decreases evs
  {
    if evs == [] then s
    else
      EventKeepsConsistent(s, evs[0]);
      Run(Next(s, evs[0]), evs[1..])
  }

  /** The memory as the program alone would have it: only stores change it. */
  function Stored(mem: Memory, evs: seq<Event>): Memory
    decreases evs
  {
    if evs == [] then mem
    else if evs[0].EvStore? && evs[0].at < |mem| then Stored(mem[evs[0].at := evs[0].v], evs[1..])
    else Stored(mem, evs[1..])
  }

  lemma OnlyStoresChangeOrig(s: State, ev: Event)
    requires Consistent(s) && Allowed(s, ev)
    ensures Next(s, ev).d.orig == if ev.EvStore? then s.d.orig[ev.at := ev.v] else s.d.orig
  {
  }

  /** Over every run: whenever the debugger has control, memory is byte for byte what the program
      alone would have made it; while the program runs, it differs from that at most at linear
      addresses of enabled entries, all of which hold INT3. */
  lemma {:induction false} RunIsTransparent(s: State, evs: seq<Event>)
    requires Consistent(s) && IsRun(s, evs)
    ensures var r := Run(s, evs);
            && Consistent(r)
            && r.d.orig == Stored(s.d.orig, evs)
            && (!r.running ==> r.d.mem == Stored(s.d.orig, evs))
            && (r.running ==> |r.d.mem| == |r.d.orig| && forall a | 0 <= a < |r.d.mem| && r.d.mem[a] != r.d.orig[a] ::
                  r.d.mem[a] == INT3 && UnderEntry(r.mc, r.d.t, a))
    decreases evs
  {
    if evs != [] {
      EventKeepsConsistent(s, evs[0]);
      OnlyStoresChangeOrig(s, evs[0]);
      RunIsTransparent(Next(s, evs[0]), evs[1..]);
    }
  }

  /** Restarting at an enabled entry of the user leaves every patch out: the instruction that is
      stepped over is the program's own.  Continuing anywhere else leaves the byte at the restart
      address alone unless a readable enabled entry is at the same linear address. */
  lemma RestartRunsOwnInstruction(mc: Machine, d: Debugger, pc: Address, mode: Mode, count: int)
    requires Stopped(mc, d) && mc.linear(pc) < |d.mem|
    ensures FindFrom(d.t, pc, 0) > 0 ==> Restart(mc, d, pc, mode, count).mem == d.orig
    ensures FindFrom(d.t, pc, 0) <= 0 && mode.Cont? && !Covers(mc, d.t, |d.t|, mc.linear(pc)) ==>
              Restart(mc, d, pc, mode, count).mem[mc.linear(pc)] == d.orig[mc.linear(pc)]
  {
    if FindFrom(d.t, pc, 0) <= 0 && mode.Cont? {
      SettingPatches(mc, d.t, d.mem, |d.t|, mc.linear(pc));
    }
  }

  /** Continuing from where no entry of the user is enabled puts INT3 exactly where an enabled entry
      can be read, and leaves the program's byte everywhere else. */
  lemma ContinuingSets(mc: Machine, d: Debugger, pc: Address, count: int)
    requires Stopped(mc, d) && FindFrom(d.t, pc, 0) <= 0
    ensures var r := Restart(mc, d, pc, Cont, count);
            && (forall a | 0 <= a < |r.mem| :: r.mem[a] == if Covers(mc, d.t, |d.t|, a) then INT3 else d.orig[a])
            && (forall i | 0 <= i < |d.t| :: r.t[i].Active() <==> d.t[i].Active() && !mc.bad(d.t[i].addr))
  {
    SetMakesRunning(mc, d);
  }

  /** Stepping over arms entry 0 behind the call, where it remembers the program's byte, and puts
      INT3 there and exactly where an enabled entry of the user can be read. */
  lemma SteppingOverArms(mc: Machine, d: Debugger, pc: Address, next: Address, count: int)
    requires Stopped(mc, d) && FindFrom(d.t, pc, 0) <= 0
    requires mc.Mapped(next) && mc.linear(next) < |d.mem|
    ensures var r := Restart(mc, d, pc, StepOver(next), count);
            && r.t[0].Active() && r.t[0].addr == next && r.t[0].opcode == d.orig[mc.linear(next)]
            && r.mem[mc.linear(next)] == INT3
            && (forall a | 0 <= a < |r.mem| && a != mc.linear(next) ::
                  r.mem[a] == if CoveredByUser(mc, d.t, a) then INT3 else d.orig[a])
            && (forall i | 0 < i < |d.t| :: r.t[i].Active() <==> d.t[i].Active() && !mc.bad(d.t[i].addr))
  {
    var e, at := ArmStepOver(mc, d, next), mc.linear(next);
    EditKeepsRemembering(mc, d.t, d.orig, 0, e.t[0]);
    SetMakesRunning(mc, e);
    assert Covers(mc, e.t, |e.t|, at) by {
      assert e.t[0].Active() && mc.linear(e.t[0].addr) == at;
    }
    forall a | 0 <= a < |d.mem| && a != at
      ensures Covers(mc, e.t, |e.t|, a) <==> CoveredByUser(mc, d.t, a)
    {
      if i :| 0 <= i < |e.t| && e.t[i].Active() && !mc.bad(e.t[i].addr) && mc.linear(e.t[i].addr) == a {
        assert e.t[i] == d.t[i];
      }
      if i :| 0 < i < |d.t| && d.t[i].Active() && !mc.bad(d.t[i].addr) && mc.linear(d.t[i].addr) == a {
        assert e.t[i] == d.t[i];
      }
    }
  }

  /** An enabled readable entry of the user sits at linear address a. */
  ghost predicate CoveredByUser(mc: Machine, t: seq<Breakpoint>, a: nat) {
    exists i | 0 < i < |t| :: t[i].Active() && !mc.bad(t[i].addr) && mc.linear(t[i].addr) == a
  }

  /** When the stop behind the call comes, the trap takes the patches out and the step-over entry is
      switched off: memory is the program's, and the user's readable entries are as they were. */
  lemma SteppedOver(mc: Machine, d: Debugger, pc: Address, next: Address, count: int)
    requires Stopped(mc, d) && FindFrom(d.t, pc, 0) <= 0
    requires mc.Mapped(next) && mc.linear(next) < |d.mem|
    ensures var f := Restart(mc, d, pc, StepOver(next), count);
            var r := Hit(SetBreakpoints(mc, f, false), next, true);
            && Stopped(mc, r) && r.mem == d.mem && !r.t[0].Active()
            && (forall i | 0 < i < |d.t| :: r.t[i].Active() <==> d.t[i].Active() && !mc.bad(d.t[i].addr))
  {
    var f := Restart(mc, d, pc, StepOver(next), count);
    RestartMakesRunning(mc, d, pc, StepOver(next), count);
    SteppingOverArms(mc, d, pc, next, count);
    forall a | 0 <= a < |f.mem| && f.mem[a] != f.orig[a] ensures Covers(mc, f.t, |f.t|, a) {
      var i :| 0 <= i < |f.t| && f.t[i].Active() && mc.linear(f.t[i].addr) == a;
      assert !mc.bad(f.t[i].addr);
    }
    RunningRestorableIff(mc, f);
    HitKeepsRemembering(mc, SetBreakpoints(mc, f, false), next, true);
  }

  /** A single step changes nothing. */
  lemma SingleSteppingKeeps(mc: Machine, d: Debugger, pc: Address, count: int)
    requires WellFormed(d)
    ensures Restart(mc, d, pc, Single, count) == d
  {
  }

  /** Continuing from an entry of the user with a count between 1 and 65535 leaves that count there
      and nothing else: the breakpoint is then passed that many times less one. */
  lemma CountIsKept(mc: Machine, d: Debugger, pc: Address, count: int, n: nat)
    requires WellFormed(d) && !d.t[0].enabled && FindFrom(d.t, pc, 0) > 0 && 0 < count < 0x1_0000
    ensures var bp, r := FindFrom(d.t, pc, 0), Restart(mc, d, pc, Cont, count);
            && WellFormed(r) && r.mem == d.mem && r.t == d.t[bp := d.t[bp].(skipcount := count)]
            && (n < count ==> (Stops(HitTimes(r, pc, n), pc, true) <==> n == count - 1))
  {
    var bp, r := FindFrom(d.t, pc, 0), Restart(mc, d, pc, Cont, count);
    SameFound(d.t, r.t, pc);
    CountedContinue(r, pc, n);
  }

  /** A stop switches the step-over entry off and no other.  On a false condition that is all, and
      the program goes on. */
  lemma HitSwitchesOff(d: Debugger, pc: Address, condition: bool)
    requires WellFormed(d)
    ensures var r := Hit(d, pc, condition);
            && WellFormed(r) && r.mem == d.mem && r.orig == d.orig && !r.t[0].Active()
            && (forall i | 0 < i < |d.t| :: r.t[i].Active() == d.t[i].Active() && r.t[i].addr == d.t[i].addr)
            && (forall b: Address :: FindFrom(d.t, b, 0) > 0 ==> FindFrom(r.t, b, 0) == FindFrom(d.t, b, 0))
    ensures !condition ==> !Stops(d, pc, false) && Hit(d, pc, false).t[1..] == d.t[1..]
    ensures FindFrom(d.t, pc, 0) <= 0 ==> !Stops(d, pc, condition)
    ensures FindFrom(d.t, pc, 0) > 0 && condition && d.t[FindFrom(d.t, pc, 0)].skipcount <= 0 ==>
              Stops(d, pc, condition) && Hit(d, pc, condition).t[1..] == d.t[1..]
  {
    var r := Hit(d, pc, condition);
    forall b: Address | FindFrom(d.t, b, 0) > 0 ensures FindFrom(r.t, b, 0) == FindFrom(d.t, b, 0) {
      var k, j := FindFrom(d.t, b, 0), FindFrom(r.t, b, 0);
      assert r.t[k].Active() && r.t[k].addr == b;
      assert j > 0 && d.t[j].Active() && d.t[j].addr == b;
    }
  }

  /** An entry of the user that is switched off or deleted is found nowhere; one that is switched on
      is found at its address, unless one before it is, and passes none. */
  lemma SwitchedIsFound(d: Debugger, num: int, b: Address)
    requires WellFormed(d) && Valid(d, num)
    ensures FindFrom(Enable(d, num, false).t, b, 0) != num && FindFrom(Delete(d, num).t, b, 0) != num
    ensures 0 <= FindFrom(Enable(d, num, true).t, d.t[num].addr, 0) <= num
    ensures forall on :: Enable(d, num, on).t[num].skipcount == 0 && Valid(Enable(d, num, on), num)
    ensures !Valid(Delete(d, num), num)
  {
    assert Enable(d, num, true).t[num].Active();
  }

  /** The user's entries up to k are switched off one after the other, but for entry i, which is
      switched on. */
  function EnableOnly(d: Debugger, i: nat, k: nat): (r: Debugger)
    requires WellFormed(d)
    ensures WellFormed(r) && r.mem == d.mem && r.orig == d.orig && r.next == d.next
    ensures forall j | 0 <= j < |d.t| :: r.t[j].addr == d.t[j].addr && r.t[j].opcode == d.t[j].opcode
    ensures forall j | 0 <= j < |d.t| :: r.t[j].inUse == d.t[j].inUse
    ensures forall j | 1 <= j < |d.t| && j <= k :: r.t[j].Active() == (d.t[j].inUse && j == i)
    ensures forall j | 0 <= j < |d.t| && (j == 0 || k < j) :: r.t[j] == d.t[j]
  {
    if k == 0 then d else Enable(EnableOnly(d, i, k - 1), k, k == i)
  }

  /** Any store of another byte where an entry of the user remembers one can be lost, though the
      entry be readable all the time: if that breakpoint is the only one enabled, letting the
      program run and taking the breakpoints out brings the old byte back. */
  lemma StaleOpcode(mc: Machine, d: Debugger, i: nat, v: byte)
    requires Stopped(mc, d) && mc.Sane() && mc.size == |d.orig|
    requires Valid(d, i) && mc.Mapped(d.t[i].addr) && v != d.orig[mc.linear(d.t[i].addr)]
    requires !d.t[0].enabled
    ensures var at := mc.linear(d.t[i].addr);
            && !Unwatched(mc, d.t, at)
            && var f := SetBreakpoints(mc, EnableOnly(Store(d, at, v), i, |d.t| - 1), true);
               && WellFormed(f) && AllReachable(mc, f) && !Restorable(mc, f)
               && f.orig[at] == v && SetBreakpoints(mc, f, false).mem[at] == d.orig[at]
  {
    hide EnableOnly, Patched, SetBreakpoints, LastAt;
    var at := mc.linear(d.t[i].addr);
    var e := EnableOnly(Store(d, at, v), i, |d.t| - 1);
    var f := SetBreakpoints(mc, e, true);
    assert d.t[i].inUse && d.t[i].opcode == d.orig[at];
    OnlyActive(mc, e, true, i);
    OnlyActive(mc, f, false, i);
    assert Covers(mc, f.t, |f.t|, at);
    RemoveRestoresIff(mc, f);
  }

  lemma OnlyActive(mc: Machine, d: Debugger, set_: bool, i: nat)
    requires WellFormed(d) && i < |d.t| && d.t[i].Active() && mc.Mapped(d.t[i].addr) && mc.linear(d.t[i].addr) < |d.mem|
    requires forall j | 0 <= j < |d.t| && j != i :: !d.t[j].Active()
    ensures SetBreakpoints(mc, d, set_) ==
              d.(mem := d.mem[mc.linear(d.t[i].addr) := if set_ then INT3 else d.t[i].opcode])
  {
    OneActive(mc, d.t, d.mem, set_, i, |d.t|);
    assert SetBreakpoints(mc, d, set_).t == d.t;
  }

  lemma {:induction false} OneActive(mc: Machine, t: seq<Breakpoint>, mem: Memory, set_: bool, i: nat, k: nat)
    requires i < |t| && k <= |t| && t[i].Active() && !mc.bad(t[i].addr) && mc.linear(t[i].addr) < |mem|
    requires forall j | 0 <= j < |t| && j != i :: !t[j].Active()
    ensures Patched(mc, t, mem, set_, k) ==
              if k <= i then mem else mem[mc.linear(t[i].addr) := if set_ then INT3 else t[i].opcode]
  {
    if k > 0 {
      OneActive(mc, t, mem, set_, i, k - 1);
    }
  }

  // ---------------------------------------------------------------- skip counts

  /** DEBUG_ShouldContinue stops at the entry that was hit. */
  predicate Stops(d: Debugger, pc: Address, condition: bool)
    requires WellFormed(d)
  {
    var bpnum := FindFrom(d.t, pc, 0);
    bpnum > 0 && condition && d.t[bpnum].skipcount <= 1
  }

  function HitTimes(d: Debugger, pc: Address, n: nat): (r: Debugger)
    requires WellFormed(d)
    ensures WellFormed(r)
    decreases n
  {
    if n == 0 then d else HitTimes(Hit(d, pc, true), pc, n - 1)
  }

  /** Continuing from a breakpoint with a count passes it that many times less one, and then
      stops there. */
  lemma {:induction false} CountedContinue(d: Debugger, pc: Address, n: nat)
    requires WellFormed(d) && !d.t[0].enabled && FindFrom(d.t, pc, 0) > 0
    requires d.t[FindFrom(d.t, pc, 0)].skipcount > 0
    ensures var r := HitTimes(d, pc, n);
            var skips := d.t[FindFrom(d.t, pc, 0)].skipcount;
            n < skips ==> (Stops(r, pc, true) <==> n == skips - 1)
    decreases n
  {
    if n > 0 {
      var bp := FindFrom(d.t, pc, 0);
      var h := Hit(d, pc, true);
      assert forall i | 0 <= i < |d.t| :: h.t[i].Active() == d.t[i].Active() && h.t[i].addr == d.t[i].addr;
      SameFound(d.t, h.t, pc);
      if h.t[bp].skipcount > 0 {
        CountedContinue(h, pc, n - 1);
      }
    }
  }
}
