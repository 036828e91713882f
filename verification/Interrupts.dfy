/**
 What an interrupt, the handler of the timer and the return from the interrupt do to the registers of a
 program.  A stack is a sequence of words, the word at the lowest address first: a push puts a word in front,
 a pop takes the word in front.
 */
module Interrupts {

  datatype Register =
    | RAX | RBX | RCX | RDX | RSI | RDI | RBP | R8 | R9 | R10 | R11 | R12 | R13 | R14 | R15
    | RIP | CS | FLAGS | RSP | SS

  /** What an interrupt pushes (section 6.14.2 of the Software Developer's Manual, Volume 3A). */
  const INTERRUPT_PUSHES: seq<Register> := [SS, RSP, FLAGS, CS, RIP]

  /** What the handler pushes, and what it pops at its end. */
  const HANDLER_PUSHES: seq<Register> :=
    [RAX, RBX, RCX, RDX, RSI, RDI, RBP, R8, R9, R10, R11, R12, R13, R14, R15]
  const HANDLER_POPS: seq<Register> :=
    [R15, R14, R13, R12, R11, R10, R9, R8, RBP, RDI, RSI, RDX, RCX, RBX, RAX]

  /** What iretq pops. */
  const RETURN_POPS: seq<Register> := [RIP, CS, FLAGS, RSP, SS]

  function Pushed(order: seq<Register>, cpu: Register -> nat, stack: seq<nat>): seq<nat> {
    if order == [] then stack else Pushed(order[1..], cpu, [cpu(order[0])] + stack)
  }

  /** What a pop into each of the registers in turn leaves in the one asked for. */
  function Popped(order: seq<Register>, cpu: Register -> nat, stack: seq<nat>, r: Register): nat
    requires |order| <= |stack|
  {
    if order == [] then cpu(r)
    else Popped(order[1..], x => if x == order[0] then stack[0] else cpu(x), stack[1..], r)
  }

  lemma {:induction false} PushedAt(order: seq<Register>, cpu: Register -> nat, stack: seq<nat>, k: nat)
    requires k < |order| + |stack|
    ensures |Pushed(order, cpu, stack)| == |order| + |stack|
    ensures Pushed(order, cpu, stack)[k]
         == if k < |order| then cpu(order[|order| - 1 - k]) else stack[k - |order|]
  {
    if order != [] {
      PushedAt(order[1..], cpu, [cpu(order[0])] + stack, k);
    }
  }

  lemma {:induction false} PoppedElsewhere(order: seq<Register>, cpu: Register -> nat, stack: seq<nat>, r: Register)
    requires |order| <= |stack| && r !in order
    ensures Popped(order, cpu, stack, r) == cpu(r)
  {
    if order != [] {
      PoppedElsewhere(order[1..], x => if x == order[0] then stack[0] else cpu(x), stack[1..], r);
    }
  }

  /** The pop number k fills its register, if no later one does. */
  lemma {:induction false} PoppedAt(order: seq<Register>, cpu: Register -> nat, stack: seq<nat>, k: nat)
    requires k < |order| <= |stack|
    requires order[k] !in order[k + 1..]
    ensures Popped(order, cpu, stack, order[k]) == stack[k]
  {
    var next: Register -> nat := x => if x == order[0] then stack[0] else cpu(x);
    if k == 0 {
      PoppedElsewhere(order[1..], next, stack[1..], order[0]);
    } else {
      assert order[1..][k - 1 + 1..] == order[k + 1..];
      PoppedAt(order[1..], next, stack[1..], k - 1);
    }
  }

  const STACK_WORDS: nat := |HANDLER_POPS| + |RETURN_POPS|

  /** The kernel stack when the handler calls context_switch, above what lay there before. */
  function Interrupted(cpu: Register -> nat, below: seq<nat>): seq<nat> {
    Pushed(HANDLER_PUSHES, cpu, Pushed(INTERRUPT_PUSHES, cpu, below))
  }

  /** What the pops of the handler and its iretq leave in a register, whatever the registers held before. */
  function Resumed(cpu: Register -> nat, stack: seq<nat>, r: Register): nat
    requires STACK_WORDS <= |stack|
  {
    Popped(HANDLER_POPS + RETURN_POPS, cpu, stack, r)
  }

  lemma ResumedAt(cpu: Register -> nat, stack: seq<nat>, k: nat)
    requires k < STACK_WORDS <= |stack|
    ensures Resumed(cpu, stack, (HANDLER_POPS + RETURN_POPS)[k]) == stack[k]
  {
    PoppedAt(HANDLER_POPS + RETURN_POPS, cpu, stack, k);
  }

  /** Where a register lies on the stack of its interrupt. */
  function PlaceOf(r: Register): (k: nat)
    ensures k < STACK_WORDS && (HANDLER_POPS + RETURN_POPS)[k] == r
  {
    match r
    case RAX => 14 case RBX => 13 case RCX => 12 case RDX => 11 case RSI => 10 case RDI => 9 case RBP => 8
    case R8 => 7 case R9 => 6 case R10 => 5 case R11 => 4 case R12 => 3 case R13 => 2 case R14 => 1 case R15 => 0
    case RIP => 15 case CS => 16 case FLAGS => 17 case RSP => 18 case SS => 19
  }

  lemma InterruptedAt(cpu: Register -> nat, below: seq<nat>, r: Register)
    ensures |Interrupted(cpu, below)| == STACK_WORDS + |below|
    ensures Interrupted(cpu, below)[PlaceOf(r)] == cpu(r)
  {
    var k, n := PlaceOf(r), |HANDLER_PUSHES|;
    PushedAt(INTERRUPT_PUSHES, cpu, below, if k < n then 0 else k - n);
    PushedAt(HANDLER_PUSHES, cpu, Pushed(INTERRUPT_PUSHES, cpu, below), k);
  }

  /**
   A program that is resumed from the stack of its interrupt finds every register as it was, whatever the kernel
   left in the registers.
   */
  lemma ResumedAsInterrupted(cpu: Register -> nat, left: Register -> nat, below: seq<nat>, r: Register)
    ensures |Interrupted(cpu, below)| == STACK_WORDS + |below|
    ensures Resumed(left, Interrupted(cpu, below), r) == cpu(r)
  {
    hide Interrupted, Resumed;
    InterruptedAt(cpu, below, r);
    ResumedAt(left, Interrupted(cpu, below), PlaceOf(r));
  }
}
