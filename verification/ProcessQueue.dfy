/**
 Round-robin switching between user processes.  Every process has an address space of its own, whose
 user memory is a byte array here; all of them use the same PML4 slot, so one at a time is mapped.  The
 registers of a process that is not running lie on its own stack.
 */
module ProcessQueue {
  import opened ByteCopy
  import opened Lists

  import Interrupts

  const FRAME_WORDS: nat := 20
  const WORD_BYTES: nat := 8
  const FRAME_BYTES: nat := 160
  const USER_CODE_SEGMENT: nat := 0x28
  const USER_DATA_SEGMENT: nat := 0x20
  const USER_RING: nat := 3
  const RFLAGS: nat := 0x202

  // Words of the frame that the interrupt leaves for its return.
  const RIP: nat := 15
  const CS: nat := 16
  const FLAGS: nat := 17
  const RSP: nat := 18
  const SS: nat := 19

  // ----- words in memory

  /** A little-endian word of so many bytes. */
  function Word(bytes: seq<Byte>): nat {
    if bytes == [] then 0 else bytes[0] + 256 * Word(bytes[1..])
  }

  function BytesOf(w: nat, count: nat): (bytes: seq<Byte>)
    ensures |bytes| == count
  {
    if count == 0 then [] else [w % 256] + BytesOf(w / 256, count - 1)
  }

  function Power256(count: nat): nat {
    if count == 0 then 1 else 256 * Power256(count - 1)
  }

  lemma {:induction false} WordOfBytes(w: nat, count: nat)
    requires w < Power256(count)
    ensures Word(BytesOf(w, count)) == w
  {
    if count > 0 {
      WordOfBytes(w / 256, count - 1);
      assert BytesOf(w, count)[1..] == BytesOf(w / 256, count - 1);
    }
  }

  /** Word k of what lies at an address. */
  function WordAt(memory: seq<Byte>, base: nat, k: nat): nat
    requires base + (k + 1) * WORD_BYTES <= |memory|
  {
    Word(memory[base + k * WORD_BYTES..base + (k + 1) * WORD_BYTES])
  }

  lemma SliceOfSlice<T>(s: seq<T>, at: nat, length: nat, i: nat, j: nat)
    requires at + length <= |s| && i <= j <= length
    ensures s[at..at + length][i..j] == s[at + i..at + j]
  {
    var inner, outer := s[at..at + length], s[at + i..at + j];
    assert inner[i..j] == outer by {
      assert forall k :: 0 <= k < j - i ==> inner[i + k] == s[at + i + k] == outer[k];
    }
  }

  lemma WordOfSlice(memory: seq<Byte>, base: nat, count: nat, k: nat)
    requires k < count && base + count * WORD_BYTES <= |memory|
    ensures WordAt(memory[base..base + count * WORD_BYTES], 0, k) == WordAt(memory, base, k)
  {
    SliceOfSlice(memory, base, count * WORD_BYTES, k * WORD_BYTES, (k + 1) * WORD_BYTES);
  }

  lemma {:induction false} WordOfZeros(bytes: seq<Byte>)
    requires forall i :: 0 <= i < |bytes| ==> bytes[i] == 0
    ensures Word(bytes) == 0
  {
    if bytes != [] {
      WordOfZeros(bytes[1..]);
    }
  }

  /** Stores a word; the other words counted from the same base stay. */
  method StoreWord(mem: array<Byte>, base: nat, k: nat, w: nat)
    requires base + (k + 1) * WORD_BYTES <= mem.Length && w < Power256(WORD_BYTES)
    modifies mem
    ensures WordAt(mem[..], base, k) == w
    ensures forall j: nat :: j != k && base + (j + 1) * WORD_BYTES <= mem.Length ==>
              WordAt(mem[..], base, j) == old(WordAt(mem[..], base, j))
  {
    var bytes := BytesOf(w, WORD_BYTES);
    forall i | 0 <= i < WORD_BYTES {
      mem[base + k * WORD_BYTES + i] := bytes[i];
    }
    assert mem[..][base + k * WORD_BYTES..base + (k + 1) * WORD_BYTES] == bytes;
    WordOfBytes(w, WORD_BYTES);
    forall j: nat | j != k && base + (j + 1) * WORD_BYTES <= mem.Length
      ensures WordAt(mem[..], base, j) == old(WordAt(mem[..], base, j)) {
      assert mem[base + j * WORD_BYTES..base + (j + 1) * WORD_BYTES] ==
          old(mem[base + j * WORD_BYTES..base + (j + 1) * WORD_BYTES]);
    }
  }

  /** memset with zero over a number of words. */
  method ZeroWords(mem: array<Byte>, base: nat, count: nat)
    requires base + count * WORD_BYTES <= mem.Length
    modifies mem
    ensures forall k: nat :: k < count ==> WordAt(mem[..], base, k) == 0
  {
    for i := 0 to count * WORD_BYTES
      invariant forall b :: base <= b < base + i ==> mem[b] == 0
    {
      mem[base + i] := 0;
    }
    forall k: nat | k < count ensures WordAt(mem[..], base, k) == 0 {
      WordOfZeros(mem[..][base + k * WORD_BYTES..base + (k + 1) * WORD_BYTES]);
    }
  }

  /** The user stack pointer among the registers. */
  function StackPointer(frame: seq<Byte>): nat
    requires |frame| == FRAME_BYTES
  {
    WordAt(frame, 0, RSP)
  }

  function WordsOf(frame: seq<Byte>): seq<nat>
    requires |frame| == FRAME_BYTES
  {
    seq(FRAME_WORDS, k requires 0 <= k < FRAME_WORDS => WordAt(frame, 0, k))
  }

  /** The stack pointer that the switch reads is the one that the return from the interrupt will load. */
  lemma StackPointerIsResumed(frame: seq<Byte>, left: Interrupts.Register -> nat)
    requires |frame| == FRAME_BYTES
    ensures StackPointer(frame) == Interrupts.Resumed(left, WordsOf(frame), Interrupts.RSP)
  {
    Interrupts.ResumedAt(left, WordsOf(frame), Interrupts.PlaceOf(Interrupts.RSP));
  }

  /** What a new process finds in its registers: user segments of ring 3, interrupts enabled, all else zero. */
  function InitialRegister(r: Interrupts.Register, entry: nat, stack: nat): nat {
    match r
    case RIP => entry
    case CS => 0x28 + 3
    case FLAGS => 0x202
    case RSP => stack
    case SS => 0x20 + 3
    case _ => 0
  }

  /** A process resumed from this frame starts at its entry, whatever the kernel left in the registers. */
  ghost predicate StartsAt(frame: seq<Byte>, entry: nat, stack: nat)
    requires |frame| == FRAME_BYTES
  {
    forall left: Interrupts.Register -> nat, r: Interrupts.Register ::
      Interrupts.Resumed(left, WordsOf(frame), r) == InitialRegister(r, entry, stack)
  }

  /** A word of the frame that a new process starts with. */
  function InitialWord(k: nat, entry: nat, stack: nat): nat {
    if k == RIP then entry
    else if k == CS then USER_CODE_SEGMENT + USER_RING
    else if k == FLAGS then RFLAGS
    else if k == RSP then stack
    else if k == SS then USER_DATA_SEGMENT + USER_RING
    else 0
  }

  lemma FrameStartsAt(frame: seq<Byte>, entry: nat, stack: nat)
    requires |frame| == FRAME_BYTES
    requires forall k: nat :: k < FRAME_WORDS ==> WordAt(frame, 0, k) == InitialWord(k, entry, stack)
    ensures StartsAt(frame, entry, stack)
  {
    forall left: Interrupts.Register -> nat, r: Interrupts.Register
      ensures Interrupts.Resumed(left, WordsOf(frame), r) == InitialRegister(r, entry, stack) {
      Interrupts.ResumedAt(left, WordsOf(frame), Interrupts.PlaceOf(r));
    }
  }

  // ----- rotation

  function Rotated<T>(list: seq<T>): seq<T> {
    if list == [] then [] else list[1..] + [list[0]]
  }

  function RotatedBy<T>(list: seq<T>, n: nat): (r: seq<T>)
    ensures |r| == |list|
  {
    if n == 0 then list else Rotated(RotatedBy(list, n - 1))
  }

  lemma FrontGoesBack<T>(front: T, rest: seq<T>, back: seq<T>)
    ensures Rotated([front] + rest + back) == rest + (back + [front])
  {
    assert ([front] + rest + back)[1..] == rest + back;
  }

  /** Up to a full round, rotating moves that many entries from the front to the back. */
  lemma {:induction false} RotationSplits<T>(list: seq<T>, n: nat)
    requires n <= |list|
    ensures RotatedBy(list, n) == list[n..] + list[..n]
  {
    if n > 0 {
      RotationSplits(list, n - 1);
      FrontGoesBack(list[n - 1], list[n..], list[..n - 1]);
      assert list[n - 1..] == [list[n - 1]] + list[n..];
      assert list[..n] == list[..n - 1] + [list[n - 1]];
    } else {
      assert list[0..] + list[..0] == list;
    }
  }

  /** In a round of |list| rotations every entry is in front once, in order, and the list ends as it began. */
  lemma EveryoneGetsATurn<T>(list: seq<T>, n: nat)
    requires n < |list|
    ensures RotatedBy(list, n)[0] == list[n] && RotatedBy(list, |list|) == list
  {
    RotationSplits(list, n);
    RotationSplits(list, |list|);
    assert list[|list|..] + list[..|list|] == list;
  }

  lemma SameMembers<T>(list: seq<T>)
    ensures forall x :: x in Rotated(list) <==> x in list
    ensures forall i :: 0 <= i < |list| ==> |Rotated(list)| == |list| && Rotated(list)[i] in list
  {
    if list != [] {
      assert list == [list[0]] + list[1..];
    }
  }

  lemma {:induction false} RotatingKeepsMembers<T>(list: seq<T>, n: nat)
    ensures forall x :: x in RotatedBy(list, n) <==> x in list
  {
    if n > 0 {
      RotatingKeepsMembers(list, n - 1);
      SameMembers(RotatedBy(list, n - 1));
    }
  }

  /** One step of a first-in first-out queue, on the sequence of all that went in. */
  lemma QueueStep<T>(gone: seq<T>, waiting: seq<T>, entered: seq<T>, front: T, left: seq<T>, back: T)
    requires gone + waiting == entered && [front] + left == waiting + [back]
    ensures gone + [front] + left == entered + [back]
  {
    assert gone + [front] + left == gone + ([front] + left);
    assert gone + (waiting + [back]) == gone + waiting + [back];
  }

  // ----- processes

  class AddressSpace {
    /** The user memory that is reached while this space is mapped. */
    const mem: array<Byte>

    constructor (size: nat)
      ensures mem.Length == size && fresh(mem) && forall i :: 0 <= i < size ==> mem[i] == 0
    {
      mem := new Byte[size](_ => 0);
    }
  }

  class Process {
    var next: Process?
    const space: AddressSpace
    const pid: nat
    /** context_stack_ptr, an address in the user memory of the space */
    var contextStack: nat

    constructor (space: AddressSpace, pid: nat)
      ensures this.space == space && this.pid == pid && next == null && contextStack == 0
    {
      this.space, this.pid := space, pid;
      next, contextStack := null, 0;
    }

    /** The saved frame lies in the process's own memory. */
    predicate HasFrame()
      reads this`contextStack
    {
      contextStack + FRAME_BYTES <= space.mem.Length
    }

    function SavedFrame(): (frame: seq<Byte>)
      requires HasFrame()
      reads this`contextStack, space.mem
      ensures |frame| == FRAME_BYTES
    {
      space.mem[contextStack..contextStack + FRAME_BYTES]
    }
  }

  ghost function Memories(list: seq<Process>): (memories: set<array<Byte>>)
    ensures forall p <- list :: p.space.mem in memories
  {
    set p | p in list :: p.space.mem
  }

  /** The frames that processes have saved. */
  function SavedFrames(list: seq<Process>): (frames: seq<seq<Byte>>)
    requires forall p <- list :: p.HasFrame()
    reads list`contextStack, Memories(list)
    ensures |frames| == |list| && forall i :: 0 <= i < |list| ==> frames[i] == list[i].SavedFrame()
  {
    if list == [] then [] else [list[0].SavedFrame()] + SavedFrames(list[1..])
  }

  /** Every process has memory of its own, and none is the kernel stack. */
  ghost predicate Apart(queue: seq<Process>, kernel: array<Byte>) {
    && (forall i, j :: 0 <= i < j < |queue| ==> queue[i].space.mem != queue[j].space.mem)
    && (forall i :: 0 <= i < |queue| ==> queue[i].space.mem != kernel)
  }

  lemma OthersApart(queue: seq<Process>, kernel: array<Byte>)
    requires Apart(queue, kernel) && queue != []
    ensures forall p <- queue[1..] :: p != queue[0] && p.space.mem != queue[0].space.mem && p.space.mem != kernel
    ensures queue[0].space.mem != kernel
  {
    forall p | p in queue[1..] ensures p != queue[0] && p.space.mem != queue[0].space.mem && p.space.mem != kernel {
      var i :| 1 <= i < |queue| && queue[i] == p;
    }
  }

  lemma LastApart(queue: seq<Process>, p: Process, kernel: array<Byte>)
    requires Apart(queue + [p], kernel)
    ensures forall o <- queue :: o != p && o.space.mem != p.space.mem
    ensures p.space.mem != kernel
  {
    var all := queue + [p];
    assert all[|queue|] == p;
    forall o | o in queue ensures o != p && o.space.mem != p.space.mem {
      var i :| 0 <= i < |queue| && queue[i] == o;
      assert all[i] == o;
    }
  }

  lemma RotationStaysApart(queue: seq<Process>, kernel: array<Byte>)
    requires Apart(queue, kernel)
    ensures Apart(Rotated(queue), kernel)
  {
    var now := Rotated(queue);
    forall i, j | 0 <= i < j < |now| ensures now[i].space.mem != now[j].space.mem {
      assert now[i] == queue[i + 1] && now[j] == if j == |now| - 1 then queue[0] else queue[j + 1];
    }
  }

  /** The next pointers run through the queue and end there. */
  ghost predicate Chain(queue: seq<Process>)
    reads queue`next
  {
    && NoRepeats(queue)
    && forall i {:trigger queue[i].next} :: 0 <= i < |queue| ==>
         queue[i].next == if i == |queue| - 1 then null else queue[i + 1]
  }

  /** What a process does while it runs: the memory it leaves, and its registers when it is interrupted. */
  datatype Turn = Turn(memory: seq<Byte>, registers: seq<Byte>)

  /** The stack pointer leaves room for the registers below it. */
  predicate GoodTurn(turn: Turn, space: AddressSpace) {
    && |turn.memory| == space.mem.Length && |turn.registers| == FRAME_BYTES
    && FRAME_BYTES <= StackPointer(turn.registers) <= space.mem.Length
  }

  function RegistersOf(turns: seq<Turn>): (frames: seq<seq<Byte>>)
    ensures |frames| == |turns|
  {
    seq(|turns|, i requires 0 <= i < |turns| => turns[i].registers)
  }

  lemma RegistersOfMore(frames: seq<seq<Byte>>, turns: seq<Turn>, i: nat)
    requires i < |turns|
    ensures frames + RegistersOf(turns[..i]) + [turns[i].registers] == frames + RegistersOf(turns[..i + 1])
  {
    assert turns[..i + 1] == turns[..i] + [turns[i]];
  }

  class ProcessQueue {
    var head: Process
    var tail: Process
    /** The kernel stack that the interrupt handler saves registers on. */
    const kernel: array<Byte>
    /** What the PML4 slot of user processes maps. */
    var mapped: AddressSpace
    ghost var queue: seq<Process>

    ghost predicate Linked()
      reads this, queue
    {
      && queue != [] && head == queue[0] && tail == queue[|queue| - 1]
      && Chain(queue) && Apart(queue, kernel) && mapped.mem != kernel
    }

    /** Processes that do not run have a saved frame. */
    ghost predicate Valid()
      reads this, queue
    {
      Linked() && forall i :: 1 <= i < |queue| ==> queue[i].HasFrame()
    }

    /** The memory of the process at the head is the one that is mapped. */
    ghost predicate HeadIsMapped()
      reads this
    {
      mapped.mem == head.space.mem
    }

    /** The first process runs, and its memory is mapped. */
    constructor (first: Process, kernel: array<Byte>)
      requires first.next == null && first.space.mem != kernel
      ensures Valid() && HeadIsMapped() && queue == [first] && this.kernel == kernel
    {
      head, tail, queue, mapped := first, first, [first], first.space;
      this.kernel := kernel;
    }

    /** The registers on the kernel stack. */
    function Registers(rsp: nat): (frame: seq<Byte>)
      requires rsp + FRAME_BYTES <= kernel.Length
      reads kernel
      ensures |frame| == FRAME_BYTES
    {
      kernel[rsp..rsp + FRAME_BYTES]
    }

    /** The queue part of context_switch: the head moves to the tail, unless it is alone. */
    method Rotate()
      requires Linked()
      modifies this`head, this`tail, this`queue, queue`next
      ensures Linked() && queue == Rotated(old(queue))
    {
      hide Apart;
      ghost var was := queue;
      RotationStaysApart(was, kernel);
      var tmp := head;
      if tmp.next != null {
        head := tmp.next;
        tmp.next := null;
        tail.next := tmp;
        tail := tmp;
        queue := Rotated(was);
        assert forall i :: 0 <= i < |was| ==> queue[i] == if i == |was| - 1 then was[0] else was[i + 1];
      } else {
        assert was[1..] + [was[0]] == was;
      }
    }

    /** The saving block: the registers go below the user stack pointer among them, in the mapped memory. */
    method SaveRegisters(rsp: nat)
      requires rsp + FRAME_BYTES <= kernel.Length && mapped.mem != kernel
      requires FRAME_BYTES <= StackPointer(Registers(rsp)) <= mapped.mem.Length
      modifies head`contextStack, mapped.mem
      ensures head.contextStack == StackPointer(Registers(rsp)) - FRAME_BYTES
      ensures mapped.mem[..] == Overwritten(old(mapped.mem[..]), head.contextStack, Registers(rsp))
    {
      var stack := StackPointer(Registers(rsp)) - FRAME_BYTES;
      MemMove(mapped.mem, stack, kernel, rsp, FRAME_BYTES, true);
      head.contextStack := stack;
    }

    /** The restoring block. */
    method RestoreRegisters(rsp: nat)
      requires rsp + FRAME_BYTES <= kernel.Length && mapped == head.space && mapped.mem != kernel && head.HasFrame()
      modifies kernel
      ensures kernel[..] == Overwritten(old(kernel[..]), rsp, head.SavedFrame())
    {
      MemMove(kernel, rsp, mapped.mem, head.contextStack, FRAME_BYTES, false);
    }

    /** The first half of context_switch: the registers are saved, the queue turns and the next memory is mapped. */
    method SaveAndTurn(rsp: nat)
      requires Valid() && rsp + FRAME_BYTES <= kernel.Length
      requires FRAME_BYTES <= StackPointer(Registers(rsp)) <= mapped.mem.Length
      requires StackPointer(Registers(rsp)) <= head.space.mem.Length
      modifies this`head, this`tail, this`queue, this`mapped, queue`next, head`contextStack, mapped.mem
      ensures Linked() && mapped == head.space && queue == Rotated(old(queue)) && forall p <- queue :: p.HasFrame()
      ensures old(head).contextStack == StackPointer(Registers(rsp)) - FRAME_BYTES && old(head).HasFrame()
      ensures old(mapped).mem[..] == Overwritten(old(mapped.mem[..]), old(head).contextStack, Registers(rsp))
    {
      hide Chain, Apart, StackPointer, Overwritten, Rotated;
      ghost var was := queue;
      OthersApart(was, kernel);
      SameMembers(was);
      assert forall i :: 0 <= i < |was| ==> was[i] in was;
      assert forall p <- was[1..] :: p.HasFrame();
      SaveRegisters(rsp);
      assert forall p <- was[1..] :: p.HasFrame();
      assert was[0].HasFrame() && was == [was[0]] + was[1..];
      assert forall p <- was :: p.HasFrame();
      Rotate();
      assert forall p <- was :: p.HasFrame();
      assert forall i :: 0 <= i < |queue| ==> queue[i] in was && queue[i].HasFrame();
      OthersApart(queue, kernel);
      mapped := head.space;
    }

    /**
     context_switch.  The queue turns by one, and the new head's memory is the one that is mapped.  The
     interrupted registers come to lie in the memory that was mapped, and nothing else of any process
     changes; so they are saved where their process will look for them exactly if its own memory was
     mapped, or the same bytes lay there.
     */
    method ContextSwitch(rsp: nat)
      requires Valid() && rsp + FRAME_BYTES <= kernel.Length
      requires FRAME_BYTES <= StackPointer(Registers(rsp)) <= mapped.mem.Length
      requires StackPointer(Registers(rsp)) <= head.space.mem.Length
      modifies this`head, this`tail, this`queue, this`mapped, queue`next, head`contextStack, mapped.mem, kernel
      ensures Valid() && HeadIsMapped() && queue == Rotated(old(queue))
      ensures old(head).contextStack == StackPointer(old(Registers(rsp))) - FRAME_BYTES && old(head).HasFrame()
      ensures old(mapped).mem[..] == Overwritten(old(mapped.mem[..]), old(head).contextStack, old(Registers(rsp)))
      ensures head.HasFrame() && kernel[..] == Overwritten(old(kernel[..]), rsp, head.SavedFrame())
      ensures Registers(rsp) == head.SavedFrame()
      ensures old(head).SavedFrame() == old(Registers(rsp)) <==>
                old(HeadIsMapped())
                || old(head.space.mem[StackPointer(Registers(rsp)) - FRAME_BYTES..StackPointer(Registers(rsp))]) ==
                    old(Registers(rsp))
    {
      hide Chain, Apart, StackPointer, Overwritten, Rotated;
      ghost var running, registers := head, Registers(rsp);
      ghost var sp, memory, target := StackPointer(registers), head.space.mem[..], mapped.mem[..];
      OverwrittenThere(target, sp - FRAME_BYTES, registers);
      OthersApart(queue, kernel);
      SaveAndTurn(rsp);
      assert !old(HeadIsMapped()) ==> running.space.mem[..] == memory;
      OverwrittenThere(kernel[..], rsp, head.SavedFrame());
      RestoreRegisters(rsp);
      assert Registers(rsp) == kernel[..][rsp..rsp + FRAME_BYTES];
      assert running.SavedFrame() == running.space.mem[..][sp - FRAME_BYTES..sp];
      assert memory[sp - FRAME_BYTES..sp] == old(head.space.mem[sp - FRAME_BYTES..sp]);
    }

    /** A process runs: it alters the memory that is mapped as it likes, and is interrupted. */
    method UserRuns(rsp: nat, turn: Turn)
      requires rsp + FRAME_BYTES <= kernel.Length && mapped.mem != kernel && GoodTurn(turn, mapped)
      modifies mapped.mem, kernel
      ensures mapped.mem[..] == turn.memory && Registers(rsp) == turn.registers
    {
      forall k | 0 <= k < mapped.mem.Length {
        mapped.mem[k] := turn.memory[k];
      }
      forall k | 0 <= k < FRAME_BYTES {
        kernel[rsp + k] := turn.registers[k];
      }
    }

    /** The register frame that start_user_process leaves on the stack of the new process. */
    method StoreInitialFrame(p: Process, entry: nat)
      requires p.HasFrame() && entry < Power256(WORD_BYTES) && p.contextStack < Power256(WORD_BYTES)
      modifies p.space.mem
      ensures StartsAt(p.SavedFrame(), entry, p.contextStack)
    {
      hide WordAt, StartsAt;
      var mem, base := p.space.mem, p.contextStack;
      ZeroWords(mem, base, FRAME_WORDS);
      StoreWord(mem, base, RIP, entry);
      StoreWord(mem, base, CS, USER_CODE_SEGMENT + USER_RING);
      StoreWord(mem, base, FLAGS, RFLAGS);
      StoreWord(mem, base, RSP, base);
      StoreWord(mem, base, SS, USER_DATA_SEGMENT + USER_RING);
      forall k: nat | k < FRAME_WORDS ensures WordAt(p.SavedFrame(), 0, k) == InitialWord(k, entry, p.contextStack) {
        WordOfSlice(mem[..], base, FRAME_WORDS, k);
        assert p.SavedFrame() == mem[..][base..base + FRAME_WORDS * WORD_BYTES];
      }
      FrameStartsAt(p.SavedFrame(), entry, base);
    }

    /** The frames of the processes that do not run, the next one to run first. */
    ghost function Waiting(): (frames: seq<seq<Byte>>)
      requires Valid()
      reads this, queue, Memories(queue[1..])
      ensures |frames| == |queue| - 1
    {
      SavedFrames(queue[1..])
    }

    /** The enqueue at the end of start_user_process. */
    method Enqueue(p: Process)
      requires Valid() && p.next == null && p !in queue && Apart(queue + [p], kernel) && p.HasFrame()
      modifies this`tail, this`queue, tail`next
      ensures Valid() && queue == old(queue) + [p]
      ensures Waiting() == old(Waiting()) + [p.SavedFrame()]
    {
      hide Apart, SavedFrames;
      ghost var was := queue;
      tail.next := p;
      tail := p;
      queue := was + [p];
      assert queue[1..] == was[1..] + [p];
    }

    /** The part of start_user_process between: the new space is mapped and the initial frame stored. */
    method PrepareStack(p: Process, entry: nat, stackTop: nat)
      requires FRAME_BYTES <= stackTop <= p.space.mem.Length
      requires entry < Power256(WORD_BYTES) && stackTop < Power256(WORD_BYTES)
      modifies this`mapped, p`contextStack, p.space.mem
      ensures mapped == p.space && p.HasFrame()
      ensures StartsAt(p.SavedFrame(), entry, stackTop - FRAME_BYTES)
    {
      mapped := p.space;
      p.contextStack := stackTop - FRAME_BYTES;
      StoreInitialFrame(p, entry);
    }

    /**
     start_user_process after the space is made: the new process waits last, with its initial frame.  Its
     memory is left mapped, so until the next switch the mapped memory is not the head's.
     */
    method StartProcess(p: Process, entry: nat, stackTop: nat)
      requires Valid() && p.next == null && p !in queue && Apart(queue + [p], kernel)
      requires FRAME_BYTES <= stackTop <= p.space.mem.Length
      requires entry < Power256(WORD_BYTES) && stackTop < Power256(WORD_BYTES)
      modifies this`tail, this`mapped, this`queue, tail`next, p`contextStack, p.space.mem
      ensures Valid() && queue == old(queue) + [p] && mapped == p.space && !HeadIsMapped() && p.HasFrame()
      ensures Waiting() == old(Waiting()) + [p.SavedFrame()]
      ensures StartsAt(p.SavedFrame(), entry, stackTop - FRAME_BYTES)
    {
      hide StartsAt, SavedFrames, Chain, Apart;
      LastApart(queue, p, kernel);
      PrepareStack(p, entry, stackTop);
      assert Waiting() == old(Waiting());
      Enqueue(p);
    }

    /** While the head's memory is mapped, a switch takes the frame that waited longest; the new one waits last. */
    method SwitchFromHead(rsp: nat)
      requires Valid() && HeadIsMapped() && rsp + FRAME_BYTES <= kernel.Length
      requires FRAME_BYTES <= StackPointer(Registers(rsp)) <= head.space.mem.Length
      modifies this`head, this`tail, this`queue, this`mapped, queue`next, head`contextStack, head.space.mem, kernel
      ensures Valid() && HeadIsMapped() && queue == Rotated(old(queue))
      ensures [Registers(rsp)] + Waiting() == old(Waiting()) + [old(Registers(rsp))]
    {
      hide Chain, Apart, SavedFrames, Overwritten, StackPointer;
      ghost var was, frame := queue, Registers(rsp);
      OthersApart(was, kernel);
      ContextSwitch(rsp);
      assert SavedFrames(was[1..]) == old(SavedFrames(was[1..]));
      assert SavedFrames(queue) == SavedFrames(was[1..]) + [frame];
      assert SavedFrames(queue) == [head.SavedFrame()] + SavedFrames(queue[1..]);
    }

    /** A process runs and is interrupted. */
    method TakeTurn(rsp: nat, turn: Turn)
      requires Valid() && HeadIsMapped() && rsp + FRAME_BYTES <= kernel.Length && GoodTurn(turn, head.space)
      modifies this`head, this`tail, this`queue, this`mapped, queue`next, head`contextStack, head.space.mem, kernel
      ensures Valid() && HeadIsMapped() && queue == Rotated(old(queue))
      ensures [Registers(rsp)] + Waiting() == old(Waiting()) + [turn.registers]
    {
      hide Chain, Apart, SavedFrames, Overwritten, StackPointer, Rotated;
      OthersApart(queue, kernel);
      UserRuns(rsp, turn);
      assert Waiting() == old(Waiting());
      SwitchFromHead(rsp);
    }

    /**
     Any number of turns.  Frames come back in the order in which they were saved and exactly as they
     were, those that waited at the start first; nothing is lost and nothing is made up.
     */
    method TakeTurns(rsp: nat, turns: seq<Turn>) returns (resumed: seq<seq<Byte>>)
      requires Valid() && HeadIsMapped() && rsp + FRAME_BYTES <= kernel.Length
      requires forall i :: 0 <= i < |turns| ==> GoodTurn(turns[i], RotatedBy(queue, i)[0].space)
      modifies this`head, this`tail, this`queue, this`mapped, queue`next, queue`contextStack, kernel, Memories(queue)
      ensures Valid() && HeadIsMapped() && queue == RotatedBy(old(queue), |turns|)
      ensures |resumed| == |turns| && resumed + Waiting() == old(Waiting()) + RegistersOf(turns)
    {
      hide Chain, Apart, Memories, SavedFrames, Waiting, StackPointer, Rotated, RegistersOf, Registers, GoodTurn,
          Power256, Process.HasFrame;
      ghost var was, first := queue, Waiting();
      resumed := [];
      for i := 0 to |turns|
        invariant Valid() && HeadIsMapped() && queue == RotatedBy(was, i)
        invariant |resumed| == i && resumed + Waiting() == first + RegistersOf(turns[..i])
      {
        RotatingKeepsMembers(was, i);
        assert forall j :: 0 <= j < |queue| ==> queue[j] in was;
        ghost var waiting, entered := Waiting(), first + RegistersOf(turns[..i]);
        TakeTurn(rsp, turns[i]);
        QueueStep(resumed, waiting, entered, Registers(rsp), Waiting(), turns[i].registers);
        resumed := resumed + [Registers(rsp)];
        RegistersOfMore(first, turns, i);
      }
      assert turns[..|turns|] == turns;
    }
  }

  /**
   The first switch after a process is started: unless the same bytes lie there, the running process will
   find something else where its registers should be.
   */
  method StartThenSwitch(queue: ProcessQueue, p: Process, entry: nat, stackTop: nat, rsp: nat)
    returns (saved: seq<Byte>, found: seq<Byte>)
    requires queue.Valid() && p.next == null && p !in queue.queue && Apart(queue.queue + [p], queue.kernel)
    requires FRAME_BYTES <= stackTop <= p.space.mem.Length
    requires entry < Power256(WORD_BYTES) && stackTop < Power256(WORD_BYTES)
    requires rsp + FRAME_BYTES <= queue.kernel.Length
    requires FRAME_BYTES <= StackPointer(queue.Registers(rsp)) <= p.space.mem.Length
    requires StackPointer(queue.Registers(rsp)) <= queue.head.space.mem.Length
    modifies queue, queue.queue, p, p.space.mem, queue.kernel
    ensures queue.Valid() && saved == old(queue.Registers(rsp))
    ensures old(queue.head).HasFrame() && found == old(queue.head).SavedFrame()
    ensures found == old(queue.head.space.mem[..])[StackPointer(saved) - FRAME_BYTES..StackPointer(saved)]
  {
    hide Chain, Apart, SavedFrames, Overwritten, StackPointer, Rotated, WordAt, StartsAt;
    var running := queue.head;
    ghost var was := running.space.mem[..];
    LastApart(queue.queue, p, queue.kernel);
    OthersApart(queue.queue, queue.kernel);
    assert running in queue.queue;
    saved := queue.kernel[rsp..rsp + FRAME_BYTES];
    var sp := StackPointer(saved);
    queue.StartProcess(p, entry, stackTop);
    assert running.space.mem[..] == was;
    queue.ContextSwitch(rsp);
    assert running.space.mem[..] == was;
    found := running.space.mem[sp - FRAME_BYTES..sp];
  }

  /** A kernel stack with registers that are all zero but the stack pointer. */
  method OneRegister(sp: nat) returns (kernel: array<Byte>)
    requires sp < Power256(WORD_BYTES)
    ensures fresh(kernel) && kernel.Length == FRAME_BYTES && StackPointer(kernel[..]) == sp
  {
    kernel := new Byte[FRAME_BYTES](_ => 0);
    StoreWord(kernel, 0, RSP, sp);
  }

  method EmptyProcess(pid: nat) returns (p: Process)
    ensures fresh(p) && fresh(p.space.mem) && p.next == null && p.space.mem.Length == 400
    ensures forall i :: 0 <= i < 400 ==> p.space.mem[i] == 0
  {
    var space := new AddressSpace(400);
    p := new Process(space, pid);
  }

  /** Two processes with empty memory, and one register that is not zero. */
  method RegistersGoAstray() returns (saved: seq<Byte>, found: seq<Byte>)
    ensures saved != found
  {
    hide Chain, SavedFrames, StackPointer, Power256, Word, WordAt, Overwritten, Rotated;
    PowersAreLarge();
    var kernel := OneRegister(200);
    var first := EmptyProcess(0);
    var second := EmptyProcess(1);
    var queue := new ProcessQueue(first, kernel);
    assert kernel[0..0 + FRAME_BYTES] == kernel[..];
    saved, found := StartThenSwitch(queue, second, 0, 400, 0);
    ZeroFrame(found);
  }

  lemma ZeroFrame(frame: seq<Byte>)
    requires |frame| == FRAME_BYTES && forall i :: 0 <= i < FRAME_BYTES ==> frame[i] == 0
    ensures StackPointer(frame) == 0
  {
    WordOfZeros(frame[RSP * WORD_BYTES..(RSP + 1) * WORD_BYTES]);
  }

  lemma PowersAreLarge()
    ensures 400 < Power256(WORD_BYTES)
  {
    assert Power256(2) == 65536;
    GrowingPower(2, WORD_BYTES);
  }

  lemma {:induction false} GrowingPower(low: nat, high: nat)
    requires low <= high
    ensures Power256(low) <= Power256(high)
    decreases high
  {
    if low < high {
      GrowingPower(low, high - 1);
    }
  }
}
