/** The one-slot mailbox through which one core asks the others to map pages (multithreading/mod.rs,
    `send_user_ipi` and `await_ipi`; multithreading/per_processor_function.rs, `kernel_ipi_dst`;
    vfs/gfs/mod.rs, `send_sync_ipi`).

Every write to a packet, the interrupt, and every read of the polling loop is a step of its own. The steps
of the sender and of the handlers of all cores interleave freely. */
module Mailboxes {
  import opened Memory
  import opened FileTableSync

  datatype Status = Invalid | Pending | Received | Completed | Failed

  datatype RequestType = NoRequest | SyncVMem | SummonApplication

  datatype Packet = Packet(requestType: RequestType, status: Status, data: VMemSync)

  /** Where the interrupt handler of a core is. */
  datatype Handler =
    | Idle
    | Entered
    | Dispatching
    | MappingPage(i: nat)
    | Ending
    | Clearing
    | Completing
    | Stuck

  /** A core: its packet, whether the interrupt is pending, its handler, and its translation of virtual pages. */
  datatype Core = Core(packet: Packet, irq: bool, handler: Handler, pages: map<nat, nat>)

  /** Where the sender is with its current request. */
  datatype Sender = SetStatus | SetType | SetData | Raise | Poll(tries: nat) | Halted | Finished

  datatype State = State(cores: map<nat, Core>, next: nat, sender: Sender)

  /** The requests the sender goes through, each with the core it is for. */
  type Work = seq<(nat, VMemSync)>

  // ----- steps

  /** `kernel_ipi_dst`, one access at a time. */
  function HandlerStep(k: Core): Core {
    match k.handler
    case Idle => if k.irq then k.(irq := false, handler := Entered) else k
    case Entered => k.(packet := k.packet.(status := Received), handler := Dispatching)
    case Dispatching =>
      (match k.packet.requestType
       case NoRequest => k.(handler := Ending)
       case SyncVMem => k.(handler := MappingPage(0))
       case SummonApplication => k.(handler := Stuck))
    case MappingPage(i) =>
      var b := k.packet.data;
      if i < b.paddr.length / PAGE
      then k.(pages := k.pages[b.vaddr / PAGE + i := b.paddr.base / PAGE + i], handler := MappingPage(i + 1))
      else k.(handler := Ending)
    case Ending => k.(handler := Clearing)
    case Clearing => k.(packet := k.packet.(requestType := NoRequest), handler := Completing)
    case Completing => k.(packet := k.packet.(status := Completed), handler := Idle)
    case Stuck => k
  }

  function Advance(work: Work, s: State): State {
    s.(next := s.next + 1, sender := if s.next + 1 < |work| then SetStatus else Finished)
  }

  /** `send_sync_ipi`: the closure's three writes, the interrupt, then at most 50 looks at the status. A
      request that is not completed in time halts the sender. */
  function SenderStep(work: Work, s: State): State
    requires s.next < |work| && work[s.next].0 in s.cores
  {
    var (c, b) := work[s.next];
    var k := s.cores[c];
    match s.sender
    case SetStatus => s.(cores := s.cores[c := k.(packet := k.packet.(status := Pending))], sender := SetType)
    case SetType => s.(cores := s.cores[c := k.(packet := k.packet.(requestType := SyncVMem))], sender := SetData)
    case SetData => s.(cores := s.cores[c := k.(packet := k.packet.(data := b))], sender := Raise)
    case Raise => s.(cores := s.cores[c := k.(irq := true)], sender := Poll(50))
    case Poll(tries) =>
      if tries == 0 then s.(sender := Halted)
      else if k.packet.status == Completed then Advance(work, s)
      else s.(sender := Poll(tries - 1))
    case Halted => s
    case Finished => s
  }

  ghost predicate HandlerMoves(s: State, c: nat, s': State) {
    c in s.cores && s' == s.(cores := s.cores[c := HandlerStep(s.cores[c])])
  }

  /** Mapping a page fails for lack of memory: the handler panics and its core stops. */
  ghost predicate HandlerPanics(s: State, c: nat, s': State) {
    c in s.cores && s.cores[c].handler.MappingPage? && s' == s.(cores := s.cores[c := s.cores[c].(handler := Stuck)])
  }

  ghost predicate Step(work: Work, s: State, s': State) {
    || (s.next < |work| && work[s.next].0 in s.cores && s' == SenderStep(work, s))
    || (exists c :: HandlerMoves(s, c, s'))
    || (exists c :: HandlerPanics(s, c, s'))
  }

  ghost predicate Start(work: Work, s: State) {
    && s.next == 0 && s.sender == (if |work| > 0 then SetStatus else Finished)
    && (forall i :: 0 <= i < |work| ==> work[i].0 in s.cores)
    && (forall c :: c in s.cores ==> !s.cores[c].irq && s.cores[c].handler == Idle)
  }

  ghost predicate Run(work: Work, states: seq<State>) {
    && |states| > 0 && Start(work, states[0])
    && forall i :: 0 <= i < |states| - 1 ==> Step(work, states[i], states[i + 1])
  }

  // ----- what the requests should achieve

  function Apply(pages: map<nat, nat>, entries: seq<(nat, nat)>): map<nat, nat> {
    if entries == [] then pages
    else
      var n := |entries| - 1;
      Apply(pages, entries[..n])[entries[n].0 := entries[n].1]
  }

  /** The translation of core `c` after the first `n` requests. */
  function Served(work: Work, n: nat, c: nat, pages: map<nat, nat>): map<nat, nat>
    requires n <= |work|
  {
    if n == 0 then pages
    else
      var before := Served(work, n - 1, c, pages);
      if work[n - 1].0 == c then Apply(before, Expand(work[n - 1].1)) else before
  }

  ghost predicate Quiet(k: Core) { !k.irq && k.handler == Idle }

  /** The packet holds request `b`, and the handler has got as far as its position says. */
  ghost predicate Handling(k: Core, b: VMemSync, before: map<nat, nat>) {
    var todo := Expand(b);
    && k.packet.data == b
    && match k.handler
       case Idle =>
         if k.irq then k.packet.requestType == SyncVMem && k.packet.status == Pending && k.pages == before
         else k.packet.status == Completed && k.pages == Apply(before, todo)
       case Entered => !k.irq && k.packet.requestType == SyncVMem && k.packet.status == Pending && k.pages == before
       case Dispatching => !k.irq && k.packet.requestType == SyncVMem && k.packet.status == Received
         && k.pages == before
       case MappingPage(i) => !k.irq && k.packet.status == Received && i <= |todo|
         && k.pages == Apply(before, todo[..i])
       case Ending => !k.irq && k.packet.status == Received && k.pages == Apply(before, todo)
       case Clearing => !k.irq && k.packet.status == Received && k.pages == Apply(before, todo)
       case Completing => !k.irq && k.packet.status == Received && k.pages == Apply(before, todo)
       case Stuck => !k.irq && k.packet.status == Received
  }

  ghost predicate CoreInv(work: Work, s: State, c: nat, pages: map<nat, nat>)
    requires c in s.cores && s.next <= |work|
  {
    var k := s.cores[c];
    var before := Served(work, s.next, c, pages);
    if s.next < |work| && work[s.next].0 == c then
      match s.sender
      case SetStatus => Quiet(k) && k.pages == before
      case SetType => Quiet(k) && k.pages == before && k.packet.status == Pending
      case SetData => Quiet(k) && k.pages == before && k.packet.status == Pending && k.packet.requestType == SyncVMem
      case Raise => && Quiet(k) && k.pages == before && k.packet.status == Pending && k.packet.requestType == SyncVMem
                    && k.packet.data == work[s.next].1
      case _ => Handling(k, work[s.next].1, before)
    else Quiet(k) && k.pages == before
  }

  ghost predicate Inv(work: Work, start: State, s: State) {
    && s.next <= |work| && (s.sender == Finished <==> s.next == |work|)
    && s.cores.Keys == start.cores.Keys
    && (forall i :: 0 <= i < |work| ==> work[i].0 in s.cores)
    && forall c :: c in s.cores ==> CoreInv(work, s, c, start.cores[c].pages)
  }

  /** Page `i` of a request, after the pages before it. */
  lemma ApplyMore(b: VMemSync, before: map<nat, nat>, i: nat)
    requires i <= |Expand(b)|
    ensures |Expand(b)| == b.paddr.length / PAGE
    ensures i < |Expand(b)| ==>
              Apply(before, Expand(b)[..i + 1])
                == Apply(before, Expand(b)[..i])[b.vaddr / PAGE + i := b.paddr.base / PAGE + i]
    ensures i == |Expand(b)| ==> Expand(b)[..i] == Expand(b)
  {
    var todo := Expand(b);
    if i < |todo| {
      assert todo[..i + 1][..i] == todo[..i];
    }
  }

  lemma ApplyNone(todo: seq<(nat, nat)>, before: map<nat, nat>)
    ensures Apply(before, todo[..0]) == before
  {
  }

  lemma HandlingStep(k: Core, b: VMemSync, before: map<nat, nat>)
    requires Handling(k, b, before)
    ensures Handling(HandlerStep(k), b, before)
  {
    hide Apply, Expand;
    var todo := Expand(b);
    match k.handler
    case MappingPage(i) => ApplyMore(b, before, i);
    case Dispatching => ApplyNone(todo, before);
    case _ =>
  }

  lemma HandlerKeepsInv(work: Work, start: State, s: State, c: nat, s': State)
    requires Inv(work, start, s) && HandlerMoves(s, c, s')
    ensures Inv(work, start, s')
  {
    hide Handling, HandlerStep;
    forall d | d in s'.cores ensures CoreInv(work, s', d, start.cores[d].pages) {
      assert CoreInv(work, s, d, start.cores[d].pages);
      if d == c {
        if s.next < |work| && work[s.next].0 == c && (s.sender.Poll? || s.sender.Halted?) {
          HandlingStep(s.cores[c], work[s.next].1, Served(work, s.next, c, start.cores[c].pages));
        } else {
          QuietStays(s.cores[c]);
        }
      }
    }
  }

  lemma QuietStays(k: Core)
    requires Quiet(k)
    ensures HandlerStep(k) == k
  {
  }

  lemma PanicKeepsInv(work: Work, start: State, s: State, c: nat, s': State)
    requires Inv(work, start, s) && HandlerPanics(s, c, s')
    ensures Inv(work, start, s')
  {
    forall d | d in s'.cores ensures CoreInv(work, s', d, start.cores[d].pages) {
      assert CoreInv(work, s, d, start.cores[d].pages);
    }
  }

  lemma ServedNext(work: Work, n: nat, c: nat, pages: map<nat, nat>)
    requires n < |work|
    ensures Served(work, n + 1, c, pages) ==
            if work[n].0 == c then Apply(Served(work, n, c, pages), Expand(work[n].1)) else Served(work, n, c, pages)
  {
  }

  lemma SenderKeepsCore(work: Work, s: State, d: nat, pages: map<nat, nat>)
    requires s.next < |work| && work[s.next].0 in s.cores && d in s.cores && s.sender != Finished
    requires CoreInv(work, s, d, pages)
    ensures var s' := SenderStep(work, s); d in s'.cores && s'.next <= |work| && CoreInv(work, s', d, pages)
  {
    hide Apply, Served, Expand;
    ServedNext(work, s.next, d, pages);
    if work[s.next].0 == d && s.sender.Poll? && s.cores[d].packet.status == Completed {
      assert Quiet(s.cores[d]);
    }
  }

  lemma SenderKeepsInv(work: Work, start: State, s: State)
    requires Inv(work, start, s) && s.next < |work|
    ensures Inv(work, start, SenderStep(work, s))
  {
    hide CoreInv;
    var s' := SenderStep(work, s);
    forall d | d in s.cores ensures CoreInv(work, s', d, start.cores[d].pages) {
      SenderKeepsCore(work, s, d, start.cores[d].pages);
    }
  }

  lemma {:induction false} RunInv(work: Work, states: seq<State>, i: nat)
    requires Run(work, states) && i < |states|
    ensures Inv(work, states[0], states[i])
  {
    hide CoreInv, SenderStep, HandlerMoves, HandlerPanics;
    if i == 0 {
      StartInv(work, states[0]);
    } else {
      RunInv(work, states, i - 1);
      var s, s' := states[i - 1], states[i];
      assert Step(work, states[i - 1], states[i - 1 + 1]);
      if s.next < |work| && s' == SenderStep(work, s) {
        SenderKeepsInv(work, states[0], s);
      } else if c :| HandlerMoves(s, c, s') {
        HandlerKeepsInv(work, states[0], s, c, s');
      } else {
        var c :| HandlerPanics(s, c, s');
        PanicKeepsInv(work, states[0], s, c, s');
      }
    }
  }

  lemma StartInv(work: Work, s: State)
    requires Start(work, s)
    ensures Inv(work, s, s)
  {
  }

  // ----- safety of the mailbox, in every state of every run

  /** When the polling loop sees the request completed, the handler has finished the request just sent: it
      is idle again and the core translates every page of the request. */
  lemma AwaitTrueMeansServed(work: Work, states: seq<State>, i: nat, c: nat)
    requires Run(work, states) && i < |states| && c in states[i].cores
    requires states[i].next < |work| && work[states[i].next].0 == c && states[i].sender.Poll?
    requires states[i].cores[c].packet.status == Completed
    ensures c in states[0].cores && Quiet(states[i].cores[c])
    ensures states[i].cores[c].pages == Served(work, states[i].next + 1, c, states[0].cores[c].pages)
  {
    hide Expand, Apply;
    RunInv(work, states, i);
    assert CoreInv(work, states[i], c, states[0].cores[c].pages);
  }

  /** A handler that is at work serves the request its sender is waiting for, and reads that request. */
  lemma HandlerServesCurrentRequest(work: Work, states: seq<State>, i: nat, c: nat)
    requires Run(work, states) && i < |states| && c in states[i].cores
    requires !Quiet(states[i].cores[c])
    ensures var s := states[i];
            && s.next < |work| && work[s.next].0 == c && (s.sender.Poll? || s.sender.Halted?)
            && s.cores[c].packet.data == work[s.next].1
  {
    RunInv(work, states, i);
    assert CoreInv(work, states[i], c, states[0].cores[c].pages);
  }

  /** From the interrupt to its completion a request is not overwritten, by any step of anyone. */
  lemma RequestNotOverwritten(work: Work, states: seq<State>, i: nat, c: nat)
    requires Run(work, states) && i + 1 < |states| && c in states[i].cores
    requires !Quiet(states[i].cores[c])
    ensures c in states[i + 1].cores && states[i + 1].cores[c].packet.data == states[i].cores[c].packet.data
    ensures states[i + 1].next == states[i].next
  {
    HandlerServesCurrentRequest(work, states, i, c);
    RunInv(work, states, i);
    var s, s' := states[i], states[i + 1];
    assert CoreInv(work, s, c, states[0].cores[c].pages);
    assert Step(work, s, s');
  }

  /** When the sender is through, every core translates every page it was asked to. */
  lemma FinishedMeansAllServed(work: Work, states: seq<State>, i: nat, c: nat)
    requires Run(work, states) && i < |states| && states[i].sender == Finished && c in states[i].cores
    ensures c in states[0].cores
    ensures Quiet(states[i].cores[c]) && states[i].cores[c].pages == Served(work, |work|, c, states[0].cores[c].pages)
  {
    RunInv(work, states, i);
    assert CoreInv(work, states[i], c, states[0].cores[c].pages);
  }
}
