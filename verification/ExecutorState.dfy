/**
 * The executor's shared variables and the steps of its threads as updates in
 * place: the ring array with its two indices, the semaphores, the counters.
 */
module ExecutorState {
  import opened Wrappers
  import opened PlatformExecutor

  /** The effect of writing a request, taken apart from what it keeps. */
  function Written(s: State, t: nat, request: nat): State
    requires Sized(s) && t < |s.submitters|
  {
    s.(cells := s.cells[s.writeIndex := Some(request)], writeIndex := (s.writeIndex + 1) % REQUEST_CAPACITY,
       inserted := s.inserted + [request], submitters := s.submitters[t := Publishing(request)])
  }

  lemma WriteStep(s: State, t: nat)
    requires Invariant(s) && t < |s.submitters| && s.submitters[t].Writing?
    ensures Sized(s) && SubmitStep(s, t) == Some(Written(s, t, s.submitters[t].request))
    ensures s.cells[s.writeIndex] == None && Invariant(Written(s, t, s.submitters[t].request))
  {
    WriterFindsEmptyCell(s, t);
    StepKeepsInvariant(s, Submit(t), SubmitStep(s, t).value);
  }

  /** The effect of publishing a request and leaving the mutex. */
  function Published(s: State, t: nat, request: nat): State
    requires t < |s.submitters|
  {
    s.(ready := s.ready + 1, admitted := s.admitted - 1, mutex := None, submitters := s.submitters[t := Posting(request)])
  }

  /** The ready token is released before the admission is given up. */
  function Announced(s: State, t: nat, request: nat): State
    requires t < |s.submitters|
  {
    s.(ready := s.ready + 1, submitters := s.submitters[t := Leaving(request)])
  }

  lemma AnnounceStep(s: State, t: nat)
    requires Invariant(s) && t < |s.submitters| && s.submitters[t].Publishing?
    ensures Invariant(Announced(s, t, s.submitters[t].request))
  {
    StepKeepsInvariant(s, Submit(t), Announced(s, t, s.submitters[t].request));
  }

  lemma PublishSteps(s: State, t: nat)
    requires Invariant(s) && t < |s.submitters| && s.submitters[t].Publishing?
    ensures Invariant(Published(s, t, s.submitters[t].request))
  {
    var request := s.submitters[t].request;
    AnnounceStep(s, t);
    LeaveFollows(s, Announced(s, t, request), t, request);
  }

  lemma LeaveFollows(s: State, announced: State, t: nat, request: nat)
    requires t < |s.submitters| && announced == Announced(s, t, request) && Invariant(announced)
    ensures Invariant(Published(s, t, request))
  {
    assert announced.submitters[t := Posting(request)] == s.submitters[t := Posting(request)];
    StepKeepsInvariant(announced, Submit(t), Published(s, t, request));
  }

  /** The effect of taking the oldest request from the ring. */
  function Popped(s: State): State
    requires Sized(s) && s.consumer.Popping? && s.popped < |s.inserted|
  {
    s.(cells := s.cells[s.readIndex := None], readIndex := (s.readIndex + 1) % REQUEST_CAPACITY, popped := s.popped + 1,
       consumer := Freeing(s.consumer.phase, s.inserted[s.popped]))
  }

  lemma PopStep(s: State)
    requires Invariant(s) && s.consumer.Popping?
    ensures Sized(s) && s.popped < |s.inserted| && s.cells[s.readIndex] == Some(s.inserted[s.popped])
    ensures ConsumeStep(s) == Some(Popped(s)) && Invariant(Popped(s))
  {
    PopperFindsRequest(s);
    StepKeepsInvariant(s, Consume, ConsumeStep(s).value);
  }

  /** Between two requests everything taken from the ring has been executed and completed. */
  lemma DrainedHistory(s: State)
    requires Invariant(s) && !IsHandling(s.consumer)
    ensures s.popped <= |s.inserted| && s.executed == s.inserted[..s.popped] && s.completed == s.inserted[..s.popped]
  {
  }

  class Executor {
    const requests: array<Option<nat>>
    var writeIndex: nat
    var readIndex: nat
    var freeSlots: nat
    var readyRequests: nat
    var admittedSubmitters: int
    var acceptingRequests: bool
    var closing: bool
    var event: bool
    var mutex: Option<nat>
    var submitters: seq<Submitter>
    var closer: Closer
    var consumer: Consumer

    ghost var issued: nat
    ghost var inserted: seq<nat>
    ghost var popped: nat
    ghost var executed: seq<nat>
    var completed: seq<nat>

    ghost function View(): State
      reads this, requests
    {
      State(requests[..], writeIndex, readIndex, freeSlots, readyRequests, admittedSubmitters, acceptingRequests, closing, event,
            mutex, submitters, closer, consumer, issued, inserted, popped, executed, completed)
    }

    ghost predicate Valid()
      reads this, requests
    {
      Invariant(View())
    }

    constructor (threads: nat)
      ensures Valid() && Init(View()) && |submitters| == threads
      ensures fresh(requests)
    {
      requests := new Option<nat>[REQUEST_CAPACITY](_ => None);
      writeIndex, readIndex, freeSlots, readyRequests, admittedSubmitters := 0, 0, REQUEST_CAPACITY, 0, 0;
      acceptingRequests, closing, event, mutex := true, false, false, None;
      submitters := seq(threads, _ => Outside);
      closer, consumer := Working, CheckRunning;
      issued, inserted, popped, executed, completed := 0, [], 0, [], [];
      new;
      assert View().cells == seq(REQUEST_CAPACITY, _ => None);
      InitEstablishesInvariant(View());
    }

    /** In the submission mutex: the request goes into the cell at the write index, which is empty. */
    method WriteRequest(t: nat)
      requires Valid() && t < |submitters| && submitters[t].Writing?
      modifies this, requests
      ensures old(requests[writeIndex]) == None
      ensures View() == Written(old(View()), t, old(submitters)[t].request)
      ensures Valid()
    {
      WriteStep(View(), t);
      FillCell(t, submitters[t].request);
    }

    method FillCell(t: nat, request: nat)
      requires Sized(View()) && t < |submitters|
      modifies this, requests
      ensures View() == Written(old(View()), t, request)
    {
      requests[writeIndex] := Some(request);
      writeIndex := (writeIndex + 1) % REQUEST_CAPACITY;
      inserted := inserted + [request];
      submitters := submitters[t := Publishing(request)];
    }

    /** Still in the mutex: the ready token is released, then the admission and the mutex. */
    method PublishRequest(t: nat)
      requires Valid() && t < |submitters| && submitters[t].Publishing?
      modifies this
      ensures View() == Published(old(View()), t, old(submitters)[t].request)
      ensures Valid()
    {
      PublishSteps(View(), t);
      LeaveMutex(t, submitters[t].request);
    }

    method LeaveMutex(t: nat, request: nat)
      requires t < |submitters|
      modifies this
      ensures View() == Published(old(View()), t, request)
    {
      readyRequests := readyRequests + 1;
      admittedSubmitters := admittedSubmitters - 1;
      mutex := None;
      submitters := submitters[t := Posting(request)];
    }

    /** Takes a ready token, or finds that there is none and ends the drain. */
    method TryAcquireReady() returns (acquired: bool)
      requires Valid() && consumer.Draining?
      modifies this`readyRequests, this`consumer
      ensures Valid() && ConsumeStep(old(View())) == Some(View())
      ensures acquired == (old(readyRequests) > 0)
    {
      ghost var after := ConsumeStep(View()).value;
      StepKeepsInvariant(View(), Consume, after);
      acquired := readyRequests > 0;
      var phase := consumer.phase;
      if acquired {
        readyRequests := readyRequests - 1;
        consumer := Popping(phase);
      } else {
        consumer := if phase == Final then Returned else Recheck(phase);
      }
      assert View() == after;
    }

    /** The cell at the read index holds the oldest request; it is emptied. */
    method PopRequest()
      requires Valid() && consumer.Popping?
      modifies this, requests
      ensures old(popped) < |old(inserted)| && View() == Popped(old(View()))
      ensures Valid()
    {
      PopStep(View());
      EmptyCell();
    }

    method EmptyCell()
      requires Sized(View()) && consumer.Popping? && popped < |inserted| && requests[readIndex] == Some(inserted[popped])
      modifies this, requests
      ensures View() == Popped(old(View()))
    {
      var request := requests[readIndex];
      requests[readIndex] := None;
      readIndex := (readIndex + 1) % REQUEST_CAPACITY;
      popped := popped + 1;
      consumer := Freeing(consumer.phase, request.value);
    }

    method FreeSlot()
      requires Valid() && consumer.Freeing?
      modifies this`freeSlots, this`consumer
      ensures Valid() && ConsumeStep(old(View())) == Some(View())
    {
      ghost var after := ConsumeStep(View()).value;
      StepKeepsInvariant(View(), Consume, after);
      freeSlots := freeSlots + 1;
      consumer := Executing(consumer.phase, consumer.request);
      assert View() == after;
    }

    method ExecuteRequest()
      requires Valid() && consumer.Executing?
      modifies this`executed, this`consumer
      ensures Valid() && ConsumeStep(old(View())) == Some(View())
    {
      ghost var after := ConsumeStep(View()).value;
      StepKeepsInvariant(View(), Consume, after);
      executed := executed + [consumer.request];
      consumer := Completing(consumer.phase, consumer.request);
      assert View() == after;
    }

    method CompleteRequest()
      requires Valid() && consumer.Completing?
      modifies this`completed, this`consumer
      ensures Valid() && ConsumeStep(old(View())) == Some(View())
    {
      ghost var after := ConsumeStep(View()).value;
      StepKeepsInvariant(View(), Consume, after);
      completed := completed + [consumer.request];
      consumer := Draining(consumer.phase);
      assert View() == after;
    }

    /** One turn of the drain. */
    method HandleRequest()
      requires Valid() && consumer.Popping?
      modifies this, requests
      ensures Valid() && consumer == Draining(old(consumer.phase)) && popped == old(popped) + 1 && readyRequests == old(readyRequests)
      ensures inserted == old(inserted) && submitters == old(submitters)
    {
      PopRequest();
      FreeSlot();
      ExecuteRequest();
      CompleteRequest();
    }

    method HandleAndAcquire() returns (acquired: bool)
      requires Valid() && consumer.Popping?
      modifies this, requests
      ensures Valid() && inserted == old(inserted) && submitters == old(submitters) && popped == old(popped) + 1
      ensures acquired == (old(readyRequests) > 0) && readyRequests == old(readyRequests) - (if acquired then 1 else 0)
      ensures consumer == if acquired then Popping(old(consumer.phase)) else if old(consumer.phase) == Final then Returned else Recheck(old(consumer.phase))
    {
      HandleRequest();
      acquired := TryAcquireReady();
    }

    /**
     * A drain with no request published meanwhile handles exactly the ready
     * requests, in insertion order, and leaves none ready.
     */
    method DrainRequests()
      requires Valid() && consumer.Draining?
      modifies this, requests
      ensures Valid() && readyRequests == 0 && inserted == old(inserted) && submitters == old(submitters)
      ensures consumer == if old(consumer.phase) == Final then Returned else Recheck(old(consumer.phase))
      ensures popped == old(popped) + old(readyRequests) <= |inserted|
      ensures executed == inserted[..popped] && completed == inserted[..popped]
    {
      var acquired := TryAcquireReady();
      while acquired
        invariant Valid() && inserted == old(inserted) && submitters == old(submitters)
        invariant popped + readyRequests + (if acquired then 1 else 0) == old(popped) + old(readyRequests)
        invariant acquired ==> consumer == Popping(old(consumer.phase))
        invariant !acquired ==> readyRequests == 0
        invariant !acquired ==> consumer == if old(consumer.phase) == Final then Returned else Recheck(old(consumer.phase))
        decreases readyRequests, acquired
      {
        acquired := HandleAndAcquire();
      }
      DrainedHistory(View());
    }
  }
}
