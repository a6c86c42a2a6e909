/**
  Sequences of booking operations. Each handler is one atomic step on the
  collection; these properties hold for every interleaving of requests that
  the steps can be serialised into.
*/
module History {
  import opened Wrappers
  import opened Clock
  import opened Appointments

  datatype Op = CreateOp(req: Request) | UpdateOp(id: Id, req: Request) | DeleteOp(id: Id)

  function Apply(st: Store, op: Op): Reply {
    match op
    case CreateOp(req) => Create(st, req)
    case UpdateOp(id, req) => Update(st, id, req)
    case DeleteOp(id) => Delete(st, id)
  }

  function Run(st: Store, ops: seq<Op>): Store
    decreases |ops|
  {
    if ops == [] then st else Run(Apply(st, ops[0]).store, ops[1..])
  }

  /** Every failed step leaves the collection exactly as it was. */
  lemma FailureChangesNothing(st: Store, op: Op)
    ensures Apply(st, op).outcome.Failed() ==> Apply(st, op).store == st
  {
  }

  /**
    At most one appointment per (doctor, day, minute) survives any sequence
    of creates, updates and deletes.
  */
  lemma {:induction false} RunKeepsValid(st: Store, ops: seq<Op>)
    requires Valid(st)
    decreases |ops|
    ensures Valid(Run(st, ops))
  {
    if ops != [] {
      match ops[0] {
        case CreateOp(req) => CreateKeepsValid(st, req);
        case UpdateOp(id, req) => UpdateKeepsValid(st, id, req);
        case DeleteOp(id) => DeleteKeepsValid(st, id);
      }
      RunKeepsValid(Apply(st, ops[0]).store, ops[1..]);
    }
  }

  /** Runs a batch of create requests in order; answers how many were created. */
  function CreateAll(st: Store, reqs: seq<Request>): (res: (nat, Store))
    decreases |reqs|
  {
    if reqs == [] then (0, st)
    else
      var r := Create(st, reqs[0]);
      var rest := CreateAll(r.store, reqs[1..]);
      ((if r.outcome.Created? then 1 else 0) + rest.0, rest.1)
  }

  /** Every request of the batch asks for the same doctor, day and minute as `at`. */
  predicate AllForSlot(reqs: seq<Request>, doctorId: Id, at: Instant) {
    forall i :: 0 <= i < |reqs| ==>
      && CreateFieldsPresent(reqs[i])
      && reqs[i].doctorId == Some(doctorId)
      && reqs[i].date.value.day == at.day
      && MinuteOf(reqs[i].date.value) == MinuteOf(at)
  }

  /**
    Of any number of valid create requests for the same doctor, day and
    minute, run one after another, exactly one succeeds when the slot starts
    free and none when it starts taken; all the others meet a conflict.
  */
  lemma {:induction false} OneBookingPerSlot(st: Store, reqs: seq<Request>, doctorId: Id, at: Instant)
    requires AllForSlot(reqs, doctorId, at)
    decreases |reqs|
    ensures CreateAll(st, reqs).0 ==
      if reqs == [] || SlotTaken(st.appointments, doctorId, at, None) then 0 else 1
  {
    if reqs != [] {
      var r := Create(st, reqs[0]);
      var tail := reqs[1..];
      assert AllForSlot(tail, doctorId, at) by {
        forall i | 0 <= i < |tail| ensures tail[i] == reqs[i + 1] { }
      }
      OneBookingPerSlot(r.store, tail, doctorId, at);
      if r.outcome.Created? {
        assert SameSlot(r.store.appointments[st.nextId], doctorId, at);
        assert SlotTaken(r.store.appointments, doctorId, at, None);
      }
    }
  }
}
