// The two KeyErrors in the sequencer's handler (sequencer/routers.py:81-121), on databases that show them.

module KeyErrors {
  import opened Batches
  import opened Certificates
  import opened ReplicatedLog
  import opened Sequencers
  import opened LostLocks
  import opened EmptyBody

  /** Two finalizations that were never locked: whoever asks for whatever gets no answer. */
  method UnlockedAnswersNobody(net: Network, full: Body, id: NodeId, node: NodeId, request: Request)
    returns (sequencer: Sequencer, response: Option<Response>)
    requires net.Valid() && net.threshold <= 100.0
    ensures sequencer.db.Valid() && sequencer.db.net == net && sequencer.db.AsLog().LastFinalized() == 2
    ensures LockLost(sequencer.db.AsLog()) && response == None
  {
    var db := TwoChunks(net, full, false);
    sequencer := new Sequencer(id, db);
    SettledValid(net, full, false);
    StageMeaning(net, full, false, 2);
    ghost var offered, lo;
    response, offered, lo := sequencer.PutBatches(node, request);
    AppendLost(Settled(net, full, false, 2), request.bodies);
  }

  /** Two finalizations that were locked before: there is a lock certificate to send, but the first sync point has
      left memory, so whoever has finalized nothing gets no answer. */
  method LateAnswersNoNewcomer(net: Network, full: Body, id: NodeId, node: NodeId, request: Request)
    returns (sequencer: Sequencer, response: Option<Response>)
    requires net.Valid() && net.threshold <= 100.0 && request.finalizedIndex == 0
    ensures sequencer.db.Valid() && sequencer.db.net == net && sequencer.db.AsLog().LastFinalized() == 2
    ensures !LockLost(sequencer.db.AsLog()) && !sequencer.db.AsLog().InMemory(1) && response == None
  {
    var db := TwoChunks(net, full, true);
    sequencer := new Sequencer(id, db);
    SettledValid(net, full, true);
    StageMeaning(net, full, true, 2);
    ghost var offered, lo;
    response, offered, lo := sequencer.PutBatches(node, request);
    AppendLost(Settled(net, full, true, 2), request.bodies);
  }
}
