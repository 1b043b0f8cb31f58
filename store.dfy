/** The vote store and vote reader, with the guest form's empty-submission check. */
module Store {
  import opened Votes

  /** What the guest form does with a submission. */
  datatype SubmitOutcome =
    | Rejected          // nothing selected: "Bitte wähle etwas aus."
    | CloudNotice       // save reported true: "Gespeichert in der Cloud!"
    | LocalOnlyNotice   // save reported false: "Nur lokal gespeichert!"

  /** The session-local list, `[]` while the session has no 'local_votes' key. */
  function LocalOr(local: Option<seq<VoteRecord>>): seq<VoteRecord>
  {
    if local.Some? then local.value else []
  }

  /** The documents a remote stream yields: all of them, or the first k when the
      stream raises after yielding k documents. */
  function StreamPrefix(remote: seq<VoteRecord>, failAfter: Option<nat>): (r: seq<VoteRecord>)
    ensures r <= remote
    ensures failAfter.None? ==> r == remote
    ensures failAfter.Some? ==> |r| == if failAfter.value < |remote| then failAfter.value else |remote|
  {
    if failAfter.Some? && failAfter.value < |remote| then remote[..failAfter.value] else remote
  }

  /** A submission is passed to the store only when it selects some property or wish. */
  predicate Selected(properties: seq<string>, wishes: seq<string>)
  {
    properties != [] || wishes != []
  }

  /** The vote storage of one process and session. `connected` is the (memoised)
      outcome of connecting to the remote document store; `remote` is the abstract
      content of its "votes" collection; `localVotes` is the session's fallback list,
      None while the session has no such key. */
  class VoteStore {
    const connected: bool
    var remote: seq<VoteRecord>
    var localVotes: Option<seq<VoteRecord>>

    constructor (connected: bool, remote: seq<VoteRecord>)
      ensures this.connected == connected && this.remote == remote && localVotes == None
    {
      this.connected := connected;
      this.remote := remote;
      localVotes := None;
    }

    /** Saves one vote. Connected: one remote add, which may raise (`addFails`);
        true exactly when it succeeded, and a failed add falls back to nothing. The
        added document lands at position `pos` of the collection's read order, which
        the store derives from the id it generates. Not connected: append to the
        session list (created empty if absent), false. */
    method SaveVote(name: string, properties: seq<string>, wishes: seq<string>, insider: string,
                    clock: int, addFails: bool, pos: nat) returns (saved: bool)
      requires pos <= |remote|
      modifies this
      ensures saved <==> connected && !addFails
      ensures var rec := NewVote(name, properties, wishes, insider,
                                 if connected then ServerTimestamp else ClientClock(clock));
              && remote == (if saved then old(remote)[..pos] + [rec] + old(remote)[pos..] else old(remote))
              && localVotes == (if connected then old(localVotes) else Some(LocalOr(old(localVotes)) + [rec]))
    {
      var data := NewVote(name, properties, wishes, insider,
                          if connected then ServerTimestamp else ClientClock(clock));
      if connected {
        if addFails {
          saved := false;
        } else {
          remote := remote[..pos] + [data] + remote[pos..];
          saved := true;
        }
      } else {
        if localVotes.None? {
          localVotes := Some([]);
        }
        localVotes := Some(localVotes.value + [data]);
        saved := false;
      }
    }

    /** Reads every vote of the active store in order and flattens it. Connected, the
        stream may raise after `failAfter` documents; what was read until then is
        returned and nothing is raised. */
    method LoadAll(failAfter: Option<nat>)
      returns (props: seq<string>, wishes: seq<string>, insiders: seq<string>, raw: seq<VoteRecord>)
      ensures raw == if connected then StreamPrefix(remote, failAfter) else LocalOr(localVotes)
      ensures props == AllProperties(raw)
      ensures wishes == AllWishes(raw)
      ensures insiders == Insiders(raw)
    {
      var docs := if connected then remote else LocalOr(localVotes);
      props, wishes, insiders, raw := [], [], [], [];
      var i := 0;
      while i < |docs| && !(connected && failAfter == Some(i))
        invariant i <= |docs|
        invariant raw == docs[..i]
        invariant props == AllProperties(raw)
        invariant wishes == AllWishes(raw)
        invariant insiders == Insiders(raw)
        invariant connected && failAfter.Some? ==> i <= failAfter.value
      {
        var d := docs[i];
        ReadOneMore(raw, d);
        assert docs[..i + 1] == raw + [d];
        raw := raw + [d];
        props := props + PropertiesOf(d);
        wishes := wishes + WishesOf(d);
        insiders := insiders + InsiderOf(d);
        i := i + 1;
      }
      if i == |docs| {
        assert raw == docs;
      }
    }

    /** The guest form's submit handler: an empty selection is refused and never
        reaches the store; otherwise the vote is saved and the notice follows the
        returned flag. */
    method Submit(name: string, properties: seq<string>, wishes: seq<string>, insider: string,
                  clock: int, addFails: bool, pos: nat) returns (outcome: SubmitOutcome)
      requires pos <= |remote|
      modifies this
      ensures !Selected(properties, wishes) ==>
                outcome == Rejected && remote == old(remote) && localVotes == old(localVotes)
      ensures Selected(properties, wishes) ==>
                outcome == (if connected && !addFails then CloudNotice else LocalOnlyNotice)
      ensures Selected(properties, wishes) ==>
                var rec := NewVote(name, properties, wishes, insider,
                                   if connected then ServerTimestamp else ClientClock(clock));
                && remote == (if connected && !addFails then old(remote)[..pos] + [rec] + old(remote)[pos..]
                              else old(remote))
                && localVotes == (if connected then old(localVotes) else Some(LocalOr(old(localVotes)) + [rec]))
    {
      if !Selected(properties, wishes) {
        outcome := Rejected;
      } else {
        var saved := SaveVote(name, properties, wishes, insider, clock, addFails, pos);
        outcome := if saved then CloudNotice else LocalOnlyNotice;
      }
    }
  }
}
