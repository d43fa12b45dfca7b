/** From a published round to a header, a quorum of votes and a certificate
    (calf/src/primary/header_builder.rs). */
module HeaderBuilder {
  import Collections
  import opened Types
  import opened CircularBuffer
  import opened DagProcessor

  // --- waiting for votes ---

  datatype WaitResult = QuorumReached(votes: seq<Vote>) | VoteError | Waiting(votes: seq<Vote>)

  /** The loop of wait_for_quorum over the votes still to come; the threshold is only
      looked at after a vote has been received. */
  function Wait(env: Env, hash: Digest, threshold: nat, votes: seq<Vote>, stream: seq<Vote>): WaitResult
    decreases |stream|
  {
    if stream == [] then Waiting(votes)
    else if env.verify(stream[0], hash).BadKey? then VoteError
    else
      var votes' := if env.verify(stream[0], hash).Valid? then votes + [stream[0]] else votes;
      if |votes'| >= threshold then QuorumReached(votes') else Wait(env, hash, threshold, votes', stream[1..])
  }

  method WaitForQuorum(env: Env, hash: Digest, threshold: nat, own: Vote, stream: seq<Vote>) returns (r: WaitResult)
    ensures r == Wait(env, hash, threshold, [own], stream)
  {
    var votes := [own];
    for i := 0 to |stream|
      invariant Wait(env, hash, threshold, votes, stream[i..]) == Wait(env, hash, threshold, [own], stream)
    {
      var check := env.verify(stream[i], hash);
      if check.BadKey? {
        return VoteError;
      }
      if check.Valid? {
        votes := votes + [stream[i]];
      }
      if |votes| >= threshold {
        return QuorumReached(votes);
      }
    }
    r := Waiting(votes);
  }

  function ValidVotes(env: Env, hash: Digest, stream: seq<Vote>): seq<Vote> {
    if stream == [] then []
    else (if env.verify(stream[0], hash).Valid? then [stream[0]] else []) + ValidVotes(env, hash, stream[1..])
  }

  /** The first k votes bring the count to the threshold, and no key among them is bad. */
  ghost predicate QuorumAt(env: Env, hash: Digest, threshold: nat, have: nat, stream: seq<Vote>, k: nat) {
    && 1 <= k <= |stream|
    && (forall i :: 0 <= i < k ==> !env.verify(stream[i], hash).BadKey?)
    && have + |ValidVotes(env, hash, stream[..k])| >= threshold
  }

  /** One vote less to look at. */
  lemma {:induction false} QuorumAfterFirst(env: Env, hash: Digest, threshold: nat, have: nat,
                                            stream: seq<Vote>, k: nat)
    requires stream != [] && 1 <= k <= |stream|
    ensures
      var first := if env.verify(stream[0], hash).Valid? then [stream[0]] else [];
      && ValidVotes(env, hash, stream[..k]) == first + ValidVotes(env, hash, stream[1..][..k - 1])
      && (k == 1 ==> (QuorumAt(env, hash, threshold, have, stream, k)
                      <==> !env.verify(stream[0], hash).BadKey? && have + |first| >= threshold))
      && (k > 1 ==> (QuorumAt(env, hash, threshold, have, stream, k)
                     <==> !env.verify(stream[0], hash).BadKey?
                          && QuorumAt(env, hash, threshold, have + |first|, stream[1..], k - 1)))
  {
    assert stream[..k][1..] == stream[1..][..k - 1];
    assert forall i :: 0 <= i < k - 1 ==> stream[1..][i] == stream[i + 1];
    assert forall i :: 1 <= i < k ==> stream[i] == stream[1..][i - 1];
  }

  lemma {:induction false} WaitComplete(env: Env, hash: Digest, threshold: nat, votes: seq<Vote>,
                                        stream: seq<Vote>, k: nat)
    requires QuorumAt(env, hash, threshold, |votes|, stream, k)
    ensures Wait(env, hash, threshold, votes, stream).QuorumReached?
    decreases |stream|
  {
    QuorumAfterFirst(env, hash, threshold, |votes|, stream, k);
    var votes' := if env.verify(stream[0], hash).Valid? then votes + [stream[0]] else votes;
    if |votes'| < threshold {
      WaitComplete(env, hash, threshold, votes', stream[1..], k - 1);
    }
  }

  /** A quorum that the first vote does not complete is found one vote later in the stream. */
  lemma {:induction false} NoQuorumBefore(env: Env, hash: Digest, threshold: nat, votes: seq<Vote>,
                                          stream: seq<Vote>, k: nat)
    requires stream != [] && k <= |stream|
    requires var votes' := if env.verify(stream[0], hash).Valid? then votes + [stream[0]] else votes;
      && |votes'| < threshold
      && forall j: nat :: j < k - 1 ==> !QuorumAt(env, hash, threshold, |votes'|, stream[1..], j)
    ensures forall j: nat :: j < k ==> !QuorumAt(env, hash, threshold, |votes|, stream, j)
  {
    forall j: nat | 1 <= j < k ensures !QuorumAt(env, hash, threshold, |votes|, stream, j) {
      QuorumAfterFirst(env, hash, threshold, |votes|, stream, j);
    }
  }

  /** The wait ends with a quorum exactly when some prefix of the stream holds one; it
      returns the votes at hand and the valid ones of the shortest such prefix. */
  lemma {:induction false} WaitExact(env: Env, hash: Digest, threshold: nat, votes: seq<Vote>, stream: seq<Vote>)
    returns (k: nat)
    ensures Wait(env, hash, threshold, votes, stream).QuorumReached?
       <==> exists j :: QuorumAt(env, hash, threshold, |votes|, stream, j)
    ensures Wait(env, hash, threshold, votes, stream).QuorumReached? ==>
      && QuorumAt(env, hash, threshold, |votes|, stream, k)
      && (forall j: nat :: j < k ==> !QuorumAt(env, hash, threshold, |votes|, stream, j))
      && Wait(env, hash, threshold, votes, stream).votes == votes + ValidVotes(env, hash, stream[..k])
    decreases |stream|
  {
    k := 0;
    if j: nat :| QuorumAt(env, hash, threshold, |votes|, stream, j) {
      WaitComplete(env, hash, threshold, votes, stream, j);
    }
    if Wait(env, hash, threshold, votes, stream).QuorumReached? {
      var votes' := if env.verify(stream[0], hash).Valid? then votes + [stream[0]] else votes;
      QuorumAfterFirst(env, hash, threshold, |votes|, stream, 1);
      k := 1;
      if |votes'| < threshold {
        var k' := WaitExact(env, hash, threshold, votes', stream[1..]);
        k := k' + 1;
        NoQuorumBefore(env, hash, threshold, votes, stream, k);
        QuorumAfterFirst(env, hash, threshold, |votes|, stream, k);
      }
    }
  }

  predicate BadKeyAt(env: Env, hash: Digest, stream: seq<Vote>, i: nat) {
    i < |stream| && env.verify(stream[i], hash).BadKey?
  }

  /** Without a quorum the wait fails exactly on a stream with a bad key, and otherwise goes on
      with all valid votes. */
  lemma {:induction false} WaitWithoutQuorum(env: Env, hash: Digest, threshold: nat, votes: seq<Vote>,
                                             stream: seq<Vote>)
    requires !Wait(env, hash, threshold, votes, stream).QuorumReached?
    ensures Wait(env, hash, threshold, votes, stream)
         == if exists i :: BadKeyAt(env, hash, stream, i) then VoteError
            else Waiting(votes + ValidVotes(env, hash, stream))
    decreases |stream|
  {
    if stream != [] {
      if BadKeyAt(env, hash, stream, 0) {
      } else {
        var votes' := if env.verify(stream[0], hash).Valid? then votes + [stream[0]] else votes;
        WaitWithoutQuorum(env, hash, threshold, votes', stream[1..]);
        if i: nat :| BadKeyAt(env, hash, stream, i) {
          assert BadKeyAt(env, hash, stream[1..], i - 1);
        } else if i: nat :| BadKeyAt(env, hash, stream[1..], i) {
          assert BadKeyAt(env, hash, stream, i + 1);
        }
      }
    }
  }

  /** With enough votes from the start, as for a committee of one, the wait still takes one
      message: without any it goes on, a bad key ends it, and any other vote completes it. */
  lemma {:induction false} EnoughFromTheStart(env: Env, hash: Digest, threshold: nat, votes: seq<Vote>,
                                              stream: seq<Vote>)
    requires threshold <= |votes|
    ensures Wait(env, hash, threshold, votes, stream)
         == if stream == [] then Waiting(votes)
            else if env.verify(stream[0], hash).BadKey? then VoteError
            else QuorumReached(votes + ValidVotes(env, hash, stream[..1]))
  {
    if stream != [] {
      assert stream[..1][1..] == [];
    }
  }

  lemma {:induction false} ValidVotesAreValid(env: Env, hash: Digest, stream: seq<Vote>)
    ensures forall v :: v in ValidVotes(env, hash, stream) ==> env.verify(v, hash).Valid?
  {
    if stream != [] {
      ValidVotesAreValid(env, hash, stream[1..]);
    }
  }

  /** ... and none is missing. */
  lemma {:induction false} ValidVotesCount(env: Env, hash: Digest, stream: seq<Vote>, k: nat)
    requires k <= |stream|
    ensures |ValidVotes(env, hash, stream[..k])|
         == Collections.Count((i: nat) => i < |stream| && env.verify(stream[i], hash).Valid?, k)
  {
    if k > 0 {
      ValidVotesCount(env, hash, stream, k - 1);
      assert stream[..k] == stream[..k - 1] + [stream[k - 1]];
      ValidVotesPush(env, hash, stream[..k - 1], stream[k - 1]);
    }
  }

  lemma {:induction false} ValidVotesPush(env: Env, hash: Digest, stream: seq<Vote>, v: Vote)
    ensures ValidVotes(env, hash, stream + [v])
         == ValidVotes(env, hash, stream) + if env.verify(v, hash).Valid? then [v] else []
  {
    if stream != [] {
      ValidVotesPush(env, hash, stream[1..], v);
      assert (stream + [v])[1..] == stream[1..] + [v];
    }
  }

  // --- the header and the certificate ---

  /** ids are the ids of the certificates, each once, in the order of `order`. */
  ghost predicate Lists(env: Env, ids: seq<Digest>, certs: set<Certificate>, order: seq<Certificate>) {
    && Collections.NoRepeats(order) && Collections.Elements(order) == certs
    && |ids| == |order| && forall i :: 0 <= i < |ids| ==> ids[i] == order[i].Id(env.digest)
  }

  /** The header of a published round; it takes the buffered batch digests with it. */
  method BuildHeader(env: Env, author: PublicKey, timestamp: nat, round: nat, certificates: set<Certificate>,
                     buffer: CircularBuffer<Digest>)
    returns (header: BlockHeader, ghost order: seq<Certificate>)
    requires buffer.Valid()
    modifies buffer`buffer
    ensures header == BlockHeader(author, round, timestamp, Flatten(old(buffer.buffer[..])), header.certificatesIds)
    ensures Lists(env, header.certificatesIds, certificates, order)
    ensures buffer.Valid() && buffer.View() == old(buffer.View()).Drained()
  {
    var digests := buffer.Drain();
    var ids: seq<Digest> := [];
    order := [];
    var rest := certificates;
    while rest != {}
      invariant rest <= certificates && Lists(env, ids, Collections.Elements(order), order)
      invariant Collections.Elements(order) == certificates - rest
      decreases rest
    {
      var c :| c in rest;
      rest := rest - {c};
      assert Collections.Elements(order + [c]) == Collections.Elements(order) + {c};
      ids, order := ids + [c.Id(env.digest)], order + [c];
    }
    header := BlockHeader(author, round, timestamp, digests, ids);
  }

  /** Certificate::derived */
  function Certify(round: nat, author: PublicKey, votes: seq<Vote>, header: BlockHeader,
                   headerHash: BlockHeader -> Digest): Certificate
  {
    Derived(author, round, votes, headerHash(header), header.certificatesIds)
  }
}
