/**
 * assignCalicoIP: building the ownership handle and the AssignIPArgs for one
 * record, then creating a client and submitting the assignment.
 */
module Assignment {
  import opened Types

  /** The namespace tag of every handle this migration creates. */
  const HandleNamespace: string := "k8s-pod-network"

  /** The handle that owns a migrated address: "<namespace>.<containerID>". */
  function HandleID(containerID: string): string
  {
    HandleNamespace + "." + containerID
  }

  /** The request for one record, carrying the node name as its host. */
  function BuildArgs(ip: IP, containerID: string, nodename: string): AssignIPArgs
  {
    AssignIPArgs(ip, HandleID(containerID), nodename)
  }

  /**
   * The handle is the namespace, a dot, and the container ID verbatim, so the
   * container ID can be read back from it.
   */
  lemma HandleIDShape(containerID: string)
    ensures var h := HandleID(containerID);
      && |h| == |HandleNamespace| + 1 + |containerID|
      && h[..|HandleNamespace|] == HandleNamespace
      && h[|HandleNamespace|] == '.'
      && h[|HandleNamespace| + 1..] == containerID
  {
  }

  /** Equal container IDs give equal handles and distinct ones distinct handles. */
  lemma HandleIDInjective(c1: string, c2: string)
    ensures HandleID(c1) == HandleID(c2) <==> c1 == c2
  {
    if HandleID(c1) == HandleID(c2) {
      HandleIDShape(c1);
      HandleIDShape(c2);
    }
  }

  /** The request built for a record holds exactly the record's data and the node name. */
  lemma BuildArgsFields(ip: IP, containerID: string, nodename: string)
    ensures var a := BuildArgs(ip, containerID, nodename);
      && a.ip == ip
      && a.hostname == nodename
      && a.handleID[|HandleNamespace| + 1..] == containerID
      && (forall c :: a.handleID == HandleID(c) <==> c == containerID)
  {
    HandleIDShape(containerID);
    forall c ensures BuildArgs(ip, containerID, nodename).handleID == HandleID(c) <==> c == containerID {
      HandleIDInjective(c, containerID);
    }
  }

  /** The events and the error (if any) of one call of assignCalicoIP. */
  datatype Submission = Submission(events: seq<Event>, err: Option<Error>)

  /**
   * One call of assignCalicoIP after the events in `history`. A new client is
   * created first; if that fails, no assignment is submitted. Otherwise the
   * request is submitted once and its status is the call's result.
   */
  function AssignCalicoIP(ip: IP, containerID: string, nodename: string, o: Oracles, history: seq<Event>): (r: Submission)
    ensures r.events != [] && r.events[0] == CreateClient
    ensures Attempts(r.events) ==
      if o.createClient(history).Ok? then [BuildArgs(ip, containerID, nodename)] else []
    ensures r.err.None? <==>
      o.createClient(history).Ok? && o.assignIP(history + [CreateClient], BuildArgs(ip, containerID, nodename)).Ok?
    ensures r.err.Some? ==> r.err.value.ClientFailed? || r.err.value.AssignFailed?
    ensures (r.err.Some? && r.err.value.ClientFailed?) <==> o.createClient(history).Failed?
    ensures r.err.Some? && r.err.value.ClientFailed? ==> r.err.value.msg == o.createClient(history).msg
    ensures r.err.Some? && r.err.value.AssignFailed? ==>
      r.err.value.msg == o.assignIP(history + [CreateClient], BuildArgs(ip, containerID, nodename)).msg
    ensures |r.events| <= 2
  {
    var args := BuildArgs(ip, containerID, nodename);
    match o.createClient(history)
    case Failed(msg) => Submission([CreateClient], Some(ClientFailed(msg)))
    case Ok =>
      match o.assignIP(history + [CreateClient], args)
      case Failed(msg) => Submission([CreateClient, AssignIP(args)], Some(AssignFailed(msg)))
      case Ok => Submission([CreateClient, AssignIP(args)], None)
  }
}
