/**
 * The values the conversion works with: IP addresses, the assignment request
 * handed to the Calico IPAM client, the observable events of a run, the
 * errors that abort it, and the external collaborators (address parsing,
 * client creation, IP assignment) modelled as oracles.
 */
module Types {

  datatype Option<+T> = None | Some(value: T)

  /** An IP address as the Calico `net` library holds it: its raw bytes. */
  datatype IP = IP(bytes: seq<bv8>)

  /**
   * The request passed to the IPAM client's AssignIP. The handle is a Go
   * `*string` that this program always sets, so it is a plain string here.
   */
  datatype AssignIPArgs = AssignIPArgs(ip: IP, handleID: string, hostname: string)

  /** One externally visible action of a run, in the order it happens. */
  datatype Event =
    | ReadFile(path: string)           // reading one record file of the store
    | ParseCIDR(text: string)          // parsing "<name>/32"
    | CreateClient                     // building a new Calico client
    | AssignIP(args: AssignIPArgs)     // submitting one assignment

  /** What a collaborator call returns: success, or an error message. */
  datatype Status = Ok | Failed(msg: string)

  /** Every condition on which the program panics. */
  datatype Error =
    | ListDirFailed(msg: string)
    | ReadFailed(path: string, msg: string)
    | ParseFailed(text: string)
    | ClientFailed(msg: string)
    | AssignFailed(msg: string)

  /**
   * The library calls whose internals are not part of the model. Client
   * creation and assignment are given the history of the run so far, so an
   * oracle can answer as a stateful datastore would (for instance, refuse an
   * address that an earlier AssignIP event already took).
   */
  datatype Oracles = Oracles(
    parseCIDR: string -> Option<IP>,
    createClient: seq<Event> -> Status,
    assignIP: (seq<Event>, AssignIPArgs) -> Status)

  /** The assignment requests submitted during a run, in submission order. */
  function Attempts(trace: seq<Event>): (r: seq<AssignIPArgs>)
    ensures |r| <= |trace|
    ensures forall a :: a in r <==> AssignIP(a) in trace
  {
    if trace == [] then []
    else (if trace[0].AssignIP? then [trace[0].args] else []) + Attempts(trace[1..])
  }

  lemma {:induction false} AttemptsAppend(a: seq<Event>, b: seq<Event>)
    ensures Attempts(a + b) == Attempts(a) + Attempts(b)
  {
    if a == [] {
      assert a + b == b;
    } else {
      assert (a + b)[0] == a[0];
      assert (a + b)[1..] == a[1..] + b;
      AttemptsAppend(a[1..], b);
    }
  }

  /** A run that only adds events never takes back a submitted request. */
  lemma AttemptsPrefix(t1: seq<Event>, t2: seq<Event>)
    requires t1 <= t2
    ensures Attempts(t1) <= Attempts(t2)
  {
    var d := t2[|t1|..];
    assert t2 == t1 + d;
    AttemptsAppend(t1, d);
  }
}
