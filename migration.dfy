/**
 * readFiles: list the host-local store, skip the "last reserved IP" sentinel,
 * decode each record (file name = address, content = container ID) and hand
 * it to assignCalicoIP, aborting the whole run on the first error.
 *
 * `ReadFiles` is the loop as the program runs it; `RunFrom` and `Convert`
 * are the specification it is proved against, and `Requests` is the
 * reference for which requests the store's records call for.
 */
module Migration {
  import opened Types
  import opened Assignment

  /** The directory where the host-local plugin keeps its records. */
  const StoreDir: string := "/var/lib/cni/networks/k8s-pod-network"

  /** The marker in the name of the store's "last reserved IP" file. */
  const SentinelMarker: string := "last"

  /** The content of a record file, or the error reading it gave. */
  datatype FileContents = Data(text: string) | Unreadable(msg: string)

  /** One entry of the directory listing, with what reading it yields. */
  datatype FileInfo = FileInfo(name: string, contents: FileContents)

  /** The result of listing the store directory. */
  datatype Listing = Listed(files: seq<FileInfo>) | ListFailed(msg: string)

  /** One decoded record: the address it holds and the container owning it. */
  datatype Allocation = Allocation(ip: IP, containerID: string)

  // ---------------------------------------------------------------------
  // Substring search, as Go's strings.Contains

  predicate OccursAt(s: string, sub: string, i: int)
  {
    0 <= i && i + |sub| <= |s| && s[i..i + |sub|] == sub
  }

  function Contains(s: string, sub: string): bool
    decreases |s|
  {
    if |s| < |sub| then false
    else if s[..|sub|] == sub then true
    else Contains(s[1..], sub)
  }

  /** Contains finds `sub` exactly when it occurs somewhere in `s`. */
  lemma {:induction false} ContainsMeansOccurs(s: string, sub: string)
    ensures Contains(s, sub) <==> exists i :: OccursAt(s, sub, i)
    decreases |s|
  {
    if |s| < |sub| {
      forall i ensures !OccursAt(s, sub, i) { }
    } else if s[..|sub|] == sub {
      assert OccursAt(s, sub, 0);
    } else {
      ContainsMeansOccurs(s[1..], sub);
      if Contains(s, sub) {
        var j :| OccursAt(s[1..], sub, j);
        assert s[1..][j..j + |sub|] == s[j + 1..j + 1 + |sub|];
        assert OccursAt(s, sub, j + 1);
      } else {
        forall i | OccursAt(s, sub, i) ensures false {
          if i > 0 {
            assert s[1..][i - 1..i - 1 + |sub|] == s[i..i + |sub|];
            assert OccursAt(s[1..], sub, i - 1);
          }
        }
      }
    }
  }

  // ---------------------------------------------------------------------
  // The legacy store: which entries are records, and what they decode to

  /** Whether a directory entry is the "last reserved IP" sentinel. */
  predicate IsSentinel(name: string)
  {
    Contains(name, SentinelMarker)
  }

  /** The path the record named `name` is read from. */
  function FilePath(name: string): string
  {
    StoreDir + "/" + name
  }

  /** The text handed to the CIDR parser for the record named `name`. */
  function CidrText(name: string): string
  {
    name + "/32"
  }

  /**
   * What a record decodes to: the address parsed from its name with "/32"
   * appended, and its content verbatim as the container ID; None when the
   * file cannot be read or the name does not parse.
   */
  function Decode(f: FileInfo, o: Oracles): (r: Option<Allocation>)
    ensures r.Some? <==> f.contents.Data? && o.parseCIDR(f.name + "/32").Some?
    ensures r.Some? ==>
      && r.value.containerID == f.contents.text
      && o.parseCIDR(f.name + "/32") == Some(r.value.ip)
  {
    match f.contents
    case Unreadable(_) => None
    case Data(text) =>
      match o.parseCIDR(CidrText(f.name))
      case None => None
      case Some(ip) => Some(Allocation(ip, text))
  }

  /** The request an entry calls for: none for the sentinel or an undecodable entry. */
  function RequestOf(f: FileInfo, nodename: string, o: Oracles): seq<AssignIPArgs>
  {
    if IsSentinel(f.name) then []
    else match Decode(f, o)
      case None => []
      case Some(a) => [BuildArgs(a.ip, a.containerID, nodename)]
  }

  /** The requests a listing calls for, in listing order. */
  function Requests(files: seq<FileInfo>, nodename: string, o: Oracles): seq<AssignIPArgs>
  {
    if files == [] then []
    else RequestOf(files[0], nodename, o) + Requests(files[1..], nodename, o)
  }

  /** The entries of a listing that are not the sentinel, in listing order. */
  function NonSentinel(files: seq<FileInfo>): (r: seq<FileInfo>)
    ensures |r| <= |files|
    ensures forall f :: f in r <==> f in files && !IsSentinel(f.name)
  {
    if files == [] then []
    else (if IsSentinel(files[0].name) then [] else [files[0]]) + NonSentinel(files[1..])
  }

  // ---------------------------------------------------------------------
  // The run, as a specification

  /** The events and the error (if any) of handling one directory entry. */
  datatype Effect = Effect(events: seq<Event>, err: Option<Error>)

  /** Handling one directory entry after the events in `history`. */
  function ProcessFile(f: FileInfo, nodename: string, o: Oracles, history: seq<Event>): Effect
  {
    if IsSentinel(f.name) then Effect([], None)
    else
      var path := FilePath(f.name);
      match f.contents
      case Unreadable(msg) => Effect([ReadFile(path)], Some(ReadFailed(path, msg)))
      case Data(containerID) =>
        var text := CidrText(f.name);
        var decoded := [ReadFile(path), ParseCIDR(text)];
        match o.parseCIDR(text)
        case None => Effect(decoded, Some(ParseFailed(text)))
        case Some(ip) =>
          var sub := AssignCalicoIP(ip, containerID, nodename, o, history + decoded);
          Effect(decoded + sub.events, sub.err)
  }

  /** The run so far: the events that happened and the error that stopped it, if any. */
  datatype State = State(trace: seq<Event>, failure: Option<Error>)

  const Start: State := State([], None)

  function Step(s: State, f: FileInfo, nodename: string, o: Oracles): State
  {
    var e := ProcessFile(f, nodename, o, s.trace);
    State(s.trace + e.events, e.err)
  }

  /**
   * Handling `files` in order from state `s`, stopping at the first error.
   * Nothing that already happened is undone, and a stopped run stays stopped.
   */
  function RunFrom(s: State, files: seq<FileInfo>, nodename: string, o: Oracles): (r: State)
    ensures s.trace <= r.trace
    ensures s.failure.Some? ==> r == s
    ensures r.failure.None? ==> s.failure.None?
    decreases |files|
  {
    if files == [] || s.failure.Some? then s
    else RunFrom(Step(s, files[0], nodename, o), files[1..], nodename, o)
  }

  /** The whole conversion: a listing failure aborts before any entry is handled. */
  function Convert(listing: Listing, nodename: string, o: Oracles): State
  {
    match listing
    case ListFailed(msg) => State([], Some(ListDirFailed(msg)))
    case Listed(files) => RunFrom(Start, files, nodename, o)
  }

  // ---------------------------------------------------------------------
  // The run, as the program does it

  /**
   * One iteration of readFiles' loop, written as the program runs it and
   * proved to do what `ProcessFile` specifies: skip the sentinel, otherwise read the
   * record, parse its address and hand it to assignCalicoIP. `err` is the
   * panic that ends the run, if any.
   */
  method ProcessEntry(f: FileInfo, nodename: string, o: Oracles, history: seq<Event>)
    returns (events: seq<Event>, err: Option<Error>)
    ensures Effect(events, err) == ProcessFile(f, nodename, o, history)
  {
    // Skip the last reserved IP.
    if IsSentinel(f.name) {
      return [], None;
    }
    var path := FilePath(f.name);
    if f.contents.Unreadable? {
      return [ReadFile(path)], Some(ReadFailed(path, f.contents.msg));
    }
    var text := CidrText(f.name);
    events := [ReadFile(path), ParseCIDR(text)];
    var ip := o.parseCIDR(text);
    if ip.None? {
      return events, Some(ParseFailed(text));
    }
    var sub := AssignCalicoIP(ip.value, f.contents.text, nodename, o, history + events);
    events := events + sub.events;
    err := sub.err;
  }

  /**
   * readFiles, with the directory listing and the node name given. A panic
   * ends the loop and is reported in `failure`.
   */
  method ReadFiles(listing: Listing, nodename: string, o: Oracles) returns (trace: seq<Event>, failure: Option<Error>)
    ensures State(trace, failure) == Convert(listing, nodename, o)
    ensures listing.ListFailed? ==> trace == [] && failure == Some(ListDirFailed(listing.msg))
  {
    if listing.ListFailed? {
      return [], Some(ListDirFailed(listing.msg));
    }
    trace, failure := [], None;
    var pending := listing.files;
    while pending != []
      invariant failure == None
      invariant RunFrom(State(trace, None), pending, nodename, o) == Convert(listing, nodename, o)
      decreases |pending|
    {
      ghost var before := State(trace, None);
      var events, err := ProcessEntry(pending[0], nodename, o, trace);
      assert RunFrom(before, pending, nodename, o) == RunFrom(State(trace + events, err), pending[1..], nodename, o);
      pending := pending[1..];
      trace := trace + events;
      if err.Some? {
        failure := err;
        return;
      }
    }
  }
}
