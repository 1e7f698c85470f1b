/**
 * What the conversion guarantees, proved about the specification of the run
 * (`RunFrom`, `Convert`) against the reference `Requests`: sentinels are
 * ignored, requests are submitted in listing order with the record's address,
 * handle and the node name, and the first error stops the run for good.
 */
module MigrationProperties {
  import opened Types
  import opened Assignment
  import opened Migration

  /** Every record that is not the sentinel can be read and its name parses. */
  predicate AllDecodable(files: seq<FileInfo>, o: Oracles)
  {
    forall f :: f in files && !IsSentinel(f.name) ==> Decode(f, o).Some?
  }

  /** Client creation and assignment never fail, whatever happened before. */
  ghost predicate ServicesUp(o: Oracles)
  {
    && (forall h :: o.createClient(h) == Ok)
    && (forall h, a :: o.assignIP(h, a) == Ok)
  }

  lemma PrefixExtend<T>(x: seq<T>, y: seq<T>, z: seq<T>)
    requires x <= y
    ensures x <= y + z
  {
    assert (y + z)[..|x|] == x;
  }

  /**
   * A step that submits a prefix of its requests, followed by a run that
   * submits a prefix of the remaining ones, submits a prefix of all of them;
   * all of them when neither stopped early.
   */
  lemma PrefixChain<T>(a: seq<T>, req: seq<T>, rest: seq<T>, mid: seq<T>, fin: seq<T>, midFailed: bool, finFailed: bool)
    requires mid <= a + req
    requires !midFailed ==> mid == a + req
    requires midFailed ==> fin == mid && finFailed
    requires !midFailed ==> fin <= mid + rest && (!finFailed ==> fin == mid + rest)
    ensures fin <= a + (req + rest)
    ensures !finFailed ==> fin == a + (req + rest)
  {
    assert a + (req + rest) == (a + req) + rest;
    if midFailed {
      PrefixExtend(mid, a + req, rest);
    }
  }

  lemma PrefixMembers<T>(x: seq<T>, y: seq<T>)
    requires x <= y
    ensures forall a :: a in x ==> a in y
  {
    forall a | a in x ensures a in y {
      var i :| 0 <= i < |x| && x[i] == a;
      assert y[i] == a;
    }
  }

  lemma PrefixConcat<T>(p: seq<T>, x: seq<T>, y: seq<T>, z: seq<T>)
    requires x <= y
    ensures p + x <= p + y + z
  {
    assert (p + y + z)[..|p + x|] == p + x;
  }

  // ---------------------------------------------------------------------
  // One entry

  /**
   * Handling one entry touches nothing exactly when it is the sentinel; it
   * submits at most the request the entry calls for, and when it succeeds it
   * submitted exactly that request and the entry was a sentinel or decodable.
   */
  lemma ProcessFileAttempts(f: FileInfo, nodename: string, o: Oracles, history: seq<Event>)
    ensures var e := ProcessFile(f, nodename, o, history);
      && (IsSentinel(f.name) <==> e.events == [])
      && Attempts(e.events) <= RequestOf(f, nodename, o)
      && (e.err.None? ==> Attempts(e.events) == RequestOf(f, nodename, o))
      && (e.err.None? ==> IsSentinel(f.name) || Decode(f, o).Some?)
  {
    var e := ProcessFile(f, nodename, o, history);
    var path, text := FilePath(f.name), CidrText(f.name);
    if IsSentinel(f.name) {
      assert e == Effect([], None) && RequestOf(f, nodename, o) == [];
    } else if f.contents.Unreadable? {
      assert e.events == [ReadFile(path)] && e.err.Some?;
      assert Attempts(e.events) == [];
    } else if o.parseCIDR(text).None? {
      assert e.events == [ReadFile(path), ParseCIDR(text)] && e.err.Some?;
      assert Attempts(e.events) == [];
    } else {
      var decoded := [ReadFile(path), ParseCIDR(text)];
      var ip := o.parseCIDR(text).value;
      var sub := AssignCalicoIP(ip, f.contents.text, nodename, o, history + decoded);
      assert e == Effect(decoded + sub.events, sub.err);
      assert RequestOf(f, nodename, o) == [BuildArgs(ip, f.contents.text, nodename)];
      AttemptsAppend(decoded, sub.events);
      assert Attempts(decoded) == [];
    }
  }

  /** One step of the run submits at most the request its entry calls for. */
  lemma StepAttempts(s: State, f: FileInfo, nodename: string, o: Oracles)
    ensures var s' := Step(s, f, nodename, o);
      && Attempts(s'.trace) <= Attempts(s.trace) + RequestOf(f, nodename, o)
      && (s'.failure.None? ==> Attempts(s'.trace) == Attempts(s.trace) + RequestOf(f, nodename, o))
  {
    var e := ProcessFile(f, nodename, o, s.trace);
    ProcessFileAttempts(f, nodename, o, s.trace);
    AttemptsAppend(s.trace, e.events);
    PrefixConcat(Attempts(s.trace), Attempts(e.events), RequestOf(f, nodename, o), []);
    assert Attempts(s.trace) + RequestOf(f, nodename, o) + [] == Attempts(s.trace) + RequestOf(f, nodename, o);
  }

  // ---------------------------------------------------------------------
  // Composition of runs

  lemma {:induction false} RunAppend(s: State, a: seq<FileInfo>, b: seq<FileInfo>, nodename: string, o: Oracles)
    ensures RunFrom(s, a + b, nodename, o) == RunFrom(RunFrom(s, a, nodename, o), b, nodename, o)
    decreases |a|
  {
    if a == [] {
      assert a + b == b;
    } else if s.failure.None? {
      assert (a + b)[0] == a[0];
      assert (a + b)[1..] == a[1..] + b;
      RunAppend(Step(s, a[0], nodename, o), a[1..], b, nodename, o);
    }
  }

  // ---------------------------------------------------------------------
  // The sentinel filter

  /** Dropping the sentinels keeps every other entry as many times as the listing holds it. */
  lemma {:induction false} NonSentinelCounts(files: seq<FileInfo>)
    ensures forall f :: multiset(NonSentinel(files))[f] == if IsSentinel(f.name) then 0 else multiset(files)[f]
    decreases |files|
  {
    if files != [] {
      NonSentinelCounts(files[1..]);
      var head := if IsSentinel(files[0].name) then [] else [files[0]];
      var tail := NonSentinel(files[1..]);
      assert NonSentinel(files) == head + tail;
      assert files == [files[0]] + files[1..];
      assert multiset(files) == multiset{files[0]} + multiset(files[1..]);
      assert multiset(head + tail) == multiset(head) + multiset(tail);
    }
  }

  /** Dropping the sentinels keeps the listing's order: it distributes over concatenation. */
  lemma {:induction false} NonSentinelAppend(a: seq<FileInfo>, b: seq<FileInfo>)
    ensures NonSentinel(a + b) == NonSentinel(a) + NonSentinel(b)
    decreases |a|
  {
    if a == [] {
      assert a + b == b;
    } else {
      var head := if IsSentinel(a[0].name) then [] else [a[0]];
      assert (a + b)[0] == a[0];
      assert (a + b)[1..] == a[1..] + b;
      assert NonSentinel(a + b) == head + NonSentinel(a[1..] + b);
      NonSentinelAppend(a[1..], b);
      assert head + (NonSentinel(a[1..]) + NonSentinel(b)) == (head + NonSentinel(a[1..])) + NonSentinel(b);
    }
  }

  /** Removing every sentinel entry from the listing does not change the run at all. */
  lemma {:induction false} SentinelsIgnored(s: State, files: seq<FileInfo>, nodename: string, o: Oracles)
    ensures RunFrom(s, files, nodename, o) == RunFrom(s, NonSentinel(files), nodename, o)
    decreases |files|
  {
    if files != [] && s.failure.None? {
      if IsSentinel(files[0].name) {
        assert Step(s, files[0], nodename, o) == s;
        assert NonSentinel(files) == NonSentinel(files[1..]);
        SentinelsIgnored(s, files[1..], nodename, o);
      } else {
        var ns := NonSentinel(files);
        assert ns == [files[0]] + NonSentinel(files[1..]);
        assert ns[0] == files[0] && ns[1..] == NonSentinel(files[1..]);
        SentinelsIgnored(Step(s, files[0], nodename, o), files[1..], nodename, o);
      }
    }
  }

  /** A store holding only the "last reserved IP" file converts to nothing, successfully. */
  lemma SentinelOnlyStoreIsNoOp(contents: FileContents, nodename: string, o: Oracles)
    ensures Convert(Listed([FileInfo("last_reserved_ip", contents)]), nodename, o) == State([], None)
  {
    var f := FileInfo("last_reserved_ip", contents);
    assert f.name[..|SentinelMarker|] == SentinelMarker;
    assert IsSentinel(f.name);
    assert Step(Start, f, nodename, o) == Start;
    assert [f][0] == f && [f][1..] == [];
    assert RunFrom(Start, [f], nodename, o) == RunFrom(Start, [], nodename, o);
  }

  // ---------------------------------------------------------------------
  // Fail-fast

  /**
   * Once a run over the first entries of a listing has failed, the rest of
   * the listing changes nothing: no later entry is read, parsed or submitted.
   */
  lemma StopsAtFirstFailure(s: State, done: seq<FileInfo>, rest: seq<FileInfo>, nodename: string, o: Oracles)
    requires RunFrom(s, done, nodename, o).failure.Some?
    ensures RunFrom(s, done + rest, nodename, o) == RunFrom(s, done, nodename, o)
  {
    RunAppend(s, done, rest, nodename, o);
  }

  lemma RunCons(s: State, x: FileInfo, rest: seq<FileInfo>, nodename: string, o: Oracles)
    requires s.failure.None?
    ensures RunFrom(s, [x] + rest, nodename, o) == RunFrom(Step(s, x, nodename, o), rest, nodename, o)
  {
    assert ([x] + rest)[0] == x && ([x] + rest)[1..] == rest;
  }

  /**
   * The run from `s` over `files` goes through the entries `done` without
   * error, and handling the next entry `f` gives its final state.
   */
  predicate EndsAt(s: State, files: seq<FileInfo>, done: seq<FileInfo>, f: FileInfo, rest: seq<FileInfo>, nodename: string, o: Oracles)
  {
    && files == done + [f] + rest
    && RunFrom(s, done, nodename, o).failure.None?
    && Step(RunFrom(s, done, nodename, o), f, nodename, o) == RunFrom(s, files, nodename, o)
  }

  /**
   * A failed run failed at one entry `f`: every entry before it went
   * through, the run ends in the state handling `f` left, and nothing after
   * `f` happened.
   */
  lemma {:induction false} FirstFailure(s: State, files: seq<FileInfo>, nodename: string, o: Oracles)
    requires s.failure.None?
    requires RunFrom(s, files, nodename, o).failure.Some?
    ensures exists done, f, rest :: EndsAt(s, files, done, f, rest, nodename, o)
    decreases |files|
  {
    var x := files[0];
    var s' := Step(s, x, nodename, o);
    assert RunFrom(s, files, nodename, o) == RunFrom(s', files[1..], nodename, o);
    if s'.failure.Some? {
      assert files == [] + [x] + files[1..];
      assert EndsAt(s, files, [], x, files[1..], nodename, o);
    } else {
      FirstFailure(s', files[1..], nodename, o);
      var done, f, rest :| EndsAt(s', files[1..], done, f, rest, nodename, o);
      EndsAtCons(s, x, files[1..], done, f, rest, nodename, o);
      assert [x] + files[1..] == files;
    }
  }

  /** Going through one more entry first moves where the run ends by one. */
  lemma EndsAtCons(s: State, x: FileInfo, tail: seq<FileInfo>, done: seq<FileInfo>, f: FileInfo, rest: seq<FileInfo>, nodename: string, o: Oracles)
    requires s.failure.None? && Step(s, x, nodename, o).failure.None?
    requires EndsAt(Step(s, x, nodename, o), tail, done, f, rest, nodename, o)
    ensures EndsAt(s, [x] + tail, [x] + done, f, rest, nodename, o)
  {
    RunCons(s, x, done, nodename, o);
    RunCons(s, x, tail, nodename, o);
    ConsSplit(x, tail, done, f, rest);
  }

  lemma ConsSplit<T>(x: T, tail: seq<T>, done: seq<T>, f: T, rest: seq<T>)
    requires tail == done + [f] + rest
    ensures [x] + tail == ([x] + done) + [f] + rest
  {
  }

  /**
   * How handling a non-sentinel entry fails, for each way it can: an
   * unreadable file, a name that does not parse, a client that cannot be
   * created, or a refused assignment.
   */
  lemma StepFailures(s: State, f: FileInfo, nodename: string, o: Oracles)
    requires !IsSentinel(f.name)
    ensures
      var path, text := FilePath(f.name), CidrText(f.name);
      var read := s.trace + [ReadFile(path)];
      var parsed := read + [ParseCIDR(text)];
      var client := parsed + [CreateClient];
      var r := Step(s, f, nodename, o);
      && (f.contents.Unreadable? ==>
            r == State(read, Some(ReadFailed(path, f.contents.msg))))
      && (f.contents.Data? && o.parseCIDR(text).None? ==>
            r == State(parsed, Some(ParseFailed(text))))
      && (f.contents.Data? && o.parseCIDR(text).Some? && o.createClient(parsed).Failed? ==>
            r == State(client, Some(ClientFailed(o.createClient(parsed).msg))))
      && (f.contents.Data? && o.parseCIDR(text).Some? && o.createClient(parsed).Ok? ==>
            var args := BuildArgs(o.parseCIDR(text).value, f.contents.text, nodename);
            o.assignIP(client, args).Failed? ==>
              r == State(client + [AssignIP(args)], Some(AssignFailed(o.assignIP(client, args).msg))))
  {
    var path, text := FilePath(f.name), CidrText(f.name);
    var parsed := s.trace + [ReadFile(path)] + [ParseCIDR(text)];
    assert parsed == s.trace + [ReadFile(path), ParseCIDR(text)];
    if f.contents.Data? && o.parseCIDR(text).Some? {
      var args := BuildArgs(o.parseCIDR(text).value, f.contents.text, nodename);
      assert parsed + [CreateClient] + [AssignIP(args)] ==
        s.trace + ([ReadFile(path), ParseCIDR(text)] + [CreateClient, AssignIP(args)]);
    }
  }

  /**
   * A run that gets through the entries `done` without error and then fails
   * on entry `f` ends right there with that entry's error: the entries in
   * `rest` are never read, parsed or submitted, and what happened before stays.
   */
  lemma AbortsOnFirstError(done: seq<FileInfo>, f: FileInfo, rest: seq<FileInfo>, nodename: string, o: Oracles)
    requires RunFrom(Start, done, nodename, o).failure.None?
    ensures var s' := Step(RunFrom(Start, done, nodename, o), f, nodename, o);
      s'.failure.Some? ==> Convert(Listed(done + [f] + rest), nodename, o) == s'
  {
    var pre := RunFrom(Start, done, nodename, o);
    var s' := Step(pre, f, nodename, o);
    RunAppend(Start, done, [f] + rest, nodename, o);
    assert done + [f] + rest == done + ([f] + rest);
    assert ([f] + rest)[0] == f && ([f] + rest)[1..] == rest;
    assert RunFrom(pre, [f] + rest, nodename, o) == RunFrom(s', rest, nodename, o);
  }

  /** Everything that happened in the run over the entries `done` is still part of the longer run. */
  lemma EarlierWorkStays(s: State, done: seq<FileInfo>, rest: seq<FileInfo>, nodename: string, o: Oracles)
    ensures RunFrom(s, done, nodename, o).trace <= RunFrom(s, done + rest, nodename, o).trace
    ensures Attempts(RunFrom(s, done, nodename, o).trace) <= Attempts(RunFrom(s, done + rest, nodename, o).trace)
  {
    RunAppend(s, done, rest, nodename, o);
    var m := RunFrom(s, done, nodename, o);
    var r := RunFrom(m, rest, nodename, o);
    assert m.trace <= r.trace;
    AttemptsPrefix(m.trace, r.trace);
  }

  // ---------------------------------------------------------------------
  // What is submitted

  /**
   * The requests submitted are always a prefix of the requests the listing
   * calls for, in listing order; when the run succeeds they are all of them.
   */
  lemma {:induction false} AttemptsFollowRequests(s: State, files: seq<FileInfo>, nodename: string, o: Oracles)
    requires s.failure.None?
    ensures var r := RunFrom(s, files, nodename, o);
      && Attempts(r.trace) <= Attempts(s.trace) + Requests(files, nodename, o)
      && (r.failure.None? ==> Attempts(r.trace) == Attempts(s.trace) + Requests(files, nodename, o))
    decreases |files|
  {
    if files != [] {
      var f := files[0];
      var s' := Step(s, f, nodename, o);
      var r := RunFrom(s', files[1..], nodename, o);
      assert RunFrom(s, files, nodename, o) == r;
      var req, rest := RequestOf(f, nodename, o), Requests(files[1..], nodename, o);
      assert Requests(files, nodename, o) == req + rest;
      StepAttempts(s, f, nodename, o);
      if s'.failure.None? {
        AttemptsFollowRequests(s', files[1..], nodename, o);
      }
      PrefixChain(Attempts(s.trace), req, rest, Attempts(s'.trace), Attempts(r.trace), s'.failure.Some?, r.failure.Some?);
    }
  }

  /** A run that succeeds met no unreadable file and no unparsable name. */
  lemma {:induction false} SuccessDecodesEveryRecord(s: State, files: seq<FileInfo>, nodename: string, o: Oracles)
    requires RunFrom(s, files, nodename, o).failure.None?
    ensures AllDecodable(files, o)
    decreases |files|
  {
    if files != [] {
      var s' := Step(s, files[0], nodename, o);
      ProcessFileAttempts(files[0], nodename, o, s.trace);
      SuccessDecodesEveryRecord(s', files[1..], nodename, o);
      forall f | f in files && !IsSentinel(f.name) ensures Decode(f, o).Some? {
        if f != files[0] {
          assert f in files[1..];
        }
      }
    }
  }

  /** With the services up, an entry that is the sentinel or decodable goes through. */
  lemma StepSucceeds(s: State, f: FileInfo, nodename: string, o: Oracles)
    requires IsSentinel(f.name) || Decode(f, o).Some?
    requires ServicesUp(o)
    ensures Step(s, f, nodename, o).failure.None?
  {
    if !IsSentinel(f.name) {
      var text := CidrText(f.name);
      var decoded := [ReadFile(FilePath(f.name)), ParseCIDR(text)];
      var h := s.trace + decoded;
      var ip := o.parseCIDR(text).value;
      assert o.createClient(h) == Ok;
      assert o.assignIP(h + [CreateClient], BuildArgs(ip, f.contents.text, nodename)) == Ok;
      var sub := AssignCalicoIP(ip, f.contents.text, nodename, o, h);
      assert ProcessFile(f, nodename, o, s.trace) == Effect(decoded + sub.events, sub.err);
    }
  }

  /** With every record decodable and the services up, the run succeeds. */
  lemma {:induction false} NoInducedFailureSucceeds(s: State, files: seq<FileInfo>, nodename: string, o: Oracles)
    requires s.failure.None?
    requires AllDecodable(files, o)
    requires ServicesUp(o)
    ensures RunFrom(s, files, nodename, o).failure.None?
    decreases |files|
  {
    if files != [] {
      var f := files[0];
      StepSucceeds(s, f, nodename, o);
      var s' := Step(s, f, nodename, o);
      assert RunFrom(s, files, nodename, o) == RunFrom(s', files[1..], nodename, o);
      forall g | g in files[1..] && !IsSentinel(g.name) ensures Decode(g, o).Some? {
        assert g in files;
      }
      NoInducedFailureSucceeds(s', files[1..], nodename, o);
    }
  }

  /** With the services up, a run succeeds exactly when every record decodes. */
  lemma SucceedsIffAllDecodable(files: seq<FileInfo>, nodename: string, o: Oracles)
    requires ServicesUp(o)
    ensures Convert(Listed(files), nodename, o).failure.None? <==> AllDecodable(files, o)
  {
    if AllDecodable(files, o) {
      NoInducedFailureSucceeds(Start, files, nodename, o);
    }
    if Convert(Listed(files), nodename, o).failure.None? {
      SuccessDecodesEveryRecord(Start, files, nodename, o);
    }
  }

  /** Each request of `rs` is the one built from the entry of `ns` at the same position. */
  predicate BuiltFrom(rs: seq<AssignIPArgs>, ns: seq<FileInfo>, nodename: string, o: Oracles)
  {
    && |rs| == |ns|
    && forall j :: 0 <= j < |ns| ==>
      && Decode(ns[j], o).Some?
      && rs[j] == BuildArgs(Decode(ns[j], o).value.ip, Decode(ns[j], o).value.containerID, nodename)
  }

  lemma BuiltFromCons(r: AssignIPArgs, n: FileInfo, rs: seq<AssignIPArgs>, ns: seq<FileInfo>, nodename: string, o: Oracles)
    requires BuiltFrom(rs, ns, nodename, o)
    requires Decode(n, o).Some?
    requires r == BuildArgs(Decode(n, o).value.ip, Decode(n, o).value.containerID, nodename)
    ensures BuiltFrom([r] + rs, [n] + ns, nodename, o)
  {
    forall j | 0 <= j < |[n] + ns|
      ensures Decode(([n] + ns)[j], o).Some?
      ensures ([r] + rs)[j] == BuildArgs(Decode(([n] + ns)[j], o).value.ip, Decode(([n] + ns)[j], o).value.containerID, nodename)
    {
      if j > 0 {
        assert ([n] + ns)[j] == ns[j - 1] && ([r] + rs)[j] == rs[j - 1];
      }
    }
  }

  /**
   * When every record decodes, the listing calls for exactly one request per
   * non-sentinel entry, in listing order, built from that entry.
   */
  lemma {:induction false} RequestsOnePerEntry(files: seq<FileInfo>, nodename: string, o: Oracles)
    requires AllDecodable(files, o)
    ensures var rs, ns := Requests(files, nodename, o), NonSentinel(files);
      && |rs| == |ns|
      && forall j :: 0 <= j < |ns| ==>
        && Decode(ns[j], o).Some?
        && rs[j] == BuildArgs(Decode(ns[j], o).value.ip, Decode(ns[j], o).value.containerID, nodename)
    decreases |files|
  {
    if files != [] {
      forall g | g in files[1..] && !IsSentinel(g.name) ensures Decode(g, o).Some? {
        assert g in files;
      }
      RequestsOnePerEntry(files[1..], nodename, o);
      var f := files[0];
      var rs', ns' := Requests(files[1..], nodename, o), NonSentinel(files[1..]);
      assert BuiltFrom(rs', ns', nodename, o);
      assert Requests(files, nodename, o) == RequestOf(f, nodename, o) + rs';
      assert NonSentinel(files) == (if IsSentinel(f.name) then [] else [f]) + ns';
      if IsSentinel(f.name) {
        assert RequestOf(f, nodename, o) == [];
        assert Requests(files, nodename, o) == rs' && NonSentinel(files) == ns';
      } else {
        assert Decode(f, o).Some?;
        var r := BuildArgs(Decode(f, o).value.ip, Decode(f, o).value.containerID, nodename);
        assert RequestOf(f, nodename, o) == [r];
        BuiltFromCons(r, f, rs', ns', nodename, o);
      }
      assert BuiltFrom(Requests(files, nodename, o), NonSentinel(files), nodename, o);
    }
  }

  /**
   * `a` carries the node name, and the address and handle of one
   * non-sentinel record of `files`: the address parsed from its name with
   * "/32" appended, and the handle built from its content.
   */
  predicate FromRecord(a: AssignIPArgs, files: seq<FileInfo>, nodename: string, o: Oracles)
  {
    && a.hostname == nodename
    && exists f :: f in files && !IsSentinel(f.name) && f.contents.Data? &&
         o.parseCIDR(f.name + "/32") == Some(a.ip) && a.handleID == HandleID(f.contents.text)
  }

  /** Every request the listing calls for is built from one of its records and the node name. */
  lemma {:induction false} RequestsComeFromRecords(files: seq<FileInfo>, nodename: string, o: Oracles)
    ensures forall a :: a in Requests(files, nodename, o) ==> FromRecord(a, files, nodename, o)
    decreases |files|
  {
    if files != [] {
      RequestsComeFromRecords(files[1..], nodename, o);
      var f := files[0];
      assert Requests(files, nodename, o) == RequestOf(f, nodename, o) + Requests(files[1..], nodename, o);
      forall a | a in Requests(files, nodename, o) ensures FromRecord(a, files, nodename, o) {
        if a in RequestOf(f, nodename, o) {
          assert f in files;
        } else {
          assert FromRecord(a, files[1..], nodename, o);
          var g :| g in files[1..] && !IsSentinel(g.name) && g.contents.Data? &&
            o.parseCIDR(g.name + "/32") == Some(a.ip) && a.handleID == HandleID(g.contents.text);
          assert g in files;
        }
      }
    }
  }

  /**
   * The submissions of a conversion are the listing's requests in order, all
   * of them when the conversion succeeds, so each is built from one of the
   * listing's records and the node name.
   */
  lemma EveryAttemptMatchesARecord(listing: Listing, nodename: string, o: Oracles)
    ensures var r := Convert(listing, nodename, o);
      && (listing.ListFailed? ==> Attempts(r.trace) == [])
      && (listing.Listed? ==> Attempts(r.trace) <= Requests(listing.files, nodename, o))
      && (listing.Listed? && r.failure.None? ==> Attempts(r.trace) == Requests(listing.files, nodename, o))
      && (listing.Listed? ==> forall a :: a in Attempts(r.trace) ==> FromRecord(a, listing.files, nodename, o))
  {
    if listing.Listed? {
      var files := listing.files;
      var r := RunFrom(Start, files, nodename, o);
      var rs := Requests(files, nodename, o);
      assert Convert(listing, nodename, o) == r;
      AttemptsFollowRequests(Start, files, nodename, o);
      assert Attempts(Start.trace) + rs == rs;
      RequestsComeFromRecords(files, nodename, o);
      PrefixMembers(Attempts(r.trace), rs);
    }
  }

  /**
   * With no induced failure, the conversion succeeds and submits exactly one
   * assignment per non-sentinel entry, in listing order, each built from that
   * entry's name, content and the node name.
   */
  lemma NoFailuresMigratesEveryEntry(files: seq<FileInfo>, nodename: string, o: Oracles)
    requires AllDecodable(files, o)
    requires ServicesUp(o)
    ensures var r, ns := Convert(Listed(files), nodename, o), NonSentinel(files);
      && r.failure.None?
      && |Attempts(r.trace)| == |ns|
      && forall j :: 0 <= j < |ns| ==>
        && Decode(ns[j], o).Some?
        && Attempts(r.trace)[j] == BuildArgs(Decode(ns[j], o).value.ip, Decode(ns[j], o).value.containerID, nodename)
  {
    NoInducedFailureSucceeds(Start, files, nodename, o);
    AttemptsFollowRequests(Start, files, nodename, o);
    var rs := Requests(files, nodename, o);
    assert Attempts(Start.trace) + rs == rs;
    assert Attempts(Convert(Listed(files), nodename, o).trace) == rs;
    RequestsOnePerEntry(files, nodename, o);
  }

  // ---------------------------------------------------------------------
  // Listing order

  lemma {:induction false} RequestsAppend(a: seq<FileInfo>, b: seq<FileInfo>, nodename: string, o: Oracles)
    ensures Requests(a + b, nodename, o) == Requests(a, nodename, o) + Requests(b, nodename, o)
    decreases |a|
  {
    if a == [] {
      assert a + b == b;
    } else {
      assert (a + b)[0] == a[0];
      assert (a + b)[1..] == a[1..] + b;
      RequestsAppend(a[1..], b, nodename, o);
    }
  }

  lemma RequestsAround(left: seq<FileInfo>, x: FileInfo, right: seq<FileInfo>, nodename: string, o: Oracles)
    ensures Requests(left + [x] + right, nodename, o) ==
      Requests(left, nodename, o) + RequestOf(x, nodename, o) + Requests(right, nodename, o)
  {
    var tail := [x] + right;
    assert left + [x] + right == left + tail;
    RequestsAppend(left, tail, nodename, o);
    RequestsCons(x, right, nodename, o);
  }

  lemma RequestsCons(x: FileInfo, right: seq<FileInfo>, nodename: string, o: Oracles)
    ensures Requests([x] + right, nodename, o) == RequestOf(x, nodename, o) + Requests(right, nodename, o)
  {
    assert ([x] + right)[0] == x && ([x] + right)[1..] == right;
  }

  lemma SplitAt<T>(s: seq<T>, i: nat)
    requires i < |s|
    ensures s == s[..i] + [s[i]] + s[i + 1..]
    ensures multiset(s) == multiset(s[..i] + s[i + 1..]) + multiset{s[i]}
  {
    assert s == s[..i] + [s[i]] + s[i + 1..];
    assert multiset(s[..i] + s[i + 1..]) == multiset(s[..i]) + multiset(s[i + 1..]);
  }

  lemma Cancel<T>(a: multiset<T>, b: multiset<T>, x: T)
    requires a + multiset{x} == b + multiset{x}
    ensures a == b
  {
    assert a == (a + multiset{x}) - multiset{x};
  }

  lemma RemoveMatching<T>(f1: seq<T>, f2: seq<T>, i: nat)
    requires multiset(f1) == multiset(f2)
    requires f1 != [] && i < |f2| && f2[i] == f1[0]
    ensures f2 == f2[..i] + [f1[0]] + f2[i + 1..]
    ensures multiset(f1[1..]) == multiset(f2[..i] + f2[i + 1..])
  {
    SplitAt(f1, 0);
    SplitAt(f2, i);
    assert f1[..0] + f1[1..] == f1[1..];
    Cancel(multiset(f1[1..]), multiset(f2[..i] + f2[i + 1..]), f1[0]);
  }

  lemma MultisetShuffle<T>(a: seq<T>, b: seq<T>, c: seq<T>, d: seq<T>)
    requires multiset(d) == multiset(a + c)
    ensures multiset(b + d) == multiset(a + b + c)
  {
    assert multiset(a + b + c) == multiset(a) + multiset(b) + multiset(c);
  }

  /** The requests a listing calls for, as a multiset, do not depend on the listing's order. */
  lemma {:induction false} RequestsMultiset(f1: seq<FileInfo>, f2: seq<FileInfo>, nodename: string, o: Oracles)
    requires multiset(f1) == multiset(f2)
    ensures multiset(Requests(f1, nodename, o)) == multiset(Requests(f2, nodename, o))
    decreases |f1|
  {
    if f1 == [] {
      assert |multiset(f2)| == 0;
      assert f2 == [];
    } else {
      var x := f1[0];
      assert x in multiset(f2);
      var i :| 0 <= i < |f2| && f2[i] == x;
      var left, right := f2[..i], f2[i + 1..];
      RemoveMatching(f1, f2, i);
      RequestsMultiset(f1[1..], left + right, nodename, o);
      RequestsAround(left, x, right, nodename, o);
      RequestsAppend(left, right, nodename, o);
      assert Requests(f1, nodename, o) == RequestOf(x, nodename, o) + Requests(f1[1..], nodename, o);
      MultisetShuffle(Requests(left, nodename, o), RequestOf(x, nodename, o), Requests(right, nodename, o),
        Requests(f1[1..], nodename, o));
    }
  }

  /**
   * With no induced failure, reordering the listing changes only the order of
   * the assignments submitted, not which ones.
   */
  lemma ListingOrderIrrelevant(f1: seq<FileInfo>, f2: seq<FileInfo>, nodename: string, o: Oracles)
    requires multiset(f1) == multiset(f2)
    requires AllDecodable(f1, o)
    requires ServicesUp(o)
    ensures Convert(Listed(f1), nodename, o).failure.None?
    ensures Convert(Listed(f2), nodename, o).failure.None?
    ensures multiset(Attempts(Convert(Listed(f1), nodename, o).trace)) ==
            multiset(Attempts(Convert(Listed(f2), nodename, o).trace))
  {
    forall f | f in f2 && !IsSentinel(f.name) ensures Decode(f, o).Some? {
      assert f in multiset(f2);
      assert f in f1;
    }
    NoInducedFailureSucceeds(Start, f1, nodename, o);
    NoInducedFailureSucceeds(Start, f2, nodename, o);
    AttemptsFollowRequests(Start, f1, nodename, o);
    AttemptsFollowRequests(Start, f2, nodename, o);
    RequestsMultiset(f1, f2, nodename, o);
  }
}
