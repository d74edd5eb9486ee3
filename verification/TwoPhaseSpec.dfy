/**
  The two-phase commit methods of connections.py as a state machine, after "Optional
  Two-Phase Commit Extensions" of PEP 249.  The server is an adversary: any statement may
  fail to be sent, or be sent and answered with an error.
 */
module TwoPhaseSpec {
  import opened Wrappers
  import opened Seqs

  /** A transaction id: format id, global transaction id and branch qualifier. */
  datatype Xid = Xid(format: int, transaction: string, branch: string)

  datatype Phase = Idle | Started | Prepared       // TPC_STATE NONE, XID and PREPARE

  datatype Stmt =
    | PlainCommit
    | PlainRollback
    | XaBegin(x: Xid)
    | XaEnd(x: Xid)
    | XaPrepare(x: Xid)
    | XaCommit(x: Xid, onePhase: bool)
    | XaRollback(x: Xid)

  /** What becomes of a statement. */
  datatype Reply = Fine | NotSent | ErrorReply

  datatype Conn = Conn(closed: bool, phase: Phase, xid: Option<Xid>, log: seq<Stmt>) {
    /** The log holds what reached the server. */
    function Send(s: Stmt, r: Reply): Conn {
      if r == NotSent then this else this.(log := log + [s])
    }

    function Forget(): Conn {
      this.(phase := Idle, xid := None)
    }
  }

  /** An optional xid argument; NotXid is a value of another type. */
  datatype Arg = Absent | Given(x: Xid) | NotXid

  datatype Call =
    | Commit(r: Reply)
    | Rollback(r: Reply)
    | TpcBegin(arg: Arg, r: Reply)
    | TpcPrepare(end: Reply, r: Reply)
    | TpcCommit(arg: Arg, end: Reply, r: Reply)
    | TpcRollback(arg: Arg, end: Reply, r: Reply)
    | CloseCall

  function Plain(c: Conn, s: Stmt, r: Reply): Conn {
    if c.closed || c.phase != Idle then c else c.Send(s, r)
  }

  function Begin(c: Conn, arg: Arg, r: Reply): Conn {
    if c.closed || !arg.Given? then c
    else if r == Fine then c.Send(XaBegin(arg.x), r).(phase := Started, xid := Some(arg.x))
    else c.Send(XaBegin(arg.x), r)
  }

  function Prepare(c: Conn, end: Reply, r: Reply): Conn {
    if c.closed || c.phase != Started || c.xid.None? then c
    else
      var x := c.xid.value;
      var c1 := c.Send(XaEnd(x), end);
      if end != Fine then c1.Forget()
      else
        var c2 := c1.Send(XaPrepare(x), r);
        if r != Fine then c2.Forget() else c2.(phase := Prepared)
  }

  /** The xid a commit or rollback is about, if the call gets that far. */
  function Subject(c: Conn, arg: Arg): Option<Xid> {
    if c.closed || c.phase == Idle || arg.NotXid? then None
    else if arg.Given? then Some(arg.x) else c.xid
  }

  /** XA END, still owed when the transaction is not prepared; the flag says whether to go on. */
  function Finish(c: Conn, x: Xid, end: Reply): (Conn, bool) {
    if c.phase == Prepared then (c, true)
    else
      match end
      case Fine => (c.Send(XaEnd(x), end), true)
      case NotSent => (c, false)                  // this send is outside the try block
      case ErrorReply => (c.Send(XaEnd(x), end).Forget(), false)
  }

  function DoCommit(c: Conn, arg: Arg, end: Reply, r: Reply): Conn {
    match Subject(c, arg)
    case None => c
    case Some(x) =>
      var (c1, on) := Finish(c, x, end);
      if on then c1.Send(XaCommit(x, c.phase != Prepared), r).Forget() else c1
  }

  function DoRollback(c: Conn, arg: Arg, end: Reply, r: Reply): Conn {
    match Subject(c, arg)
    case None => c
    case Some(x) =>
      var (c1, on) := Finish(c, x, end);
      if !on then c1
      else if r == Fine then c1.Send(XaRollback(x), r).(phase := Prepared)
      else c1.Send(XaRollback(x), r).Forget()
  }

  function Step(c: Conn, call: Call): Conn {
    match call
    case Commit(r) => Plain(c, PlainCommit, r)
    case Rollback(r) => Plain(c, PlainRollback, r)
    case TpcBegin(arg, r) => Begin(c, arg, r)
    case TpcPrepare(end, r) => Prepare(c, end, r)
    case TpcCommit(arg, end, r) => DoCommit(c, arg, end, r)
    case TpcRollback(arg, end, r) => DoRollback(c, arg, end, r)
    case CloseCall => c.(closed := true)
  }

  function Run(c: Conn, calls: seq<Call>): Conn
    decreases |calls|
  {
    if calls == [] then c else Run(Step(c, calls[0]), calls[1..])
  }

  // --- what reaches the server -----------------------------------------------------------------------------

  function Delivered(s: Stmt, r: Reply): seq<Stmt> {
    if r == NotSent then [] else [s]
  }

  /** XA END, if it is owed, and then the closing statement. */
  function Closing(c: Conn, x: Xid, end: Reply, s: Stmt, r: Reply): seq<Stmt> {
    if c.phase == Prepared then Delivered(s, r)
    else if end == Fine then [XaEnd(x)] + Delivered(s, r)
    else Delivered(XaEnd(x), end)
  }

  /** The statements of one call that reach the server. */
  function Sent(c: Conn, call: Call): seq<Stmt> {
    match call
    case Commit(r) => if c.closed || c.phase != Idle then [] else Delivered(PlainCommit, r)
    case Rollback(r) => if c.closed || c.phase != Idle then [] else Delivered(PlainRollback, r)
    case TpcBegin(arg, r) => if c.closed || !arg.Given? then [] else Delivered(XaBegin(arg.x), r)
    case TpcPrepare(end, r) =>
      if c.closed || c.phase != Started || c.xid.None? then []
      else Closing(c, c.xid.value, end, XaPrepare(c.xid.value), r)
    case TpcCommit(arg, end, r) =>
      if Subject(c, arg).None? then []
      else
        var x := Subject(c, arg).value;
        Closing(c, x, end, XaCommit(x, c.phase != Prepared), r)
    case TpcRollback(arg, end, r) =>
      if Subject(c, arg).None? then []
      else
        var x := Subject(c, arg).value;
        Closing(c, x, end, XaRollback(x), r)
    case CloseCall => []
  }

  /** The log is the record of what reached the server. */
  lemma {:induction false} StepAppends(c: Conn, call: Call)
    ensures Step(c, call).log == c.log + Sent(c, call)
  {
  }

  // --- phase and xid ---------------------------------------------------------------------------------------

  predicate Consistent(c: Conn) {
    c.phase == Idle <==> c.xid.None?
  }

  /** In every run the phase is idle exactly when there is no xid, whatever fails. */
  lemma {:induction false} RunIsConsistent(c: Conn, calls: seq<Call>)
    requires Consistent(c)
    ensures Consistent(Run(c, calls))
    decreases |calls|
  {
    if calls != [] {
      RunIsConsistent(Step(c, calls[0]), calls[1..]);
    }
  }

  /**
    In every run, a call reaches the server with a plain COMMIT or ROLLBACK only when no
    two-phase transaction is active, that is, when there is no xid.
   */
  lemma {:induction false} PlainOnlyWhenIdle(c: Conn, calls: seq<Call>, call: Call)
    requires Consistent(c)
    ensures var d := Run(c, calls);
      PlainCommit in Sent(d, call) || PlainRollback in Sent(d, call) ==>
        !d.closed && d.phase == Idle && d.xid.None? && (call.Commit? || call.Rollback?)
  {
    RunIsConsistent(c, calls);
  }

  // --- what each call says and leaves behind ---------------------------------------------------------------

  /** Outside a two-phase transaction the plain statement is sent, and nothing else changes; inside, nothing is. */
  lemma {:induction false} PlainCalls(c: Conn, r: Reply)
    ensures Step(c, Commit(r))
         == if !c.closed && c.phase == Idle && r != NotSent then c.(log := c.log + [PlainCommit]) else c
    ensures Step(c, Rollback(r))
         == if !c.closed && c.phase == Idle && r != NotSent then c.(log := c.log + [PlainRollback]) else c
  {
  }

  /** A begin that succeeds makes the xid given the connection's own; one that fails leaves it as it was. */
  lemma {:induction false} BeginOutcome(c: Conn, x: Xid, r: Reply)
    requires !c.closed
    ensures Step(c, TpcBegin(Given(x), r))
         == Conn(false, if r == Fine then Started else c.phase, if r == Fine then Some(x) else c.xid,
                 if r == NotSent then c.log else c.log + [XaBegin(x)])
  {
  }

  /** A prepare is about the connection's own xid and forgets it unless both statements succeed. */
  lemma {:induction false} PrepareOutcome(c: Conn, x: Xid, end: Reply, r: Reply)
    requires !c.closed && c.phase == Started && c.xid == Some(x)
    ensures var d := Step(c, TpcPrepare(end, r));
      && !d.closed
      && (if end == Fine && r == Fine then d.phase == Prepared && d.xid == Some(x)
          else d.phase == Idle && d.xid == None)
      && d.log == c.log + if end == NotSent then []
                          else if end == ErrorReply || r == NotSent then [XaEnd(x)]
                          else [XaEnd(x), XaPrepare(x)]
  {
    assert c.log + [] == c.log;
    assert c.log + [XaEnd(x)] + [XaPrepare(x)] == c.log + [XaEnd(x), XaPrepare(x)];
  }

  /** The xid a call is about: the one given, or else the connection's own. */
  ghost predicate About(c: Conn, arg: Arg, x: Xid) {
    match arg
    case Absent => c.xid == Some(x)
    case Given(y) => x == y
    case NotXid => false
  }

  /** What a commit or rollback with closing statement `s` says about `x`. */
  ghost function Said(c: Conn, x: Xid, end: Reply, s: Stmt, r: Reply): seq<Stmt> {
    if c.phase == Prepared then if r == NotSent then [] else [s]
    else if end == NotSent then []
    else if end == ErrorReply || r == NotSent then [XaEnd(x)]
    else [XaEnd(x), s]
  }

  /** A commit says XA END, if that is owed, and XA COMMIT, about its xid; then the transaction is forgotten. */
  lemma {:induction false} CommitOutcome(c: Conn, arg: Arg, x: Xid, end: Reply, r: Reply)
    requires !c.closed && c.phase != Idle && About(c, arg, x)
    ensures var d := Step(c, TpcCommit(arg, end, r));
      && !d.closed
      && d.log == c.log + Said(c, x, end, XaCommit(x, c.phase == Started), r)
      && (if c.phase == Started && end == NotSent then d.phase == c.phase && d.xid == c.xid
          else d.phase == Idle && d.xid == None)
  {
    assert c.log + [] == c.log;
    assert c.log + [XaEnd(x)] + [XaCommit(x, true)] == c.log + [XaEnd(x), XaCommit(x, true)];
  }

  /** A rollback likewise with XA ROLLBACK; when it succeeds the transaction counts as prepared. */
  lemma {:induction false} RollbackOutcome(c: Conn, arg: Arg, x: Xid, end: Reply, r: Reply)
    requires !c.closed && c.phase != Idle && About(c, arg, x)
    ensures var d := Step(c, TpcRollback(arg, end, r));
      && !d.closed
      && d.log == c.log + Said(c, x, end, XaRollback(x), r)
      && (if c.phase == Started && end == NotSent then d.phase == c.phase && d.xid == c.xid
          else if (c.phase == Started ==> end == Fine) && r == Fine then d.phase == Prepared && d.xid == c.xid
          else d.phase == Idle && d.xid == None)
  {
    assert c.log + [] == c.log;
    assert c.log + [XaEnd(x)] + [XaRollback(x)] == c.log + [XaEnd(x), XaRollback(x)];
  }

  /** Everything else is refused and changes nothing; closing keeps state, xid and log. */
  lemma {:induction false} RefusedCalls(c: Conn, arg: Arg, end: Reply, r: Reply)
    ensures c.closed || c.phase == Idle || arg == NotXid ==>
      Step(c, TpcCommit(arg, end, r)) == c && Step(c, TpcRollback(arg, end, r)) == c
    ensures c.closed || c.phase != Started ==> Step(c, TpcPrepare(end, r)) == c
    ensures c.closed || !arg.Given? ==> Step(c, TpcBegin(arg, r)) == c
    ensures Step(c, CloseCall) == Conn(true, c.phase, c.xid, c.log)
  {
  }

  /** The xid an XA statement names. */
  function Names(s: Stmt): Option<Xid> {
    match s
    case PlainCommit => None
    case PlainRollback => None
    case XaBegin(x) => Some(x)
    case XaEnd(x) => Some(x)
    case XaPrepare(x) => Some(x)
    case XaCommit(x, _) => Some(x)
    case XaRollback(x) => Some(x)
  }

  /**
    In every run: what a commit or rollback adds to the log names the xid given, or without
    one the connection's own, and if all goes well its last statement is the commit or rollback.
   */
  lemma {:induction false} CallsNameTheirXid(c: Conn, calls: seq<Call>, arg: Arg, end: Reply, r: Reply)
      returns (x: Xid, said: seq<Stmt>, undone: seq<Stmt>)
    requires Consistent(c) && !Run(c, calls).closed && Run(c, calls).phase != Idle && arg != NotXid
    ensures var d := Run(c, calls);
      && d.xid.Some? && x == (if arg.Given? then arg.x else d.xid.value)
      && Step(d, TpcCommit(arg, end, r)).log == d.log + said && Step(d, TpcRollback(arg, end, r)).log == d.log + undone
      && (forall i :: 0 <= i < |said| ==> Names(said[i]) == Some(x))
      && (forall i :: 0 <= i < |undone| ==> Names(undone[i]) == Some(x))
      && (end == Fine && r == Fine ==>
            && said != [] && said[|said| - 1] == XaCommit(x, d.phase == Started)
            && undone != [] && undone[|undone| - 1] == XaRollback(x))
  {
    var d := Run(c, calls);
    RunIsConsistent(c, calls);
    x := if arg.Given? then arg.x else d.xid.value;
    CommitOutcome(d, arg, x, end, r);
    RollbackOutcome(d, arg, x, end, r);
    said, undone := Said(d, x, end, XaCommit(x, d.phase == Started), r), Said(d, x, end, XaRollback(x), r);
  }

  // --- the protocol ------------------------------------------------------------------------------------------

  /** The four complete conversations about one transaction. */
  function Words(x: Xid): seq<seq<Stmt>> {
    [ [XaBegin(x), XaEnd(x), XaPrepare(x), XaCommit(x, false)],
      [XaBegin(x), XaEnd(x), XaPrepare(x), XaRollback(x)],
      [XaBegin(x), XaEnd(x), XaCommit(x, true)],
      [XaBegin(x), XaEnd(x), XaRollback(x)] ]
  }

  /** A conversation that is complete or may still be completed. */
  ghost predicate Protocol(x: Xid, w: seq<Stmt>) {
    w <= Words(x)[0] || w <= Words(x)[1] || w <= Words(x)[2] || w <= Words(x)[3]
  }

  /** Calls without an xid argument, and no second begin. */
  predicate Quiet(call: Call) {
    match call
    case TpcBegin(_, _) => false
    case TpcCommit(arg, _, _) => arg.Absent?
    case TpcRollback(arg, _, _) => arg.Absent?
    case _ => true
  }

  /** The XA statements of one call, and of a run, that reach the server. */
  function XaSent(c: Conn, call: Call): seq<Stmt> {
    if call.Commit? || call.Rollback? then [] else Sent(c, call)
  }

  function XaSentBy(c: Conn, calls: seq<Call>): seq<Stmt>
    decreases |calls|
  {
    if calls == [] then [] else XaSent(c, calls[0]) + XaSentBy(Step(c, calls[0]), calls[1..])
  }

  /** Where a transaction stands: what was sent for it, and whether it was rolled back already. */
  ghost predicate Stands(c: Conn, x: Xid, w: seq<Stmt>, rolled: bool) {
    match c.phase
    case Started => c.xid == Some(x) && !rolled && w == [XaBegin(x)]
    case Prepared =>
      c.xid == Some(x) &&
      if rolled then
        w == [XaBegin(x), XaEnd(x), XaRollback(x)] || w == [XaBegin(x), XaEnd(x), XaPrepare(x), XaRollback(x)]
      else w == [XaBegin(x), XaEnd(x), XaPrepare(x)]
    case Idle => c.xid.None? && !rolled && Protocol(x, w)
  }

  /** A commit or rollback that reaches the server for a transaction that was rolled back already. */
  ghost predicate Reuses(c: Conn, rolled: bool, call: Call) {
    rolled && !c.closed && (call.TpcCommit? || call.TpcRollback?) && call.r != NotSent
  }

  /** Whether the transaction is rolled back after a call, if the call does not reuse it. */
  ghost function RolledAfter(c: Conn, rolled: bool, call: Call): bool {
    if c.closed then rolled
    else if call.TpcRollback? && c.phase != Idle then Step(c, call).phase == Prepared
    else rolled && Step(c, call).phase == Prepared
  }

  ghost predicate AnyReuse(c: Conn, rolled: bool, calls: seq<Call>)
    decreases |calls|
  {
    calls != [] &&
    (Reuses(c, rolled, calls[0]) || AnyReuse(Step(c, calls[0]), RolledAfter(c, rolled, calls[0]), calls[1..]))
  }

  lemma {:induction false} Joined(x: Xid)
    ensures var b, e, p, r := XaBegin(x), XaEnd(x), XaPrepare(x), XaRollback(x);
      && [b] + [] == [b] && [b] + [e] == [b, e] && [b] + [e, p] == [b, e, p]
      && [b] + [e, r] == [b, e, r] && [b] + [e, XaCommit(x, true)] == [b, e, XaCommit(x, true)]
      && [b, e, p] + [r] == [b, e, p, r] && [b, e, p] + [XaCommit(x, false)] == [b, e, p, XaCommit(x, false)]
      && [b, e, p] + [] == [b, e, p] && [b, e, r] + [] == [b, e, r] && [b, e, p, r] + [] == [b, e, p, r]
  {
  }

  lemma {:induction false} Prefixes(x: Xid)
    ensures Protocol(x, [XaBegin(x)]) && Protocol(x, [XaBegin(x), XaEnd(x)])
    ensures Protocol(x, [XaBegin(x), XaEnd(x), XaPrepare(x)])
    ensures forall i :: 0 <= i < 4 ==> Protocol(x, Words(x)[i])
  {
    assert Words(x)[0][..1] == [XaBegin(x)] && Words(x)[0][..2] == [XaBegin(x), XaEnd(x)];
    assert Words(x)[0][..3] == [XaBegin(x), XaEnd(x), XaPrepare(x)];
  }

  /** One call that does not reuse a rolled-back transaction keeps to the protocol. */
  lemma {:induction false} StepStands(c: Conn, x: Xid, w: seq<Stmt>, rolled: bool, call: Call)
    requires Stands(c, x, w, rolled) && Quiet(call) && !Reuses(c, rolled, call)
    ensures Stands(Step(c, call), x, w + XaSent(c, call), RolledAfter(c, rolled, call))
  {
    Joined(x);
    Prefixes(x);
    assert w + [] == w;
  }

  /** Nothing may follow a rollback. */
  lemma {:induction false} ReuseBreaks(c: Conn, x: Xid, w: seq<Stmt>, rolled: bool, call: Call, more: seq<Stmt>)
    requires Stands(c, x, w, rolled) && Quiet(call) && Reuses(c, rolled, call)
    ensures !Protocol(x, w + (XaSent(c, call) + more))
  {
    var all := w + (XaSent(c, call) + more);
    assert XaSent(c, call) != [];
    if |w| == 3 {
      assert all[2] == XaRollback(x) && |all| >= 4;
    } else {
      assert |all| >= 5;
    }
  }

  /** A conversation that stands somewhere is in the protocol. */
  lemma {:induction false} StandsInProtocol(c: Conn, x: Xid, w: seq<Stmt>, rolled: bool)
    requires Stands(c, x, w, rolled)
    ensures Protocol(x, w)
  {
    Prefixes(x);
  }

  /**
    From a successful begin on, whatever is called without an xid argument and whatever
    fails, the XA statements that reach the server are a prefix of one of the four
    conversations, exactly as long as no commit or rollback reaches the server after a
    rollback has succeeded.
   */
  lemma {:induction false} RunFollowsProtocol(c: Conn, x: Xid, w: seq<Stmt>, rolled: bool, calls: seq<Call>)
    requires Stands(c, x, w, rolled) && forall i :: 0 <= i < |calls| ==> Quiet(calls[i])
    ensures Protocol(x, w + XaSentBy(c, calls)) <==> !AnyReuse(c, rolled, calls)
    decreases |calls|
  {
    if calls == [] {
      StandsInProtocol(c, x, w, rolled);
      assert w + [] == w;
    } else {
      var call, more := calls[0], calls[1..];
      var sent, rest := XaSent(c, call), XaSentBy(Step(c, call), more);
      if Reuses(c, rolled, call) {
        ReuseBreaks(c, x, w, rolled, call, rest);
      } else {
        StepStands(c, x, w, rolled, call);
        RunFollowsProtocol(Step(c, call), x, w + sent, RolledAfter(c, rolled, call), more);
        Regroup(w, sent, rest);
      }
    }
  }

  /** The conversation that a successful begin starts. */
  lemma {:induction false} BeginStarts(c: Conn, x: Xid)
    requires !c.closed
    ensures Stands(Begin(c, Given(x), Fine), x, [XaBegin(x)], false)
    ensures Begin(c, Given(x), Fine).log == c.log + [XaBegin(x)]
  {
  }

  /** A successful rollback does leave the transaction open to reuse: the commit after it is sent. */
  lemma {:induction false} RollbackThenCommit(c: Conn, x: Xid)
    requires !c.closed
    ensures var began := Begin(c, Given(x), Fine);
      XaSentBy(began, [TpcRollback(Absent, Fine, Fine), TpcCommit(Absent, Fine, Fine)])
      == [XaEnd(x), XaRollback(x), XaCommit(x, false)]
  {
    var began := Begin(c, Given(x), Fine);
    var calls := [TpcRollback(Absent, Fine, Fine), TpcCommit(Absent, Fine, Fine)];
    var after := Step(began, calls[0]);
    assert calls[1..] == [TpcCommit(Absent, Fine, Fine)] && calls[1..][1..] == [];
    assert XaSentBy(after, calls[1..]) == [XaCommit(x, false)];
  }
}
