/**
  The two-phase commit methods of connections.py.  The replies to the statements are
  parameters; a false result stands for an exception.
 */
module TwoPhase {
  import opened TwoPhaseSpec
  import opened Wrappers

  const MAX_XID_SIZE := 64

  /** xid.__new__: lengths are checked and format id 0 becomes 1. */
  function MakeXid(format: int, transaction: string, branch: string): (r: Option<Xid>)
    ensures r.Some? <==> |transaction| <= MAX_XID_SIZE && |branch| <= MAX_XID_SIZE
    ensures r.Some? ==> r.value.transaction == transaction && r.value.branch == branch
    ensures r.Some? ==> if format == 0 then r.value.format == 1 else r.value.format == format
  {
    if |transaction| > MAX_XID_SIZE || |branch| > MAX_XID_SIZE then None
    else Some(Xid(if format == 0 then 1 else format, transaction, branch))
  }

  class Connection {
    var closed: bool
    var tpcState: Phase
    var xid: Option<Xid>
    var log: seq<Stmt>     // what reached the server

    ghost function Abs(): Conn
      reads this
    {
      Conn(closed, tpcState, xid, log)
    }

    ghost predicate Valid()
      reads this
    {
      Consistent(Abs())
    }

    constructor ()
      ensures Valid() && Abs() == Conn(false, Idle, None, [])
    {
      closed, tpcState, xid, log := false, Idle, None, [];
    }

    /** _execute_command and _read_response. */
    method Execute(s: Stmt, r: Reply) returns (ok: bool)
      modifies this`log
      ensures ok == (r == Fine) && Abs() == old(Abs()).Send(s, r)
    {
      if r != NotSent {
        log := log + [s];
      }
      ok := r == Fine;
    }

    method Forget()
      modifies this`tpcState, this`xid
      ensures Abs() == old(Abs()).Forget()
    {
      xid, tpcState := None, Idle;
    }

    method Close()
      requires Valid()
      modifies this`closed
      ensures Valid() && Abs() == Step(old(Abs()), CloseCall)
    {
      closed := true;
    }

    method DoCommit(r: Reply) returns (ok: bool)
      requires Valid()
      modifies this
      ensures Valid() && Abs() == Step(old(Abs()), Commit(r))
      ensures ok <==> !old(closed) && old(tpcState) == Idle && r == Fine
    {
      if closed || tpcState != Idle {
        return false;
      }
      ok := Execute(PlainCommit, r);
    }

    method DoRollback(r: Reply) returns (ok: bool)
      requires Valid()
      modifies this
      ensures Valid() && Abs() == Step(old(Abs()), Rollback(r))
      ensures ok <==> !old(closed) && old(tpcState) == Idle && r == Fine
    {
      if closed || tpcState != Idle {
        return false;
      }
      ok := Execute(PlainRollback, r);
    }

    method DoTpcBegin(arg: Arg, r: Reply) returns (ok: bool)
      requires Valid()
      modifies this
      ensures Valid() && Abs() == Step(old(Abs()), TpcBegin(arg, r))
      ensures ok <==> !closed && arg.Given? && r == Fine
      ensures ok ==> tpcState == Started && xid == Some(arg.x)
    {
      if closed || !arg.Given? {
        return false;
      }
      ok := Execute(XaBegin(arg.x), r);
      if ok {
        tpcState, xid := Started, Some(arg.x);
      }
    }

    method DoTpcPrepare(end: Reply, r: Reply) returns (ok: bool)
      requires Valid()
      modifies this
      ensures Valid() && Abs() == Step(old(Abs()), TpcPrepare(end, r))
      ensures ok <==> !closed && old(tpcState) == Started && end == Fine && r == Fine
    {
      if closed || tpcState == Idle || tpcState == Prepared {
        return false;
      }
      var x := xid.value;
      ok := Execute(XaEnd(x), end);
      if !ok {
        Forget();
        return;
      }
      ok := Execute(XaPrepare(x), r);
      if !ok {
        Forget();
        return;
      }
      tpcState := Prepared;
    }

    /** XA END for a transaction that is not prepared; sending it is not guarded. */
    method EndIfOwed(x: Xid, end: Reply) returns (on: bool)
      requires tpcState != Idle
      modifies this
      ensures (Abs(), on) == Finish(old(Abs()), x, end)
    {
      on := true;
      if tpcState == Started {
        if end == NotSent {
          return false;
        }
        on := Execute(XaEnd(x), end);
        if !on {
          Forget();
        }
      }
    }

    method DoTpcCommit(arg: Arg, end: Reply, r: Reply) returns (ok: bool)
      requires Valid()
      modifies this
      ensures Valid() && Abs() == Step(old(Abs()), TpcCommit(arg, end, r))
      ensures ok <==> !closed && old(tpcState) != Idle && !arg.NotXid?
                      && (old(tpcState) == Started ==> end == Fine) && r == Fine
      ensures ok ==> tpcState == Idle
    {
      if closed || tpcState == Idle || arg.NotXid? {
        return false;
      }
      var x := if arg.Given? then arg.x else xid.value;
      var onePhase := tpcState == Started;
      var on := EndIfOwed(x, end);
      if !on {
        return false;
      }
      ok := Execute(XaCommit(x, onePhase), r);
      Forget();
    }

    method DoTpcRollback(arg: Arg, end: Reply, r: Reply) returns (ok: bool)
      requires Valid()
      modifies this
      ensures Valid() && Abs() == Step(old(Abs()), TpcRollback(arg, end, r))
      ensures ok <==> !closed && old(tpcState) != Idle && !arg.NotXid?
                      && (old(tpcState) == Started ==> end == Fine) && r == Fine
      ensures ok ==> tpcState == Prepared
    {
      if closed || tpcState == Idle || arg.NotXid? {
        return false;
      }
      var x := if arg.Given? then arg.x else xid.value;
      var on := EndIfOwed(x, end);
      if !on {
        return false;
      }
      ok := Execute(XaRollback(x), r);
      if ok {
        tpcState := Prepared;
      } else {
        Forget();
      }
    }
  }
}
