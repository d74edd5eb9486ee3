/**
  The connection pool as a state machine: a FIFO free list, a used list, and for every
  connection whether it points back to the pool, how often it was handed out and whether
  the server has a transaction open on it.  `C` identifies connection objects.
 */
module PoolSpec {
  import opened Wrappers

  datatype Pool<!C(==)> = Pool(size: nat, free: seq<C>, used: seq<C>,
                               owned: set<C>, uses: map<C, nat>, trans: set<C>)
  {
    function Total(): nat {
      |free| + |used|
    }

    function Uses(c: C): nat {
      if c in uses then uses[c] else 0
    }
  }

  ghost predicate Distinct<C>(s: seq<C>) {
    forall i, j :: 0 <= i < j < |s| ==> s[i] != s[j]
  }

  ghost function Elems<C>(s: seq<C>): set<C> {
    set x | x in s
  }

  /** No connection twice, no more than fit, and members and only members point back. */
  ghost predicate Valid<C>(p: Pool<C>) {
    && Distinct(p.free) && Distinct(p.used)
    && Elems(p.free) !! Elems(p.used)
    && p.Total() <= p.size
    && p.owned == Elems(p.free) + Elems(p.used)
  }

  /** `list.index` and `del`: the first occurrence is removed. */
  function Without<C(==)>(s: seq<C>, c: C): seq<C> {
    if s == [] then [] else if s[0] == c then s[1..] else [s[0]] + Without(s[1..], c)
  }

  // --- the operations --------------------------------------------------------------------------------------

  /** add_connection: refused when the pool is full. */
  function Add<C>(p: Pool<C>, c: C, uses: nat, trans: bool): (Pool<C>, bool) {
    if p.Total() >= p.size then (p, false)
    else (p.(free := p.free + [c], owned := p.owned + {c}, uses := p.uses[c := uses],
             trans := if trans then p.trans + {c} else p.trans - {c}), true)
  }

  /** _replace_connection up to the new connection. */
  function Drop<C>(p: Pool<C>, c: C): Pool<C> {
    if c in p.free then p.(free := Without(p.free, c), owned := p.owned - {c})
    else p.(used := Without(p.used, c), owned := p.owned - {c})
  }

  /** _replace_connection: `spare` is what connecting yields, nothing if that fails. */
  function Replace<C>(p: Pool<C>, c: C, spare: Option<C>): (Pool<C>, bool) {
    var q := Drop(p, c);
    if spare.None? then (q, false) else Add(q, spare.value, 0, false)
  }

  function HandOut<C>(p: Pool<C>, c: C): Pool<C> {
    p.(used := p.used + [c], free := Without(p.free, c), uses := p.uses[c := p.Uses(c) + 1])
  }

  /** get_connection: the oldest free connection, or its replacement if it is stale and dead. */
  function Get<C>(p: Pool<C>, dead: bool, spare: Option<C>): (Pool<C>, Option<C>) {
    if p.free == [] then (p, None)
    else if !dead then (HandOut(p, p.free[0]), Some(p.free[0]))
    else
      var (q, ok) := Replace(p, p.free[0], spare);
      if ok && spare.Some? then (HandOut(q, spare.value), spare) else (q, None)
  }

  /** _close_connection: reset, or roll back an open transaction, or replace. */
  function Close<C>(p: Pool<C>, c: C, resets: bool, ok: bool, spare: Option<C>): Pool<C> {
    if (resets || c in p.trans) && !ok then Replace(p, c, spare).0
    else
      var q := p.(trans := p.trans - {c});
      if c in p.used then q.(used := Without(p.used, c), free := p.free + [c]) else q
  }

  // --- removing one element -------------------------------------------------------------------------------------

  lemma {:induction false} WithoutSplit<C>(s: seq<C>, c: C) returns (i: nat)
    requires c in s
    ensures i < |s| && s[i] == c && Without(s, c) == s[..i] + s[i + 1..]
  {
    if s[0] == c {
      i := 0;
    } else {
      var k := WithoutSplit(s[1..], c);
      i := k + 1;
      assert s[..i] == [s[0]] + s[1..][..k];
    }
  }

  lemma {:induction false} WithoutDistinct<C>(s: seq<C>, c: C)
    requires Distinct(s) && c in s
    ensures Distinct(Without(s, c)) && |Without(s, c)| == |s| - 1
    ensures Elems(Without(s, c)) == Elems(s) - {c}
  {
    var i := WithoutSplit(s, c);
    var r := s[..i] + s[i + 1..];
    forall x | x in Elems(s) - {c} ensures x in Elems(r) {
      var k :| 0 <= k < |s| && s[k] == x;
      assert r[if k < i then k else k - 1] == x;
    }
  }

  lemma {:induction false} ElemsSnoc<C>(s: seq<C>, c: C)
    ensures Elems(s + [c]) == Elems(s) + {c}
  {
  }

  // --- every operation keeps the pool valid ---------------------------------------------------------------------

  lemma {:induction false} AddKeepsValid<C>(p: Pool<C>, c: C, uses: nat, trans: bool)
    requires Valid(p) && c !in p.owned
    ensures Valid(Add(p, c, uses, trans).0)
    ensures Add(p, c, uses, trans).0.Total() == p.Total() + if Add(p, c, uses, trans).1 then 1 else 0
  {
    ElemsSnoc(p.free, c);
  }

  /** Adding a connection that is already pooled breaks the pool, whenever there is room. */
  lemma {:induction false} AddTwiceBreaks<C>(p: Pool<C>, c: C, uses: nat, trans: bool)
    requires Valid(p) && p.Total() < p.size
    ensures Valid(Add(p, c, uses, trans).0) <==> c !in p.owned
  {
    var q := Add(p, c, uses, trans).0;
    if c in p.free {
      var i :| 0 <= i < |p.free| && p.free[i] == c;
      assert q.free[i] == q.free[|p.free|];
    } else if c in p.used {
      assert q.free[|p.free|] == c;
    } else {
      AddKeepsValid(p, c, uses, trans);
    }
  }

  lemma {:induction false} DropKeepsValid<C>(p: Pool<C>, c: C)
    requires Valid(p) && c in p.owned
    ensures Valid(Drop(p, c)) && Drop(p, c).Total() == p.Total() - 1 && c !in Drop(p, c).owned
  {
    WithoutDistinct(if c in p.free then p.free else p.used, c);
  }

  /** A replacement keeps the pool valid; the total drops by one exactly when connecting fails. */
  lemma {:induction false} ReplaceKeepsValid<C>(p: Pool<C>, c: C, spare: Option<C>)
    requires Valid(p) && c in p.owned && (spare.Some? ==> spare.value !in p.owned)
    ensures var (q, ok) := Replace(p, c, spare);
      Valid(q) && ok == spare.Some? && q.Total() == p.Total() - if ok then 0 else 1
  {
    DropKeepsValid(p, c);
    if spare.Some? {
      AddKeepsValid(Drop(p, c), spare.value, 0, false);
    }
  }

  lemma {:induction false} HandOutKeepsValid<C>(p: Pool<C>, c: C)
    requires Valid(p) && c in p.free
    ensures Valid(HandOut(p, c)) && HandOut(p, c).Total() == p.Total()
  {
    WithoutDistinct(p.free, c);
    ElemsSnoc(p.used, c);
  }

  /** A connection is handed out unless none is free or a replacement fails. */
  lemma {:induction false} GetKeepsValid<C>(p: Pool<C>, dead: bool, spare: Option<C>)
    requires Valid(p) && (spare.Some? ==> spare.value !in p.owned)
    ensures var (q, c) := Get(p, dead, spare);
      && Valid(q) && (c.Some? ==> c.value in q.used && c.value !in q.free)
      && (c.None? <==> p.free == [] || (dead && spare.None?))
      && q.Total() == p.Total() - if p.free != [] && dead && spare.None? then 1 else 0
  {
    if p.free != [] {
      var c := p.free[0];
      assert c in p.free;
      if !dead {
        HandOutKeepsValid(p, c);
        WithoutDistinct(p.free, c);
      } else {
        ReplaceKeepsValid(p, c, spare);
        if spare.Some? {
          var q := Replace(p, c, spare).0;
          assert q.free[|q.free| - 1] == spare.value;
          HandOutKeepsValid(q, spare.value);
          WithoutDistinct(q.free, spare.value);
        }
      }
    }
  }

  /** After a close the connection is free and clean, or no longer in the pool. */
  lemma {:induction false} CloseKeepsValid<C>(p: Pool<C>, c: C, resets: bool, ok: bool, spare: Option<C>)
    requires Valid(p) && c in p.owned && (spare.Some? ==> spare.value !in p.owned)
    ensures var q := Close(p, c, resets, ok, spare);
      && Valid(q) && c !in q.used
      && (c in q.free ==> c !in q.trans)
      && (c in q.free <==> !((resets || c in p.trans) && !ok))
      && q.Total() == p.Total() - if (resets || c in p.trans) && !ok && spare.None? then 1 else 0
  {
    if (resets || c in p.trans) && !ok {
      ReplaceKeepsValid(p, c, spare);
      DropKeepsValid(p, c);
    } else if c in p.used {
      WithoutDistinct(p.used, c);
      ElemsSnoc(p.free, c);
      assert c in Elems(p.used);
    }
  }
}
