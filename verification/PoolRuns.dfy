/** Properties of whole runs of the pool, under every pattern of failures. */
module PoolRuns {
  import opened Arith
  import opened PoolSpec
  import opened Wrappers

  /** One public operation, with what the calls to the server came back with. */
  datatype Event<C> =
    | AddEvent(c: C, uses: nat, trans: bool)                              // a connection of the caller's
    | GetEvent(dead: bool, spare: Option<C>)                              // stale and not answering a ping
    | CloseEvent(c: C, resets: bool, ok: bool, spare: Option<C>)
    | WorkEvent(c: C)                                                     // a transaction is opened

  /** Connecting yields new objects; pooled connections are closed and worked on, also after their return. */
  ghost predicate Enabled<C>(p: Pool<C>, e: Event<C>) {
    match e
    case AddEvent(c, _, _) => c !in p.owned
    case GetEvent(_, f) => f.Some? ==> f.value !in p.owned
    case CloseEvent(c, _, _, f) => c in p.owned && (f.Some? ==> f.value !in p.owned)
    case WorkEvent(c) => c in p.owned
  }

  function Step<C>(p: Pool<C>, e: Event<C>): Pool<C> {
    match e
    case AddEvent(c, uses, trans) => Add(p, c, uses, trans).0
    case GetEvent(dead, f) => Get(p, dead, f).0
    case CloseEvent(c, resets, ok, f) => Close(p, c, resets, ok, f)
    case WorkEvent(c) => p.(trans := p.trans + {c})
  }

  /** How the number of pooled connections changes. */
  ghost function Change<C>(p: Pool<C>, e: Event<C>): int {
    match e
    case AddEvent(_, _, _) => if p.Total() < p.size then 1 else 0
    case GetEvent(dead, f) => if p.free != [] && dead && f.None? then -1 else 0
    case CloseEvent(c, resets, ok, f) => if (resets || c in p.trans) && !ok && f.None? then -1 else 0
    case WorkEvent(_) => 0
  }

  ghost predicate IsRun<C>(states: seq<Pool<C>>, events: seq<Event<C>>) {
    && |states| == |events| + 1
    && forall i :: 0 <= i < |events| ==> Enabled(states[i], events[i]) && states[i + 1] == Step(states[i], events[i])
  }

  lemma {:induction false} StepKeepsValid<C>(p: Pool<C>, e: Event<C>)
    requires Valid(p) && Enabled(p, e)
    ensures Valid(Step(p, e)) && Step(p, e).size == p.size
    ensures Step(p, e).Total() == p.Total() + Change(p, e)
  {
    match e
    case AddEvent(c, uses, trans) => AddKeepsValid(p, c, uses, trans);
    case GetEvent(dead, f) => GetKeepsValid(p, dead, f);
    case CloseEvent(c, resets, ok, f) => CloseKeepsValid(p, c, resets, ok, f);
    case WorkEvent(c) =>
  }

  /** The step is about `x`: given by the caller, first in line, or newly connected. */
  ghost predicate Concerns<C>(p: Pool<C>, e: Event<C>, x: C) {
    match e
    case AddEvent(c, _, _) => x == c
    case GetEvent(_, f) => (p.free != [] && x == p.free[0]) || f == Some(x)
    case CloseEvent(c, _, _, f) => x == c || f == Some(x)
    case WorkEvent(c) => x == c
  }

  lemma {:induction false} WithoutOthers<C>(s: seq<C>, c: C, x: C)
    requires x != c
    ensures x in Without(s, c) <==> x in s
  {
    if s != [] && s[0] != c {
      WithoutOthers(s[1..], c, x);
    }
  }

  /** A step leaves every other connection where it is, with its uses and its transaction. */
  lemma {:induction false} OthersUntouched<C>(p: Pool<C>, e: Event<C>, x: C)
    requires Valid(p) && Enabled(p, e) && !Concerns(p, e, x)
    ensures var q := Step(p, e);
      && (x in q.free <==> x in p.free) && (x in q.used <==> x in p.used)
      && (x in q.trans <==> x in p.trans) && q.Uses(x) == p.Uses(x)
  {
    match e
    case AddEvent(c, _, _) =>
    case GetEvent(dead, f) => GetTouches(p, dead, f, x);
    case CloseEvent(c, _, _, f) =>
      WithoutOthers(p.free, c, x);
      WithoutOthers(p.used, c, x);
    case WorkEvent(c) =>
  }

  lemma {:induction false} GetTouches<C>(p: Pool<C>, dead: bool, spare: Option<C>, x: C)
    requires Valid(p) && !Concerns(p, GetEvent(dead, spare), x)
    ensures var q := Get(p, dead, spare).0;
      && (x in q.free <==> x in p.free) && (x in q.used <==> x in p.used)
      && (x in q.trans <==> x in p.trans) && q.Uses(x) == p.Uses(x)
  {
    if p.free != [] {
      var c := p.free[0];
      WithoutOthers(p.free, c, x);
      WithoutOthers(p.used, c, x);
      if dead && spare.Some? {
        var q := Replace(p, c, spare).0;
        WithoutOthers(q.free, spare.value, x);
      }
    }
  }

  /** The first in line is handed out, or in its place, used for the first time, a new connection. */
  lemma {:induction false} GetOutcome<C>(p: Pool<C>, dead: bool, spare: Option<C>)
    requires Valid(p) && p.free != [] && (spare.Some? ==> spare.value !in p.owned)
    ensures var c := p.free[0];
      var (q, r) := Get(p, dead, spare);
      if !dead then r == Some(c) && q.Uses(c) == p.Uses(c) + 1 && (c in q.trans <==> c in p.trans)
      else r == spare && c !in q.owned && (r.Some? ==> q.Uses(r.value) == 1 && r.value !in q.trans)
  {
    var c := p.free[0];
    assert c in p.free;
    ReplaceKeepsValid(p, c, spare);
    DropKeepsValid(p, c);
  }

  /** A connection that fails on its return is given up, and a new one, not used so far, is free in its place. */
  lemma {:induction false} CloseOutcome<C>(p: Pool<C>, c: C, resets: bool, ok: bool, spare: Option<C>)
    requires Valid(p) && c in p.owned && (spare.Some? ==> spare.value !in p.owned)
    ensures var q := Close(p, c, resets, ok, spare);
      if ok || !(resets || c in p.trans) then c in q.free && q.Uses(c) == p.Uses(c) && c !in q.trans
      else
        && c !in q.owned
        && (spare.Some? ==> spare.value in q.free && q.Uses(spare.value) == 0 && spare.value !in q.trans)
  {
    CloseKeepsValid(p, c, resets, ok, spare);
    ReplaceKeepsValid(p, c, spare);
    DropKeepsValid(p, c);
  }

  /** A connection that is added keeps its uses and its transaction. */
  lemma {:induction false} AddOutcome<C>(p: Pool<C>, c: C, uses: nat, trans: bool)
    ensures var (q, ok) := Add(p, c, uses, trans);
      if ok then q.free == p.free + [c] && q.Uses(c) == uses && (c in q.trans <==> trans) else q == p
    ensures Add(p, c, uses, trans).1 <==> |p.free| + |p.used| < p.size
  {
  }

  /**
    Safety: in every run, at every point, free and used are duplicate-free and disjoint, no
    more connections are pooled than fit, members and only members point back, and the
    total moves only by an addition or a failed replacement.
   */
  lemma {:induction false} RunIsSafe<C>(states: seq<Pool<C>>, events: seq<Event<C>>, k: nat)
    requires IsRun(states, events) && Valid(states[0]) && k < |states|
    ensures Valid(states[k]) && states[k].size == states[0].size
    ensures k < |events| ==> states[k + 1].Total() == states[k].Total() + Change(states[k], events[k])
  {
    if k > 0 {
      RunIsSafe(states, events, k - 1);
      StepKeepsValid(states[k - 1], events[k - 1]);
    }
    if k < |events| {
      StepKeepsValid(states[k], events[k]);
    }
  }

  // --- free connections are clean --------------------------------------------------------------------------------

  /** No connection that waits to be handed out has a transaction open. */
  ghost predicate Clean<C>(p: Pool<C>) {
    Elems(p.free) !! p.trans
  }

  lemma {:induction false} ReplaceKeepsClean<C>(p: Pool<C>, c: C, spare: Option<C>)
    requires Valid(p) && Clean(p) && c in p.owned && (spare.Some? ==> spare.value !in p.owned)
    ensures Clean(Replace(p, c, spare).0)
  {
    var q := Drop(p, c);
    assert Elems(q.free) <= Elems(p.free) by {
      if c in p.free {
        WithoutDistinct(p.free, c);
      }
    }
    if spare.Some? {
      ElemsSnoc(q.free, spare.value);
    }
  }

  /** A caller adds a connection with a transaction open, or opens one on a connection already returned. */
  ghost predicate Dirties<C>(p: Pool<C>, e: Event<C>) {
    || (e.AddEvent? && e.trans && p.Total() < p.size)
    || (e.WorkEvent? && e.c in p.free)
  }

  /** These are exactly the steps that leave a dirty connection to be handed out. */
  lemma {:induction false} StepKeepsClean<C>(p: Pool<C>, e: Event<C>)
    requires Valid(p) && Clean(p) && Enabled(p, e)
    ensures Clean(Step(p, e)) <==> !Dirties(p, e)
  {
    match e
    case AddEvent(c, uses, trans) =>
      ElemsSnoc(p.free, c);
      assert c in Elems(p.free + [c]);
    case GetEvent(dead, f) =>
      GetKeepsClean(p, dead, f);
    case CloseEvent(c, resets, ok, f) =>
      if (resets || c in p.trans) && !ok {
        ReplaceKeepsClean(p, c, f);
      } else {
        ElemsSnoc(p.free, c);
      }
    case WorkEvent(c) =>
      assert c in p.free <==> c in Elems(p.free);
  }

  lemma {:induction false} GetKeepsClean<C>(p: Pool<C>, dead: bool, spare: Option<C>)
    requires Valid(p) && Clean(p) && (spare.Some? ==> spare.value !in p.owned)
    ensures Clean(Get(p, dead, spare).0)
  {
    if p.free != [] {
      var c := p.free[0];
      assert c in p.free && c in Elems(p.free);
      if !dead {
        WithoutDistinct(p.free, c);
      } else {
        ReplaceKeepsClean(p, c, spare);
        ReplaceKeepsValid(p, c, spare);
        if spare.Some? {
          var q := Replace(p, c, spare).0;
          assert q.free[|q.free| - 1] == spare.value;
          WithoutDistinct(q.free, spare.value);
        }
      }
    }
  }

  lemma {:induction false} CleanSoFar<C>(states: seq<Pool<C>>, events: seq<Event<C>>, k: nat)
    requires IsRun(states, events) && Valid(states[0]) && Clean(states[0]) && k < |states|
    requires forall i :: 0 <= i < |events| ==> !Dirties(states[i], events[i])
    ensures Clean(states[k])
  {
    if k > 0 {
      CleanSoFar(states, events, k - 1);
      RunIsSafe(states, events, k - 1);
      StepKeepsClean(states[k - 1], events[k - 1]);
    }
  }

  /** In a run no dirty connection ever waits to be handed out, exactly when no step is one of those. */
  lemma {:induction false} RunIsClean<C>(states: seq<Pool<C>>, events: seq<Event<C>>)
    requires IsRun(states, events) && Valid(states[0]) && Clean(states[0])
    ensures (forall k :: 0 <= k < |states| ==> Clean(states[k]))
            <==> (forall i :: 0 <= i < |events| ==> !Dirties(states[i], events[i]))
  {
    if forall i :: 0 <= i < |events| ==> !Dirties(states[i], events[i]) {
      forall k | 0 <= k < |states| ensures Clean(states[k]) {
        CleanSoFar(states, events, k);
      }
    }
    if forall k :: 0 <= k < |states| ==> Clean(states[k]) {
      forall i | 0 <= i < |events| ensures !Dirties(states[i], events[i]) {
        RunIsSafe(states, events, i);
        StepKeepsClean(states[i], events[i]);
        assert Clean(states[i + 1]);
      }
    }
  }

  // --- the free list is first in, first out --------------------------------------------------------------------------

  ghost predicate Before<C>(s: seq<C>, x: C, y: C) {
    exists i, j :: 0 <= i < j < |s| && s[i] == x && s[j] == y
  }

  lemma {:induction false} BeforeWithout<C>(s: seq<C>, c: C, x: C, y: C)
    requires Distinct(s) && c in s && Before(s, x, y) && x != c && y != c
    ensures Before(Without(s, c), x, y)
  {
    var k := WithoutSplit(s, c);
    var i, j :| 0 <= i < j < |s| && s[i] == x && s[j] == y;
    var r := s[..k] + s[k + 1..];
    var i' := if i < k then i else i - 1;
    var j' := if j < k then j else j - 1;
    assert r[i'] == x && r[j'] == y;
  }

  lemma {:induction false} BeforeSnoc<C>(s: seq<C>, c: C, x: C, y: C)
    requires Before(s, x, y)
    ensures Before(s + [c], x, y)
  {
    var i, j :| 0 <= i < j < |s| && s[i] == x && s[j] == y;
    assert (s + [c])[i] == x && (s + [c])[j] == y;
  }

  lemma {:induction false} DropKeepsOrder<C>(p: Pool<C>, c: C, x: C, y: C)
    requires Valid(p) && c in p.owned && Before(p.free, x, y) && x in Drop(p, c).free && y in Drop(p, c).free
    ensures Before(Drop(p, c).free, x, y)
  {
    if c in p.free {
      WithoutDistinct(p.free, c);
      assert x in Elems(Without(p.free, c)) && y in Elems(Without(p.free, c));
      BeforeWithout(p.free, c, x, y);
    }
  }

  /** While two connections stay free, no operation changes their order. */
  lemma {:induction false} StepKeepsOrder<C>(p: Pool<C>, e: Event<C>, x: C, y: C)
    requires Valid(p) && Enabled(p, e) && Before(p.free, x, y)
    requires x in Step(p, e).free && y in Step(p, e).free
    ensures Before(Step(p, e).free, x, y)
  {
    match e
    case AddEvent(c, _, _) => BeforeSnoc(p.free, c, x, y);
    case GetEvent(dead, f) => GetKeepsOrder(p, dead, f, x, y);
    case CloseEvent(c, resets, ok, f) =>
      if (resets || c in p.trans) && !ok {
        ReplaceKeepsOrder(p, c, f, x, y);
      } else if c in p.used {
        BeforeSnoc(p.free, c, x, y);
      }
    case WorkEvent(c) =>
  }

  lemma {:induction false} ReplaceKeepsOrder<C>(p: Pool<C>, c: C, spare: Option<C>, x: C, y: C)
    requires Valid(p) && c in p.owned && Before(p.free, x, y)
    requires spare.Some? ==> spare.value !in p.owned
    requires x in Replace(p, c, spare).0.free && y in Replace(p, c, spare).0.free
    ensures Before(Replace(p, c, spare).0.free, x, y)
  {
    assert x in Elems(p.free) && y in Elems(p.free);
    var q := Drop(p, c);
    if spare.Some? {
      ElemsSnoc(q.free, spare.value);
    }
    assert x in q.free && y in q.free;
    DropKeepsOrder(p, c, x, y);
    if spare.Some? {
      BeforeSnoc(q.free, spare.value, x, y);
    }
  }

  lemma {:induction false} GetKeepsOrder<C>(p: Pool<C>, dead: bool, spare: Option<C>, x: C, y: C)
    requires Valid(p) && (spare.Some? ==> spare.value !in p.owned) && Before(p.free, x, y)
    requires x in Get(p, dead, spare).0.free && y in Get(p, dead, spare).0.free
    ensures Before(Get(p, dead, spare).0.free, x, y)
  {
    var c := p.free[0];
    assert c in p.free && c in Elems(p.free);
    if !dead {
      WithoutDistinct(p.free, c);
      assert x in Elems(Without(p.free, c)) && y in Elems(Without(p.free, c));
      BeforeWithout(p.free, c, x, y);
    } else if spare.None? {
      ReplaceKeepsOrder(p, c, spare, x, y);
    } else {
      var q := Replace(p, c, spare).0;
      ReplaceKeepsValid(p, c, spare);
      assert q.free[|q.free| - 1] == spare.value;
      WithoutDistinct(q.free, spare.value);
      assert x in Elems(Without(q.free, spare.value)) && y in Elems(Without(q.free, spare.value));
      ReplaceKeepsOrder(p, c, spare, x, y);
      BeforeWithout(q.free, spare.value, x, y);
    }
  }

  lemma {:induction false} RunKeepsOrder<C>(states: seq<Pool<C>>, events: seq<Event<C>>, k: nat, x: C, y: C)
    requires IsRun(states, events) && Valid(states[0]) && k < |states| && Before(states[0].free, x, y)
    requires forall i :: 0 <= i <= k ==> x in states[i].free && y in states[i].free
    ensures Before(states[k].free, x, y)
  {
    if k > 0 {
      RunKeepsOrder(states, events, k - 1, x, y);
      RunIsSafe(states, events, k - 1);
      StepKeepsOrder(states[k - 1], events[k - 1], x, y);
    }
  }

  lemma {:induction false} LastBecomesFirst<C>(states: seq<Pool<C>>, events: seq<Event<C>>, k: nat, c: C, x: C)
    requires IsRun(states, events) && Valid(states[0]) && k < |states|
    requires states[0].free != [] && states[0].free[|states[0].free| - 1] == c
    requires x in states[0].free && x != c
    requires forall i :: 0 <= i <= k ==> c in states[i].free
    requires states[k].free[0] == c
    ensures exists i :: 0 <= i <= k && x !in states[i].free
  {
    if forall i :: 0 <= i <= k ==> x in states[i].free {
      var f := states[0].free;
      var i :| 0 <= i < |f| && f[i] == x;
      assert f[|f| - 1] == c;
      assert Before(f, x, c);
      RunKeepsOrder(states, events, k, x, c);
      RunIsSafe(states, events, k);
    }
  }

  /** The step puts `c` on the free list: it is returned, or added by a caller. */
  ghost predicate Joins<C>(p: Pool<C>, e: Event<C>, c: C) {
    || (e.CloseEvent? && e.c == c && c in p.used && c in Step(p, e).free)
    || (e.AddEvent? && e.c == c && p.Total() < p.size)
  }

  /**
    Fairness: between the call that returns or adds a connection and the one that hands it out,
    every connection that was free before has left the free list.
   */
  lemma {:induction false} EveryOtherLeavesFirst<C>(states: seq<Pool<C>>, events: seq<Event<C>>, k: nat, c: C, x: C)
    requires IsRun(states, events) && Valid(states[0]) && 0 < k < |events|
    requires Joins(states[0], events[0], c)
    requires events[k].GetEvent? && Get(states[k], events[k].dead, events[k].spare).1 == Some(c)
    requires forall i :: 0 < i <= k ==> c in states[i].free
    requires x in states[0].free
    ensures exists i :: 0 < i <= k && x !in states[i].free
  {
    JoinsLast(states[0], events[0], c, x);
    RunIsSafe(states, events, 1);
    RunIsSafe(states, events, k);
    HandedOutFirst(states[k], events[k], c);
    var later := states[1..];
    assert IsRun(later, events[1..]);
    LastBecomesFirst(later, events[1..], k - 1, c, x);
    var i :| 0 <= i <= k - 1 && x !in later[i].free;
    assert x !in states[i + 1].free;
  }

  /** It goes to the end of the free list. */
  lemma {:induction false} JoinsLast<C>(p: Pool<C>, e: Event<C>, c: C, x: C)
    requires Valid(p) && Enabled(p, e) && Joins(p, e, c) && x in p.free
    ensures var f := Step(p, e).free;
      f != [] && f[|f| - 1] == c && x in f && x != c
  {
    assert x in Elems(p.free);
    if e.CloseEvent? {
      assert c in Elems(p.used);
      CloseKeepsValid(p, c, e.resets, e.ok, e.spare);
    }
    ElemsSnoc(p.free, c);
    assert x in Elems(p.free + [c]);
  }

  /** A connection that is free and is handed out was the first of the free list. */
  lemma {:induction false} HandedOutFirst<C>(p: Pool<C>, e: Event<C>, c: C)
    requires Valid(p) && Enabled(p, e) && e.GetEvent? && c in p.free && Get(p, e.dead, e.spare).1 == Some(c)
    ensures p.free[0] == c
  {
    assert c in Elems(p.free);
  }

  // --- the load is spread evenly -------------------------------------------------------------------------------------

  /** Take a connection and give it back, without failures. */
  function Pair<C>(p: Pool<C>, resets: bool): Pool<C> {
    match Get(p, false, None).1
    case None => p
    case Some(c) => Close(Get(p, false, None).0, c, resets, true, None)
  }

  function Pairs<C>(p: Pool<C>, resets: bool, k: nat): Pool<C> {
    if k == 0 then p else Pair(Pairs(p, resets, k - 1), resets)
  }

  lemma {:induction false} WithoutHead<C>(s: seq<C>, c: C)
    requires s != [] && s[0] == c
    ensures Without(s, c) == s[1..]
  {
  }

  lemma {:induction false} WithoutLast<C>(s: seq<C>, c: C)
    requires c !in s
    ensures Without(s + [c], c) == s
    decreases |s|
  {
    if s != [] {
      WithoutLast(s[1..], c);
      assert (s + [c])[1..] == s[1..] + [c];
    } else {
      assert s + [c] == [c];
    }
  }

  /** A pair moves the head of the free list to its end and counts one use. */
  lemma {:induction false} PairRotates<C>(p: Pool<C>, resets: bool)
    requires Valid(p) && p.free != []
    ensures var c := p.free[0];
      Pair(p, resets) == p.(free := p.free[1..] + [c], uses := p.uses[c := p.Uses(c) + 1], trans := p.trans - {c})
    ensures Valid(Pair(p, resets))
  {
    var c := p.free[0];
    assert c in p.free && c in Elems(p.free);
    WithoutHead(p.free, c);
    WithoutLast(p.used, c);
    GetKeepsValid(p, false, None);
    var q := Get(p, false, None).0;
    assert c in q.used && q.used == p.used + [c];
    assert c in Elems(q.used);
    CloseKeepsValid(q, c, resets, true, None);
  }

  /** The state after `q` full rounds and `m` more pairs, from the initial list `l`. */
  ghost predicate Rotated<C>(p: Pool<C>, l: seq<C>, base: nat, q: nat, m: nat)
    requires m <= |l|
  {
    && Valid(p) && p.free == l[m..] + l[..m]
    && forall j :: 0 <= j < |l| ==> p.Uses(l[j]) == base + q + if j < m then 1 else 0
  }

  lemma {:induction false} RotatedNext<C>(p: Pool<C>, l: seq<C>, base: nat, q: nat, m: nat, resets: bool)
    requires Distinct(l) && m < |l| && Rotated(p, l, base, q, m)
    ensures Rotated(Pair(p, resets), l, base, q, m + 1)
  {
    PairRotates(p, resets);
    assert p.free[0] == l[m];
    assert p.free[1..] + [l[m]] == l[m + 1..] + l[..m + 1];
  }

  lemma {:induction false} RotatedRound<C>(p: Pool<C>, l: seq<C>, base: nat, q: nat)
    requires Rotated(p, l, base, q, |l|)
    ensures Rotated(p, l, base, q + 1, 0)
  {
    assert l[|l|..] + l[..|l|] == l == l[0..] + l[..0];
  }

  /**
    Starting from a full free list with equal counts, after `q` rounds and `m` more pairs the
    first `m` connections have been used once more than the others: for every number of
    pairs, since every number is of this form, the counts differ by at most one.
   */
  lemma {:induction false} LoadIsEven<C>(p: Pool<C>, base: nat, resets: bool, k: nat, q: nat, m: nat)
    requires Valid(p) && m < |p.free| && k == |p.free| * q + m
    requires forall j :: 0 <= j < |p.free| ==> p.Uses(p.free[j]) == base
    ensures Rotated(Pairs(p, resets, k), p.free, base, q, m)
    decreases k
  {
    if k == 0 {
      NoRound(|p.free|, q, m);
      assert p.free == p.free[0..] + p.free[..0];
    } else if m > 0 {
      LoadIsEven(p, base, resets, k - 1, q, m - 1);
      LoadNext(Pairs(p, resets, k - 1), p.free, base, q, m - 1, resets);
    } else {
      OneRoundLess(|p.free|, q);
      LoadIsEven(p, base, resets, k - 1, q - 1, |p.free| - 1);
      LoadNext(Pairs(p, resets, k - 1), p.free, base, q - 1, |p.free| - 1, resets);
    }
  }

  lemma {:induction false} NoRound(n: nat, q: nat, m: nat)
    requires m < n && n * q + m == 0
    ensures q == 0 && m == 0
  {
    if q > 0 {
      Above(n, 0, q);
    }
  }

  lemma {:induction false} OneRoundLess(n: nat, q: nat)
    requires n * q > 0
    ensures q > 0 && n * q - 1 == n * (q - 1) + (n - 1)
  {
    assert n * q == n * (q - 1) + n;
  }

  /** One more pair, into the next round if the last connection's turn has come. */
  lemma {:induction false} LoadNext<C>(p: Pool<C>, l: seq<C>, base: nat, q: nat, m: nat, resets: bool)
    requires Distinct(l) && m < |l| && Rotated(p, l, base, q, m)
    ensures if m + 1 == |l| then Rotated(Pair(p, resets), l, base, q + 1, 0)
            else Rotated(Pair(p, resets), l, base, q, m + 1)
  {
    RotatedNext(p, l, base, q, m, resets);
    if m + 1 == |l| {
      RotatedRound(Pair(p, resets), l, base, q);
    }
  }

  /** So after any number of pairs no connection has been used more than once more than another. */
  lemma {:induction false} CountsWithinOne<C>(p: Pool<C>, base: nat, resets: bool, k: nat, i: nat, j: nat)
    requires Valid(p) && i < |p.free| && j < |p.free|
    requires forall j :: 0 <= j < |p.free| ==> p.Uses(p.free[j]) == base
    ensures Pairs(p, resets, k).Uses(p.free[i]) <= Pairs(p, resets, k).Uses(p.free[j]) + 1
  {
    var n := |p.free|;
    LoadIsEven(p, base, resets, k, k / n, k % n);
  }
}
