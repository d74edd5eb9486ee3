/**
  The second scan as a whole: the rewritten statement is a fixed point of the parser exactly
  when every version number that the first scan read keeps its room.
 */
module SecondScan {
  import opened Bytes
  import opened Tokens
  import opened Scanner
  import opened Reparse
  import opened Conditional
  import opened Seqs

  // --- the condition -----------------------------------------------------------------------------

  /** Wherever the scan opens a comment, a version number keeps its room. */
  ghost predicate VersionsFit(server: nat, s: State, r: seq<byte>)
    decreases |r|
  {
    r == [] || (
      var o := Step(server, s, r);
      && (Opens(s, r) ==> Roomy(r, Rewritten(server, s, r)))
      && VersionsFit(server, o.next, r[o.token.Size()..]))
  }

  /** A conditional comment starts at offset `i`: slash, star, and then `!` or `M!`. */
  predicate ConditionalAt(r: seq<byte>, i: nat) {
    && i + 2 < |r| && r[i] == SLASH && r[i + 1] == STAR
    && (r[i + 2] == BANG || (r[i + 2] == UPPER_M && At(r, i + 3) == BANG))
  }

  ghost predicate Unconditional(r: seq<byte>) {
    forall i: nat :: !ConditionalAt(r, i)
  }

  /** A statement without conditional comments meets the condition. */
  lemma {:induction false} UnconditionalFits(server: nat, s: State, r: seq<byte>)
    requires Unconditional(r)
    ensures VersionsFit(server, s, r)
    decreases |r|
  {
    if r != [] {
      var o := Step(server, s, r);
      var n := o.token.Size();
      assert !ConditionalAt(r, 0);
      forall i: nat ensures !ConditionalAt(r[n..], i) {
        assert !ConditionalAt(r, n + i);
      }
      UnconditionalFits(server, o.next, r[n..]);
    }
  }

  // --- one step ------------------------------------------------------------------------------------

  /** One step of the second scan reads the rewritten form of the same token, unless a number lost its room. */
  lemma {:induction false} StepStable(server: nat, s: State, r: seq<byte>)
    requires r != []
    ensures (Opens(s, r) ==> Roomy(r, Rewritten(server, s, r))) ==> Stable(server, s, r)
  {
    PairByPrefix(r, SLASH, STAR);
    if IsQuote(r[0]) || s.InLiteral() {
      var t, s', rest := First(server, s, r);
      var q := Rewritten(server, s, r);
      assert q[..1] == r[..1];
      assert q[0] == q[..1][0];
    } else if s.inComment {
      BlockStable(server, s, r);
    } else if r[0] == SLASH && At(r, 1) == STAR {
      OpenStable(server, s, r);
    } else {
      OutsideStable(server, s, r);
    }
  }

  // --- the second scan ---------------------------------------------------------------------------

  function Settle(ts: seq<Token>): (r: seq<Token>)
    ensures |r| == |ts|
    ensures forall i :: 0 <= i < |ts| ==> r[i] == Settled(ts[i])
  {
    if ts == [] then [] else Settle(ts[..|ts| - 1]) + [Settled(ts[|ts| - 1])]
  }

  lemma {:induction false} SettleCons(t: Token, ts: seq<Token>)
    ensures Settle([t] + ts) == [Settled(t)] + Settle(ts)
  {
    var a, b := Settle([t] + ts), [Settled(t)] + Settle(ts);
    forall i | 0 <= i < |a| ensures a[i] == b[i] {
      assert a[i] == Settled(([t] + ts)[i]);
    }
  }

  /** The rewritten text of `r` parses to the settled tokens of `r`. */
  ghost predicate Settles(server: nat, s: State, r: seq<byte>) {
    Tokenize(server, s, Rewritten(server, s, r)) == Settle(Tokenize(server, s, r))
  }

  /** After a stable step the rest of the text decides. */
  lemma {:induction false} StableSettles(server: nat, s: State, r: seq<byte>)
    requires r != [] && Stable(server, s, r)
    ensures var o := Step(server, s, r);
      Settles(server, s, r) <==> Settles(server, o.next, r[o.token.Size()..])
  {
    var t, s', rest := First(server, s, r);
    var t2, s2, rest2 := First(server, s, Rewritten(server, s, r));
    RestOfSecond(server, s, r);
    SettleCons(t, Tokenize(server, s', rest));
    SameCons(t2, Tokenize(server, s2, rest2), Settled(t), Settle(Tokenize(server, s', rest)));
  }

  /** After a stable step the second scan is left with the rest of the text, rewritten. */
  lemma {:induction false} RestOfSecond(server: nat, s: State, r: seq<byte>)
    requires r != [] && Stable(server, s, r)
    ensures var o := Step(server, s, r);
      var q := Rewritten(server, s, r);
      var o2 := Step(server, s, q);
      && o2 == StepOut(Settled(o.token), o.next)
      && q[o2.token.Size()..] == Rewritten(server, o.next, r[o.token.Size()..])
  {
    var t, s', rest := First(server, s, r);
    SizeOfSource(Settled(t));
    assert Settled(t).Source() == t.Shown();
  }

  /** After an unstable step nothing helps: the first tokens already differ. */
  lemma {:induction false} UnstableDiffers(server: nat, s: State, r: seq<byte>)
    requires Opens(s, r) && !Roomy(r, Rewritten(server, s, r))
    ensures !Settles(server, s, r)
  {
    OpenStable(server, s, r);
    var t, s', rest := First(server, s, r);
    var t2, s2, rest2 := First(server, s, Rewritten(server, s, r));
    SettleCons(t, Tokenize(server, s', rest));
    SameCons(t2, Tokenize(server, s2, rest2), Settled(t), Settle(Tokenize(server, s', rest)));
  }

  /** The rewritten statement parses to the same tokens exactly when version numbers keep their room. */
  lemma {:induction false} FixedPoint(server: nat, s: State, r: seq<byte>)
    ensures Tokenize(server, s, Rewritten(server, s, r)) == Settle(Tokenize(server, s, r))
            <==> VersionsFit(server, s, r)
    decreases |r|
  {
    if r != [] {
      StepStable(server, s, r);
      if Opens(s, r) && !Roomy(r, Rewritten(server, s, r)) {
        UnstableDiffers(server, s, r);
      } else {
        var o := Step(server, s, r);
        StableSettles(server, s, r);
        FixedPoint(server, o.next, r[o.token.Size()..]);
      }
    }
  }

  /** Then the second scan also ends in the same state, with the same command. */
  lemma {:induction false} SameEnd(server: nat, s: State, r: seq<byte>, jumped: bool)
    requires VersionsFit(server, s, r)
    ensures Final(server, s, Rewritten(server, s, r), jumped) == Final(server, s, r, jumped)
    decreases |r|
  {
    if r != [] {
      var o := Step(server, s, r);
      StepStable(server, s, r);
      RestOfSecond(server, s, r);
      FirstQuote(server, s, r);
      SameEnd(server, o.next, r[o.token.Size()..], IsQuote(r[0]));
    }
  }

  lemma {:induction false} FirstQuote(server: nat, s: State, r: seq<byte>)
    requires r != []
    ensures Rewritten(server, s, r) != [] && (IsQuote(Rewritten(server, s, r)[0]) <==> IsQuote(r[0]))
  {
    var t, s', rest := First(server, s, r);
    FirstByte(server, s, r);
  }
}
