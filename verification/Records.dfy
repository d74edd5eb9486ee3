/**
  When the second scan leads to the same record.  A version number that loses its room turns
  its comment into one that is skipped.  The record is the same if it was skipped before, and
  otherwise exactly when the comment ends before the placeholders that are left.
 */
module Records {
  import opened Bytes
  import opened Tokens
  import opened Scanner
  import opened Reparse
  import opened Conditional
  import opened SecondScan
  import opened Regions
  import opened Seqs
  import opened Wrappers

  // --- token sequences that are recorded alike ---------------------------------------------------------

  function Shifted(offsets: seq<nat>, d: nat): (r: seq<nat>)
    ensures |r| == |offsets|
    ensures forall i :: 0 <= i < |r| ==> r[i] == offsets[i] + d
  {
    seq(|offsets|, i requires 0 <= i < |offsets| => offsets[i] + d)
  }

  ghost predicate Questions(ts: seq<Token>) {
    forall i :: 0 <= i < |ts| ==> ts[i].Mark() ==> ts[i].Question?
  }

  /** The same text and the same offsets, with question marks in `b`. */
  ghost predicate Alike(a: seq<Token>, b: seq<Token>) {
    Shown(a) == Shown(b) && Offsets(a) == Offsets(b) && Questions(b)
  }

  lemma {:induction false} OffsetsJoin(p: seq<Token>, a: seq<Token>)
    ensures Offsets(p + a) == Offsets(p) + Shifted(Offsets(a), |Shown(p)|)
    decreases |a|
  {
    if a == [] {
      assert p + a == p;
    } else {
      var a', t := a[..|a| - 1], a[|a| - 1];
      OffsetsJoin(p, a');
      assert p + a == (p + a') + [t] && a == a' + [t];
      AppendShown(p, a');
      OffsetsJoinSnoc(p + a', p, a', t);
    }
  }

  lemma {:induction false} OffsetsJoinSnoc(both: seq<Token>, p: seq<Token>, a: seq<Token>, t: Token)
    requires Offsets(both) == Offsets(p) + Shifted(Offsets(a), |Shown(p)|) && |Shown(both)| == |Shown(p)| + |Shown(a)|
    ensures Offsets(both + [t]) == Offsets(p) + Shifted(Offsets(a + [t]), |Shown(p)|)
  {
    if t.Mark() {
      OffsetsMark(both, t);
      OffsetsMark(a, t);
      ShiftedSnoc(Offsets(p), Offsets(a), |Shown(a)|, |Shown(p)|, Offsets(a + [t]), Offsets(both + [t]));
    } else {
      OffsetsText(both, t);
      OffsetsText(a, t);
    }
  }

  lemma {:induction false} OffsetsMark(ts: seq<Token>, t: Token)
    requires t.Mark()
    ensures Offsets(ts + [t]) == Offsets(ts) + [|Shown(ts)|]
  {
    Snoc(ts, t);
  }

  lemma {:induction false} OffsetsText(ts: seq<Token>, t: Token)
    requires !t.Mark()
    ensures Offsets(ts + [t]) == Offsets(ts)
  {
    Snoc(ts, t);
    assert Offsets(ts) + [] == Offsets(ts);
  }

  lemma {:induction false} ShiftedSnoc(p: seq<nat>, a: seq<nat>, n: nat, d: nat, longer: seq<nat>, whole: seq<nat>)
    requires longer == a + [n] && whole == (p + Shifted(a, d)) + [d + n]
    ensures whole == p + Shifted(longer, d)
  {
    var y := p + Shifted(longer, d);
    forall i | 0 <= i < |whole| ensures whole[i] == y[i] {
      if |p| <= i {
        assert y[i] == Shifted(longer, d)[i - |p|] == longer[i - |p|] + d;
      }
    }
  }

  lemma {:induction false} ShiftedSame(x: seq<nat>, y: seq<nat>, d: nat)
    ensures Shifted(x, d) == Shifted(y, d) <==> x == y
  {
    if Shifted(x, d) == Shifted(y, d) {
      assert |x| == |y|;
      forall i | 0 <= i < |x| ensures x[i] == y[i] {
        assert Shifted(x, d)[i] == Shifted(y, d)[i];
      }
    }
  }

  lemma {:induction false} QuestionsJoin(p: seq<Token>, a: seq<Token>)
    ensures Questions(p + a) <==> Questions(p) && Questions(a)
  {
    if Questions(p + a) {
      forall i | 0 <= i < |p| ensures p[i].Mark() ==> p[i].Question? {
        assert (p + a)[i] == p[i];
      }
      forall i | 0 <= i < |a| ensures a[i].Mark() ==> a[i].Question? {
        assert (p + a)[|p| + i] == a[i];
      }
    }
  }

  /** Behind parts that are alike, the rest decides. */
  lemma {:induction false} AlikeJoin(p: seq<Token>, p': seq<Token>, a: seq<Token>, a': seq<Token>)
    requires Alike(p, p')
    ensures Alike(p + a, p' + a') <==> Alike(a, a')
  {
    AppendShown(p, a);
    AppendShown(p', a');
    OffsetsJoin(p, a);
    OffsetsJoin(p', a');
    QuestionsJoin(p', a');
    ShiftedSame(Offsets(a), Offsets(a'), |Shown(p)|);
    SameTail(Shown(p), Shown(a), Shown(a'));
    SameTail(Offsets(p), Shifted(Offsets(a), |Shown(p)|), Shifted(Offsets(a'), |Shown(p)|));
  }

  lemma {:induction false} SettledAlike(t: Token)
    ensures Alike([t], [Settled(t)])
  {
    Lone(t);
    Lone(Settled(t));
  }

  lemma Lone(t: Token)
    ensures Shown([t]) == t.Shown() && Offsets([t]) == if t.Mark() then [0] else []
  {
    assert [t][..0] == [];
    assert [] + t.Shown() == t.Shown();
  }

  /** Tokens of text only, with what they show. */
  ghost predicate TextOnly(ts: seq<Token>, x: seq<byte>) {
    Shown(ts) == x && Offsets(ts) == [] && Questions(ts)
  }

  lemma {:induction false} TextOnlyJoin(p: seq<Token>, x: seq<byte>, a: seq<Token>, y: seq<byte>, both: seq<byte>)
    requires TextOnly(p, x) && TextOnly(a, y) && both == x + y
    ensures TextOnly(p + a, both)
  {
    AppendShown(p, a);
    OffsetsJoin(p, a);
    QuestionsJoin(p, a);
  }

  lemma {:induction false} LettersText(b: seq<byte>)
    ensures TextOnly(Letters(b), b)
  {
    if b != [] {
      LettersText(b[1..]);
      Lone(Text(b[..1]));
      Halves(b, 1);
      TextOnlyJoin([Text(b[..1])], b[..1], Letters(b[1..]), b[1..], b);
    }
  }

  // --- the second scan ---------------------------------------------------------------------------------

  /** The rewritten text leads to the same record from state `s'` as the text from state `s`. */
  ghost predicate ReadsAlike(server: nat, s: State, r: seq<byte>, s': State, jumped: bool) {
    var q := Rewritten(server, s, r);
    && Alike(Tokenize(server, s, r), Tokenize(server, s', q))
    && Final(server, s', q, jumped).command == Final(server, s, r, jumped).command
  }

  /** A version number of a comment that applies loses its room, so that the comment is skipped. */
  ghost predicate Swallowed(server: nat, s: State, r: seq<byte>)
    requires r != []
  {
    Opens(s, r) && !Roomy(r, Rewritten(server, s, r)) && !Step(server, s, r).next.inComment
  }

  /** Behind the star-slash of a comment entered in state `s`: the offset, and the state from there on. */
  function EndOfComment(s: State, q: seq<byte>): Option<(nat, State)>
    decreases |q|
  {
    if q == [] then None
    else if !s.InLiteral() && q[0] == STAR && At(q, 1) == SLASH then Some((2, s.(inComment := false)))
    else
      match EndOfComment(s.Toggle(q[0]), q[1..])
      case None => None
      case Some((e, after)) => Some((e + 1, after))
  }

  /**
    The rest of a swallowed comment: its star-slash comes before all placeholders, and from
    there on the rewritten text has the same ones and ends with the same command.
   */
  ghost predicate EndsAlike(server: nat, s: State, rest: seq<byte>) {
    var q := Rewritten(server, s, rest);
    match EndOfComment(s.(inComment := true), q)
    case None => false
    case Some((e, after)) =>
      e <= |q| &&
      var ts := Tokenize(server, after, q[e..]);
      && Offsets(Tokenize(server, s, rest)) == Shifted(Offsets(ts), e) && Questions(ts) && Shown(ts) == q[e..]
      && Final(server, after, q[e..], false).command == Final(server, s, rest, false).command
  }

  /** No comment is swallowed, or the first that is has a rest like that. */
  ghost predicate RecordFits(server: nat, s: State, r: seq<byte>)
    decreases |r|
  {
    r == [] || (
      var o := Step(server, s, r);
      var rest := r[o.token.Size()..];
      if Swallowed(server, s, r) then EndsAlike(server, o.next, rest)
      else RecordFits(server, o.next, rest))
  }

  lemma {:induction false} VersionsFitRecord(server: nat, s: State, r: seq<byte>)
    requires VersionsFit(server, s, r)
    ensures RecordFits(server, s, r)
    decreases |r|
  {
    if r != [] {
      var o := Step(server, s, r);
      VersionsFitRecord(server, o.next, r[o.token.Size()..]);
    }
  }

  // --- inside a comment ----------------------------------------------------------------------------------

  /** A byte inside a comment that does not end it. */
  lemma {:induction false} InsideStep(server: nat, s: State, q: seq<byte>, jumped: bool)
    requires q != [] && s.inComment && !(!s.InLiteral() && q[0] == STAR && At(q, 1) == SLASH)
    ensures var s' := s.Toggle(q[0]);
      && s'.inComment && s'.command == s.command
      && Tokenize(server, s, q) == [Text(q[..1])] + Tokenize(server, s', q[1..])
      && Final(server, s, q, jumped) == Final(server, s', q[1..], IsQuote(q[0]))
  {
    assert Step(server, s, q) == StepOut(Text(q[..1]), s.Toggle(q[0]));
  }

  lemma {:induction false} LetterInFront(b: seq<byte>, ts: seq<Token>, x: seq<byte>, both: seq<byte>)
    requires TextOnly(ts, x) && both == b + x
    ensures TextOnly([Text(b)] + ts, both)
  {
    Lone(Text(b));
    TextOnlyJoin([Text(b)], b, ts, x, both);
  }

  /** A comment that does not end is text to the last byte. */
  lemma {:induction false} NeverEnds(server: nat, s: State, q: seq<byte>, jumped: bool)
    requires s.inComment && EndOfComment(s, q).None?
    ensures TextOnly(Tokenize(server, s, q), q) && Final(server, s, q, jumped).command == s.command
    decreases |q|
  {
    if q != [] {
      InsideStep(server, s, q, jumped);
      NeverEnds(server, s.Toggle(q[0]), q[1..], IsQuote(q[0]));
      Halves(q, 1);
      LetterInFront(q[..1], Tokenize(server, s.Toggle(q[0]), q[1..]), q[1..], q);
    }
  }

  /** A comment that ends is text up to there. */
  lemma {:induction false} EndsThere(server: nat, s: State, q: seq<byte>, jumped: bool) returns (p: seq<Token>)
    requires s.inComment && EndOfComment(s, q).Some?
    ensures var (e, after) := EndOfComment(s, q).value;
      && 2 <= e <= |q| && TextOnly(p, q[..e])
      && Tokenize(server, s, q) == p + Tokenize(server, after, q[e..])
      && Final(server, s, q, jumped) == Final(server, after, q[e..], false)
    decreases |q|
  {
    if !s.InLiteral() && q[0] == STAR && At(q, 1) == SLASH {
      p := [Text(q[..2])];
      Lone(Text(q[..2]));
    } else {
      InsideStep(server, s, q, jumped);
      var p' := EndsThere(server, s.Toggle(q[0]), q[1..], IsQuote(q[0]));
      p := [Text(q[..1])] + p';
      EndsLater(server, s, q, p');
    }
  }

  lemma {:induction false} EndsLater(server: nat, s: State, q: seq<byte>, p: seq<Token>)
    requires q != [] && EndOfComment(s.Toggle(q[0]), q[1..]).Some?
    requires var (e, after) := EndOfComment(s.Toggle(q[0]), q[1..]).value;
      && e < |q| && TextOnly(p, q[1..][..e])
      && Tokenize(server, s.Toggle(q[0]), q[1..]) == p + Tokenize(server, after, q[1..][e..])
    ensures var (e, after) := EndOfComment(s.Toggle(q[0]), q[1..]).value;
      && TextOnly([Text(q[..1])] + p, q[..e + 1]) && q[1..][e..] == q[e + 1..]
      && [Text(q[..1])] + Tokenize(server, s.Toggle(q[0]), q[1..])
         == ([Text(q[..1])] + p) + Tokenize(server, after, q[e + 1..])
  {
    var (e, after) := EndOfComment(s.Toggle(q[0]), q[1..]).value;
    FrontPart(q, e);
    LetterInFront(q[..1], p, q[1..][..e], q[..e + 1]);
    assert q[1..][e..] == q[e + 1..];
    Regroup([Text(q[..1])], p, Tokenize(server, after, q[e + 1..]));
  }

  lemma FrontPart(q: seq<byte>, e: nat)
    requires e < |q|
    ensures q[..e + 1] == q[..1] + q[1..][..e]
  {
  }

  /** What gets shorter has placeholders. */
  lemma {:induction false} ShorterHasMarks(ts: seq<Token>)
    ensures Offsets(ts) == [] ==> Removed(ts) == 0
  {
    if ts != [] {
      ShorterHasMarks(ts[..|ts| - 1]);
    }
  }

  /** Only few bytes are left behind the number of a swallowed comment, among them a placeholder. */
  lemma {:induction false} LittleLeft(server: nat, s: State, r: seq<byte>)
    requires Opens(s, r) && !Roomy(r, Rewritten(server, s, r))
    ensures var o := Step(server, s, r);
      var rest := r[o.token.Size()..];
      && |Rewritten(server, o.next, rest)| <= 6
      && Offsets(Tokenize(server, o.next, rest)) != []
  {
    var n, s' := Opened(server, s, r);
    OpenCases(server, r);
    var k := VersionAt(r);
    assert r[k..][0] == r[k] && DigitRun(r[k..]) >= 1;
    var ts := Tokenize(server, s', r[n..]);
    ShorterHasMarks(ts);
    LengthAccount(ts);
    TokenizeSource(server, s', r[n..]);
  }

  /** The rest of a swallowed comment reads alike inside and outside exactly when it ends alike. */
  lemma {:induction false} EndDecides(server: nat, s: State, rest: seq<byte>)
    requires Offsets(Tokenize(server, s, rest)) != []
    ensures ReadsAlike(server, s, rest, s.(inComment := true), false) <==> EndsAlike(server, s, rest)
  {
    if EndOfComment(s.(inComment := true), Rewritten(server, s, rest)).None? {
      NeverEnds(server, s.(inComment := true), Rewritten(server, s, rest), false);
    } else {
      EndFound(server, s, rest);
    }
  }

  lemma {:induction false} EndFound(server: nat, s: State, rest: seq<byte>)
    requires EndOfComment(s.(inComment := true), Rewritten(server, s, rest)).Some?
    ensures ReadsAlike(server, s, rest, s.(inComment := true), false) <==> EndsAlike(server, s, rest)
  {
    var q, c, a := Rewritten(server, s, rest), s.(inComment := true), Tokenize(server, s, rest);
    var (e, after) := EndOfComment(c, q).value;
    var p := EndsThere(server, c, q, false);
    Halves(q, e);
    PartsAlike(a, p, q[..e], Tokenize(server, after, q[e..]), q[e..]);
  }

  lemma {:induction false} PartsAlike(a: seq<Token>, p: seq<Token>, x: seq<byte>, b: seq<Token>, y: seq<byte>)
    requires TextOnly(p, x) && Shown(a) == x + y
    ensures Alike(a, p + b) <==> Offsets(a) == Shifted(Offsets(b), |x|) && Questions(b) && Shown(b) == y
  {
    AppendShown(p, b);
    OffsetsJoin(p, b);
    QuestionsJoin(p, b);
    SameTail(x, y, Shown(b));
    assert [] + Shifted(Offsets(b), |x|) == Shifted(Offsets(b), |x|);
  }

  // --- the two scans ---------------------------------------------------------------------------------------

  /** After a stable step the rest decides. */
  lemma {:induction false} StableAlike(server: nat, s: State, r: seq<byte>, jumped: bool)
    requires r != [] && Stable(server, s, r)
    ensures var o := Step(server, s, r);
      ReadsAlike(server, s, r, s, jumped)
      <==> ReadsAlike(server, o.next, r[o.token.Size()..], o.next, IsQuote(r[0]))
  {
    var t, s', rest := First(server, s, r);
    var t2, s2, rest2 := First(server, s, Rewritten(server, s, r));
    RestOfSecond(server, s, r);
    FirstQuote(server, s, r);
    SettledAlike(t);
    AlikeJoin([t], [t2], Tokenize(server, s', rest), Tokenize(server, s2, rest2));
  }

  /** Bytes that are neither quotes nor stars, inside a comment. */
  ghost predicate Harmless(b: seq<byte>) {
    forall i :: 0 <= i < |b| ==> !IsQuote(b[i]) && b[i] != STAR
  }

  lemma {:induction false} InsideRun(server: nat, s: State, body: seq<byte>, tail: seq<byte>, jumped: bool)
    requires s.inComment && !s.InLiteral() && Harmless(body)
    ensures Tokenize(server, s, body + tail) == Letters(body) + Tokenize(server, s, tail)
    ensures Final(server, s, body + tail, jumped) == Final(server, s, tail, jumped && body == [])
    decreases |body|
  {
    if body == [] {
      assert body + tail == tail;
    } else {
      var r := body + tail;
      assert r[0] == body[0] && r[..1] == body[..1] && r[1..] == body[1..] + tail;
      BlockStep(server, s, r);
      InsideRun(server, s, body[1..], tail, false);
      Regroup([Text(body[..1])], Letters(body[1..]), Tokenize(server, s, tail));
    }
  }

  /** The bytes of a version number that are read as part of a comment instead. */
  lemma {:induction false} VersionHarmless(server: nat, r: seq<byte>, m: nat, n: nat)
    requires OPENING <= r && VersionAt(r) > 0 && |r| > VersionAt(r) + 7 && OpenComment(server, r).0 == n && 2 <= m < n
    ensures n <= |r| && Harmless(r[m..n])
  {
    OpenCases(server, r);
    var k := VersionAt(r);
    forall i | m <= i < n ensures !IsQuote(r[i]) && r[i] != STAR {
      if i >= k {
        assert r[i] == r[k..][i - k];
      }
    }
  }

  /** A version number without room: the second scan enters a comment, `m` bytes further on. */
  lemma {:induction false} TightStep(server: nat, s: State, r: seq<byte>) returns (m: nat, n: nat)
    requires Opens(s, r) && !Roomy(r, Rewritten(server, s, r))
    ensures m <= n <= |r| && Harmless(r[m..n])
    ensures var o := Step(server, s, r);
      var q := Rewritten(server, s, r);
      && o.token == Text(r[..n]) && q != []
      && Step(server, s, q) == StepOut(Text(r[..m]), s.(inComment := true)) && !IsQuote(q[0])
      && m <= |q| && q[m..] == r[m..n] + Rewritten(server, o.next, r[n..])
  {
    var q := Rewritten(server, s, r);
    var s';
    n, s' := Opened(server, s, r);
    OpensAlike(server, s, r);
    m := OpenComment(server, q).0;
    VersionHarmless(server, r, m, n);
    Recut(r, q, Rewritten(server, s', r[n..]), m, n);
    assert q[0] == OPENING[0] && q[1] == OPENING[1];
  }

  /** It reads the bytes of the number inside that comment. */
  lemma {:induction false} TightTokens(server: nat, s: State, r: seq<byte>, jumped: bool) returns (p: seq<Token>)
    requires Opens(s, r) && !Roomy(r, Rewritten(server, s, r))
    ensures var o := Step(server, s, r);
      var q, q' := Rewritten(server, s, r), Rewritten(server, o.next, r[o.token.Size()..]);
      var c := s.(inComment := true);
      && o.token.Text? && TextOnly(p, o.token.bytes)
      && Tokenize(server, s, q) == p + Tokenize(server, c, q')
      && Final(server, s, q, jumped) == Final(server, c, q', false)
  {
    var m, n := TightStep(server, s, r);
    var q' := Rewritten(server, Step(server, s, r).next, r[n..]);
    var c := s.(inComment := true);
    InsideRun(server, c, r[m..n], q', false);
    var head, letters := [Text(r[..m])], Letters(r[m..n]);
    p := head + letters;
    Regroup(head, letters, Tokenize(server, c, q'));
    Lone(Text(r[..m]));
    LettersText(r[m..n]);
    Prefix(r, m, n);
    TextOnlyJoin(head, r[..m], letters, r[m..n], r[..n]);
  }

  lemma {:induction false} TightAlike(server: nat, s: State, r: seq<byte>, jumped: bool)
    requires Opens(s, r) && !Roomy(r, Rewritten(server, s, r))
    ensures var o := Step(server, s, r);
      ReadsAlike(server, s, r, s, jumped)
      <==> ReadsAlike(server, o.next, r[o.token.Size()..], s.(inComment := true), false)
  {
    var t, s', rest := First(server, s, r);
    var p := TightTokens(server, s, r, jumped);
    Lone(t);
    AlikeJoin([t], p, Tokenize(server, s', rest),
              Tokenize(server, s.(inComment := true), Rewritten(server, s', rest)));
    FirstQuote(server, s, r);
  }

  /** The rewritten text leads to the same record exactly under that condition. */
  lemma {:induction false} RecordKept(server: nat, s: State, r: seq<byte>, jumped: bool)
    ensures ReadsAlike(server, s, r, s, jumped) <==> RecordFits(server, s, r)
    decreases |r|
  {
    if r == [] {
    } else {
      var o := Step(server, s, r);
      var rest := r[o.token.Size()..];
      StepStable(server, s, r);
      if Opens(s, r) && !Roomy(r, Rewritten(server, s, r)) {
        TightAlike(server, s, r, jumped);
        var n, s' := Opened(server, s, r);
        if s'.inComment {
          assert s' == s.(inComment := true);
          RecordKept(server, s', rest, false);
        } else {
          LittleLeft(server, s, r);
          EndDecides(server, s', rest);
        }
      } else {
        StableAlike(server, s, r, jumped);
        RecordKept(server, o.next, rest, IsQuote(r[0]));
      }
    }
  }
}
