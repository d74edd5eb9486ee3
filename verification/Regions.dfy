/**
  What the scanner makes of literals and comments as a whole.  Every quote byte it examines
  flips its own flag, also inside another kind of literal and inside a comment, so a region
  is left where it ends exactly when its quotes are balanced.
 */
module Regions {
  import opened Bytes
  import opened Tokens
  import opened Scanner
  import opened Seqs

  /** One single-byte token of text per byte. */
  function Letters(b: seq<byte>): (ts: seq<Token>)
    ensures |ts| == |b|
  {
    if b == [] then [] else [Text(b[..1])] + Letters(b[1..])
  }

  /** The state after the quotes of `b` have flipped their flags. */
  function Flip(s: State, b: seq<byte>): State
    decreases |b|
  {
    if b == [] then s else Flip(s.Toggle(b[0]), b[1..])
  }

  function Count(b: seq<byte>, quote: byte): nat {
    if b == [] then 0 else (if b[0] == quote then 1 else 0) + Count(b[1..], quote)
  }

  predicate Odd(b: seq<byte>, quote: byte) {
    Count(b, quote) % 2 == 1
  }

  predicate Balanced(b: seq<byte>) {
    !Odd(b, SQUOTE) && !Odd(b, DQUOTE) && !Odd(b, BACKTICK)
  }

  /** Outside every literal and comment. */
  predicate Outside(s: State) {
    !s.InLiteral() && !s.inComment && !s.eol
  }

  /** Flipping is counting: each flag ends up changed iff its quote occurs an odd number of times. */
  lemma {:induction false} FlipParity(s: State, b: seq<byte>)
    ensures Flip(s, b) == s.(single := s.single != Odd(b, SQUOTE),
                             double := s.double != Odd(b, DQUOTE),
                             back := s.back != Odd(b, BACKTICK))
    decreases |b|
  {
    if b != [] {
      var more := b[1..];
      FlipParity(s.Toggle(b[0]), more);
      OddStep(b, SQUOTE);
      OddStep(b, DQUOTE);
      OddStep(b, BACKTICK);
    }
  }

  lemma {:induction false} OddStep(b: seq<byte>, quote: byte)
    requires b != []
    ensures Odd(b, quote) == ((b[0] == quote) != Odd(b[1..], quote))
  {
  }

  /** The bytes of `body` are read one by one, as text, in front of `tail`. */
  ghost predicate ByLetter(server: nat, s: State, body: seq<byte>, tail: seq<byte>)
    decreases |body|
  {
    body == [] ||
    (Step(server, s, body + tail) == StepOut(Text(body[..1]), s.Toggle(body[0])) &&
     ByLetter(server, s.Toggle(body[0]), body[1..], tail))
  }

  lemma {:induction false} ReadByLetter(server: nat, s: State, body: seq<byte>, tail: seq<byte>)
    requires ByLetter(server, s, body, tail)
    ensures Tokenize(server, s, body + tail) == Letters(body) + Tokenize(server, Flip(s, body), tail)
    decreases |body|
  {
    if body == [] {
      assert body + tail == tail;
    } else {
      var s', more := s.Toggle(body[0]), body[1..];
      ReadByLetter(server, s', more, tail);
      OneLetter(server, s, s', body, tail);
      Regroup([Text(body[..1])], Letters(more), Tokenize(server, Flip(s', more), tail));
    }
  }

  lemma {:induction false} OneLetter(server: nat, s: State, s': State, body: seq<byte>, tail: seq<byte>)
    requires body != [] && Step(server, s, body + tail) == StepOut(Text(body[..1]), s')
    ensures Tokenize(server, s, body + tail) == [Text(body[..1])] + Tokenize(server, s', body[1..] + tail)
  {
    assert (body + tail)[1..] == body[1..] + tail;
  }

  /** Inside a block comment a byte that does not end it is text. */
  lemma {:induction false} BlockStep(server: nat, s: State, r: seq<byte>)
    requires r != [] && s.inComment && !(r[0] == STAR && At(r, 1) == SLASH)
    ensures Step(server, s, r) == StepOut(Text(r[..1]), s.Toggle(r[0]))
  {
  }

  lemma {:induction false} LiteralStep(server: nat, s: State, r: seq<byte>)
    requires r != [] && (IsQuote(r[0]) || s.InLiteral())
    ensures Step(server, s, r) == StepOut(Text(r[..1]), s.Toggle(r[0]))
  {
  }

  predicate NoBlockEnd(body: seq<byte>, tail: seq<byte>) {
    forall i :: 0 <= i < |body| ==> body[i] == STAR ==> At(body + tail, i + 1) != SLASH
  }

  lemma {:induction false} BlockBody(server: nat, s: State, body: seq<byte>, tail: seq<byte>)
    requires s.inComment && NoBlockEnd(body, tail)
    ensures ByLetter(server, s, body, tail)
    decreases |body|
  {
    if body != [] {
      var more := body[1..];
      var r := body + tail;
      assert r[0] == body[0] && r[..1] == body[..1];
      BlockStep(server, s, r);
      forall i | 0 <= i < |more| ensures more[i] == STAR ==> At(more + tail, i + 1) != SLASH {
        assert body[i + 1] == more[i] && At(body + tail, i + 2) == At(more + tail, i + 1);
      }
      BlockBody(server, s.Toggle(body[0]), more, tail);
    }
  }

  predicate Open(s: State, quote: byte) {
    (quote == SQUOTE && s.single) || (quote == DQUOTE && s.double) || (quote == BACKTICK && s.back)
  }

  /** Inside a literal every byte is text, as long as its own quote does not occur. */
  lemma {:induction false} LiteralBody(server: nat, s: State, quote: byte, body: seq<byte>, tail: seq<byte>)
    requires Open(s, quote) && quote !in body
    ensures ByLetter(server, s, body, tail)
    decreases |body|
  {
    if body != [] {
      assert (body + tail)[0] == body[0] && (body + tail)[..1] == body[..1];
      LiteralStep(server, s, body + tail);
      LiteralBody(server, s.Toggle(body[0]), quote, body[1..], tail);
    }
  }

  /** The opening quote, the body and the closing quote, read one by one. */
  lemma {:induction false} LiteralByLetter(server: nat, s: State, quote: byte, body: seq<byte>, tail: seq<byte>)
    requires IsQuote(quote) && quote !in body && !Open(s, quote)
    ensures ByLetter(server, s, [quote] + body + [quote], tail)
  {
    var whole := [quote] + body + [quote];
    var open := s.Toggle(quote);
    assert (whole + tail)[0] == quote && (whole + tail)[..1] == whole[..1];
    LiteralStep(server, s, whole + tail);
    LiteralBody(server, open, quote, body, [quote] + tail);
    assert ([quote] + tail)[..1] == [quote] && [quote][1..] == [];
    LiteralStep(server, Flip(open, body), [quote] + tail);
    assert ByLetter(server, Flip(open, body), [quote], tail);
    ByLetterJoin(server, open, body, [quote], tail);
    assert whole[1..] == body + [quote];
  }

  lemma {:induction false} ByLetterJoin(server: nat, s: State, a: seq<byte>, b: seq<byte>, tail: seq<byte>)
    requires ByLetter(server, s, a, b + tail) && ByLetter(server, Flip(s, a), b, tail)
    ensures ByLetter(server, s, a + b, tail)
    decreases |a|
  {
    if a == [] {
      assert a + b == b;
    } else {
      var ab := a + b;
      ByLetterJoin(server, s.Toggle(a[0]), a[1..], b, tail);
      assert ab[1..] == a[1..] + b;
      assert ab + tail == a + (b + tail);
      assert ab[..1] == a[..1] && ab[0] == a[0];
    }
  }

  /**
    A quoted literal without its own quote inside contributes no placeholder, whatever it
    holds; and the scanner is back outside after it exactly when the other two kinds of
    quote are balanced in it.
   */
  lemma {:induction false} QuotedLiteral(server: nat, s: State, quote: byte, body: seq<byte>, tail: seq<byte>)
    requires Outside(s) && IsQuote(quote) && quote !in body
    ensures Tokenize(server, s, [quote] + body + [quote] + tail)
         == Letters([quote] + body + [quote]) + Tokenize(server, Flip(s, body), tail)
    ensures Outside(Flip(s, body)) <==> Balanced(body)
    ensures Balanced(body) ==> Flip(s, body) == s
  {
    var whole := [quote] + body + [quote];
    LiteralByLetter(server, s, quote, body, tail);
    ReadByLetter(server, s, whole, tail);
    FlipQuoted(s, quote, body);
    FlipParity(s, body);
  }

  lemma {:induction false} FlipQuoted(s: State, quote: byte, body: seq<byte>)
    ensures Flip(s, [quote] + body + [quote]) == Flip(s, body)
  {
    FlipParity(s, [quote] + body + [quote]);
    FlipParity(s, body);
    CountQuoted(quote, body, SQUOTE);
    CountQuoted(quote, body, DQUOTE);
    CountQuoted(quote, body, BACKTICK);
  }

  lemma {:induction false} CountQuoted(quote: byte, body: seq<byte>, q: byte)
    ensures Count([quote] + body + [quote], q) == Count(body, q) + if q == quote then 2 else 0
  {
    assert ([quote] + body + [quote])[1..] == body + [quote];
    CountLast(body, quote, q);
  }

  lemma {:induction false} CountLast(body: seq<byte>, b: byte, q: byte)
    ensures Count(body + [b], q) == Count(body, q) + if q == b then 1 else 0
    decreases |body|
  {
    if body == [] {
      assert body + [b] == [b] && [b][1..] == [];
    } else {
      CountLast(body[1..], b, q);
      assert (body + [b])[1..] == body[1..] + [b];
    }
  }

  /** The body of a block comment that ends with the next star-slash and is not conditional. */
  predicate BlockText(body: seq<byte>) {
    && (forall i :: 0 <= i < |body| - 1 ==> !(body[i] == STAR && body[i + 1] == SLASH))
    && !(|body| > 0 && body[0] == BANG) && !(|body| > 1 && body[0] == UPPER_M && body[1] == BANG)
  }

  /**
    A block comment contributes no placeholder.  It ends at its star-slash exactly when its
    quotes are balanced; otherwise the scanner reads on, inside a literal and inside the
    comment.
   */
  lemma {:induction false} BlockComment(server: nat, s: State, body: seq<byte>, tail: seq<byte>)
    requires Outside(s) && BlockText(body)
    ensures Balanced(body) ==>
      Tokenize(server, s, OPENING + body + CLOSING + tail)
      == [Text(OPENING)] + (Letters(body) + ([Text(CLOSING)] + Tokenize(server, s, tail)))
    ensures !Balanced(body) ==>
      && Flip(s.(inComment := true), body).InLiteral()
      && Tokenize(server, s, OPENING + body + CLOSING + tail)
         == [Text(OPENING)] + (Letters(body + CLOSING) + Tokenize(server, Flip(s.(inComment := true), body), tail))
  {
    var inner := s.(inComment := true);
    assert OPENING + body + CLOSING + tail == OPENING + body + (CLOSING + tail);
    OpensBlock(server, s, body, CLOSING + tail);
    FlipParity(inner, body);
    if Balanced(body) {
      BalancedBlock(server, inner, body, tail);
    } else {
      UnbalancedBlock(server, inner, body, tail);
    }
  }

  lemma {:induction false} BalancedBlock(server: nat, s: State, body: seq<byte>, tail: seq<byte>)
    requires s.inComment && !s.InLiteral() && BlockText(body) && Balanced(body)
    ensures Tokenize(server, s, body + (CLOSING + tail))
         == Letters(body) + ([Text(CLOSING)] + Tokenize(server, s.(inComment := false), tail))
  {
    NoEndBefore(body, CLOSING + tail);
    BlockBody(server, s, body, CLOSING + tail);
    ReadByLetter(server, s, body, CLOSING + tail);
    FlipParity(s, body);
    ClosesBlock(server, s, tail);
  }

  lemma {:induction false} UnbalancedBlock(server: nat, s: State, body: seq<byte>, tail: seq<byte>)
    requires s.inComment && BlockText(body) && Flip(s, body).InLiteral()
    ensures Tokenize(server, s, body + (CLOSING + tail))
         == Letters(body + CLOSING) + Tokenize(server, Flip(s, body), tail)
  {
    UnbalancedByLetter(server, s, body, tail);
    ReadByLetter(server, s, body + CLOSING, tail);
    FlipClosing(s, body);
    assert body + CLOSING + tail == body + (CLOSING + tail);
  }

  lemma {:induction false} UnbalancedByLetter(server: nat, s: State, body: seq<byte>, tail: seq<byte>)
    requires s.inComment && BlockText(body) && Flip(s, body).InLiteral()
    ensures ByLetter(server, s, body + CLOSING, tail)
  {
    NoEndBefore(body, CLOSING + tail);
    BlockBody(server, s, body, CLOSING + tail);
    StuckClosing(server, Flip(s, body), tail);
    ByLetterJoin(server, s, body, CLOSING, tail);
  }

  lemma {:induction false} FlipClosing(s: State, body: seq<byte>)
    ensures Flip(s, body + CLOSING) == Flip(s, body)
  {
    FlipParity(s, body + CLOSING);
    FlipParity(s, body);
    CountClosing(body, SQUOTE);
    CountClosing(body, DQUOTE);
    CountClosing(body, BACKTICK);
  }

  lemma {:induction false} NoEndBefore(body: seq<byte>, ending: seq<byte>)
    requires BlockText(body) && ending != [] && ending[0] == STAR
    ensures NoBlockEnd(body, ending)
  {
    forall i | 0 <= i < |body| ensures body[i] == STAR ==> At(body + ending, i + 1) != SLASH {
      if i + 1 < |body| {
        assert (body + ending)[i + 1] == body[i + 1];
      } else {
        assert (body + ending)[i + 1] == STAR;
      }
    }
  }

  lemma {:induction false} CountClosing(body: seq<byte>, q: byte)
    requires IsQuote(q)
    ensures Count(body + CLOSING, q) == Count(body, q)
  {
    CountLast(body, STAR, q);
    CountLast(body + [STAR], SLASH, q);
    assert body + CLOSING == body + [STAR] + [SLASH];
  }

  lemma {:induction false} OpensBlock(server: nat, s: State, body: seq<byte>, ending: seq<byte>)
    requires Outside(s) && BlockText(body) && ending != [] && ending[0] == STAR
    ensures Tokenize(server, s, OPENING + body + ending)
         == [Text(OPENING)] + Tokenize(server, s.(inComment := true), body + ending)
  {
    var r := OPENING + body + ending;
    assert r[..2] == OPENING && r[2..] == body + ending;
    assert |r| > 2 ==> r[2] == (body + ending)[0];
    assert |r| > 3 ==> r[3] == (body + ending)[1];
    assert OpenComment(server, r) == (2, true);
    assert Step(server, s, r) == StepOut(Text(OPENING), s.(inComment := true));
  }

  lemma {:induction false} ClosesBlock(server: nat, s: State, tail: seq<byte>)
    requires !s.InLiteral() && s.inComment
    ensures Tokenize(server, s, CLOSING + tail) == [Text(CLOSING)] + Tokenize(server, s.(inComment := false), tail)
  {
    assert (CLOSING + tail)[..2] == CLOSING && (CLOSING + tail)[2..] == tail;
    assert Step(server, s, CLOSING + tail) == StepOut(Text(CLOSING), s.(inComment := false));
  }

  lemma {:induction false} StuckClosing(server: nat, s: State, tail: seq<byte>)
    requires s.InLiteral()
    ensures ByLetter(server, s, CLOSING, tail)
  {
    assert (CLOSING + tail)[..1] == CLOSING[..1] && CLOSING[1..] == [SLASH];
    LiteralStep(server, s, CLOSING + tail);
    assert ([SLASH] + tail)[..1] == [SLASH][..1] && [SLASH][1..] == [];
    LiteralStep(server, s, [SLASH] + tail);
    assert ByLetter(server, s, [SLASH], tail);
  }

  // --- line comments -------------------------------------------------------------------------------------

  /** Text on a line that opens nothing: no further `#`, slash-star or `-- `. */
  predicate LineText(body: seq<byte>) {
    && (forall i :: 0 <= i < |body| ==> body[i] != NEWLINE && body[i] != NUL && body[i] != HASH)
    && (forall i :: 0 <= i < |body| - 1 ==> !(body[i] == SLASH && body[i + 1] == STAR))
    && (forall i :: 0 <= i < |body| - 2 ==> !(body[i] == DASH && body[i + 1] == DASH && body[i + 2] == SPACE))
  }

  /** How a line comment starts; the byte after that is not looked at for quotes. */
  predicate Introduces(intro: seq<byte>, first: byte, body: seq<byte>) {
    || (intro == [HASH] && !(first == DASH && |body| >= 2 && body[0] == DASH && body[1] == SPACE))
    || intro == DASHES
    || intro == HASH_DASHES
  }

  lemma {:induction false} LineStep(server: nat, s: State, body: seq<byte>, tail: seq<byte>)
    requires s.eol && !s.inComment && body != [] && LineText(body) && (tail == [] || tail[0] == NEWLINE)
    ensures Step(server, s, body + tail) == StepOut(Text(body[..1]), s.Toggle(body[0]))
  {
    var r := body + tail;
    assert r[0] == body[0] && r[..1] == body[..1];
    if |body| == 1 {
      assert At(r, 1) == NUL || At(r, 1) == NEWLINE;
    } else {
      assert r[1] == body[1];
      assert |body| == 2 ==> At(r, 2) == NUL || At(r, 2) == NEWLINE;
      assert |body| > 2 ==> r[2] == body[2];
    }
  }

  lemma {:induction false} LineBody(server: nat, s: State, body: seq<byte>, tail: seq<byte>)
    requires s.eol && !s.inComment && LineText(body) && (tail == [] || tail[0] == NEWLINE)
    ensures ByLetter(server, s, body, tail)
    decreases |body|
  {
    if body != [] {
      LineStep(server, s, body, tail);
      LineRest(body);
      LineBody(server, s.Toggle(body[0]), body[1..], tail);
    }
  }

  lemma {:induction false} LineRest(body: seq<byte>)
    requires body != [] && LineText(body)
    ensures LineText(body[1..])
  {
    var more := body[1..];
    assert forall i :: 0 <= i < |more| ==> more[i] == body[i + 1];
  }

  /** The introduction and one more byte, whatever it is, are read at once. */
  lemma {:induction false} IntroStep(server: nat, s: State, intro: seq<byte>, first: byte,
                                     body: seq<byte>, rest: seq<byte>)
    requires Outside(s) && Introduces(intro, first, body) && (rest == [] || rest[0] == NEWLINE)
    ensures var r := (intro + [first]) + (body + rest);
      && Step(server, s, r) == StepOut(Text(intro + [first]), s.(eol := first != NUL && first != NEWLINE))
      && Tokenize(server, s, r)
         == [Text(intro + [first])]
            + Tokenize(server, s.(eol := first != NUL && first != NEWLINE), body + rest)
  {
    var r := (intro + [first]) + (body + rest);
    var n := |intro|;
    assert forall i :: 0 <= i < n ==> r[i] == intro[i];
    assert r[n] == first && r[..n + 1] == intro + [first] && r[n + 1..] == body + rest;
    IntroSkip(intro, first, body, rest);
  }

  lemma {:induction false} IntroSkip(intro: seq<byte>, first: byte, body: seq<byte>, rest: seq<byte>)
    requires Introduces(intro, first, body) && (rest == [] || rest[0] == NEWLINE)
    ensures LineSkip((intro + [first]) + (body + rest)) == |intro|
  {
    var r := (intro + [first]) + (body + rest);
    assert forall i :: 0 <= i < |intro| ==> r[i] == intro[i];
    if intro == [HASH] {
      assert r[1] == first;
      assert |body| >= 1 ==> r[2] == body[0];
      assert |body| >= 2 ==> r[3] == body[1];
      assert |body| == 0 ==> At(r, 2) == NUL || At(r, 2) == NEWLINE;
      assert |body| == 1 ==> At(r, 3) == NUL || At(r, 3) == NEWLINE;
    }
  }

  /**
    A line comment contributes no placeholder.  Its first byte is skipped even if it is a
    quote.  It ends at its newline exactly when the quotes after that are balanced; otherwise
    the newline is text inside a literal and ends nothing.
   */
  lemma {:induction false} LineComment(server: nat, s: State, intro: seq<byte>, first: byte,
                                       body: seq<byte>, tail: seq<byte>)
    requires Outside(s) && Introduces(intro, first, body) && first != NUL && first != NEWLINE && LineText(body)
    ensures var after := if Balanced(body) then s else Flip(s.(eol := true), body);
      && (after.InLiteral() <==> !Balanced(body))
      && Tokenize(server, s, (intro + [first]) + (body + ([NEWLINE] + tail)))
         == [Text(intro + [first])] + (Letters(body) + ([Text([NEWLINE])] + Tokenize(server, after, tail)))
  {
    var inner := s.(eol := true);
    var rest := [NEWLINE] + tail;
    IntroStep(server, s, intro, first, body, rest);
    LineBody(server, inner, body, rest);
    ReadByLetter(server, inner, body, rest);
    FlipParity(inner, body);
    AtNewline(server, Flip(inner, body), tail);
  }

  /** The newline after a line comment, and inside a literal. */
  lemma {:induction false} AtNewline(server: nat, s: State, tail: seq<byte>)
    requires s.eol && !s.inComment
    ensures Tokenize(server, s, [NEWLINE] + tail)
         == [Text([NEWLINE])] + Tokenize(server, if s.InLiteral() then s else s.(eol := false), tail)
  {
    var r := [NEWLINE] + tail;
    assert r[0] == NEWLINE && r[..1] == [NEWLINE] && r[1..] == tail;
  }

  /** A line comment at the end of the statement is text, whatever its quotes. */
  lemma {:induction false} LineCommentAtEnd(server: nat, s: State, intro: seq<byte>, first: byte, body: seq<byte>)
    requires Outside(s) && Introduces(intro, first, body) && first != NUL && first != NEWLINE && LineText(body)
    ensures Tokenize(server, s, (intro + [first]) + (body + [])) == [Text(intro + [first])] + Letters(body)
  {
    var inner := s.(eol := true);
    IntroStep(server, s, intro, first, body, []);
    LineBody(server, inner, body, []);
    ReadByLetter(server, inner, body, []);
    assert Letters(body) + [] == Letters(body);
  }

  /** A newline right behind the introduction ends the comment at once. */
  lemma {:induction false} EmptyLineComment(server: nat, s: State, intro: seq<byte>, tail: seq<byte>)
    requires Outside(s) && (intro == [HASH] || intro == DASHES || intro == HASH_DASHES)
    ensures Tokenize(server, s, (intro + [NEWLINE]) + tail) == [Text(intro + [NEWLINE])] + Tokenize(server, s, tail)
  {
    var r := (intro + [NEWLINE]) + tail;
    var n := |intro|;
    assert forall i :: 0 <= i < n ==> r[i] == intro[i];
    assert r[n] == NEWLINE && r[..n + 1] == intro + [NEWLINE] && r[n + 1..] == tail;
    assert Step(server, s, r) == StepOut(Text(intro + [NEWLINE]), s);
  }

  /** A placeholder is recognised right here exactly when the scanner is outside every region. */
  lemma {:induction false} QuestionSeen(server: nat, s: State, tail: seq<byte>)
    ensures Tokenize(server, s, [QMARK] + tail)[0] == Question <==> Outside(s)
  {
    var r := [QMARK] + tail;
    assert r[0] == QMARK && LineSkip(r) == 0;
  }
}
