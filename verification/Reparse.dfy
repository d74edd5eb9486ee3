/**
  Scanning the rewritten statement again.  The cursor compares a new statement with the
  rewritten text of the previous one and skips the parse when they are equal
  (cursors.py), so what the rewritten text parses to matters.
 */
module Reparse {
  import opened Bytes
  import opened Tokens
  import opened Scanner
  import opened Seqs

  /** The rewritten text of what is still to be read. */
  function Rewritten(server: nat, s: State, r: seq<byte>): seq<byte> {
    Shown(Tokenize(server, s, r))
  }

  /** The first token, the state after it and the rest of the text. */
  lemma {:induction false} First(server: nat, s: State, r: seq<byte>)
    returns (t: Token, s': State, rest: seq<byte>)
    requires r != []
    ensures Step(server, s, r) == StepOut(t, s')
    ensures r == t.Source() + rest && |rest| < |r|
    ensures Rewritten(server, s, r) == t.Shown() + Rewritten(server, s', rest)
    ensures if t.Percent? || t.Named? then r[0] == PERCENT else t.Shown() == t.Source()
    ensures t.Shown() != [] && t.Size() == |t.Source()| && rest == r[t.Size()..]
    ensures Tokenize(server, s, r) == [t] + Tokenize(server, s', rest)
  {
    var o := Step(server, s, r);
    var n := o.token.Size();
    t, s', rest := o.token, o.next, r[n..];
    StepReads(server, s, r);
    SizeOfSource(t);
    Halves(r, n);
    Cons(t, Tokenize(server, s', rest));
  }

  /** Two texts with a common head `x` agree up to `k` when their tails agree from there on. */
  lemma {:induction false} CommonHead(x: seq<byte>, y: seq<byte>, z: seq<byte>, k: nat)
    requires k <= |x| || (k - |x| <= |y| && k - |x| <= |z| && y[..k - |x|] == z[..k - |x|])
    ensures k <= |x + y| && k <= |x + z| && (x + y)[..k] == (x + z)[..k]
  {
    if k <= |x| {
      assert (x + y)[..k] == x[..k] == (x + z)[..k];
    } else {
      assert (x + y)[..k] == x + y[..k - |x|] && (x + z)[..k] == x + z[..k - |x|];
    }
  }

  lemma {:induction false} NotInTail(x: seq<byte>, y: seq<byte>, k: nat, b: byte)
    requires |x| <= k <= |x + y| && b !in (x + y)[..k]
    ensures b !in y[..k - |x|]
  {
    assert (x + y)[..k] == x + y[..k - |x|];
  }

  /** A prefix with no `%` is not rewritten, and something follows it before iff after. */
  lemma {:induction false} PrefixKept(server: nat, s: State, r: seq<byte>, k: nat)
    requires k <= |r| && PERCENT !in r[..k]
    ensures var q := Rewritten(server, s, r);
      k <= |q| && q[..k] == r[..k] && (|q| > k <==> |r| > k)
    decreases |r|
  {
    if r != [] {
      var t, s', rest := First(server, s, r);
      if k > 0 {
        assert r[0] == r[..k][0];
        var x := t.Source();
        if k >= |x| {
          NotInTail(x, rest, k, PERCENT);
          PrefixKept(server, s', rest, k - |x|);
        }
        CommonHead(x, Rewritten(server, s', rest), rest, k);
      }
    }
  }

  /** A prefix of the rewritten text with no `?` was there before. */
  lemma {:induction false} PrefixWas(server: nat, s: State, r: seq<byte>, k: nat)
    requires k <= |Rewritten(server, s, r)| && QMARK !in Rewritten(server, s, r)[..k]
    ensures var q := Rewritten(server, s, r);
      k <= |r| && q[..k] == r[..k] && (|q| > k <==> |r| > k)
    decreases |r|
  {
    if r != [] {
      var t, s', rest := First(server, s, r);
      var q, q' := Rewritten(server, s, r), Rewritten(server, s', rest);
      if k > 0 {
        assert q[0] == q[..k][0];
        var x := t.Source();
        if k >= |x| {
          NotInTail(x, q', k, QMARK);
          PrefixWas(server, s', rest, k - |x|);
        }
        CommonHead(x, q', rest, k);
      }
    }
  }

  // --- the search for the end of a key -------------------------------------------------------

  /** Replacing what follows a text `x` keeps `strstr` empty-handed. */
  lemma {:induction false} NoCloseJoin(x: seq<byte>, y: seq<byte>, z: seq<byte>)
    requires FindClose(x + z) < 0
    requires NUL in x || FindClose(y) < 0
    requires y == [] || y[0] != LOWER_S || (z != [] && z[0] == LOWER_S)
    ensures FindClose(x + y) < 0
    decreases |x|
  {
    if x == [] {
      assert x + y == y;
    } else if x[0] != NUL {
      assert (x + y)[1..] == x[1..] + y && (x + z)[1..] == x[1..] + z;
      if |x + z| >= 2 {
        NoCloseJoin(x[1..], y, z);
      } else if |x + y| >= 2 {
        assert x[1..] + y == y;
      }
    }
  }

  lemma {:induction false} NoCloseSuffix(x: seq<byte>, z: seq<byte>)
    requires FindClose(x + z) < 0 && NUL !in x
    ensures FindClose(z) < 0
    decreases |x|
  {
    if x == [] {
      assert x + z == z;
    } else {
      assert (x + z)[1..] == x[1..] + z;
      if |x + z| >= 2 {
        NoCloseSuffix(x[1..], z);
      }
    }
  }

  /** The rewrite creates no `)s`. */
  lemma {:induction false} NoCloseKept(server: nat, s: State, r: seq<byte>)
    requires FindClose(r) < 0
    ensures FindClose(Rewritten(server, s, r)) < 0
    decreases |r|
  {
    if r != [] {
      var t, s', rest := First(server, s, r);
      var q' := Rewritten(server, s', rest);
      if t.Named? {
        NamedHasClose(server, s, r);
      } else {
        if NUL !in t.Source() {
          NoCloseSuffix(t.Source(), rest);
          NoCloseKept(server, s', rest);
        }
        FirstByte(server, s', rest);
        if t.Percent? {
          assert (t.Shown() + q')[1..] == q';
        } else {
          NoCloseJoin(t.Source(), q', rest);
        }
      }
    }
  }

  lemma {:induction false} FirstByte(server: nat, s: State, r: seq<byte>)
    ensures var q := Rewritten(server, s, r);
      (q == [] <==> r == []) && (q != [] ==> q[0] == r[0] || q[0] == QMARK)
  {
    if r != [] {
      var t, s', rest := First(server, s, r);
    }
  }

  lemma {:induction false} NamedHasClose(server: nat, s: State, r: seq<byte>)
    requires r != [] && Step(server, s, r).token.Named?
    ensures FindClose(r) >= 0
  {
  }

  // --- one step of the second scan ------------------------------------------------------------

  function Settled(t: Token): Token {
    if t.Mark() then Question else t
  }

  /** A keyword depends on its own bytes, the blank, and there being one byte more. */
  lemma KeywordLocal(r: seq<byte>, q: seq<byte>, word: seq<byte>)
    requires Keyword(r, word)
    requires |q| > |word| + 1 && q[..|word| + 1] == r[..|word| + 1]
    ensures Keyword(q, word)
  {
    var k := |word| + 1;
    forall i | 0 <= i < k ensures q[i] == r[i] {
      assert q[..k][i] == r[..k][i];
    }
  }

  lemma KeywordIsLetters(r: seq<byte>, word: seq<byte>)
    requires Keyword(r, word)
    requires forall i :: 0 <= i < |word| ==> 65 <= word[i] <= 90
    ensures PERCENT !in r[..|word| + 1] && QMARK !in r[..|word| + 1]
  {
    forall i | 0 <= i < |word| + 1 ensures r[i] != PERCENT && r[i] != QMARK {
    }
  }

  lemma {:induction false} KeywordStable(server: nat, s: State, r: seq<byte>, word: seq<byte>)
    requires forall i :: 0 <= i < |word| ==> 65 <= word[i] <= 90
    ensures Keyword(Rewritten(server, s, r), word) == Keyword(r, word)
  {
    var q := Rewritten(server, s, r);
    if Keyword(r, word) {
      KeywordIsLetters(r, word);
      PrefixKept(server, s, r, |word| + 1);
      KeywordLocal(r, q, word);
    } else if Keyword(q, word) {
      KeywordIsLetters(q, word);
      PrefixWas(server, s, r, |word| + 1);
      KeywordLocal(q, r, word);
    }
  }

  lemma {:induction false} CommandStable(server: nat, s: State, r: seq<byte>, i: nat)
    requires i <= |COMMANDS|
    ensures CommandFrom(Rewritten(server, s, r), i) == CommandFrom(r, i)
    decreases |COMMANDS| - i
  {
    if i < |COMMANDS| {
      KeywordStable(server, s, r, COMMANDS[i].1);
      CommandStable(server, s, r, i + 1);
    }
  }

  /** A byte of text is read again from a text that starts with it and offers no new placeholder. */
  lemma {:induction false} PlainAgain(s: State, r: seq<byte>, q: seq<byte>)
    requires r != [] && q != [] && q[0] == r[0] && PlainStep(s, r).token.Text?
    requires At(q, 1) == At(r, 1) || At(q, 1) == QMARK
    requires FindClose(r[1..]) < 0 ==> FindClose(q[1..]) < 0
    requires CommandFrom(q, 0) == CommandFrom(r, 0)
    ensures PlainStep(s, q) == StepOut(PlainStep(s, r).token, PlainStep(s, r).next)
  {
    assert q[..1] == r[..1];
  }

  lemma {:induction false} PlainStable(server: nat, s: State, r: seq<byte>)
    requires r != [] && Step(server, s, r) == PlainStep(s, r)
    ensures Rewritten(server, s, r) != []
    ensures PlainStep(s, Rewritten(server, s, r)) == StepOut(Settled(PlainStep(s, r).token), PlainStep(s, r).next)
  {
    var t, s', rest := First(server, s, r);
    var q, q' := Rewritten(server, s, r), Rewritten(server, s', rest);
    if t.Text? {
      assert q[1..] == q' && r[1..] == rest && q[0] == t.bytes[0] == r[0];
      FirstByte(server, s', rest);
      if FindClose(rest) < 0 {
        NoCloseKept(server, s', rest);
      }
      CommandStable(server, s, r, 0);
      assert q' != [] ==> At(q, 1) == q'[0] && At(r, 1) == rest[0];
      PlainAgain(s, r, q);
    }
  }

  /** A fixed word without `%` and `?` starts both texts or neither, and ends both or neither. */
  lemma {:induction false} StartsAlike(server: nat, s: State, r: seq<byte>, w: seq<byte>)
    requires PERCENT !in w && QMARK !in w
    ensures w <= Rewritten(server, s, r) <==> w <= r
    ensures w <= r ==> (|Rewritten(server, s, r)| > |w| <==> |r| > |w|)
  {
    if w <= r {
      PrefixKept(server, s, r, |w|);
    } else if w <= Rewritten(server, s, r) {
      PrefixWas(server, s, r, |w|);
    }
  }

  lemma LineSkipByPrefix(r: seq<byte>)
    requires r != []
    ensures LineSkip(r) ==
      if HASH_DASHES <= r && |r| > 4 then 4
      else if [HASH] <= r then 1
      else if DASHES <= r && |r| > 3 then 3
      else 0
  {
    assert [HASH] <= r <==> r[0] == HASH;
    if |r| > 4 {
      assert HASH_DASHES <= r <==> r[0] == HASH && r[1] == DASH && r[2] == DASH && r[3] == SPACE;
    }
    if |r| > 3 {
      assert DASHES <= r <==> r[0] == DASH && r[1] == DASH && r[2] == SPACE;
    }
  }

  lemma PairByPrefix(r: seq<byte>, a: byte, b: byte)
    requires b != NUL
    ensures (r != [] && r[0] == a && At(r, 1) == b) <==> [a, b] <= r
  {
    if |r| >= 2 {
      assert [a, b] <= r <==> r[0] == a && r[1] == b;
    }
  }

  /** What the second scan reads where the first scan read `o`. */
  ghost predicate Stable(server: nat, s: State, r: seq<byte>)
    requires r != []
  {
    var q := Rewritten(server, s, r);
    var o := Step(server, s, r);
    q != [] && Step(server, s, q) == StepOut(Settled(o.token), o.next)
  }

  lemma {:induction false} BlockStable(server: nat, s: State, r: seq<byte>)
    requires r != [] && !IsQuote(r[0]) && !s.InLiteral() && s.inComment
    ensures Stable(server, s, r)
  {
    var t, s', rest := First(server, s, r);
    var q := Rewritten(server, s, r);
    assert q[..|t.bytes|] == t.bytes;
    assert q[0] == q[..|t.bytes|][0];
    StartsAlike(server, s, r, [STAR, SLASH]);
    PairByPrefix(r, STAR, SLASH);
    PairByPrefix(q, STAR, SLASH);
  }

  lemma {:induction false} LineSkipStable(server: nat, s: State, r: seq<byte>)
    requires r != []
    ensures Rewritten(server, s, r) != []
    ensures LineSkip(Rewritten(server, s, r)) == LineSkip(r)
  {
    FirstByte(server, s, r);
    StartsAlike(server, s, r, HASH_DASHES);
    StartsAlike(server, s, r, [HASH]);
    StartsAlike(server, s, r, DASHES);
    LineSkipByPrefix(r);
    LineSkipByPrefix(Rewritten(server, s, r));
  }

  /** Where a line comment starts or goes on, only the bytes read count. */
  lemma {:induction false} LineAgain(server: nat, s: State, r: seq<byte>, q: seq<byte>, n: nat)
    requires r != [] && q != [] && !IsQuote(r[0]) && !s.InLiteral() && !s.inComment
    requires !([SLASH, STAR] <= r) && !([SLASH, STAR] <= q)
    requires s.eol || LineSkip(r) > 0
    requires LineSkip(q) == LineSkip(r) && (LineSkip(r) < |r| <==> LineSkip(q) < |q|)
    requires n == if LineSkip(r) < |r| then LineSkip(r) + 1 else LineSkip(r)
    requires 0 < n <= |r| && n <= |q| && q[..n] == r[..n]
    ensures Step(server, s, q) == Step(server, s, r)
  {
    PairByPrefix(r, SLASH, STAR);
    PairByPrefix(q, SLASH, STAR);
    assert q[0] == q[..n][0] == r[0];
    assert q[n - 1] == q[..n][n - 1] == r[n - 1];
  }

  /** The start or the inside of a line comment. */
  lemma {:induction false} LineStable(server: nat, s: State, r: seq<byte>)
    requires r != [] && !IsQuote(r[0]) && !s.InLiteral() && !s.inComment
    requires !([SLASH, STAR] <= r) && !([SLASH, STAR] <= Rewritten(server, s, r))
    requires s.eol || LineSkip(r) > 0
    ensures Stable(server, s, r)
  {
    var q := Rewritten(server, s, r);
    LineSkipStable(server, s, r);
    if LineSkip(r) == |r| {
      HashLast(server, s, r);
    } else {
      var t, s', rest := First(server, s, r);
      PairByPrefix(r, SLASH, STAR);
      assert t == Text(r[..LineSkip(r) + 1]);
      assert q[..LineSkip(r) + 1] == t.bytes;
      LineAgain(server, s, r, q, LineSkip(r) + 1);
    }
  }

  lemma {:induction false} OutsideStable(server: nat, s: State, r: seq<byte>)
    requires r != [] && !IsQuote(r[0]) && !s.InLiteral() && !s.inComment
    requires !(r[0] == SLASH && At(r, 1) == STAR)
    ensures Stable(server, s, r)
  {
    var q := Rewritten(server, s, r);
    StartsAlike(server, s, r, [SLASH, STAR]);
    PairByPrefix(r, SLASH, STAR);
    if s.eol || LineSkip(r) > 0 {
      LineStable(server, s, r);
    } else {
      LineSkipStable(server, s, r);
      PairByPrefix(q, SLASH, STAR);
      FirstByte(server, s, r);
      PlainStable(server, s, r);
    }
  }

  /** A `#` as the last byte. */
  lemma {:induction false} HashLast(server: nat, s: State, r: seq<byte>)
    requires r != [] && LineSkip(r) == |r|
    ensures r == [HASH] == Rewritten(server, s, r)
  {
    LineSkipByPrefix(r);
    PrefixKept(server, s, r, 1);
  }
}
