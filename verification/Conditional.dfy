/**
  Conditional comments in the rewritten statement.  A version number is read only when enough
  bytes follow it, and the rewrite takes bytes away; nothing else about such a comment changes.
 */
module Conditional {
  import opened Bytes
  import opened Tokens
  import opened Scanner
  import opened Reparse

  const BLOCK_BANG: seq<byte> := [SLASH, STAR, BANG]
  const BLOCK_M: seq<byte> := [SLASH, STAR, UPPER_M, BANG]

  /** Where the digits of the version number of a conditional comment start; 0 if there are none. */
  function VersionAt(r: seq<byte>): nat {
    if BLOCK_BANG <= r && |r| > 3 && IsDigit(r[3]) then 3
    else if BLOCK_M <= r && |r| > 4 && IsDigit(r[4]) then 4
    else 0
  }

  /** The bound in front of the version number, on the text and on its rewritten form. */
  predicate Roomy(r: seq<byte>, q: seq<byte>) {
    VersionAt(r) > 0 && |r| > VersionAt(r) + 7 ==> |q| > VersionAt(r) + 7
  }

  function OpenVersion(server: nat, r: seq<byte>): (nat, bool)
    requires 0 < VersionAt(r)
  {
    var k := VersionAt(r);
    var v := StrToL(r[k..]);
    (k + DigitRun(r[k..]), v > server || (k == 3 && 50700 <= v <= 99999))
  }

  /** The cases of an opening comment. */
  lemma OpenCases(server: nat, r: seq<byte>)
    requires OPENING <= r
    ensures OpenComment(server, r) ==
      if VersionAt(r) > 0 && |r| > VersionAt(r) + 7 then OpenVersion(server, r)
      else if BLOCK_BANG <= r && |r| > 4 && IsSpace(r[3]) then (4, false)
      else if BLOCK_M <= r && |r| > 5 then (4, !IsSpace(r[4]))
      else (2, true)
  {
    if |r| > 2 {
      assert BLOCK_BANG <= r <==> r[2] == BANG;
    }
    if |r| > 3 {
      assert BLOCK_M <= r <==> r[2] == UPPER_M && r[3] == BANG;
    }
  }

  // --- the rewritten form --------------------------------------------------------------------------

  lemma {:induction false} NotLonger(server: nat, s: State, r: seq<byte>)
    ensures |Rewritten(server, s, r)| <= |r|
  {
    LengthAccount(Tokenize(server, s, r));
    TokenizeSource(server, s, r);
  }

  /** The scanner is where it looks for comments, and one opens. */
  ghost predicate Opens(s: State, r: seq<byte>) {
    !s.InLiteral() && !s.inComment && OPENING <= r
  }

  /** The bytes read for the opening are kept, and what follows them is the rest rewritten. */
  lemma {:induction false} Opened(server: nat, s: State, r: seq<byte>) returns (n: nat, s': State)
    requires Opens(s, r)
    ensures (n, s'.inComment) == OpenComment(server, r) && s' == s.(inComment := s'.inComment)
    ensures Step(server, s, r) == StepOut(Text(r[..n]), s')
    ensures n <= |r| && Rewritten(server, s, r) == r[..n] + Rewritten(server, s', r[n..])
    ensures OPENING <= Rewritten(server, s, r)
  {
    var t, s1, rest := First(server, s, r);
    n, s' := OpenComment(server, r).0, s1;
    assert r[..2] == OPENING;
    assert t.bytes[..2] == OPENING;
  }

  /** Inside a comment the next byte is not rewritten, and two bytes stay two bytes. */
  lemma {:induction false} InsideKept(server: nat, s: State, r: seq<byte>)
    requires s.inComment && r != []
    ensures var q := Rewritten(server, s, r);
      q != [] && q[0] == r[0] && (|r| >= 2 ==> |q| >= 2)
  {
    var t, s', rest := First(server, s, r);
    FirstByte(server, s', rest);
  }

  /** A version number with the same digits, followed by something that is not a digit. */
  lemma {:induction false} SameRun(r: seq<byte>, q: seq<byte>, k: nat, tail: seq<byte>)
    requires k == VersionAt(r) > 0 && q == r[..k + DigitRun(r[k..])] + tail && (tail != [] ==> !IsDigit(tail[0]))
    ensures VersionAt(q) == k && DigitRun(q[k..]) == DigitRun(r[k..]) && StrToL(q[k..]) == StrToL(r[k..])
  {
    var run := DigitRun(r[k..]);
    var n := k + run;
    assert r[k..][0] == r[k] && run > 0;
    assert forall i :: 0 <= i < n ==> q[i] == r[i];
    assert q[k..] == r[k..][..run] + tail;
    DigitRunIs(q[k..], run);
    assert q[k..][..run] == r[k..][..run];
  }

  /** What follows a version number in the rewritten text does not start with a digit. */
  lemma {:induction false} AfterVersion(server: nat, s: State, r: seq<byte>) returns (tail: seq<byte>)
    requires Opens(s, r) && VersionAt(r) > 0 && |r| > VersionAt(r) + 7
    ensures var k := VersionAt(r);
      Rewritten(server, s, r) == r[..k + DigitRun(r[k..])] + tail && (tail != [] ==> !IsDigit(tail[0]))
  {
    var n, s' := Opened(server, s, r);
    OpenCases(server, r);
    var k := VersionAt(r);
    tail := Rewritten(server, s', r[n..]);
    FirstByte(server, s', r[n..]);
    assert r[n..] != [] ==> r[n..][0] == r[k..][DigitRun(r[k..])];
  }

  /** The digit run of a version number ends where it did. */
  lemma {:induction false} SameVersion(server: nat, s: State, r: seq<byte>)
    requires Opens(s, r) && VersionAt(r) > 0 && |r| > VersionAt(r) + 7
    ensures VersionAt(Rewritten(server, s, r)) == VersionAt(r)
    ensures OpenVersion(server, Rewritten(server, s, r)) == OpenVersion(server, r)
  {
    var tail := AfterVersion(server, s, r);
    SameRun(r, Rewritten(server, s, r), VersionAt(r), tail);
  }

  /** Two bytes read: a plain comment, or a conditional one too close to the end. */
  lemma {:induction false} SameShort(server: nat, s: State, r: seq<byte>)
    requires Opens(s, r) && OpenComment(server, r) == (2, true)
    ensures OPENING <= Rewritten(server, s, r) && OpenComment(server, Rewritten(server, s, r)) == (2, true)
  {
    var q := Rewritten(server, s, r);
    var n, s' := Opened(server, s, r);
    NotLonger(server, s, r);
    OpenCases(server, r);
    OpenCases(server, q);
    StartsAlike(server, s, r, BLOCK_BANG);
    StartsAlike(server, s, r, BLOCK_M);
    if BLOCK_BANG <= q && |q| > 3 && (IsSpace(q[3]) || IsDigit(q[3])) {
      Next(server, s, r, BLOCK_BANG);
    }
  }

  /** The byte after a common word, if it is neither `%` nor `?`, was there before. */
  lemma {:induction false} Next(server: nat, s: State, r: seq<byte>, w: seq<byte>)
    requires PERCENT !in w && QMARK !in w && w <= Rewritten(server, s, r) && |Rewritten(server, s, r)| > |w|
    requires Rewritten(server, s, r)[|w|] != PERCENT && Rewritten(server, s, r)[|w|] != QMARK
    ensures w <= r && |r| > |w| && r[|w|] == Rewritten(server, s, r)[|w|]
    ensures |Rewritten(server, s, r)| > |w| + 1 <==> |r| > |w| + 1
  {
    StartsAlike(server, s, r, w + [Rewritten(server, s, r)[|w|]]);
  }

  /** An exclamation mark and a blank. */
  lemma {:induction false} SameBlank(server: nat, s: State, r: seq<byte>)
    requires Opens(s, r) && BLOCK_BANG <= r && |r| > 4 && IsSpace(r[3])
    ensures OPENING <= Rewritten(server, s, r) && OpenComment(server, Rewritten(server, s, r)) == (4, false)
  {
    var n, s' := Opened(server, s, r);
    OpenCases(server, Rewritten(server, s, r));
    StartsAlike(server, s, r, BLOCK_BANG + [r[3]]);
  }

  /** `M!` without a version number that is read. */
  lemma {:induction false} SameMariaDB(server: nat, s: State, r: seq<byte>)
    requires Opens(s, r) && BLOCK_M <= r && |r| > 5 && !(VersionAt(r) == 4 && |r| > 11)
    ensures OPENING <= Rewritten(server, s, r)
    ensures OpenComment(server, Rewritten(server, s, r)) == (4, !IsSpace(r[4]))
  {
    var q := Rewritten(server, s, r);
    var n, s' := Opened(server, s, r);
    OpenCases(server, r);
    NotLonger(server, s, r);
    StartsAlike(server, s, r, BLOCK_M);
    assert |q| > 5 && q[4] == r[4] by {
      if IsSpace(r[4]) {
        StartsAlike(server, s, r, BLOCK_M + [r[4]]);
      } else {
        InsideKept(server, s', r[4..]);
      }
    }
    OpenCases(server, q);
  }

  /** What the second scan reads for an opening comment. */
  lemma {:induction false} OpensAlike(server: nat, s: State, r: seq<byte>)
    requires Opens(s, r)
    ensures var q := Rewritten(server, s, r);
      && OPENING <= q
      && (Roomy(r, q) ==> OpenComment(server, q) == OpenComment(server, r))
      && (!Roomy(r, q) ==> OpenComment(server, q).0 < OpenComment(server, r).0 && OpenComment(server, q).1)
  {
    var q := Rewritten(server, s, r);
    var n, s' := Opened(server, s, r);
    OpenCases(server, r);
    OpenCases(server, q);
    if VersionAt(r) > 0 && |r| > VersionAt(r) + 7 {
      SameVersion(server, s, r);
    } else if n == 2 {
      SameShort(server, s, r);
    } else if BLOCK_BANG <= r {
      SameBlank(server, s, r);
    } else {
      SameMariaDB(server, s, r);
    }
  }

  /** An opening comment is read alike in the rewritten text exactly when a version number keeps its room. */
  lemma {:induction false} OpenStable(server: nat, s: State, r: seq<byte>)
    requires Opens(s, r)
    ensures Roomy(r, Rewritten(server, s, r)) ==> Stable(server, s, r)
    ensures !Roomy(r, Rewritten(server, s, r)) ==>
      && Rewritten(server, s, r) != []
      && Step(server, s, Rewritten(server, s, r)).token != Settled(Step(server, s, r).token)
  {
    var q := Rewritten(server, s, r);
    var n, s' := Opened(server, s, r);
    OpensAlike(server, s, r);
    assert q[..n] == r[..n];
    assert q[0] == SLASH && At(q, 1) == STAR;
    var m := OpenComment(server, q).0;
    assert |q[..m]| == m;
  }
}
