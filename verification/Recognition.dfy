/**
  What the scanner recognises, said on the text itself: placeholders, conditional comments,
  the escaped percent sign and the first word of a statement.
 */
module Recognition {
  import opened Bytes
  import opened Tokens
  import opened Scanner
  import opened Regions

  // --- placeholders --------------------------------------------------------------------------------------

  /** A key that starts at offset 2 ends at offset `e`: the first `)s`, with no NUL before it. */
  ghost predicate KeyEnds(r: seq<byte>, e: nat) {
    && 2 <= e && e + 1 < |r| && r[e] == RPAREN && r[e + 1] == LOWER_S
    && (forall j :: 2 <= j < e ==> r[j] != NUL && !(r[j] == RPAREN && r[j + 1] == LOWER_S))
  }

  lemma {:induction false} CloseFound(s: seq<byte>, k: nat)
    requires k + 1 < |s| && s[k] == RPAREN && s[k + 1] == LOWER_S
    requires forall j :: 0 <= j < k ==> s[j] != NUL && !(s[j] == RPAREN && s[j + 1] == LOWER_S)
    ensures FindClose(s) == k
  {
    if k > 0 {
      CloseFound(s[1..], k - 1);
    }
  }

  /** `strstr` finds no occurrence in front of the first. */
  lemma {:induction false} CloseIsFirst(s: seq<byte>)
    requires FindClose(s) >= 0
    ensures forall j :: 0 <= j < FindClose(s) ==> s[j] != NUL && !(s[j] == RPAREN && s[j + 1] == LOWER_S)
  {
    if FindClose(s) > 0 {
      CloseIsFirst(s[1..]);
      assert forall j :: 0 < j < FindClose(s) ==> s[j] == s[1..][j - 1] && s[j + 1] == s[1..][j];
    }
  }

  /** The search from the parenthesis on succeeds exactly when the key ends, and there. */
  lemma {:induction false} KeySearch(r: seq<byte>)
    requires |r| >= 2 && r[1] == LPAREN
    ensures FindClose(r[1..]) >= 0 <==> exists e: nat :: KeyEnds(r, e)
    ensures forall e: nat :: KeyEnds(r, e) ==> e == 1 + FindClose(r[1..])
  {
    var t := r[1..];
    assert forall j :: 0 <= j < |t| ==> t[j] == r[j + 1];
    forall e: nat | KeyEnds(r, e) ensures FindClose(t) == e - 1 {
      CloseFound(t, e - 1);
    }
    if FindClose(t) >= 0 {
      CloseIsFirst(t);
      assert KeyEnds(r, 1 + FindClose(t));
    }
  }

  /** `%s` and `%d` are placeholders exactly outside literals and comments and not behind a backslash. */
  lemma {:induction false} PercentSeen(server: nat, s: State, r: seq<byte>)
    requires |r| >= 2 && r[0] == PERCENT && (r[1] == LOWER_S || r[1] == LOWER_D)
    ensures Tokenize(server, s, r)[0] == Percent(r[1]) <==> Outside(s) && s.last != BACKSLASH
  {
  }

  /** `%(key)s` likewise, the key being everything up to the first `)s`. */
  lemma {:induction false} NamedSeen(server: nat, s: State, r: seq<byte>, e: nat)
    requires |r| >= 2 && r[0] == PERCENT && r[1] == LPAREN && KeyEnds(r, e)
    ensures Tokenize(server, s, r)[0] == Named(r[2..e]) <==> Outside(s) && s.last != BACKSLASH
  {
    KeySearch(r);
  }

  /** A placeholder of some style starts here. */
  ghost predicate MarkAt(last: byte, r: seq<byte>) {
    && r != []
    && (|| r[0] == QMARK
        || (r[0] == PERCENT && last != BACKSLASH && |r| >= 2
            && (r[1] == LOWER_S || r[1] == LOWER_D || (r[1] == LPAREN && exists e: nat :: KeyEnds(r, e)))))
  }

  /** Nothing else is a placeholder. */
  lemma {:induction false} MarkSeen(server: nat, s: State, r: seq<byte>)
    requires r != []
    ensures Tokenize(server, s, r)[0].Mark() <==> Outside(s) && MarkAt(s.last, r)
  {
    if |r| >= 2 && r[1] == LPAREN {
      KeySearch(r);
    }
  }

  // --- plain bytes -----------------------------------------------------------------------------------------

  /** A literal or a comment starts here. */
  predicate RegionAt(r: seq<byte>) {
    && r != []
    && (|| IsQuote(r[0])
        || r[0] == HASH
        || (|r| >= 2 && r[0] == SLASH && r[1] == STAR)
        || (|r| >= 4 && r[0] == DASH && r[1] == DASH && r[2] == SPACE))
  }

  /** Any other byte is text; it is remembered, and the first one decides the command. */
  lemma {:induction false} PlainSeen(server: nat, s: State, r: seq<byte>)
    requires Outside(s) && r != [] && !RegionAt(r) && !MarkAt(s.last, r)
    ensures Tokenize(server, s, r)
         == [Text([r[0]])]
            + Tokenize(server, s.(last := r[0], command := if s.command == CmdNone then CommandFrom(r, 0)
                                                           else s.command), r[1..])
    ensures Outside(Step(server, s, r).next)
  {
    if |r| >= 2 && r[1] == LPAREN {
      KeySearch(r);
    }
    assert r[..1] == [r[0]];
  }

  /** A placeholder is not remembered: the byte before it still counts. */
  lemma {:induction false} MarkForgotten(server: nat, s: State, r: seq<byte>)
    requires Outside(s) && MarkAt(s.last, r)
    ensures Step(server, s, r).next == s
  {
    if |r| >= 2 && r[1] == LPAREN {
      KeySearch(r);
    }
  }

  /** A percent sign behind a backslash is text, whatever follows. */
  lemma {:induction false} EscapedPercent(server: nat, s: State, tail: seq<byte>)
    requires Outside(s) && s.command != CmdNone
    ensures Tokenize(server, s, [BACKSLASH, PERCENT] + tail)
         == [Text([BACKSLASH])] + ([Text([PERCENT])] + Tokenize(server, s.(last := PERCENT), tail))
  {
    var r := [BACKSLASH, PERCENT] + tail;
    assert r[1..] == [PERCENT] + tail && r[1..][1..] == tail;
    PlainSeen(server, s, r);
    PlainSeen(server, s.(last := BACKSLASH), r[1..]);
  }

  // --- conditional comments ----------------------------------------------------------------------------------

  /** A blank after the exclamation mark: the comment always applies. */
  lemma {:induction false} AlwaysApplies(server: nat, s: State, blank: byte, tail: seq<byte>)
    requires Outside(s) && (blank == 32 || 9 <= blank <= 13) && tail != []
    ensures Tokenize(server, s, [SLASH, STAR, BANG, blank] + tail)
         == [Text([SLASH, STAR, BANG, blank])] + Tokenize(server, s, tail)
  {
    var r := [SLASH, STAR, BANG, blank] + tail;
    assert r[..4] == [SLASH, STAR, BANG, blank] && r[4..] == tail;
  }

  lemma {:induction false} AlwaysAppliesToMariaDB(server: nat, s: State, blank: byte, tail: seq<byte>)
    requires Outside(s) && (blank == 32 || 9 <= blank <= 13) && tail != []
    ensures Tokenize(server, s, [SLASH, STAR, UPPER_M, BANG, blank] + tail)
         == [Text([SLASH, STAR, UPPER_M, BANG])] + Tokenize(server, s, [blank] + tail)
  {
    var r := [SLASH, STAR, UPPER_M, BANG, blank] + tail;
    assert r[..4] == [SLASH, STAR, UPPER_M, BANG] && r[4..] == [blank] + tail;
  }

  ghost predicate AllDigits(d: seq<byte>) {
    forall i :: 0 <= i < |d| ==> IsDigit(d[i])
  }

  /** A version as `strtol` gives it. */
  ghost function Version(d: seq<byte>): nat
    requires AllDigits(d)
  {
    if Numeral(d) > 0x7FFF_FFFF_FFFF_FFFF then 0x7FFF_FFFF_FFFF_FFFF else Numeral(d)
  }

  lemma {:induction false} VersionRead(d: seq<byte>, tail: seq<byte>)
    requires AllDigits(d) && (tail != [] ==> !IsDigit(tail[0]))
    ensures DigitRun(d + tail) == |d| && StrToL(d + tail) == Version(d)
  {
    DigitRunIs(d + tail, |d|);
    assert (d + tail)[..|d|] == d;
  }

  /**
    A version number, with seven more bytes behind its first digit: the comment applies when
    the server is as new as that and the number is not one of 50700 to 99999.
   */
  lemma {:induction false} VersionApplies(server: nat, s: State, d: seq<byte>, tail: seq<byte>)
    requires Outside(s) && d != [] && AllDigits(d) && (tail != [] ==> !IsDigit(tail[0])) && |d| + |tail| > 7
    ensures var applies := Version(d) <= server && !(50700 <= Version(d) <= 99999);
      Tokenize(server, s, [SLASH, STAR, BANG] + (d + tail))
      == [Text([SLASH, STAR, BANG] + d)] + Tokenize(server, s.(inComment := !applies), tail)
  {
    var r := [SLASH, STAR, BANG] + (d + tail);
    VersionRead(d, tail);
    assert r[3..] == d + tail && r[3] == d[0];
    assert r[..3 + |d|] == [SLASH, STAR, BANG] + d && r[3 + |d|..] == tail;
  }

  /** Behind `M!` only the age of the server counts. */
  lemma {:induction false} VersionAppliesToMariaDB(server: nat, s: State, d: seq<byte>, tail: seq<byte>)
    requires Outside(s) && d != [] && AllDigits(d) && (tail != [] ==> !IsDigit(tail[0])) && |d| + |tail| > 7
    ensures Tokenize(server, s, [SLASH, STAR, UPPER_M, BANG] + (d + tail))
         == [Text([SLASH, STAR, UPPER_M, BANG] + d)]
            + Tokenize(server, s.(inComment := !(Version(d) <= server)), tail)
  {
    var r := [SLASH, STAR, UPPER_M, BANG] + (d + tail);
    VersionRead(d, tail);
    assert r[4..] == d + tail && r[4] == d[0];
    assert r[..4 + |d|] == [SLASH, STAR, UPPER_M, BANG] + d && r[4 + |d|..] == tail;
  }

  /** With fewer bytes behind the first digit the number is part of a comment that is skipped. */
  lemma {:induction false} VersionWithoutRoom(server: nat, s: State, d: seq<byte>, tail: seq<byte>)
    requires Outside(s) && d != [] && AllDigits(d) && |d| + |tail| <= 7
    ensures Tokenize(server, s, [SLASH, STAR] + ([BANG] + (d + tail)))
         == [Text([SLASH, STAR])] + Tokenize(server, s.(inComment := true), [BANG] + (d + tail))
  {
    var r := [SLASH, STAR] + ([BANG] + (d + tail));
    assert r[..2] == [SLASH, STAR] && r[2..] == [BANG] + (d + tail);
    assert r[2] == BANG && r[3] == d[0];
  }

  /** `M!` and neither a blank nor a version number with room: the comment is skipped. */
  lemma {:induction false} MariaDBSkipped(server: nat, s: State, x: byte, tail: seq<byte>)
    requires Outside(s) && !(x == 32 || 9 <= x <= 13) && tail != [] && (IsDigit(x) ==> |tail| <= 6)
    ensures Tokenize(server, s, [SLASH, STAR, UPPER_M, BANG] + ([x] + tail))
         == [Text([SLASH, STAR, UPPER_M, BANG])] + Tokenize(server, s.(inComment := true), [x] + tail)
  {
    var r := [SLASH, STAR, UPPER_M, BANG] + ([x] + tail);
    assert r[..4] == [SLASH, STAR, UPPER_M, BANG] && r[4..] == [x] + tail && r[4] == x;
  }

  // --- commands ------------------------------------------------------------------------------------------------

  /** The six statements that go out in the binary protocol when they have parameters. */
  function Spelled(c: Command): string {
    match c
    case CmdInsert => "INSERT"
    case CmdUpdate => "UPDATE"
    case CmdReplace => "REPLACE"
    case CmdDelete => "DELETE"
    case CmdCall => "CALL"
    case CmdDo => "DO"
    case _ => ""
  }

  predicate Listed(c: Command) {
    c == CmdInsert || c == CmdUpdate || c == CmdReplace || c == CmdDelete || c == CmdCall || c == CmdDo
  }

  /** The word in upper or lower case, then a blank, then at least one more byte. */
  ghost predicate StartsWithWord(r: seq<byte>, w: string) {
    && |r| >= |w| + 2
    && (forall i :: 0 <= i < |w| ==> r[i] as int == w[i] as int || r[i] as int == w[i] as int + 32)
    && (r[|w|] == 32 || r[|w|] == 9 || r[|w|] == 10 || r[|w|] == 13)
  }

  lemma {:induction false} WordIsKeyword(r: seq<byte>, w: string, word: seq<byte>)
    requires |w| == |word| && forall i :: 0 <= i < |w| ==> 65 <= word[i] <= 90 && word[i] as int == w[i] as int
    ensures Keyword(r, word) <==> StartsWithWord(r, w)
  {
    if |r| >= |w| + 2 {
      forall i | 0 <= i < |w|
        ensures ToUpper(r[i]) == word[i] <==> r[i] as int == w[i] as int || r[i] as int == w[i] as int + 32
      {
      }
    }
  }

  lemma {:induction false} TableSpelled(i: nat)
    requires i < |COMMANDS|
    ensures Listed(COMMANDS[i].0)
    ensures var w := Spelled(COMMANDS[i].0);
      && |w| == |COMMANDS[i].1| > 0
      && forall j :: 0 <= j < |w| ==> 65 <= COMMANDS[i].1[j] <= 90 && COMMANDS[i].1[j] as int == w[j] as int
  {
  }

  lemma {:induction false} TableStep(r: seq<byte>, i: nat)
    requires i < |COMMANDS|
    ensures CommandFrom(r, i)
         == if StartsWithWord(r, Spelled(COMMANDS[i].0)) then COMMANDS[i].0 else CommandFrom(r, i + 1)
  {
    TableSpelled(i);
    WordIsKeyword(r, Spelled(COMMANDS[i].0), COMMANDS[i].1);
  }

  /** No text starts with two of the words. */
  lemma {:induction false} WordsDiffer(r: seq<byte>, c: Command, d: Command)
    requires Listed(c) && Listed(d) && StartsWithWord(r, Spelled(c)) && StartsWithWord(r, Spelled(d))
    ensures c == d
  {
    assert r[0] as int == Spelled(c)[0] as int || r[0] as int == Spelled(c)[0] as int + 32;
    assert r[1] as int == Spelled(c)[1] as int || r[1] as int == Spelled(c)[1] as int + 32;
    assert r[0] as int == Spelled(d)[0] as int || r[0] as int == Spelled(d)[0] as int + 32;
    assert r[1] as int == Spelled(d)[1] as int || r[1] as int == Spelled(d)[1] as int + 32;
  }

  /** What the table gives from entry `i` on is a word the text starts with. */
  lemma {:induction false} TableSound(r: seq<byte>, i: nat)
    requires i <= |COMMANDS|
    ensures var c := CommandFrom(r, i);
      c == CmdOther || (Listed(c) && StartsWithWord(r, Spelled(c)))
    decreases |COMMANDS| - i
  {
    if i < |COMMANDS| {
      TableStep(r, i);
      TableSpelled(i);
      TableSound(r, i + 1);
    }
  }

  /** A word further down the table does not go unnoticed. */
  lemma {:induction false} TableComplete(r: seq<byte>, i: nat, j: nat)
    requires i <= j < |COMMANDS| && StartsWithWord(r, Spelled(COMMANDS[j].0))
    ensures CommandFrom(r, i) != CmdOther
    decreases j - i
  {
    TableStep(r, i);
    TableSpelled(i);
    if i < j && !StartsWithWord(r, Spelled(COMMANDS[i].0)) {
      TableComplete(r, i + 1, j);
    }
  }

  lemma {:induction false} InTable(c: Command) returns (j: nat)
    requires Listed(c)
    ensures j < |COMMANDS| && COMMANDS[j].0 == c
  {
    if c == CmdInsert {
      j := 0;
    } else if c == CmdUpdate {
      j := 1;
    } else if c == CmdReplace {
      j := 2;
    } else if c == CmdDelete {
      j := 3;
    } else if c == CmdCall {
      j := 4;
    } else {
      j := 5;
    }
  }

  lemma {:induction false} CommandIs(r: seq<byte>, c: Command)
    requires Listed(c)
    ensures CommandFrom(r, 0) == c <==> StartsWithWord(r, Spelled(c))
  {
    TableSound(r, 0);
    if StartsWithWord(r, Spelled(c)) {
      var j := InTable(c);
      TableComplete(r, 0, j);
      WordsDiffer(r, c, CommandFrom(r, 0));
    }
  }

  /** The first command found is the one that stays. */
  lemma {:induction false} CommandStays(server: nat, s: State, r: seq<byte>, jumped: bool)
    requires s.command != CmdNone
    ensures Final(server, s, r, jumped).command == s.command
    decreases |r|
  {
    if r != [] {
      var o := Step(server, s, r);
      CommandStays(server, o.next, r[o.token.Size()..], IsQuote(r[0]));
    }
  }

  /** A statement has a listed command exactly when it starts with that word; a blank before it is too much. */
  lemma {:induction false} CommandOfStatement(server: nat, r: seq<byte>, c: Command)
    requires Listed(c) && r != [] && !RegionAt(r) && !MarkAt(NUL, r)
    ensures Final(server, START, r, false).command == c <==> StartsWithWord(r, Spelled(c))
  {
    PlainSeen(server, START, r);
    CommandIs(r, c);
    var o := Step(server, START, r);
    assert o.token == Text([r[0]]) && o.next.command == CommandFrom(r, 0) by {
      PlainStepTaken(server, r);
    }
    CommandNotNone(r, 0);
    CommandStays(server, o.next, r[1..], false);
  }

  lemma {:induction false} PlainStepTaken(server: nat, r: seq<byte>)
    requires r != [] && !RegionAt(r) && !MarkAt(NUL, r)
    ensures Step(server, START, r) == StepOut(Text([r[0]]), START.(last := r[0], command := CommandFrom(r, 0)))
  {
    if |r| >= 2 && r[1] == LPAREN {
      KeySearch(r);
    }
    assert r[..1] == [r[0]];
  }

  lemma {:induction false} CommandNotNone(r: seq<byte>, i: nat)
    requires i <= |COMMANDS|
    ensures CommandFrom(r, i) != CmdNone
    decreases |COMMANDS| - i
  {
    if i < |COMMANDS| {
      TableSpelled(i);
      CommandNotNone(r, i + 1);
    }
  }

  /** A quote as the last byte: the terminating NUL counts as the first plain byte, if there was none. */
  lemma {:induction false} QuoteAtEnd(server: nat, s: State, quote: byte, jumped: bool)
    requires IsQuote(quote) && Outside(s.Toggle(quote))
    ensures Final(server, s, [quote], jumped).command == if s.command == CmdNone then CmdOther else s.command
  {
    assert [quote][1..] == [];
  }
}
