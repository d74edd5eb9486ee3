/**
  The statement scanner as a function of the text that is still to be read.  It never sees
  the bytes behind the scan point, so it says what a statement means independently of the
  rewriting that mariadb_parser.c does in the buffer it is reading.
 */
module Scanner {
  import opened Bytes
  import opened Tokens
  import opened Seqs

  datatype Command = CmdNone | CmdInsert | CmdUpdate | CmdReplace | CmdDelete | CmdCall | CmdDo | CmdOther

  /** The literal flags, the comment flags, `lastchar` and the command found so far. */
  datatype State = State(single: bool, double: bool, back: bool,
                         inComment: bool, eol: bool, last: byte, command: Command)
  {
    predicate InLiteral() {
      single || double || back
    }

    /** A quote byte flips its own flag whatever the other flags say. */
    function Toggle(b: byte): State {
      if b == SQUOTE then this.(single := !single)
      else if b == DQUOTE then this.(double := !double)
      else if b == BACKTICK then this.(back := !back)
      else this
    }

    /** The iteration that runs on the terminating NUL after a quote ended the statement. */
    function Terminator(): State {
      if InLiteral() || inComment then this
      else if eol then this.(eol := false)
      else this.(last := NUL, command := if command == CmdNone then CmdOther else command)
    }
  }

  const START := State(false, false, false, false, false, NUL, CmdNone)

  datatype StepOut = StepOut(token: Token, next: State)

  // --- library functions -----------------------------------------------------------------

  /** `strstr(s, ")s")`: the first occurrence before the terminating NUL, or -1. */
  function FindClose(s: seq<byte>): (k: int)
    ensures -1 <= k
    ensures k >= 0 ==> k + 1 < |s| && s[k] == RPAREN && s[k + 1] == LOWER_S && NUL !in s[..k]
  {
    if |s| < 2 || s[0] == NUL then -1
    else if s[0] == RPAREN && s[1] == LOWER_S then 0
    else
      var k := FindClose(s[1..]);
      if k < 0 then -1 else
        assert s[..k + 1] == [s[0]] + s[1..][..k];
        k + 1
  }

  const LONG_MAX: nat := 0x7FFF_FFFF_FFFF_FFFF

  /** `strtol` on a digit run: saturates at LONG_MAX. */
  function StrToL(s: seq<byte>): nat {
    var v := Numeral(s[..DigitRun(s)]);
    if v > LONG_MAX then LONG_MAX else v
  }

  // --- comments ----------------------------------------------------------------------------

  const OPENING: seq<byte> := [SLASH, STAR]
  const CLOSING: seq<byte> := [STAR, SLASH]
  const DASHES: seq<byte> := [DASH, DASH, SPACE]
  const HASH_DASHES: seq<byte> := [HASH, DASH, DASH, SPACE]

  /** Bytes read for an opening slash-star, and whether the scanner is now inside a comment. */
  function OpenComment(server: nat, r: seq<byte>): (o: (nat, bool))
    requires |r| >= 2
    ensures 2 <= o.0 <= |r|
  {
    if |r| > 4 && r[2] == BANG && IsSpace(r[3]) then (4, false)
    else if |r| > 10 && r[2] == BANG && IsDigit(r[3]) then
      var v := StrToL(r[3..]);
      (3 + DigitRun(r[3..]), 50700 <= v <= 99999 || v > server)
    else if |r| > 5 && r[2] == UPPER_M && r[3] == BANG then
      if IsSpace(r[4]) then (4, false)
      else if |r| > 11 && IsDigit(r[4]) then
        (4 + DigitRun(r[4..]), StrToL(r[4..]) > server)
      else (4, true)
    else (2, true)
  }

  /** Bytes read for `#` and for `-- ` before the test for the end of the line. */
  function LineSkip(r: seq<byte>): (k: nat)
    requires r != []
    ensures k <= |r|
  {
    var k := if r[0] == HASH then 1 else 0;
    if At(r, k) == DASH && At(r, k + 1) == DASH && k + 3 < |r| && r[k + 2] == SPACE then k + 3 else k
  }

  // --- command keywords --------------------------------------------------------------------

  /** `check_keyword`: a keyword, a blank, and at least one more byte. */
  predicate Keyword(r: seq<byte>, word: seq<byte>) {
    && |r| >= |word| + 2
    && (forall i :: 0 <= i < |word| ==> ToUpper(r[i]) == word[i])
    && IsBlank(r[|word|])
  }

  const COMMANDS: seq<(Command, seq<byte>)> := [
    (CmdInsert, [73, 78, 83, 69, 82, 84]),
    (CmdUpdate, [85, 80, 68, 65, 84, 69]),
    (CmdReplace, [82, 69, 80, 76, 65, 67, 69]),
    (CmdDelete, [68, 69, 76, 69, 84, 69]),
    (CmdCall, [67, 65, 76, 76]),
    (CmdDo, [68, 79])
  ]

  /** The first command of the table, from entry `i` on, that the text starts with. */
  function CommandFrom(r: seq<byte>, i: nat): Command
    requires i <= |COMMANDS|
    decreases |COMMANDS| - i
  {
    if i == |COMMANDS| then CmdOther
    else if Keyword(r, COMMANDS[i].1) then COMMANDS[i].0
    else CommandFrom(r, i + 1)
  }

  // --- one step ----------------------------------------------------------------------------

  /** A byte outside literals and comments. */
  function PlainStep(s: State, r: seq<byte>): (o: StepOut)
    requires r != []
  {
    if r[0] == QMARK then StepOut(Question, s)
    else if r[0] == PERCENT && s.last != BACKSLASH && (At(r, 1) == LOWER_S || At(r, 1) == LOWER_D) then
      StepOut(Percent(r[1]), s)
    else if r[0] == PERCENT && s.last != BACKSLASH && At(r, 1) == LPAREN && FindClose(r[1..]) >= 0 then
      StepOut(Named(r[2..1 + FindClose(r[1..])]), s)
    else
      StepOut(Text(r[..1]),
              s.(last := r[0], command := if s.command == CmdNone then CommandFrom(r, 0) else s.command))
  }

  function Step(server: nat, s: State, r: seq<byte>): (o: StepOut)
    requires r != []
    ensures 0 < o.token.Size() <= |r|
  {
    if IsQuote(r[0]) then StepOut(Text(r[..1]), s.Toggle(r[0]))
    else if s.InLiteral() then StepOut(Text(r[..1]), s)
    else if s.inComment then
      if r[0] == STAR && At(r, 1) == SLASH then StepOut(Text(r[..2]), s.(inComment := false))
      else StepOut(Text(r[..1]), s)
    else if r[0] == SLASH && At(r, 1) == STAR then
      var (n, entered) := OpenComment(server, r);
      StepOut(Text(r[..n]), s.(inComment := entered))
    else
      var k := LineSkip(r);
      if s.eol || k > 0 then
        StepOut(Text(r[..if k < |r| then k + 1 else k]),
                s.(eol := At(r, k) != NUL && At(r, k) != NEWLINE))
      else
        PlainStep(s, r)
  }

  // --- whole statements ----------------------------------------------------------------------

  /** The tokens of the text still to be read. */
  function Tokenize(server: nat, s: State, r: seq<byte>): seq<Token>
    decreases |r|
  {
    if r == [] then []
    else
      var o := Step(server, s, r);
      [o.token] + Tokenize(server, o.next, r[o.token.Size()..])
  }

  /** The state in which the scan ends; `jumped` when the byte before `r` was a quote. */
  function Final(server: nat, s: State, r: seq<byte>, jumped: bool): State
    decreases |r|
  {
    if r == [] then if jumped then s.Terminator() else s
    else
      var o := Step(server, s, r);
      Final(server, o.next, r[o.token.Size()..], IsQuote(r[0]))
  }

  /** A token is read from the bytes that spell it. */
  lemma StepReads(server: nat, s: State, r: seq<byte>)
    requires r != []
    ensures var t := Step(server, s, r).token;
      t.Source() == r[..t.Size()]
  {
    var t := Step(server, s, r).token;
    if t.Named? {
      NamedReads(s, r);
    } else if t.Percent? {
      assert r[..2] == [PERCENT, r[1]];
    }
  }

  lemma NamedReads(s: State, r: seq<byte>)
    requires r != [] && PlainStep(s, r).token.Named?
    ensures var t := PlainStep(s, r).token;
      t.Size() <= |r| && t.Source() == r[..t.Size()]
  {
    var k := 1 + FindClose(r[1..]);
    assert r[k] == r[1..][k - 1] && r[k + 1] == r[1..][k];
    assert r[..k + 2] == [r[0], r[1]] + r[2..k] + [r[k], r[k + 1]];
  }

  /** The tokens spell out exactly the text they were read from. */
  lemma {:induction false} TokenizeSource(server: nat, s: State, r: seq<byte>)
    ensures Source(Tokenize(server, s, r)) == r
    decreases |r|
  {
    if r != [] {
      var o := Step(server, s, r);
      var n := o.token.Size();
      StepReads(server, s, r);
      TokenizeSource(server, o.next, r[n..]);
      Cons(o.token, Tokenize(server, o.next, r[n..]));
      Halves(r, n);
    }
  }
}
