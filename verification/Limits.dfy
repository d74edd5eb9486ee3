/** Inputs on which the parser and the substitution do not do what one would expect. */
module Limits {
  import opened Bytes
  import opened Tokens
  import opened Scanner
  import opened Reparse
  import opened Conditional
  import opened SecondScan
  import opened Records
  import opened Regions
  import opened Utf8
  import opened Substitution
  import opened Execute
  import opened Cursors
  import opened Wrappers

  lemma {:induction false} TextHasNoMarks(ts: seq<Token>)
    requires forall i :: 0 <= i < |ts| ==> ts[i].Text?
    ensures Marks(ts) == []
  {
    if ts != [] {
      TextHasNoMarks(ts[..|ts| - 1]);
    }
  }

  lemma {:induction false} LettersAreText(b: seq<byte>)
    ensures forall i :: 0 <= i < |b| ==> Letters(b)[i].Text?
  {
    if b != [] {
      LettersAreText(b[1..]);
    }
  }

  // --- a conditional comment ----------------------------------------------------------------------

  const HEADER: seq<byte> := [47, 42, 33, 52, 48, 49, 48, 49]    // slash star ! 40101
  const VERSIONED := HEADER + [37, 115, 42]                      // ... %s star
  const VERSIONED_REWRITTEN := HEADER + [63, 42]                 // ... ? star

  lemma {:induction false} VersionRead(r: seq<byte>)
    requires r == [52, 48, 49, 48, 49, 37, 115, 42]
    ensures DigitRun(r) == 5 && StrToL(r) == 40101
  {
    DigitRunIs(r, 5);
    var d := r[..5];
    assert d[..4] == [52, 48, 49, 48] && d[..4][..3] == [52, 48, 49] && d[..4][..3][..2] == [52, 48];
    assert d[..4][..3][..2][..1] == [52] && d[..4][..3][..2][..1][..0] == [];
    assert Numeral(d[..4][..3][..2][..1]) == 4;
    assert Numeral(d[..4][..3][..2]) == 40;
    assert Numeral(d[..4][..3]) == 401;
    assert Numeral(d[..4]) == 4010;
  }

  lemma {:induction false} VersionedTokens(server: nat)
    requires server >= 40101
    ensures TokensOf(server, VERSIONED) == [Text(HEADER), Percent(LOWER_S), Text([STAR])]
  {
    var r := VERSIONED;
    VersionRead(r[3..]);
    assert r[..8] == HEADER && r[8..] == [37, 115, 42];
    assert Step(server, START, r) == StepOut(Text(HEADER), START);
    assert [37, 115, 42][2..] == [42];
    assert Step(server, START, [37, 115, 42]) == StepOut(Percent(LOWER_S), START);
    var o := Step(server, START, [42]);
    assert [42][1..] == [] && [42][..1] == [42];
    assert o.token == Text([STAR]);
    assert Tokenize(server, START, [42]) == [Text([STAR])];
    assert Tokenize(server, START, [37, 115, 42]) == [Percent(LOWER_S), Text([STAR])];
  }

  lemma {:induction false} RewrittenTokens(server: nat)
    ensures Marks(TokensOf(server, VERSIONED_REWRITTEN)) == []
  {
    var r := VERSIONED_REWRITTEN;
    var inner := START.(inComment := true);
    var body := r[2..];
    assert r[..2] == [47, 42];
    assert Step(server, START, r) == StepOut(Text([47, 42]), inner);
    assert body + [] == body;
    BlockBody(server, inner, body, []);
    ReadByLetter(server, inner, body, []);
    LettersAreText(body);
    assert TokensOf(server, r) == [Text([47, 42])] + Letters(body);
    TextHasNoMarks([Text([47, 42])] + Letters(body));
  }

  /**
    With a conditional comment the rewritten text need not be a fixed point: it is one byte
    shorter, so the version is no longer read and the placeholder is lost in a comment.
   */
  lemma {:induction false} ConditionalNotFixed(server: nat)
    requires server >= 40101
    ensures Shown(TokensOf(server, VERSIONED)) == VERSIONED_REWRITTEN
    ensures |Marks(TokensOf(server, VERSIONED))| == 1 && Marks(TokensOf(server, VERSIONED_REWRITTEN)) == []
  {
    VersionedTokens(server);
    RewrittenTokens(server);
    AroundMark(HEADER, Percent(LOWER_S), [STAR]);
  }

  lemma {:induction false} AroundMark(a: seq<byte>, m: Token, b: seq<byte>)
    requires m.Mark()
    ensures Shown([Text(a), m, Text(b)]) == a + [QMARK] + b
    ensures |Marks([Text(a), m, Text(b)])| == 1
  {
    ShownOfThree(Text(a), m, Text(b));
    CountMarks([Text(a), m, Text(b)]);
  }

  lemma {:induction false} ShownOfThree(a: Token, b: Token, c: Token)
    ensures Shown([a, b, c]) == a.Shown() + b.Shown() + c.Shown()
  {
    assert [a, b, c] == ([a] + [b]) + [c];
    AppendShown([a] + [b], [c]);
    AppendShown([a], [b]);
    One(a);
    One(b);
    One(c);
  }

  lemma {:induction false} CountMarks(ts: seq<Token>)
    requires |ts| == 3 && ts[0].Text? && ts[1].Mark() && ts[2].Text?
    ensures |Marks(ts)| == 1
  {
    TextHasNoMarks(ts[..1]);
    assert ts[..2][..1] == ts[..1];
    assert |Marks(ts[..2])| == 1;
  }

  // --- a bytes value in text mode ----------------------------------------------------------------------

  const TWO_NAMED: seq<byte> := [37, 40, 98, 41, 115, 37, 40, 99, 41, 115]    // %(b)s%(c)s
  const HIDDEN := Dictionary([([97], NoneValue), ([100], NoneValue), ([98], BytesValue([0xE9])), ([99], NoneValue)])

  lemma {:induction false} NamedTokens(server: nat)
    ensures TokensOf(server, TWO_NAMED) == [Named([98]), Named([99])]
  {
    var r1 := TWO_NAMED[5..];
    assert r1 == [37, 40, 99, 41, 115];
    OneNamed(server, 98, r1);
    OneNamed(server, 99, []);
    assert TWO_NAMED == [37, 40, 98, 41, 115] + r1;
    assert r1 == [37, 40, 99, 41, 115] + [];
  }

  lemma {:induction false} OneNamed(server: nat, key: byte, rest: seq<byte>)
    requires key != NUL && key != RPAREN
    ensures Tokenize(server, START, [37, 40, key, 41, 115] + rest) == [Named([key])] + Tokenize(server, START, rest)
  {
    var r := [37, 40, key, 41, 115] + rest;
    assert r[1..][1..] == [key, 41, 115] + rest && r[1..][1..][1..] == [41, 115] + rest;
    assert FindClose(r[1..][1..][1..]) == 0;
    assert FindClose(r[1..][1..]) == 1;
    assert FindClose(r[1..]) == 2;
    assert r[2..3] == [key];
    assert Step(server, START, r) == StepOut(Named([key]), START);
    assert r[5..] == rest;
  }

  lemma {:induction false} NamedInfo(server: nat)
    ensures Fresh(server, TWO_NAMED).Some?
    ensures var info := Fresh(server, TWO_NAMED).value;
      info.style == Pyformat && info.keys == [[98], [99]] && info.offsets == [0, 1]
    ensures |Marks(TokensOf(server, TWO_NAMED))| == 2
  {
    NamedTokens(server);
    TwoNamed([98], [99]);
  }

  lemma {:induction false} FirstNamed(a: seq<byte>)
    ensures var ts := [Named(a)];
      |Shown(ts)| == 1 && Keys(ts) == [a] && Offsets(ts) == [0] && |Marks(ts)| == 1
  {
    Snoc([], Named(a));
    assert [] + [Named(a)] == [Named(a)];
  }

  lemma {:induction false} TwoNamed(a: seq<byte>, b: seq<byte>)
    ensures var ts := [Named(a), Named(b)];
      Uniform(ts) && StyleOf(ts) == Pyformat && Keys(ts) == [a, b] && Offsets(ts) == [0, 1] && |Marks(ts)| == 2
  {
    FirstNamed(a);
    Snoc([Named(a)], Named(b));
    assert [Named(a)] + [Named(b)] == [Named(a), Named(b)];
  }

  /** An escape function with nothing to escape. */
  function Verbatim(t: seq<rune>): seq<rune> {
    t
  }

  const LATIN: seq<Value> := [BytesValue([0xE9]), NoneValue]

  lemma {:induction false} HiddenValues(info: ParseInfo)
    requires info.style == Pyformat && info.keys == [[98], [99]] && info.offsets == [0, 1]
    ensures Supplied(info, HIDDEN) && ValuesFor(info, HIDDEN) == LATIN
    ensures forall i :: 0 <= i < |Inspected(HIDDEN, 2)| ==> !NeedsBinary(Inspected(HIDDEN, 2)[i])
  {
    assert HIDDEN.items[2].0 == [98] && HIDDEN.items[3].0 == [99];
    assert HIDDEN.Get([98]) == LATIN[0] by {
      assert [98][0] != [99][0];
    }
    assert HIDDEN.Get([99]) == LATIN[1];
  }

  lemma {:induction false} LatinNotExact()
    ensures !ExactButLast(Verbatim, LATIN)
  {
    var t := Replacement(Verbatim, LATIN, 0);
    assert t == [39, 0xE9, 39];
    assert t[1] == 0xE9;
    assert !Exact(Verbatim, LATIN, 0);
  }

  lemma {:induction false} HiddenBytes(server: nat, statement: seq<byte>, info: ParseInfo)
    requires Fresh(server, statement) == Some(info) && NUL !in statement
    requires info.style == Pyformat && info.keys == [[98], [99]] && info.offsets == [0, 1]
    ensures Supplied(info, HIDDEN) && EntriesPass(info, HIDDEN) && ValuesFor(info, HIDDEN) == LATIN
    ensures |Marks(TokensOf(server, statement))| == 2
    ensures AllRender(LATIN) && !AsIntended(server, statement, Verbatim, LATIN, TextSent(Verbatim, info, LATIN))
  {
    HiddenValues(info);
    SentIsIntended(server, statement, Verbatim, LATIN);
    LatinNotExact();
  }

  /**
    A dictionary with entries no placeholder uses hides a bytes value from the text-type test,
    and the statement sent is then not the intended one.
   */
  lemma {:induction false} BytesReachText(server: nat)
    ensures Fresh(server, TWO_NAMED).Some? && |Marks(TokensOf(server, TWO_NAMED))| == 2
    ensures var info := Fresh(server, TWO_NAMED).value;
      && |info.keys| == |info.offsets| == 2
      && Supplied(info, HIDDEN) && EntriesPass(info, HIDDEN) && ValuesFor(info, HIDDEN) == LATIN
      && AllRender(LATIN) && !AsIntended(server, TWO_NAMED, Verbatim, LATIN, TextSent(Verbatim, info, LATIN))
  {
    NamedInfo(server);
    HiddenBytes(server, TWO_NAMED, Fresh(server, TWO_NAMED).value);
  }

  // --- named placeholders that outlive their statement -----------------------------------------------------

  lemma {:induction false} NamesStayIn(cfg: Config, statement: seq<byte>, data: Data, values: seq<Value>)
    requires Fresh(cfg.server, statement).Some? && NUL !in statement && Unconditional(statement)
    requires Fresh(cfg.server, statement).value.style == Pyformat
    requires |values| == |Fresh(cfg.server, statement).value.offsets|
    ensures var k := After(cfg, NEW_CURSOR, statement, data).0;
      && Record(cfg, k).Some?
      && After(cfg, k, Record(cfg, k).value.statement, Sequence(values)).1.Refused?
      && !After(cfg, NEW_CURSOR, Record(cfg, k).value.statement, Sequence(values)).1.Refused?
  {
    UnconditionalFits(cfg.server, START, statement);
    CacheIsFresh(cfg.server, statement);
    StaleNames(cfg, After(cfg, NEW_CURSOR, statement, data).0, values);
  }

  lemma {:induction false} TwoNamedPlain(statement: seq<byte>)
    requires statement == TWO_NAMED
    ensures NUL !in statement && Unconditional(statement)
  {
    assert forall i :: 0 <= i < |statement| ==> statement[i] != SLASH && statement[i] != NUL;
  }

  /** The rewritten text of `%(b)s%(c)s` with a list: refused where the names are kept, accepted by a new cursor. */
  lemma {:induction false} NamesStay(cfg: Config, statement: seq<byte>, data: Data, a: Value, b: Value)
    requires statement == TWO_NAMED
    ensures var k := After(cfg, NEW_CURSOR, statement, data).0;
      && Record(cfg, k).Some?
      && After(cfg, k, Record(cfg, k).value.statement, Sequence([a, b])).1.Refused?
      && !After(cfg, NEW_CURSOR, Record(cfg, k).value.statement, Sequence([a, b])).1.Refused?
  {
    NamedInfo(cfg.server);
    TwoNamedPlain(statement);
    NamesStayIn(cfg, statement, data, [a, b]);
  }

  // --- a value without a text -------------------------------------------------------------------------------

  /** A string and an unknown indicator for two placeholders: both get the string. */
  lemma {:induction false} IndicatorRepeats(cfg: Config, statement: seq<byte>, t: seq<rune>)
    requires !cfg.forceBinary && !cfg.serverCursor && NUL !in statement
    requires Fresh(cfg.server, statement).Some?
    requires var info := Fresh(cfg.server, statement).value;
      (info.style == Qmark || info.style == Format) && |info.offsets| == 2 && ReadsInText(info.command)
    ensures |Marks(TokensOf(cfg.server, statement))| == 2
    ensures var text := EncodeAll(Rendered(cfg.esc, TextValue(t)));
      After(cfg, NEW_CURSOR, statement, Sequence([TextValue(t), OtherIndicator])).1
      == SentText(Interleave(TokensOf(cfg.server, statement), [text, text]))
  {
    var values := [TextValue(t), OtherIndicator];
    var data := Sequence(values);
    var text := EncodeAll(Rendered(cfg.esc, TextValue(t)));
    var info := Fresh(cfg.server, statement).value;
    assert Inspected(data, 2) == values;
    assert !HasBinary(info, data);
    AfterParse(cfg, NEW_CURSOR, statement, data);
    SentRepeats(cfg.server, statement, cfg.esc, values);
    assert Nearest(values, 0) == 0 && Nearest(values, 1) == 0;
    assert Fills(cfg.esc, values) == [text, text];
  }

  // --- a protocol flag that outlives its statement ---------------------------------------------------------

  const FORMAT_MARK: seq<byte> := [37, 115]    // %s
  const QUESTION_MARK: seq<byte> := [63]

  lemma {:induction false} AloneRecorded(t: Token)
    requires t.Mark() && !t.Named?
    ensures Uniform([t]) && Shown([t]) == QUESTION_MARK && StyleOf([t]) == t.MarkStyle()
    ensures Offsets([t]) == [0] && Keys([t]) == []
  {
    Lone(t);
    assert [t][..0] == [];
  }

  lemma {:induction false} OneMark(server: nat)
    ensures Fresh(server, FORMAT_MARK) == Some(ParseInfo(QUESTION_MARK, Format, [0], [], CmdNone))
    ensures Fresh(server, QUESTION_MARK) == Some(ParseInfo(QUESTION_MARK, Qmark, [0], [], CmdNone))
  {
    assert Step(server, START, FORMAT_MARK) == StepOut(Percent(LOWER_S), START) && FORMAT_MARK[2..] == [];
    assert Step(server, START, QUESTION_MARK) == StepOut(Question, START) && QUESTION_MARK[1..] == [];
    assert TokensOf(server, FORMAT_MARK) == [Percent(LOWER_S)] && TokensOf(server, QUESTION_MARK) == [Question];
    AloneRecorded(Percent(LOWER_S));
    AloneRecorded(Question);
  }

  /**
    After `%s` with bytes, `?` with None goes out in the binary protocol: the parse is skipped
    and the flag of the call before is still there.  A new cursor sends text.
   */
  lemma {:induction false} StaleProtocol(cfg: Config, b: seq<byte>)
    requires !cfg.forceBinary && !cfg.serverCursor
    ensures var k := After(cfg, NEW_CURSOR, FORMAT_MARK, Sequence([BytesValue(b)])).0;
      && After(cfg, k, QUESTION_MARK, Sequence([NoneValue])).1.SentBinary?
      && After(cfg, NEW_CURSOR, QUESTION_MARK, Sequence([NoneValue])).1.SentText?
  {
    OneMark(cfg.server);
    var first, second := Sequence([BytesValue(b)]), Sequence([NoneValue]);
    OneValue(Fresh(cfg.server, FORMAT_MARK).value, BytesValue(b));
    OneValue(Fresh(cfg.server, FORMAT_MARK).value, NoneValue);
    StaleFlag(cfg, FORMAT_MARK, first, second);
  }

  lemma {:induction false} OneValue(info: ParseInfo, v: Value)
    requires info.style == Format && |info.offsets| == 1
    ensures Supplied(info, Sequence([v])) && !Sequence([v]).Empty()
    ensures HasBinary(info, Sequence([v])) <==> NeedsBinary(v)
  {
    assert [v][..1] == [v];
    assert Inspected(Sequence([v]), 1) == [v] && [v][0] == v;
  }

  // --- a version number that is lost without consequence ---------------------------------------------------

  /** x, slash star ! 9999 star slash, %s */
  const APPLIES: seq<byte> := [120, 47, 42, 33, 57, 57, 57, 57, 42, 47, 37, 115]

  predicate Ending(r: seq<byte>) {
    |r| == 4 && r[0] == STAR && r[1] == SLASH && r[2] == PERCENT && r[3] == LOWER_S
  }

  predicate Nines(r: seq<byte>) {
    |r| == 8 && (forall i :: 0 <= i < 4 ==> r[i] == 57) && Ending(r[4..])
  }

  predicate Comment(r: seq<byte>) {
    |r| == 11 && r[0] == SLASH && r[1] == STAR && r[2] == BANG && Nines(r[3..])
  }

  lemma {:induction false} FourNines(r: seq<byte>)
    requires Nines(r)
    ensures DigitRun(r) == 4 && StrToL(r) == 9999
  {
    assert r[4..][0] == r[4];
    DigitRunIs(r, 4);
    var d := r[..4];
    assert d[..3][..2][..1][..0] == [] && d[..3][..2][..1][0] == 57;
    assert Numeral(d[..3][..2][..1]) == 9;
    assert d[..3][..2][1] == 57 && Numeral(d[..3][..2]) == 99;
    assert d[..3][2] == 57 && Numeral(d[..3]) == 999;
  }

  lemma {:induction false} NoCommandStartsWithX(r: seq<byte>, i: nat)
    requires r != [] && r[0] == 120 && i <= |COMMANDS|
    ensures CommandFrom(r, i) == CmdOther
    decreases |COMMANDS| - i
  {
    if i < |COMMANDS| {
      assert COMMANDS[i].1[0] != ToUpper(120);
      NoCommandStartsWithX(r, i + 1);
    }
  }

  /** One step of a scan. */
  lemma {:induction false} Scan(server: nat, s: State, r: seq<byte>, t: Token, s': State, rest: seq<byte>)
    requires r != [] && Step(server, s, r) == StepOut(t, s') && r[t.Size()..] == rest && !IsQuote(r[0])
    ensures Tokenize(server, s, r) == [t] + Tokenize(server, s', rest)
    ensures Final(server, s, r, false) == Final(server, s', rest, false)
  {
  }

  /** Outside, the ending is two bytes of text and a placeholder. */
  lemma {:induction false} EndingOutside(server: nat, s: State, r: seq<byte>)
    requires Ending(r) && Outside(s) && s.command != CmdNone
    ensures Tokenize(server, s, r) == ([Text(r[..1])] + [Text(r[1..][..1])]) + [Percent(LOWER_S)]
    ensures Final(server, s, r, false).command == s.command
  {
    var r1 := r[1..];
    var r2 := r1[1..];
    Scan(server, s, r, Text(r[..1]), s.(last := STAR), r1);
    Scan(server, s.(last := STAR), r1, Text(r1[..1]), s.(last := SLASH), r2);
    Scan(server, s.(last := SLASH), r2, Percent(LOWER_S), s.(last := SLASH), []);
  }

  /** Inside, its rewritten form is the end of the comment and a placeholder. */
  lemma {:induction false} EndingInside(server: nat, s: State, q: seq<byte>)
    requires |q| == 3 && q[0] == STAR && q[1] == SLASH && q[2] == QMARK && Outside(s)
    ensures Tokenize(server, s.(inComment := true), q) == [Text(q[..2])] + [Question]
    ensures Final(server, s.(inComment := true), q, false).command == s.command
  {
    Scan(server, s.(inComment := true), q, Text(q[..2]), s, q[2..]);
    Scan(server, s, q[2..], Question, s, []);
  }

  lemma {:induction false} EndingAlike(a: seq<byte>, b: seq<byte>, both: seq<byte>, t: Token)
    requires t.Mark() && both == a + b
    ensures Shown(([Text(a)] + [Text(b)]) + [t]) == both + [QMARK]
    ensures Alike(([Text(a)] + [Text(b)]) + [t], [Text(both)] + [Question])
  {
    Lone(Text(a));
    Lone(Text(b));
    Lone(Text(both));
    TextOnlyJoin([Text(a)], a, [Text(b)], b, both);
    MarkBehind([Text(a)] + [Text(b)], [Text(both)], both, t);
  }

  lemma {:induction false} MarkBehind(p: seq<Token>, p': seq<Token>, text: seq<byte>, t: Token)
    requires TextOnly(p, text) && TextOnly(p', text) && t.Mark()
    ensures Shown(p + [t]) == text + [QMARK] && Alike(p + [t], p' + [Question])
  {
    SettledAlike(t);
    AlikeJoin(p, p', [t], [Question]);
    AppendShown(p, [t]);
    Lone(t);
  }

  /** The ending reads alike outside and inside. */
  lemma {:induction false} EndingReadsAlike(server: nat, s: State, r: seq<byte>)
    requires Ending(r) && Outside(s) && s.command != CmdNone
    ensures |Rewritten(server, s, r)| == 3 && ReadsAlike(server, s, r, s.(inComment := true), false)
  {
    EndingOutside(server, s, r);
    var both := r[..1] + r[1..][..1];
    EndingAlike(r[..1], r[1..][..1], both, Percent(LOWER_S));
    var q := Rewritten(server, s, r);
    assert q == both + [QMARK] && q[..2] == both;
    EndingInside(server, s, q);
  }

  lemma {:induction false} CommentStep(server: nat, s: State, r: seq<byte>)
    requires server >= 9999 && Comment(r) && Outside(s)
    ensures Step(server, s, r) == StepOut(Text(r[..7]), s) && Ending(r[7..]) && IsDigit(r[3])
  {
    FourNines(r[3..]);
    assert r[3..][4..] == r[7..];
    assert r[3] == r[3..][0];
  }

  /** The comment applies, and there is no room for its number in the rewritten text. */
  lemma {:induction false} CommentTight(server: nat, s: State, r: seq<byte>)
    requires server >= 9999 && Comment(r) && Outside(s) && s.command != CmdNone
    ensures Swallowed(server, s, r)
  {
    CommentStep(server, s, r);
    EndingReadsAlike(server, s, r[7..]);
    var t, s', rest := First(server, s, r);
    assert |Rewritten(server, s, r)| == 10;
    assert BLOCK_BANG <= r && VersionAt(r) == 3;
  }

  lemma {:induction false} CommentSwallowed(server: nat, s: State, r: seq<byte>)
    requires server >= 9999 && Comment(r) && Outside(s) && s.command != CmdNone
    ensures !VersionsFit(server, s, r) && RecordFits(server, s, r)
    ensures Tokenize(server, s, r) == [Text(r[..7])] + Tokenize(server, s, r[7..]) && Ending(r[7..])
  {
    CommentStep(server, s, r);
    CommentTight(server, s, r);
    EndingReadsAlike(server, s, r[7..]);
    Scan(server, s, r, Text(r[..7]), s, r[7..]);
    LittleLeft(server, s, r);
    EndDecides(server, s, r[7..]);
  }

  lemma {:induction false} RoomLost(server: nat, r: seq<byte>)
    requires server >= 9999 && |r| == 12 && r[0] == 120 && Comment(r[1..])
    ensures Fresh(server, r).Some? && SameRecord(server, r) && !VersionsFit(server, START, r)
  {
    var s := START.(last := 120, command := CmdOther);
    NoCommandStartsWithX(r, 0);
    Scan(server, START, r, Text(r[..1]), s, r[1..]);
    CommentSwallowed(server, s, r[1..]);
    RoomLostAccepted(server, s, r);
    CacheIsFresh(server, r);
  }

  lemma {:induction false} RoomLostAccepted(server: nat, s: State, r: seq<byte>)
    requires server >= 9999 && |r| == 12 && Comment(r[1..]) && Outside(s) && s.command != CmdNone
    requires TokensOf(server, r) == [Text(r[..1])] + Tokenize(server, s, r[1..])
    ensures Uniform(TokensOf(server, r))
  {
    CommentSwallowed(server, s, r[1..]);
    EndingOutside(server, s, r[1..][7..]);
    var c := r[1..];
    MarkAtEnd(Text(r[..1]), Text(c[..7]), Text(c[7..][..1]), Text(c[7..][1..][..1]), Percent(LOWER_S));
  }

  lemma {:induction false} MarkAtEnd(a: Token, b: Token, c: Token, d: Token, t: Token)
    requires !a.Mark() && !b.Mark() && !c.Mark() && !d.Mark()
    ensures Uniform([a] + ([b] + (([c] + [d]) + [t])))
  {
    assert [a] + ([b] + (([c] + [d]) + [t])) == [a, b, c, d, t];
  }

  /** The number loses its room, so that the tokens differ, and yet the record is the same. */
  lemma {:induction false} RoomLostRecordKept(server: nat)
    requires server >= 9999
    ensures Fresh(server, APPLIES).Some? && SameRecord(server, APPLIES)
    ensures !VersionsFit(server, START, APPLIES)
  {
    RoomLost(server, APPLIES);
  }
}
