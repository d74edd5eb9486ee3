/**
  cursors.py and MrdbCursor_parse: from a statement and its data to the bytes that are sent.
  The cursor keeps what the last parse found and skips the parse when it is given the
  rewritten text again.
 */
module Execute {
  import opened Bytes
  import opened Tokens
  import opened Scanner
  import opened Parser
  import opened Reparse
  import opened SecondScan
  import opened Records
  import opened Utf8
  import opened Substitution
  import opened Wrappers

  /** What MrdbCursor_parse hands over to the cursor. */
  datatype ParseInfo = ParseInfo(statement: seq<byte>, style: Style, offsets: seq<nat>,
                                 keys: seq<seq<byte>>, command: Command)

  datatype Data =
    | NoData
    | Sequence(values: seq<Value>)
    | Dictionary(items: seq<(seq<byte>, Value)>)   // in insertion order
  {
    predicate Has(key: seq<byte>)
      requires Dictionary?
    {
      exists i :: 0 <= i < |items| && items[i].0 == key
    }

    function Get(key: seq<byte>): Value
      requires Dictionary? && Has(key)
    {
      GetFrom(items, key)
    }

    predicate Empty() {
      NoData? || (Sequence? && values == []) || (Dictionary? && items == [])
    }
  }

  function GetFrom(items: seq<(seq<byte>, Value)>, key: seq<byte>): Value
    requires exists i :: 0 <= i < |items| && items[i].0 == key
  {
    if items[|items| - 1].0 == key then items[|items| - 1].1 else GetFrom(items[..|items| - 1], key)
  }

  /** The text a C string member shows: everything before the first NUL. */
  function CString(s: seq<byte>): seq<byte> {
    if s == [] || s[0] == NUL then [] else [s[0]] + CString(s[1..])
  }

  lemma {:induction false} CStringWhole(s: seq<byte>)
    ensures CString(s) == s <==> NUL !in s
  {
    if s != [] && s[0] != NUL {
      CStringWhole(s[1..]);
      assert s == [s[0]] + s[1..];
    }
  }

  /** And otherwise it stops at the first NUL. */
  lemma {:induction false} CStringStops(s: seq<byte>)
    ensures CString(s) <= s && NUL !in CString(s) && (|CString(s)| < |s| ==> s[|CString(s)|] == NUL)
  {
    if s != [] && s[0] != NUL {
      CStringStops(s[1..]);
      assert s == [s[0]] + s[1..];
    }
  }

  /** A dictionary, in which no key occurs twice, gives each key its value. */
  lemma {:induction false} GetsValue(items: seq<(seq<byte>, Value)>, i: nat)
    requires i < |items| && forall j, k :: 0 <= j < k < |items| ==> items[j].0 != items[k].0
    ensures GetFrom(items, items[i].0) == items[i].1
  {
    if i < |items| - 1 {
      var init := items[..|items| - 1];
      assert init[i] == items[i];
      GetsValue(init, i);
    }
  }

  // --- parsing -----------------------------------------------------------------------------------

  ghost function TokensOf(server: nat, statement: seq<byte>): seq<Token> {
    Tokenize(server, START, statement)
  }

  /** What a fresh parse of a statement yields. */
  ghost function Fresh(server: nat, statement: seq<byte>): Option<ParseInfo> {
    var ts := TokensOf(server, statement);
    if statement != [] && Uniform(ts) then
      Some(ParseInfo(Shown(ts), StyleOf(ts), Offsets(ts), Keys(ts), Final(server, START, statement, false).command))
    else None
  }

  method ParseStatement(server: nat, statement: seq<byte>) returns (info: Option<ParseInfo>)
    ensures info == Fresh(server, statement)
  {
    var parser := new StatementParser(server, statement);
    var ok := parser.Parse(statement);
    if ok {
      info := Some(ParseInfo(parser.buf[..parser.length], parser.style, parser.params, parser.keys, parser.command));
    } else {
      info := None;
    }
  }

  /**
    A parse can be undone: the placeholders are where the offsets say, and putting the
    original spellings back there gives the statement byte for byte.
   */
  lemma {:induction false} ParseUndone(server: nat, statement: seq<byte>)
    requires Fresh(server, statement).Some?
    ensures var info := Fresh(server, statement).value;
      var ts := TokensOf(server, statement);
      && Offsets?(info.statement, info.offsets)
      && |info.offsets| == |Spellings(ts)|
      && Fill(info.statement, info.offsets, Spellings(ts)) == statement
      && |info.statement| + Removed(ts) == |statement|
  {
    var ts := TokensOf(server, statement);
    TokenizeSource(server, START, statement);
    OffsetsAddressMarks(ts);
    FillIsInterleave(ts, Spellings(ts));
    InterleaveSpellings(ts);
    LengthAccount(ts);
  }

  /** A spelling that the style of a statement and the i-th key allow. */
  ghost predicate Spells(info: ParseInfo, i: nat, spelling: seq<byte>) {
    match info.style
    case NoStyle => false
    case Qmark => spelling == [QMARK]
    case Format => spelling == [PERCENT, LOWER_S] || spelling == [PERCENT, LOWER_D]
    case Pyformat => i < |info.keys| && spelling == [PERCENT, LPAREN] + info.keys[i] + [RPAREN, LOWER_S]
  }

  /** The spellings are what the record says: named by the keys, or `?`, or `%s` and `%d`. */
  lemma {:induction false} SpellingsFromRecord(server: nat, statement: seq<byte>)
    requires Fresh(server, statement).Some?
    ensures var info := Fresh(server, statement).value;
      var sp := Spellings(TokensOf(server, statement));
      && |sp| == |info.offsets|
      && (info.style == NoStyle <==> sp == [])
      && |info.keys| == (if info.style == Pyformat then |sp| else 0)
      && forall i :: 0 <= i < |sp| ==> Spells(info, i, sp[i])
  {
    var ts := TokensOf(server, statement);
    OffsetsAddressMarks(ts);
    UniformMarks(ts);
    KeysOfMarks(ts);
    forall i | 0 <= i < |Marks(ts)|
      ensures Spells(Fresh(server, statement).value, i, Spellings(ts)[i])
    {
      SpellingOf(server, statement, i);
    }
  }

  lemma {:induction false} SpellingOf(server: nat, statement: seq<byte>, i: nat)
    requires Fresh(server, statement).Some? && i < |Marks(TokensOf(server, statement))|
    ensures Spells(Fresh(server, statement).value, i, Marks(TokensOf(server, statement))[i].Source())
  {
    var ts := TokensOf(server, statement);
    UniformMarks(ts);
    match Marks(ts)[i] {
      case Question =>
      case Percent(_) =>
        MarkIsToken(ts, i);
        PercentLetters(server, START, statement);
      case Named(_) =>
        KeysOfMarks(ts);
    }
  }

  lemma {:induction false} PercentLetters(server: nat, s: State, r: seq<byte>)
    ensures forall t :: t in Tokenize(server, s, r) && t.Percent? ==> t.letter == LOWER_S || t.letter == LOWER_D
    decreases |r|
  {
    if r != [] {
      var o := Step(server, s, r);
      PercentLetters(server, o.next, r[o.token.Size()..]);
      assert o.token.Percent? ==> o.token.letter == LOWER_S || o.token.letter == LOWER_D;
    }
  }

  /** The rewritten statement of a valid UTF-8 statement is valid UTF-8. */
  lemma {:induction false} ParseKeepsUtf8(server: nat, text: seq<rune>)
    requires Fresh(server, EncodeAll(text)).Some?
    ensures Utf8.Valid(Fresh(server, EncodeAll(text)).value.statement)
  {
    var ts := TokensOf(server, EncodeAll(text));
    TokenizeSource(server, START, EncodeAll(text));
    PercentLetters(server, START, EncodeAll(text));
    assert [] + Source(ts) == EncodeAll(text);
    RewriteKeepsUtf8([], ts);
    assert [] + Shown(ts) == Shown(ts);
  }

  // --- parameters ----------------------------------------------------------------------------------

  /** What every parse result satisfies. */
  ghost predicate WellFormed(info: ParseInfo) {
    && Offsets?(info.statement, info.offsets)
    && (info.style == NoStyle <==> info.offsets == [])
    && (info.style == Pyformat ==> |info.keys| == |info.offsets|)
  }

  lemma {:induction false} FreshWellFormed(server: nat, statement: seq<byte>)
    requires Fresh(server, statement).Some?
    ensures WellFormed(Fresh(server, statement).value)
  {
    ParseUndone(server, statement);
    SpellingsFromRecord(server, statement);
  }

  /** Every placeholder is given a value. */
  predicate Supplied(info: ParseInfo, data: Data) {
    match info.style
    case NoStyle => true
    case Qmark => data.Sequence? && |data.values| == |info.offsets|
    case Format => data.Sequence? && |data.values| == |info.offsets|
    case Pyformat => data.Dictionary? && forall i :: 0 <= i < |info.keys| ==> data.Has(info.keys[i])
  }

  /** The values of the placeholders, in order. */
  function ValuesFor(info: ParseInfo, data: Data): (v: seq<Value>)
    requires Supplied(info, data)
    requires info.style == Pyformat ==> |info.keys| == |info.offsets|
    ensures info.style != NoStyle ==> |v| == |info.offsets|
  {
    match info.style
    case NoStyle => []
    case Qmark => data.values
    case Format => data.values
    case Pyformat => seq(|info.keys|, i requires 0 <= i < |info.keys| => data.Get(info.keys[i]))
  }

  /** Placeholder `i` gets the i-th value, or the one value that the dictionary has for its key. */
  lemma {:induction false} ValueOfPlaceholder(info: ParseInfo, data: Data, i: nat, k: nat)
    requires WellFormed(info) && Supplied(info, data) && i < |info.offsets|
    requires data.Dictionary? ==> k < |data.items| && data.items[k].0 == info.keys[i]
    requires data.Dictionary? ==> forall j, l :: 0 <= j < l < |data.items| ==> data.items[j].0 != data.items[l].0
    ensures ValuesFor(info, data)[i] == if data.Dictionary? then data.items[k].1 else data.values[i]
  {
    if data.Dictionary? {
      GetsValue(data.items, k);
    }
  }

  method CheckExecuteParams(info: ParseInfo, data: Data) returns (ok: bool)
    requires WellFormed(info)
    ensures ok == Supplied(info, data)
  {
    if info.style == Qmark || info.style == Format {
      if !data.Sequence? {
        return false;
      }
    }
    if info.style == Pyformat {
      if !data.Dictionary? {
        return false;
      }
      for i := 0 to |info.keys|
        invariant forall j :: 0 <= j < i ==> data.Has(info.keys[j])
      {
        if !data.Has(info.keys[i]) {
          return false;
        }
      }
      return true;
    }
    if info.offsets != [] && (data.Empty() || |data.values| != |info.offsets|) {
      return false;
    }
    return true;
  }

  predicate NeedsBinary(v: Value) {
    v.BytesValue? || v.DateValue?
  }

  /** The values _check_text_types looks at: the first entries of a dictionary, whatever their keys. */
  function Inspected(data: Data, count: nat): seq<Value> {
    match data
    case NoData => []
    case Sequence(v) => if count <= |v| then v[..count] else v
    case Dictionary(d) => seq(if count <= |d| then count else |d|, i requires 0 <= i < |d| => d[i].1)
  }

  ghost predicate HasBinary(info: ParseInfo, data: Data) {
    var values := Inspected(data, |info.offsets|);
    exists i :: 0 <= i < |values| && NeedsBinary(values[i])
  }

  method CheckTextTypes(info: ParseInfo, data: Data) returns (binary: bool)
    ensures binary <==> HasBinary(info, data)
  {
    var seen := Inspected(data, |info.offsets|);
    binary := false;
    for i := 0 to |seen|
      invariant !binary && forall j :: 0 <= j < i ==> !NeedsBinary(seen[j])
    {
      if NeedsBinary(seen[i]) {
        return true;
      }
    }
  }

  // --- what is sent ----------------------------------------------------------------------------------

  /** The width of value `i` is accounted for in bytes. */
  ghost predicate Exact(esc: Escape, values: seq<Value>, i: nat)
    requires i < |values| && !values[0].OtherIndicator?
  {
    values[i].TextValue? || values[i].DateValue? || Ascii(Replacement(esc, values, i))
  }

  ghost predicate ExactButLast(esc: Escape, values: seq<Value>)
    requires values != [] ==> !values[0].OtherIndicator?
  {
    forall i :: 0 <= i < |values| - 1 ==> Exact(esc, values, i)
  }

  /** A number prints as something, and not as something ending in a question mark. */
  predicate Printable(v: Value) {
    v.Number? ==> v.text != [] && v.text[|v.text| - 1] != QMARK
  }

  /** The statement in which the loop of splices ends. */
  ghost function TextSent(esc: Escape, info: ParseInfo, values: seq<Value>): seq<byte>
    requires |values| == |info.offsets|
    requires values != [] ==> !values[0].OtherIndicator?
  {
    Splice(CString(info.statement), info.offsets, Fills(esc, values), Widths(esc, values))
  }

  /** Every value has a text of its own: no indicator but NULL and DEFAULT. */
  ghost predicate AllRender(values: seq<Value>) {
    forall i :: 0 <= i < |values| ==> !values[i].OtherIndicator?
  }

  function RenderedAll(esc: Escape, values: seq<Value>): (f: seq<seq<byte>>)
    requires AllRender(values)
    ensures |f| == |values|
  {
    seq(|values|, i requires 0 <= i < |values| => EncodeAll(Rendered(esc, values[i])))
  }

  /** The original statement with the i-th placeholder replaced by the i-th value, all at once. */
  ghost function Intended(server: nat, statement: seq<byte>, esc: Escape, values: seq<Value>): seq<byte>
    requires |values| == |Marks(TokensOf(server, statement))| && AllRender(values)
  {
    Interleave(TokensOf(server, statement), RenderedAll(esc, values))
  }

  /** Values without a text of their own cannot be sent as intended. */
  ghost predicate AsIntended(server: nat, statement: seq<byte>, esc: Escape, values: seq<Value>, bytes: seq<byte>)
    requires |values| == |Marks(TokensOf(server, statement))|
  {
    AllRender(values) && bytes == Intended(server, statement, esc, values)
  }

  lemma {:induction false} ShownBytes(ts: seq<Token>, b: byte)
    requires b in Shown(ts) && b != QMARK
    ensures b in Source(ts)
  {
    var ts', t := ts[..|ts| - 1], ts[|ts| - 1];
    if b in Shown(ts') {
      ShownBytes(ts', b);
    }
  }

  lemma {:induction false} WidthExact(esc: Escape, values: seq<Value>, i: nat)
    requires i < |values| && !values[0].OtherIndicator?
    ensures Widths(esc, values)[i] <= |Fills(esc, values)[i]|
    ensures Widths(esc, values)[i] == |Fills(esc, values)[i]| <==> Exact(esc, values, i)
  {
    EncodedLength(Replacement(esc, values, i));
  }

  lemma {:induction false} ReplacementEnds(esc: Escape, values: seq<Value>, i: nat)
    requires i < |values| && !values[0].OtherIndicator?
    requires forall j :: 0 <= j < |values| ==> Printable(values[j])
    ensures var t := Replacement(esc, values, i); t != [] && t[|t| - 1] != QMARK
  {
    if values[i].OtherIndicator? {
      ReplacementEnds(esc, values, i - 1);
    }
  }

  lemma {:induction false} EncodedEnd(t: seq<rune>)
    requires t != [] && t[|t| - 1] != QMARK
    ensures EncodeAll(t) != [] && EncodeAll(t)[|EncodeAll(t)| - 1] != QMARK
    decreases |t|
  {
    if |t| == 1 {
      assert t[1..] == [];
      assert EncodeAll(t) == Encode(t[0]);
    } else {
      EncodedEnd(t[1..]);
    }
  }

  /** The last value up to the i-th that has a text of its own. */
  function Nearest(values: seq<Value>, i: nat): (j: nat)
    requires i < |values| && !values[0].OtherIndicator?
    ensures j <= i && !values[j].OtherIndicator?
    ensures forall k :: j < k <= i ==> values[k].OtherIndicator?
  {
    if values[i].OtherIndicator? then Nearest(values, i - 1) else i
  }

  lemma {:induction false} ReplacementIs(esc: Escape, values: seq<Value>, i: nat)
    requires i < |values| && !values[0].OtherIndicator?
    ensures Replacement(esc, values, i) == Rendered(esc, values[Nearest(values, i)])
  {
    if values[i].OtherIndicator? {
      ReplacementIs(esc, values, i - 1);
    }
  }

  /**
    What the loop of splices sends: the original statement with the i-th placeholder replaced
    by the text of the nearest value, the i-th or before it, that has one; exactly when every
    value but the last is accounted for in bytes.
   */
  lemma {:induction false} SentRepeats(server: nat, statement: seq<byte>, esc: Escape, values: seq<Value>)
    requires Fresh(server, statement).Some? && NUL !in statement
    requires |values| == |Fresh(server, statement).value.offsets|
    requires values != [] ==> !values[0].OtherIndicator?
    requires forall j :: 0 <= j < |values| ==> Printable(values[j])
    ensures |values| == |Marks(TokensOf(server, statement))|
    ensures TextSent(esc, Fresh(server, statement).value, values)
            == Interleave(TokensOf(server, statement), Fills(esc, values))
            <==> ExactButLast(esc, values)
    ensures forall i :: 0 <= i < |values| ==>
      Fills(esc, values)[i] == EncodeAll(Rendered(esc, values[Nearest(values, i)]))
  {
    var ts := TokensOf(server, statement);
    var info := Fresh(server, statement).value;
    FreshWellFormed(server, statement);
    OffsetsAddressMarks(ts);
    FillIsInterleave(ts, Fills(esc, values));
    NulFree(server, statement);
    if ExactButLast(esc, values) {
      SpliceOfExact(info.statement, info.offsets, esc, values);
    } else {
      SpliceOfInexact(info.statement, info.offsets, esc, values);
    }
    forall i | 0 <= i < |values|
      ensures Fills(esc, values)[i] == EncodeAll(Rendered(esc, values[Nearest(values, i)]))
    {
      ReplacementIs(esc, values, i);
    }
  }

  lemma {:induction false} RenderedFills(esc: Escape, values: seq<Value>)
    requires AllRender(values)
    ensures Fills(esc, values) == RenderedAll(esc, values)
  {
  }

  /**
    In text mode the statement sent is the original with the i-th placeholder replaced by the
    i-th value, exactly when every value has a text and every one but the last is accounted
    for in bytes.
   */
  lemma {:induction false} SentIsIntended(server: nat, statement: seq<byte>, esc: Escape, values: seq<Value>)
    requires Fresh(server, statement).Some? && NUL !in statement
    requires |values| == |Fresh(server, statement).value.offsets|
    requires values != [] ==> !values[0].OtherIndicator?
    requires forall j :: 0 <= j < |values| ==> Printable(values[j])
    ensures |values| == |Marks(TokensOf(server, statement))|
    ensures AsIntended(server, statement, esc, values, TextSent(esc, Fresh(server, statement).value, values))
            <==> AllRender(values) && ExactButLast(esc, values)
  {
    SentRepeats(server, statement, esc, values);
    if AllRender(values) {
      RenderedFills(esc, values);
    }
  }

  /** Everything but bytes, unknown indicators and numbers that print as something else than ASCII. */
  predicate Ordinary(v: Value) {
    !v.OtherIndicator? && !v.BytesValue? && (v.Number? ==> Ascii(v.text))
  }

  ghost predicate AllOrdinary(values: seq<Value>) {
    AllRender(values) && forall i :: 0 <= i < |values| ==> Ordinary(values[i])
  }

  /**
    For ordinary values the statement sent is the original one with the i-th placeholder
    replaced by the rendering of the i-th value, all other bytes unchanged and in order.
   */
  lemma {:induction false} OrdinaryValuesSent(server: nat, statement: seq<byte>, esc: Escape, values: seq<Value>)
    requires Fresh(server, statement).Some? && NUL !in statement
    requires |values| == |Fresh(server, statement).value.offsets| && AllOrdinary(values)
    ensures |values| == |Marks(TokensOf(server, statement))|
    ensures TextSent(esc, Fresh(server, statement).value, values) == Intended(server, statement, esc, values)
  {
    var ts := TokensOf(server, statement);
    var info := Fresh(server, statement).value;
    FreshWellFormed(server, statement);
    OffsetsAddressMarks(ts);
    NulFree(server, statement);
    OrdinaryExact(esc, values);
    RenderedFills(esc, values);
    FillIsInterleave(ts, Fills(esc, values));
    SpliceOfExact(info.statement, info.offsets, esc, values);
  }

  lemma {:induction false} OrdinaryExact(esc: Escape, values: seq<Value>)
    requires AllOrdinary(values)
    ensures ExactButLast(esc, values)
  {
    forall i | 0 <= i < |values| - 1 ensures Exact(esc, values, i) {
      assert Ordinary(values[i]);
    }
  }

  lemma {:induction false} SpliceOfExact(s: seq<byte>, offsets: seq<nat>, esc: Escape, values: seq<Value>)
    requires Offsets?(s, offsets) && |values| == |offsets|
    requires values != [] ==> !values[0].OtherIndicator?
    requires ExactButLast(esc, values)
    ensures Splice(s, offsets, Fills(esc, values), Widths(esc, values)) == Fill(s, offsets, Fills(esc, values))
  {
    var fills, widths := Fills(esc, values), Widths(esc, values);
    forall i | 0 <= i < |values| - 1 ensures widths[i] == |fills[i]| {
      WidthExact(esc, values, i);
    }
    SpliceRight(s, offsets, fills, widths);
  }

  lemma {:induction false} SpliceOfInexact(s: seq<byte>, offsets: seq<nat>, esc: Escape, values: seq<Value>)
    requires Offsets?(s, offsets) && |values| == |offsets| && values != []
    requires !values[0].OtherIndicator? && !ExactButLast(esc, values)
    requires forall j :: 0 <= j < |values| ==> Printable(values[j])
    ensures Splice(s, offsets, Fills(esc, values), Widths(esc, values)) != Fill(s, offsets, Fills(esc, values))
  {
    WidthsUnder(esc, values);
    InexactShift(esc, values);
    LastFill(esc, values);
    SpliceWrong(s, offsets, Fills(esc, values), Widths(esc, values));
  }

  lemma {:induction false} InexactShift(esc: Escape, values: seq<Value>)
    requires values != [] && !values[0].OtherIndicator? && !ExactButLast(esc, values)
    ensures var n := |values| - 1;
      Shift(Widths(esc, values)[..n]) < Shift(Lengths(Fills(esc, values)[..n]))
  {
    var fills, widths, n := Fills(esc, values), Widths(esc, values), |values| - 1;
    WidthsUnder(esc, values);
    UnderPrefix(widths, fills, n);
    var i :| 0 <= i < n && !Exact(esc, values, i);
    WidthExact(esc, values, i);
    ShiftStrict(widths[..n], fills[..n], i);
  }

  lemma {:induction false} LastFill(esc: Escape, values: seq<Value>)
    requires values != [] && !values[0].OtherIndicator?
    requires forall j :: 0 <= j < |values| ==> Printable(values[j])
    ensures var f := Fills(esc, values)[|values| - 1];
      f != [] && f[|f| - 1] != QMARK
  {
    ReplacementEnds(esc, values, |values| - 1);
    EncodedEnd(Replacement(esc, values, |values| - 1));
  }

  lemma {:induction false} WidthsUnder(esc: Escape, values: seq<Value>)
    requires values != [] ==> !values[0].OtherIndicator?
    ensures Under(Widths(esc, values), Fills(esc, values))
  {
    forall i | 0 <= i < |values| ensures Widths(esc, values)[i] <= |Fills(esc, values)[i]| {
      WidthExact(esc, values, i);
    }
  }

  lemma {:induction false} NulFree(server: nat, statement: seq<byte>)
    requires Fresh(server, statement).Some? && NUL !in statement
    ensures CString(Fresh(server, statement).value.statement) == Fresh(server, statement).value.statement
  {
    var ts := TokensOf(server, statement);
    TokenizeSource(server, START, statement);
    if NUL in Shown(ts) {
      ShownBytes(ts, NUL);
    }
    CStringWhole(Shown(ts));
  }

  // --- parsing the rewritten text again -------------------------------------------------------------------

  /** The record of the rewritten text: the same text, offsets and command, as question marks. */
  ghost predicate SameRecord(server: nat, statement: seq<byte>)
    requires Fresh(server, statement).Some?
  {
    var info := Fresh(server, statement).value;
    Fresh(server, info.statement)
    == Some(info.(style := if info.style == NoStyle then NoStyle else Qmark, keys := []))
  }

  /** Question marks and nothing else: one style, no keys. */
  lemma {:induction false} QuestionMarks(ts: seq<Token>)
    ensures Questions(ts) ==>
      && Uniform(ts) && Keys(ts) == []
      && StyleOf(ts) == if Offsets(ts) == [] then NoStyle else Qmark
  {
    if Questions(ts) && ts != [] {
      var init := ts[..|ts| - 1];
      assert forall i :: 0 <= i < |init| ==> init[i] == ts[i];
      QuestionMarks(init);
    }
  }

  lemma {:induction false} OnlyQmark(ts: seq<Token>)
    requires Uniform(ts) && (StyleOf(ts) == Qmark || StyleOf(ts) == NoStyle)
    ensures Questions(ts)
  {
    StyleOfMark(ts);
  }

  /**
    The cache is right about the parse exactly when no comment that applies is swallowed, or
    what is left behind it reads alike.
   */
  lemma {:induction false} CacheIsFresh(server: nat, statement: seq<byte>)
    requires Fresh(server, statement).Some?
    ensures SameRecord(server, statement) <==> RecordFits(server, START, statement)
    ensures VersionsFit(server, START, statement) ==> SameRecord(server, statement)
  {
    var ts := TokensOf(server, statement);
    var again := TokensOf(server, Shown(ts));
    RecordKept(server, START, statement, false);
    if VersionsFit(server, START, statement) {
      VersionsFitRecord(server, START, statement);
    }
    SpellingsFromRecord(server, statement);
    FirstByte(server, START, statement);
    QuestionMarks(again);
    if SameRecord(server, statement) {
      OnlyQmark(again);
    }
  }

  /** Filling the placeholders of the rewritten text is filling those of the original. */
  lemma {:induction false} SameFilling(server: nat, statement: seq<byte>, fills: seq<seq<byte>>)
    requires Fresh(server, statement).Some? && SameRecord(server, statement)
    requires |fills| == |Marks(TokensOf(server, statement))|
    ensures var again := TokensOf(server, Fresh(server, statement).value.statement);
      |fills| == |Marks(again)| && Interleave(again, fills) == Interleave(TokensOf(server, statement), fills)
  {
    var ts := TokensOf(server, statement);
    var again := TokensOf(server, Fresh(server, statement).value.statement);
    OffsetsAddressMarks(ts);
    OffsetsAddressMarks(again);
    FillIsInterleave(ts, fills);
    FillIsInterleave(again, fills);
  }
}
