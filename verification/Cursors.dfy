/**
  The cursor of cursors.py: execute() from its arguments to what is sent.  Between calls the
  cursor keeps the record of the last parse and the flag for the text protocol; the parse is
  skipped when the statement is the rewritten text of the last one.
 */
module Cursors {
  import opened Bytes
  import opened Tokens
  import opened Scanner
  import opened Reparse
  import opened Utf8
  import opened Substitution
  import opened Execute
  import opened Recognition
  import opened Rendering
  import opened Wrappers

  datatype Config = Config(server: nat, esc: Escape,
                           serverCursor: bool,          // cursor_type is READ_ONLY
                           forceBinary: bool)

  datatype Executed =
    | Refused                                          // ProgrammingError
    | Crashed                                          // UnboundLocalError in the substitution
    | SentText(bytes: seq<byte>)
    | SentBinary(statement: seq<byte>, values: seq<Value>)

  /** Statements other than the commands of the parser's table. */
  predicate ReadsInText(c: Command) {
    c == CmdNone || c == CmdOther
  }

  // --- one call --------------------------------------------------------------------------------------------

  /** The statement that was parsed last, accepted or not, and the flag for the text protocol. */
  datatype Kept = Kept(origin: seq<byte>, text: bool)

  const NEW_CURSOR := Kept([], false)

  ghost function Record(cfg: Config, k: Kept): Option<ParseInfo> {
    Fresh(cfg.server, k.origin)
  }

  /** The parse is skipped when the statement is the rewritten text of the last one. */
  ghost predicate Hit(cfg: Config, k: Kept, statement: seq<byte>) {
    Record(cfg, k).Some? && CString(Record(cfg, k).value.statement) == statement
  }

  /** Neither the data nor the configuration decides the protocol by itself. */
  ghost predicate Consults(cfg: Config, info: ParseInfo, data: Data) {
    && !cfg.forceBinary && !cfg.serverCursor
    && (if data.Empty() then info.command == CmdCall else !HasBinary(info, data))
  }

  /** The text protocol is used when nothing rules it out; `flag` is what the parse left. */
  ghost predicate UsesText(cfg: Config, flag: bool, info: ParseInfo, data: Data) {
    if Consults(cfg, info, data) then flag
    else !cfg.forceBinary && !cfg.serverCursor && data.Empty()
  }

  /** What is sent for a record and data, in a given protocol. */
  ghost function Answer(cfg: Config, text: bool, info: ParseInfo, data: Data): Executed
    requires WellFormed(info) && Supplied(info, data)
  {
    var values := ValuesFor(info, data);
    if !text then SentBinary(info.statement, values)
    else if values != [] && values[0].OtherIndicator? then Crashed
    else SentText(TextSent(cfg.esc, info, values))
  }

  /** What the cursor keeps after a call, and what the call sends. */
  ghost function After(cfg: Config, k: Kept, statement: seq<byte>, data: Data): (Kept, Executed) {
    if statement == [] then (k, Refused)
    else
      var hit := Hit(cfg, k, statement);
      var origin := if hit then k.origin else statement;
      match Fresh(cfg.server, origin)
      case None => (Kept(origin, false), Refused)
      case Some(info) =>
        FreshWellFormed(cfg.server, origin);
        var flag := if hit then k.text else ReadsInText(info.command);
        if !Supplied(info, data) then (Kept(origin, flag && !cfg.serverCursor), Refused)
        else
          var text := UsesText(cfg, flag, info, data);
          (Kept(origin, text), Answer(cfg, text, info, data))
  }

  class Cursor {
    const cfg: Config
    var info: Option<ParseInfo>
    var text: bool
    ghost var origin: seq<byte>    // what was parsed last

    ghost function Abs(): Kept
      reads this
    {
      Kept(origin, text)
    }

    ghost predicate Valid()
      reads this
    {
      info == Record(cfg, Abs())
    }

    constructor (cfg: Config)
      ensures Valid() && Abs() == NEW_CURSOR && this.cfg == cfg
    {
      this.cfg := cfg;
      info, text, origin := None, false, [];
    }

    /** Parses the statement, unless its record is at hand, and checks the data. */
    method ParseExecute(statement: seq<byte>, data: Data) returns (ok: bool)
      requires Valid()
      modifies this
      ensures Valid()
      ensures origin == if statement == [] || old(Hit(cfg, Abs(), statement)) then old(origin) else statement
      ensures ok <==> statement != [] && info.Some? && Supplied(info.value, data)
      ensures statement == [] ==> text == old(text)
      ensures statement != [] && info.None? ==> !text
      ensures statement != [] && info.Some? ==>
        var flag := if old(Hit(cfg, Abs(), statement)) then old(text) else ReadsInText(info.value.command);
        text == (flag && !cfg.serverCursor)
    {
      if statement == [] {
        return false;
      }
      if info.None? || CString(info.value.statement) != statement {
        info := ParseStatement(cfg.server, statement);
        text, origin := false, statement;
        if info.None? {
          return false;
        }
        text := ReadsInText(info.value.command);
      }
      if cfg.serverCursor {
        text := false;
      }
      FreshWellFormed(cfg.server, origin);
      ok := CheckExecuteParams(info.value, data);
    }

    /** Which protocol to use, after the parse has set its preference. */
    method ChooseProtocol(data: Data, ghost flag: bool)
      requires info.Some? && text == (flag && !cfg.serverCursor)
      modifies this`text
      ensures text == UsesText(cfg, flag, info.value, data)
    {
      if data.Empty() {
        if info.value.command != CmdCall && !cfg.serverCursor {
          text := true;
        }
      }
      if cfg.forceBinary {
        text := false;
      }
      var binary := CheckTextTypes(info.value, data);
      if !data.Empty() && binary {
        text := false;
      }
    }

    method Send(data: Data) returns (r: Executed)
      requires Valid() && info.Some? && WellFormed(info.value) && Supplied(info.value, data)
      ensures r == Answer(cfg, text, info.value, data)
    {
      var p := info.value;
      var values := ValuesFor(p, data);
      if !text {
        return SentBinary(p.statement, values);
      }
      if |p.offsets| == 0 {
        return SentText(CString(p.statement));
      }
      var out := SubstituteParameters(CString(p.statement), p.offsets, values, cfg.esc);
      match out
      case Unbound => r := Crashed;
      case Statement(b) => r := SentText(b);
    }

    /** Executing a statement; ExecuteSendsIntended says what the bytes sent have to do with it. */
    method Execute(statement: seq<rune>, data: Data) returns (r: Executed)
      requires Valid()
      modifies this
      ensures Valid() && (Abs(), r) == After(cfg, old(Abs()), EncodeAll(statement), data)
    {
      var bytes := EncodeAll(statement);
      var ok := ParseExecute(bytes, data);
      if !ok {
        return Refused;
      }
      FreshWellFormed(cfg.server, origin);
      ChooseProtocol(data, if old(Hit(cfg, Abs(), bytes)) then old(text) else ReadsInText(info.value.command));
      r := Send(data);
    }
  }

  // --- what is sent for a statement -------------------------------------------------------------------------

  /** The record that a call which is not refused works with. */
  lemma {:induction false} Executes(cfg: Config, k: Kept, statement: seq<byte>, data: Data) returns (info: ParseInfo)
    requires !After(cfg, k, statement, data).1.Refused?
    ensures var (k', r) := After(cfg, k, statement, data);
      && Record(cfg, k') == Some(info) && WellFormed(info) && Supplied(info, data)
      && k'.origin == (if Hit(cfg, k, statement) then k.origin else statement)
      && k'.text == UsesText(cfg, if Hit(cfg, k, statement) then k.text else ReadsInText(info.command), info, data)
      && r == Answer(cfg, k'.text, info, data)
  {
    var origin := if Hit(cfg, k, statement) then k.origin else statement;
    info := Fresh(cfg.server, origin).value;
    FreshWellFormed(cfg.server, origin);
  }

  /** A call whose bytes can be understood: no NUL, and a skipped parse would have given the same record. */
  ghost predicate Traceable(cfg: Config, k: Kept, statement: seq<byte>) {
    && NUL !in statement
    && (Hit(cfg, k, statement) ==> NUL !in k.origin && SameRecord(cfg.server, k.origin))
  }

  /** Then the record and the statement have the same placeholders. */
  lemma {:induction false} RecordFills(cfg: Config, k: Kept, statement: seq<byte>, fills: seq<seq<byte>>)
    requires Traceable(cfg, k, statement)
    requires var origin := if Hit(cfg, k, statement) then k.origin else statement;
      Fresh(cfg.server, origin).Some? && |fills| == |Marks(TokensOf(cfg.server, origin))|
    ensures var origin := if Hit(cfg, k, statement) then k.origin else statement;
      && |fills| == |Marks(TokensOf(cfg.server, statement))|
      && Interleave(TokensOf(cfg.server, origin), fills) == Interleave(TokensOf(cfg.server, statement), fills)
  {
    if Hit(cfg, k, statement) {
      NulFree(cfg.server, k.origin);
      SameFilling(cfg.server, k.origin, fills);
    }
  }

  /**
    End to end: whatever was executed before, in text mode the bytes sent are the statement
    given, with the i-th placeholder replaced by the rendering of the i-th value.
   */
  lemma {:induction false} ExecuteSendsIntended(cfg: Config, k: Kept, statement: seq<byte>, data: Data)
      returns (values: seq<Value>)
    requires After(cfg, k, statement, data).1.SentText? && Traceable(cfg, k, statement)
    ensures var info := Record(cfg, After(cfg, k, statement, data).0);
      info.Some? && WellFormed(info.value) && Supplied(info.value, data) && values == ValuesFor(info.value, data)
    ensures |values| == |Marks(TokensOf(cfg.server, statement))|
    ensures AllOrdinary(values) ==>
      After(cfg, k, statement, data).1.bytes == Intended(cfg.server, statement, cfg.esc, values)
  {
    var info := Executes(cfg, k, statement, data);
    values := ValuesFor(info, data);
    var origin := if Hit(cfg, k, statement) then k.origin else statement;
    OffsetsAddressMarks(TokensOf(cfg.server, origin));
    RecordFills(cfg, k, statement, seq(|values|, i => []));
    if AllOrdinary(values) {
      OrdinaryValuesSent(cfg.server, origin, cfg.esc, values);
      RecordFills(cfg, k, statement, RenderedAll(cfg.esc, values));
    }
  }

  /**
    For all values: the bytes sent are the intended ones exactly when every value has a text
    and all but the last are accounted for in bytes.  A value without a text repeats the one
    before it.
   */
  lemma {:induction false} ExecuteExactly(cfg: Config, k: Kept, statement: seq<byte>, data: Data)
      returns (values: seq<Value>)
    requires After(cfg, k, statement, data).1.SentText? && Traceable(cfg, k, statement)
    ensures var info := Record(cfg, After(cfg, k, statement, data).0);
      info.Some? && WellFormed(info.value) && Supplied(info.value, data) && values == ValuesFor(info.value, data)
    ensures |values| == |Marks(TokensOf(cfg.server, statement))| && (values != [] ==> !values[0].OtherIndicator?)
    ensures (forall i :: 0 <= i < |values| ==> Printable(values[i])) ==>
      (AsIntended(cfg.server, statement, cfg.esc, values, After(cfg, k, statement, data).1.bytes)
       <==> AllRender(values) && ExactButLast(cfg.esc, values))
    ensures (forall i :: 0 <= i < |values| ==> Printable(values[i])) ==>
      (After(cfg, k, statement, data).1.bytes == Interleave(TokensOf(cfg.server, statement), Fills(cfg.esc, values))
       <==> ExactButLast(cfg.esc, values))
  {
    var info := Executes(cfg, k, statement, data);
    values := ValuesFor(info, data);
    var origin := if Hit(cfg, k, statement) then k.origin else statement;
    OffsetsAddressMarks(TokensOf(cfg.server, origin));
    RecordFills(cfg, k, statement, Fills(cfg.esc, values));
    if forall i :: 0 <= i < |values| ==> Printable(values[i]) {
      SentRepeats(cfg.server, origin, cfg.esc, values);
    }
    if AllRender(values) {
      RenderedFills(cfg.esc, values);
    }
  }

  function EncodedAll(texts: seq<seq<rune>>): (f: seq<seq<byte>>)
    ensures |f| == |texts|
  {
    seq(|texts|, i requires 0 <= i < |texts| => EncodeAll(texts[i]))
  }

  /**
    Said without the rendering: the bytes sent are the statement given with a literal in place
    of each placeholder, and the i-th literal is read back as the i-th value.
   */
  lemma {:induction false} ExecuteReadsBack(cfg: Config, k: Kept, statement: seq<byte>, data: Data, dec: Decoder)
      returns (values: seq<Value>, texts: seq<seq<rune>>)
    requires After(cfg, k, statement, data).1.SentText? && Traceable(cfg, k, statement) && Undoes(cfg.esc, dec)
    ensures var info := Record(cfg, After(cfg, k, statement, data).0);
      info.Some? && WellFormed(info.value) && Supplied(info.value, data) && values == ValuesFor(info.value, data)
    ensures |texts| == |values| == |Marks(TokensOf(cfg.server, statement))|
    ensures AllOrdinary(values) && (forall i :: 0 <= i < |values| ==> NumberLike(values[i])) ==>
      && After(cfg, k, statement, data).1.bytes == Interleave(TokensOf(cfg.server, statement), EncodedAll(texts))
      && forall i :: 0 <= i < |values| ==> Means(Read(dec, texts[i]), values[i])
  {
    values := ExecuteSendsIntended(cfg, k, statement, data);
    texts := seq(|values|, i => []);
    if AllOrdinary(values) {
      texts := seq(|values|, i requires 0 <= i < |values| => Rendered(cfg.esc, values[i]));
      assert EncodedAll(texts) == RenderedAll(cfg.esc, values);
      forall i | 0 <= i < |values| && NumberLike(values[i]) ensures Means(Read(dec, texts[i]), values[i]) {
        ReadsBack(cfg.esc, dec, values[i]);
      }
    }
  }

  // --- which protocol --------------------------------------------------------------------------------------

  /** A value that is looked at is bytes or a date. */
  ghost predicate AsksForBinary(data: Data, count: nat) {
    match data
    case NoData => false
    case Sequence(v) => exists i :: 0 <= i < |v| && i < count && (v[i].BytesValue? || v[i].DateValue?)
    case Dictionary(d) => exists i :: 0 <= i < |d| && i < count && (d[i].1.BytesValue? || d[i].1.DateValue?)
  }

  lemma {:induction false} InspectedAsks(info: ParseInfo, data: Data)
    ensures HasBinary(info, data) <==> AsksForBinary(data, |info.offsets|)
  {
    var seen := Inspected(data, |info.offsets|);
    match data
    case NoData =>
    case Sequence(v) =>
      assert forall i :: 0 <= i < |seen| ==> seen[i] == v[i];
      if AsksForBinary(data, |info.offsets|) {
        var i :| 0 <= i < |v| && i < |info.offsets| && (v[i].BytesValue? || v[i].DateValue?);
        assert NeedsBinary(seen[i]);
      }
    case Dictionary(d) =>
      assert forall i :: 0 <= i < |seen| ==> seen[i] == d[i].1;
      if AsksForBinary(data, |info.offsets|) {
        var i :| 0 <= i < |d| && i < |info.offsets| && (d[i].1.BytesValue? || d[i].1.DateValue?);
        assert NeedsBinary(seen[i]);
      }
  }

  /**
    A new cursor uses the binary protocol exactly when it is told to, or reads from the server,
    or the statement is a CALL without data, or it has data and is one of the six commands or
    has bytes or a date among the values looked at.
   */
  lemma {:induction false} ProtocolOfNewCursor(cfg: Config, statement: seq<byte>, data: Data)
    requires !After(cfg, NEW_CURSOR, statement, data).1.Refused?
    ensures Fresh(cfg.server, statement).Some?
    ensures var info := Fresh(cfg.server, statement).value;
      After(cfg, NEW_CURSOR, statement, data).1.SentBinary?
      <==> || cfg.forceBinary || cfg.serverCursor
           || (data.Empty() && info.command == CmdCall)
           || (!data.Empty() && (Listed(info.command) || AsksForBinary(data, |info.offsets|)))
  {
    var info := Executes(cfg, NEW_CURSOR, statement, data);
    InspectedAsks(info, data);
  }

  /** The six commands, in any case and with data, never go out as text from a new cursor. */
  lemma {:induction false} SixGoOutInBinary(cfg: Config, statement: seq<byte>, c: Command, data: Data)
    requires Listed(c) && StartsWithWord(statement, Spelled(c)) && !data.Empty()
    ensures var r := After(cfg, NEW_CURSOR, statement, data).1; r.Refused? || r.SentBinary?
  {
    if !After(cfg, NEW_CURSOR, statement, data).1.Refused? {
      ProtocolOfNewCursor(cfg, statement, data);
      var w := Spelled(c);
      assert statement[0] as int == w[0] as int || statement[0] as int == w[0] as int + 32;
      CommandOfStatement(cfg.server, statement, c);
    }
  }

  // --- the binary protocol ------------------------------------------------------------------------------------

  /** A dictionary lookup gives the value of an entry with that key. */
  lemma {:induction false} GetsEntry(items: seq<(seq<byte>, Value)>, key: seq<byte>)
    requires exists i :: 0 <= i < |items| && items[i].0 == key
    ensures exists i :: 0 <= i < |items| && items[i] == (key, GetFrom(items, key))
  {
    var init := items[..|items| - 1];
    if items[|items| - 1].0 == key {
      assert items[|items| - 1] == (key, GetFrom(items, key));
    } else {
      var i :| 0 <= i < |items| && items[i].0 == key;
      assert init[i].0 == key;
      GetsEntry(init, key);
      var j :| 0 <= j < |init| && init[j] == (key, GetFrom(init, key));
      assert items[j] == init[j];
    }
  }

  /** One value for each placeholder: those of a sequence, or those a dictionary has for the keys. */
  ghost predicate Binds(info: ParseInfo, data: Data, values: seq<Value>) {
    match info.style
    case NoStyle => values == []
    case Pyformat =>
      && data.Dictionary? && |values| == |info.keys|
      && forall i :: 0 <= i < |values| ==> (info.keys[i], values[i]) in data.items
    case _ => data.Sequence? && values == data.values
  }

  /**
    In the binary protocol the rewritten statement is sent, from which the spellings of the
    placeholders restore the statement that was parsed, and the values in their order.
   */
  lemma {:induction false} BinarySends(cfg: Config, k: Kept, statement: seq<byte>, data: Data) returns (info: ParseInfo)
    requires After(cfg, k, statement, data).1.SentBinary?
    ensures var (k', r) := After(cfg, k, statement, data);
      && k'.origin == (if Hit(cfg, k, statement) then k.origin else statement)
      && Fresh(cfg.server, k'.origin) == Some(info) && Binds(info, data, r.values)
      && Offsets?(r.statement, info.offsets)
      && |info.offsets| == |Spellings(TokensOf(cfg.server, k'.origin))|
      && Fill(r.statement, info.offsets, Spellings(TokensOf(cfg.server, k'.origin))) == k'.origin
      && (Hit(cfg, k, statement) ==> CString(r.statement) == statement)
  {
    info := Executes(cfg, k, statement, data);
    ParseUndone(cfg.server, After(cfg, k, statement, data).0.origin);
    if info.style == Pyformat {
      forall i | 0 <= i < |info.keys| ensures (info.keys[i], data.Get(info.keys[i])) in data.items {
        GetsEntry(data.items, info.keys[i]);
      }
    }
  }

  // --- bytes in text mode -------------------------------------------------------------------------------------

  /** The entries that _check_text_types looks at ask for no binary protocol. */
  ghost predicate EntriesPass(info: ParseInfo, data: Data)
    requires data.Dictionary?
  {
    forall i :: 0 <= i < |data.items| && i < |info.offsets| ==> !NeedsBinary(data.items[i].1)
  }

  lemma {:induction false} EntriesInspected(info: ParseInfo, data: Data)
    requires data.Dictionary?
    ensures HasBinary(info, data) <==> !EntriesPass(info, data)
  {
    var seen := Inspected(data, |info.offsets|);
    assert forall i :: 0 <= i < |seen| ==> seen[i] == data.items[i].1;
    if !EntriesPass(info, data) {
      var i :| 0 <= i < |data.items| && i < |info.offsets| && NeedsBinary(data.items[i].1);
      assert NeedsBinary(seen[i]);
    }
  }

  ghost predicate HasBytes(values: seq<Value>) {
    exists i :: 0 <= i < |values| && values[i].BytesValue?
  }

  /**
    Exactly when a call in text mode has bytes at a placeholder: the placeholders are named,
    nothing else rules text out, the entries looked at pass, and one that is named is bytes.
   */
  lemma {:induction false} BytesInText(cfg: Config, k: Kept, statement: seq<byte>, data: Data) returns (info: ParseInfo)
    requires !After(cfg, k, statement, data).1.Refused?
    ensures Record(cfg, After(cfg, k, statement, data).0) == Some(info) && WellFormed(info) && Supplied(info, data)
    ensures After(cfg, k, statement, data).0.text && HasBytes(ValuesFor(info, data))
      <==> && info.style == Pyformat && !cfg.forceBinary && !cfg.serverCursor
           && (if Hit(cfg, k, statement) then k.text else ReadsInText(info.command))
           && EntriesPass(info, data)
           && exists i :: 0 <= i < |info.keys| && data.Get(info.keys[i]).BytesValue?
  {
    info := Executes(cfg, k, statement, data);
    var values := ValuesFor(info, data);
    if info.style == Pyformat {
      EntriesInspected(info, data);
      assert data.Has(info.keys[0]) && !data.Empty();
      assert forall i :: 0 <= i < |values| ==> values[i] == data.Get(info.keys[i]);
    } else if info.style != NoStyle && HasBytes(values) {
      var i :| 0 <= i < |values| && values[i].BytesValue?;
      assert NeedsBinary(Inspected(data, |info.offsets|)[i]);
    }
  }

  /**
    Bytes never reach the text of a statement with `?`, `%s` or `%d` placeholders, nor that of
    one with named placeholders if the dictionary has at most as many entries as there are
    placeholders.
   */
  lemma {:induction false} NoBytesInText(cfg: Config, k: Kept, statement: seq<byte>, data: Data)
    requires After(cfg, k, statement, data).1.SentText?
    ensures var info := Record(cfg, After(cfg, k, statement, data).0);
      info.Some? && WellFormed(info.value) && Supplied(info.value, data)
    ensures var info := Record(cfg, After(cfg, k, statement, data).0).value;
      (info.style == Pyformat ==> |data.items| <= |info.offsets|) ==> !HasBytes(ValuesFor(info, data))
  {
    var info := BytesInText(cfg, k, statement, data);
    var text := Executes(cfg, k, statement, data);
    if info.style == Pyformat && |data.items| <= |info.offsets| && EntriesPass(info, data) {
      forall i | 0 <= i < |info.keys| ensures !data.Get(info.keys[i]).BytesValue? {
        GetsEntry(data.items, info.keys[i]);
      }
    }
  }

  // --- the parse cache --------------------------------------------------------------------------------------

  /**
    A skipped parse against a parse: for the rewritten text of the last statement a cursor
    that has its record and one that has not (a new one, say) send the same exactly when, for
    named placeholders, both refuse the data, and otherwise the flag left behind is the one
    the parse would set, if it is consulted at all.
   */
  lemma {:induction false} CacheAgreesOn(cfg: Config, k: Kept, other: Kept, data: Data)
    requires Record(cfg, k).Some? && NUL !in k.origin && SameRecord(cfg.server, k.origin)
    requires !Hit(cfg, other, Record(cfg, k).value.statement)
    ensures var info := Record(cfg, k).value;
      After(cfg, k, info.statement, data).1 == After(cfg, other, info.statement, data).1
      <==> if info.style == Pyformat then !Supplied(info, data) && !Supplied(info.(style := Qmark), data)
           else Supplied(info, data) && Consults(cfg, info, data) ==> k.text == ReadsInText(info.command)
  {
    var info := Record(cfg, k).value;
    var again := Fresh(cfg.server, info.statement).value;
    NulFree(cfg.server, k.origin);
    FirstByte(cfg.server, START, k.origin);
    AfterParse(cfg, k, info.statement, data);
    AfterParse(cfg, other, info.statement, data);
    AnswersAgree(cfg, k.text, info, again, data);
  }

  lemma {:induction false} AfterParse(cfg: Config, k: Kept, statement: seq<byte>, data: Data)
    requires statement != [] && Fresh(cfg.server, if Hit(cfg, k, statement) then k.origin else statement).Some?
    ensures var info := Fresh(cfg.server, if Hit(cfg, k, statement) then k.origin else statement).value;
      && WellFormed(info)
      && After(cfg, k, statement, data).1
         == AnswerOrRefuse(cfg, if Hit(cfg, k, statement) then k.text else ReadsInText(info.command), info, data)
  {
    FreshWellFormed(cfg.server, if Hit(cfg, k, statement) then k.origin else statement);
  }

  ghost function AnswerOrRefuse(cfg: Config, flag: bool, info: ParseInfo, data: Data): Executed
    requires WellFormed(info)
  {
    if Supplied(info, data) then Answer(cfg, UsesText(cfg, flag, info, data), info, data) else Refused
  }

  lemma {:induction false} AnswersAgree(cfg: Config, flag: bool, info: ParseInfo, again: ParseInfo, data: Data)
    requires WellFormed(info) && WellFormed(again)
    requires again == info.(style := if info.style == NoStyle then NoStyle else Qmark, keys := [])
    ensures AnswerOrRefuse(cfg, flag, info, data) == AnswerOrRefuse(cfg, ReadsInText(info.command), again, data)
      <==> if info.style == Pyformat then !Supplied(info, data) && !Supplied(info.(style := Qmark), data)
           else Supplied(info, data) && Consults(cfg, info, data) ==> flag == ReadsInText(info.command)
  {
    if info.style != Pyformat && Supplied(info, data) {
      assert ValuesFor(info, data) == ValuesFor(again, data);
    }
  }

  /** For all data: the style must not be named and the flag must be the one the parse would set, if it can count. */
  lemma {:induction false} CacheAgrees(cfg: Config, k: Kept, other: Kept)
    requires Record(cfg, k).Some? && NUL !in k.origin && SameRecord(cfg.server, k.origin)
    requires !Hit(cfg, other, Record(cfg, k).value.statement)
    ensures var info := Record(cfg, k).value;
      (forall data :: After(cfg, k, info.statement, data).1 == After(cfg, other, info.statement, data).1)
      <==> info.style != Pyformat && (cfg.forceBinary || cfg.serverCursor || k.text == ReadsInText(info.command))
  {
    var info := Record(cfg, k).value;
    var b := info.statement;
    FreshWellFormed(cfg.server, k.origin);
    forall data ensures After(cfg, k, b, data).1 == After(cfg, other, b, data).1 <==>
      if info.style == Pyformat then !Supplied(info, data) && !Supplied(info.(style := Qmark), data)
      else Supplied(info, data) && Consults(cfg, info, data) ==> k.text == ReadsInText(info.command)
    {
      CacheAgreesOn(cfg, k, other, data);
    }
    var data := Nones(info);
    NonesDecide(cfg, info);
    assert After(cfg, k, b, data).1 == After(cfg, other, b, data).1 ==>
      info.style != Pyformat && (cfg.forceBinary || cfg.serverCursor || k.text == ReadsInText(info.command));
  }

  /** A list of None, as long as the placeholders, or one. */
  function Nones(info: ParseInfo): Data {
    Sequence(seq(if info.offsets == [] then 1 else |info.offsets|, i => NoneValue))
  }

  lemma {:induction false} NonesDecide(cfg: Config, info: ParseInfo)
    requires WellFormed(info)
    ensures info.style != Pyformat ==> Supplied(info, Nones(info))
    ensures info.style == Pyformat ==> Supplied(info.(style := Qmark), Nones(info))
    ensures Consults(cfg, info, Nones(info)) <==> !cfg.forceBinary && !cfg.serverCursor
  {
    assert !HasBinary(info, Nones(info));
  }

  /**
    A statement that reads in text, executed with bytes or a date, leaves the binary protocol
    behind for its rewritten text, where a new cursor would use text.
   */
  lemma {:induction false} StaleFlag(cfg: Config, statement: seq<byte>, first: Data, second: Data)
    requires !cfg.forceBinary && !cfg.serverCursor
    requires Fresh(cfg.server, statement).Some? && NUL !in statement && SameRecord(cfg.server, statement)
    requires var info := Fresh(cfg.server, statement).value;
      && info.style != Pyformat && ReadsInText(info.command)
      && Supplied(info, first) && HasBinary(info, first) && !first.Empty()
      && Supplied(info, second) && !HasBinary(info, second) && !second.Empty()
    ensures var info := Fresh(cfg.server, statement).value;
      var k := After(cfg, NEW_CURSOR, statement, first).0;
      && After(cfg, k, info.statement, second).1.SentBinary?
      && (After(cfg, NEW_CURSOR, info.statement, second).1.SentText?
          <==> var values := ValuesFor(info, second); values == [] || !values[0].OtherIndicator?)
      && !After(cfg, NEW_CURSOR, info.statement, second).1.SentBinary?
  {
    var info := Fresh(cfg.server, statement).value;
    FreshWellFormed(cfg.server, statement);
    var k := After(cfg, NEW_CURSOR, statement, first).0;
    assert k == Kept(statement, false);
    NulFree(cfg.server, statement);
    FirstByte(cfg.server, START, statement);
    AfterParse(cfg, k, info.statement, second);
    AfterParse(cfg, NEW_CURSOR, info.statement, second);
  }

  /**
    Named placeholders stay in the record: for the rewritten text a list of as many values is
    refused by the cursor that has the record and not by a new one.
   */
  lemma {:induction false} StaleNames(cfg: Config, k: Kept, values: seq<Value>)
    requires Record(cfg, k).Some? && NUL !in k.origin && SameRecord(cfg.server, k.origin)
    requires Record(cfg, k).value.style == Pyformat && |values| == |Record(cfg, k).value.offsets|
    ensures var b := Record(cfg, k).value.statement;
      && After(cfg, k, b, Sequence(values)).1.Refused?
      && !After(cfg, NEW_CURSOR, b, Sequence(values)).1.Refused?
  {
    var info := Record(cfg, k).value;
    NulFree(cfg.server, k.origin);
    FirstByte(cfg.server, START, k.origin);
    AfterParse(cfg, k, info.statement, Sequence(values));
    AfterParse(cfg, NEW_CURSOR, info.statement, Sequence(values));
  }
}
