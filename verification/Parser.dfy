/**
  mariadb_parser.c: one pass over a statement buffer that rewrites every `%s`, `%d` and
  `%(key)s` to `?` by moving the rest of the buffer down, and records where.
 */
module Parser {
  import opened Bytes
  import opened Tokens
  import opened Scanner

  const LITERALS: seq<byte> := [SQUOTE, DQUOTE, BACKTICK]

  class StatementParser {
    const server: nat              // mysql_get_server_version
    const buf: array<byte>         // statement.str, with its terminating NUL
    var length: nat                // statement.length
    var inLiteral: seq<bool>       // one flag per entry of LITERALS
    var inComment: bool
    var commentEol: bool
    var command: Command
    var style: Style
    var paramCount: nat
    var params: seq<nat>           // param_list
    var keys: seq<seq<byte>>

    ghost predicate Shaped()
      reads this
    {
      |inLiteral| == 3
    }

    ghost function Flags(last: byte): State
      reads this
      requires Shaped()
    {
      State(inLiteral[0], inLiteral[1], inLiteral[2], inComment, commentEol, last, command)
    }

    /** The text between the scan point and the last byte of the statement. */
    ghost function Rest(a: nat, end: nat): seq<byte>
      reads buf
      requires a <= end + 1 < buf.Length
    {
      buf[a..end + 1]
    }

    /** The scan point is in the statement or on its terminating NUL. */
    ghost predicate Framed(a: nat, end: nat)
      reads this, buf
    {
      Shaped() && a <= end + 1 < buf.Length && buf[end + 1] == NUL
    }

    constructor (server: nat, statement: seq<byte>)
      ensures fresh(buf) && buf.Length == |statement| + 1
      ensures buf[..|statement|] == statement && buf[|statement|] == NUL
      ensures length == |statement| && this.server == server
      ensures Shaped() && Flags(NUL) == START
      ensures style == NoStyle && paramCount == 0 && params == [] && keys == []
    {
      this.server := server;
      var b := new byte[|statement| + 1](i => NUL);
      forall i | 0 <= i < |statement| {
        b[i] := statement[i];
      }
      buf := b;
      length := |statement|;
      inLiteral := [false, false, false];
      inComment, commentEol, command := false, false, CmdNone;
      style, paramCount, params, keys := NoStyle, 0, [], [];
    }

    // --- reading ---------------------------------------------------------------------------

    method CheckKeyword(a: nat, end: nat, word: seq<byte>) returns (found: bool)
      requires Framed(a, end)
      requires word != [] && NUL !in word
      ensures found == Keyword(Rest(a, end), word)
    {
      ghost var r := Rest(a, end);
      // The difference is unsigned in C: on the terminating NUL it wraps to a huge value.
      if a <= end && end - a < |word| + 1 {
        return false;
      }
      if a == end + 1 {
        return false;  // the first comparison reads the NUL
      }
      var i := 0;
      while i < |word|
        invariant 0 <= i <= |word|
        invariant forall j :: 0 <= j < i ==> ToUpper(r[j]) == word[j]
      {
        assert buf[a + i] == r[i];
        if ToUpper(buf[a + i]) != word[i] {
          return false;
        }
        i := i + 1;
      }
      assert buf[a + |word|] == r[|word|];
      return IsBlank(buf[a + |word|]);
    }

    method DetectCommand(a: nat, end: nat) returns (c: Command)
      requires Framed(a, end)
      ensures c == if command == CmdNone then CommandFrom(Rest(a, end), 0) else command
    {
      c := command;
      if c == CmdNone {
        var i := 0;
        while i < |COMMANDS|
          invariant 0 <= i <= |COMMANDS|
          invariant CommandFrom(Rest(a, end), 0) == CommandFrom(Rest(a, end), i)
        {
          var found := CheckKeyword(a, end, COMMANDS[i].1);
          if found {
            return COMMANDS[i].0;
          }
          i := i + 1;
        }
        c := CmdOther;
      }
    }

    /** `strtol` from offset `a`: the digits read and the number they denote. */
    method ReadVersion(a: nat, end: nat) returns (x: nat, version: nat)
      requires Framed(a, end)
      ensures x == a + DigitRun(Rest(a, end))
      ensures version == StrToL(Rest(a, end))
    {
      ghost var r := Rest(a, end);
      x, version := a, 0;
      while IsDigit(buf[x])
        invariant a <= x <= end + 1
        invariant forall i :: 0 <= i < x - a ==> IsDigit(r[i])
        invariant version == Numeral(r[..x - a])
        decreases end + 1 - x
      {
        assert r[x - a] == buf[x];
        assert r[..x - a + 1][..x - a] == r[..x - a];
        version := 10 * version + Digit(buf[x]);
        x := x + 1;
      }
      assert x - a < |r| ==> r[x - a] == buf[x];
      DigitRunIs(r, x - a);
      version := if version > LONG_MAX then LONG_MAX else version;
    }

    method OpenBlock(a: nat, end: nat) returns (a': nat, entered: bool)
      requires Framed(a, end) && a < end
      ensures (a' - a, entered) == OpenComment(server, Rest(a, end))
    {
      a' := a + 2;
      if a + 2 <= end {
        Peek(a, end, 2);
      }
      if a + 3 <= end {
        Peek(a, end, 3);
        assert Rest(a, end)[3..] == Rest(a + 3, end);
      }
      if a + 4 <= end {
        Peek(a, end, 4);
        assert Rest(a, end)[4..] == Rest(a + 4, end);
      }
      if a' + 1 < end && buf[a'] == BANG {
        if IsSpace(buf[a' + 1]) {
          return a' + 2, false;
        }
        if a' + 7 < end && IsDigit(buf[a' + 1]) {
          var x, version := ReadVersion(a' + 1, end);
          return x, 50700 <= version <= 99999 || !(version <= server);
        }
      }
      if a' + 2 < end && buf[a'] == UPPER_M && buf[a' + 1] == BANG {
        a' := a' + 2;
        if IsSpace(buf[a']) {
          return a', false;
        }
        if a' + 6 < end && IsDigit(buf[a']) {
          var x, version := ReadVersion(a', end);
          return x, !(version <= server);
        }
      }
      return a', true;
    }

    /** `strstr(a, ")s")`: an offset, or -1. */
    method FindKeyEnd(a: nat, end: nat) returns (e: int)
      requires Framed(a, end)
      ensures e == if FindClose(Rest(a, end)) < 0 then -1 else a + FindClose(Rest(a, end))
    {
      var p := a;
      while buf[p] != NUL
        invariant a <= p <= end + 1
        invariant FindClose(Rest(a, end)) < 0 <==> FindClose(Rest(p, end)) < 0
        invariant FindClose(Rest(a, end)) >= 0 ==>
          a + FindClose(Rest(a, end)) == p + FindClose(Rest(p, end))
        decreases end + 1 - p
      {
        if buf[p] == RPAREN && buf[p + 1] == LOWER_S {
          return p;
        }
        assert Rest(p, end)[1..] == Rest(p + 1, end);
        p := p + 1;
      }
      return -1;
    }

    // --- rewriting ---------------------------------------------------------------------------

    method MemMove(dst: nat, src: nat, n: nat)
      requires dst <= src && src + n <= buf.Length
      modifies buf
      ensures buf[..dst] == old(buf[..dst]) && buf[dst..dst + n] == old(buf[src..src + n])
    {
      forall i | 0 <= i < n {
        buf[dst + i] := buf[src + i];
      }
    }

    /** The spelling of `width` bytes at the scan point becomes a single `?`. */
    method Collapse(a: nat, end: nat, width: nat) returns (end': nat)
      requires Framed(a, end) && 0 < width && a + width <= end + 1
      modifies buf
      ensures end' == end - (width - 1) && Framed(a + 1, end')
      ensures buf[..a + 1] == old(buf[..a]) + [QMARK]
      ensures Rest(a + 1, end') == old(Rest(a + width, end))
    {
      end' := end - (width - 1);
      ghost var front, tail := buf[..a], Rest(a + width, end);
      assert buf[a + width..end + 2] == tail + [NUL];
      buf[a] := QMARK;
      assert buf[..a + 1] == front + [QMARK];
      assert buf[a + width..end + 2] == tail + [NUL];
      MemMove(a + 1, a + width, end + 2 - a - width);
      assert buf[a + 1..end' + 2] == tail + [NUL];
      SplitLast(buf, a + 1, end' + 1, tail, NUL);
    }

    static lemma SubSlice(b: array<byte>, lo: nat, hi: nat, i: nat, j: nat)
      requires lo <= hi <= b.Length && i <= j <= hi - lo
      ensures b[lo..hi][i..j] == b[lo + i..lo + j]
    {
      var s, t := b[lo..hi][i..j], b[lo + i..lo + j];
      assert forall k :: 0 <= k < |s| ==> s[k] == b[lo + i + k] == t[k];
    }

    static lemma SplitLast(b: array<byte>, lo: nat, hi: nat, s: seq<byte>, last: byte)
      requires lo <= hi < b.Length && b[lo..hi + 1] == s + [last]
      ensures b[lo..hi] == s && b[hi] == last
    {
      assert b[lo..hi] == b[lo..hi + 1][..hi - lo];
      assert b[hi] == b[lo..hi + 1][hi - lo];
    }

    method Record(a: nat, mark: Token)
      requires mark.Mark()
      modifies this`style, this`paramCount, this`params, this`keys
      ensures style == mark.MarkStyle() && paramCount == old(paramCount) + 1
      ensures params == old(params) + [a]
      ensures keys == old(keys) + if mark.Named? then [mark.key] else []
    {
      style := mark.MarkStyle();
      paramCount := paramCount + 1;
      params := params + [a];
      if mark.Named? {
        keys := keys + [mark.key];
      }
    }

    // --- one iteration -------------------------------------------------------------------------

    /** The loop over the three quote characters. */
    method TryQuote(a: nat, end: nat, ghost last: byte) returns (taken: bool)
      requires Framed(a, end)
      modifies this`inLiteral
      ensures Shaped() && taken == IsQuote(buf[a])
      ensures Flags(last) == old(Flags(last)).Toggle(buf[a])
    {
      for i := 0 to 3
        invariant inLiteral == old(inLiteral)
        invariant forall j :: 0 <= j < i ==> buf[a] != LITERALS[j]
      {
        if buf[a] == LITERALS[i] {
          inLiteral := inLiteral[i := !inLiteral[i]];
          return true;
        }
      }
      assert buf[a] != LITERALS[0] && buf[a] != LITERALS[1] && buf[a] != LITERALS[2];
      return false;
    }

    /** A `%` placeholder at the scan point: refused if the styles clash, else rewritten. */
    method TakeMark(a: nat, end: nat, mark: Token) returns (end': nat, ok: bool)
      requires Framed(a, end) && mark.Mark()
      requires mark.Size() <= |Rest(a, end)|
      modifies this`style, this`paramCount, this`params, this`keys, buf
      ensures ok == !old(Clash(mark))
      ensures ok ==> Moved(a + 1, end', mark, a, old(buf[..a]), old(Rest(a, end)))
      ensures ok ==> Recorded(mark, a, old(style), old(paramCount), old(params), old(keys))
    {
      if Clash(mark) {
        return end, false;
      }
      end' := Collapse(a, end, mark.Size());
      Record(a, mark);
      ok := true;
    }

    /** The key of a `%(key)s` at the scan point, if there is one. */
    method ReadKey(a: nat, end: nat, ghost o: StepOut, ghost s: State) returns (mark: Token)
      requires Framed(a, end) && a <= end && buf[a] == PERCENT && s.last != BACKSLASH
      requires buf[a + 1] == LPAREN && o == PlainStep(s, Rest(a, end))
      ensures o.token.Mark() ==> mark == o.token && mark.Size() <= |Rest(a, end)|
      ensures !o.token.Mark() ==> mark.Text?
    {
      ghost var r := Rest(a, end);
      Peek(a, end, 0);
      Peek(a, end, 1);
      var keyEnd := FindKeyEnd(a + 1, end);
      assert r[1..] == Rest(a + 1, end);
      mark := Text([]);
      if keyEnd >= 0 {
        SubSlice(buf, a, end + 1, 2, keyEnd - a);
        mark := Named(buf[a + 2..keyEnd]);
      }
    }

    /** `%s`, `%d` or `%(key)s` at the scan point, if there is one. */
    method TryPercent(a: nat, end: nat, ghost o: StepOut, ghost s: State) returns (end': nat, taken: bool, ok: bool)
      requires Framed(a, end) && a <= end && buf[a] == PERCENT && s.last != BACKSLASH
      requires o == PlainStep(s, Rest(a, end))
      modifies this`style, this`paramCount, this`params, this`keys, buf
      ensures taken == o.token.Mark() && ok == !old(Clash(o.token))
      ensures taken && ok ==> Moved(a + 1, end', o.token, a, old(buf[..a]), old(Rest(a, end)))
      ensures ok ==> Recorded(o.token, a, old(style), old(paramCount), old(params), old(keys))
      ensures !taken ==> end' == end && buf[..] == old(buf[..])
    {
      var mark := Text([]);
      Peek(a, end, 0);
      Peek(a, end, 1);
      if buf[a + 1] == LOWER_S || buf[a + 1] == LOWER_D {
        mark := Percent(buf[a + 1]);
      } else if buf[a + 1] == LPAREN {
        mark := ReadKey(a, end, o, s);
      }
      assert mark.Mark() == o.token.Mark();
      end', taken, ok := end, mark.Mark(), true;
      if taken {
        end', ok := TakeMark(a, end, mark);
      }
    }

    /** A byte outside literals, block comments and line comments. */
    method Plain(a: nat, end: nat, last: byte, ghost o: StepOut)
      returns (a': nat, end': nat, last': byte, ok: bool)
      requires Framed(a, end) && a <= end
      requires o == PlainStep(Flags(last), Rest(a, end))
      modifies this`command, this`style, this`paramCount, this`params, this`keys, buf
      ensures ok == !old(Clash(o.token))
      ensures ok ==> Consumed(a', end', last', o, a, old(buf[..a]), old(Rest(a, end)))
      ensures ok ==> Recorded(o.token, a, old(style), old(paramCount), old(params), old(keys))
    {
      a', end', last', ok := a + 1, end, last, true;
      Peek(a, end, 0);
      TextConsumed(a, end, 1);
      if buf[a] == QMARK {
        if Clash(Question) {
          ok := false;
          return;
        }
        Record(a, Question);
        return;
      }
      if buf[a] == PERCENT && last != BACKSLASH {
        var taken;
        end', taken, ok := TryPercent(a, end, o, Flags(last));
        if taken {
          return;
        }
        assert Rest(a, end) == buf[..][a..end + 1];
      }
      command := DetectCommand(a, end);
      last' := buf[a];
    }

    /** Mixing placeholder styles is refused. */
    predicate Clash(mark: Token)
      reads this`style
    {
      mark.Mark() && style != NoStyle && style != mark.MarkStyle()
    }

    /** The scan point moved over one token: its rewritten spelling is behind, the rest ahead. */
    ghost predicate Moved(p: nat, end': nat, t: Token, a: nat, before: seq<byte>, rest: seq<byte>)
      reads this, buf
      requires t.Size() <= |rest|
    {
      && Framed(p, end')
      && p == a + |t.Shown()|
      && buf[..p] == before + t.Shown()
      && Rest(p, end') == rest[t.Size()..]
    }

    ghost predicate Consumed(a': nat, end': nat, last': byte, o: StepOut,
                             a: nat, before: seq<byte>, rest: seq<byte>)
      reads this, buf
      requires o.token.Size() <= |rest|
    {
      && Moved(if a' == end' + 2 then end' + 1 else a', end', o.token, a, before, rest)
      && Flags(last') == o.next
    }

    ghost predicate Recorded(t: Token, a: nat, style0: Style, count0: nat, params0: seq<nat>, keys0: seq<seq<byte>>)
      reads this
    {
      if t.Mark() then
        && style == t.MarkStyle() && paramCount == count0 + 1
        && params == params0 + [a] && keys == keys0 + if t.Named? then [t.key] else []
      else
        style == style0 && paramCount == count0 && params == params0 && keys == keys0
    }

    lemma Peek(a: nat, end: nat, i: nat)
      requires Framed(a, end) && a + i <= end + 1
      ensures buf[a + i] == At(Rest(a, end), i)
    {
    }

    /** A token of text leaves the buffer alone. */
    lemma TextConsumed(a: nat, end: nat, n: nat)
      requires a + n <= end + 1 < buf.Length
      ensures buf[..a + n] == buf[..a] + Rest(a, end)[..n]
      ensures Rest(a + n, end) == Rest(a, end)[n..]
    {
    }

    /** Style 2 and style 3 comments: the bytes that start one are read here. */
    method SkipLineIntro(a: nat, end: nat) returns (a': nat, started: bool)
      requires Framed(a, end) && a <= end
      ensures a' == a + LineSkip(Rest(a, end)) && started == (a' > a)
    {
      a', started := a, false;
      Peek(a, end, 0);
      if buf[a'] == HASH {
        a', started := a' + 1, true;
      }
      Peek(a, end, a' - a);
      if buf[a'] == DASH && buf[a' + 1] == DASH {
        Peek(a, end, a' + 1 - a);
        if a' + 2 < end && buf[a' + 2] == SPACE {
          Peek(a, end, a' + 2 - a);
          a', started := a' + 3, true;
        } else if a' + 2 <= end {
          Peek(a, end, a' + 2 - a);
        }
      } else if a' <= end {
        Peek(a, end, a' + 1 - a);
      }
    }

    /** The start of a block comment, which is entered unless it is a conditional one that applies. */
    method OpenByte(a: nat, end: nat, ghost o: StepOut, ghost s: State) returns (a': nat, entered: bool)
      requires Framed(a, end) && a <= end
      requires !s.InLiteral() && !s.inComment && buf[a] == SLASH && buf[a + 1] == STAR
      requires o == Step(server, s, Rest(a, end))
      ensures Moved(a', end, o.token, a, buf[..a], Rest(a, end)) && o.token.Text?
      ensures o.next == s.(inComment := entered)
    {
      Peek(a, end, 0);
      Peek(a, end, 1);
      a', entered := OpenBlock(a, end);
      TextConsumed(a, end, a' - a);
    }

    /** Inside a block comment only its end matters. */
    method BlockByte(a: nat, end: nat, ghost o: StepOut, ghost s: State) returns (a': nat, closed: bool)
      requires Framed(a, end) && a <= end
      requires !IsQuote(buf[a]) && !s.InLiteral() && s.inComment
      requires o == Step(server, s, Rest(a, end))
      ensures Moved(a', end, o.token, a, buf[..a], Rest(a, end)) && o.token.Text?
      ensures o.next == s.(inComment := !closed)
    {
      Peek(a, end, 0);
      Peek(a, end, 1);
      closed := buf[a] == STAR && buf[a + 1] == SLASH;
      a' := if closed then a + 2 else a + 1;
      TextConsumed(a, end, a' - a);
    }

    /** A line comment, if one starts or goes on here. */
    method LineByte(a: nat, end: nat, ghost o: StepOut, ghost s: State) returns (a': nat, inLine: bool, eol: bool)
      requires Framed(a, end) && a <= end
      requires !IsQuote(buf[a]) && !s.InLiteral() && !s.inComment && s.eol == commentEol
      requires !(buf[a] == SLASH && buf[a + 1] == STAR)
      requires o == Step(server, s, Rest(a, end))
      ensures a' <= end + 2
      ensures inLine ==> o.token.Text? && o.next == s.(eol := eol)
      ensures inLine ==>
        Moved(if a' == end + 2 then end + 1 else a', end, o.token, a, buf[..a], Rest(a, end))
      ensures !inLine ==> o == PlainStep(s, Rest(a, end))
    {
      Peek(a, end, 0);
      Peek(a, end, 1);
      var started;
      a', started := SkipLineIntro(a, end);
      inLine, eol := commentEol || started, false;
      if inLine {
        Peek(a, end, a' - a);
        eol := buf[a'] != NUL && buf[a'] != NEWLINE;
        TextConsumed(a, end, if a' <= end then a' + 1 - a else a' - a);
        a' := a' + 1;
      }
    }

    /** Line comments and plain bytes. */
    method LineOrPlain(a: nat, end: nat, last: byte, ghost o: StepOut)
      returns (a': nat, end': nat, last': byte, ok: bool)
      requires Framed(a, end) && a <= end
      requires !IsQuote(buf[a]) && !Flags(last).InLiteral() && !inComment && !(buf[a] == SLASH && buf[a + 1] == STAR)
      requires o == Step(server, Flags(last), Rest(a, end))
      modifies this`command, this`style, this`paramCount, this`params, this`keys, this`commentEol, buf
      ensures ok == !old(Clash(o.token))
      ensures ok ==> Consumed(a', end', last', o, a, old(buf[..a]), old(Rest(a, end)))
      ensures ok ==> Recorded(o.token, a, old(style), old(paramCount), old(params), old(keys))
    {
      end', last', ok := end, last, true;
      var inLine, eol;
      a', inLine, eol := LineByte(a, end, o, Flags(last));
      if inLine {
        commentEol := eol;
        return;
      }
      a', end', last', ok := Plain(a, end, last, o);
    }

    /** Block comments, line comments and plain bytes; the scan point is not in a literal. */
    method Outside(a: nat, end: nat, last: byte, ghost o: StepOut)
      returns (a': nat, end': nat, last': byte, ok: bool)
      requires Framed(a, end) && a <= end
      requires !IsQuote(buf[a]) && !Flags(last).InLiteral()
      requires o == Step(server, Flags(last), Rest(a, end))
      modifies this`command, this`style, this`paramCount, this`params, this`keys,
               this`inComment, this`commentEol, buf
      ensures ok == !old(Clash(o.token))
      ensures ok ==> Consumed(a', end', last', o, a, old(buf[..a]), old(Rest(a, end)))
      ensures ok ==> Recorded(o.token, a, old(style), old(paramCount), old(params), old(keys))
    {
      a', end', last', ok := a, end, last, true;
      if inComment {
        var closed;
        a', closed := BlockByte(a, end, o, Flags(last));
        inComment := !closed;
        return;
      }
      if buf[a] == SLASH && buf[a + 1] == STAR {
        a', inComment := OpenByte(a, end, o, Flags(last));
        return;
      }
      a', end', last', ok := LineOrPlain(a, end, last, o);
    }

    /** One iteration of the scanning loop, from its `cont` label. */
    method Advance(a: nat, end: nat, last: byte, ghost o: StepOut)
      returns (a': nat, end': nat, last': byte, jump: bool, ok: bool)
      requires Framed(a, end) && a <= end
      requires o == Step(server, Flags(last), Rest(a, end))
      modifies this`command, this`style, this`paramCount, this`params, this`keys,
               this`inComment, this`commentEol, this`inLiteral, buf
      ensures ok == !old(Clash(o.token))
      ensures jump == IsQuote(old(buf[a])) && (jump ==> ok && a' == a + 1)
      ensures ok ==> Consumed(a', end', last', o, a, old(buf[..a]), old(Rest(a, end)))
      ensures ok ==> Recorded(o.token, a, old(style), old(paramCount), old(params), old(keys))
    {
      Peek(a, end, 0);
      TextConsumed(a, end, 1);
      jump := TryQuote(a, end, last);
      if jump {
        return a + 1, end, last, true, true;
      }
      if inLiteral[0] || inLiteral[1] || inLiteral[2] {
        return a + 1, end, last, false, true;
      }
      a', end', last', ok := Outside(a, end, last, o);
    }

    /** The iteration on the terminating NUL, reached when a quote is the last byte. */
    method OnTerminator(a: nat, end: nat, last: byte) returns (last': byte)
      requires Framed(a, end) && a == end + 1
      modifies this`command, this`commentEol
      ensures Shaped() && Flags(last') == old(Flags(last)).Terminator()
    {
      last' := last;
      if inLiteral[0] || inLiteral[1] || inLiteral[2] || inComment {
        return;
      }
      if commentEol {
        commentEol := false;
        return;
      }
      assert Rest(a, end) == [];
      command := DetectCommand(a, end);
      assert CommandFrom([], 0) == CmdOther;
      last' := buf[a];
    }

    // --- the whole scan ------------------------------------------------------------------------

    /** What is true at the head of the scanning loop, `done` being the tokens behind. */
    ghost predicate Scanned(statement: seq<byte>, a: nat, end: nat, last: byte, jump: bool, done: seq<Token>)
      reads this, buf
    {
      var p := if a == end + 2 then end + 1 else a;
      && Framed(p, end)
      && (jump ==> a <= end + 1)
      && buf[..p] == Shown(done)
      && Tokenize(server, START, statement) == done + Tokenize(server, Flags(last), Rest(p, end))
      && Final(server, START, statement, false) == Final(server, Flags(last), Rest(p, end), jump)
      && Uniform(done) && style == StyleOf(done)
      && params == Offsets(done) && paramCount == |Marks(done)| && keys == Keys(done)
    }

    /** One iteration keeps `Scanned`, or stops on a second placeholder style. */
    method Iterate(ghost statement: seq<byte>, a: nat, end: nat, last: byte, ghost jump: bool, ghost done: seq<Token>)
      returns (a': nat, end': nat, last': byte, jump': bool, ok: bool, ghost done': seq<Token>)
      requires Scanned(statement, a, end, last, jump, done) && a <= end
      modifies this`command, this`style, this`paramCount, this`params, this`keys,
               this`inComment, this`commentEol, this`inLiteral, buf
      ensures ok ==> Scanned(statement, a', end', last', jump', done')
      ensures ok ==> (if a' <= end' then end' + 1 - a' else 0) < end + 1 - a
      ensures !ok ==> !Uniform(Tokenize(server, START, statement))
    {
      ghost var s, r := Flags(last), Rest(a, end);
      ghost var o := Step(server, s, r);
      assert r[0] == buf[a];
      Unroll(server, s, r, done);
      a', end', last', jump', ok := Advance(a, end, last, o);
      done' := done + [o.token];
      if ok {
        UniformSnoc(done, o.token);
        Extended(a, done, o.token);
      } else {
        ClashBreaksUniform(done, o.token, Tokenize(server, o.next, r[o.token.Size()..]));
      }
    }

    /** The records of the tokens behind and of one more token. */
    lemma {:induction false} Extended(a: nat, done: seq<Token>, t: Token)
      requires a == |Shown(done)|
      requires Recorded(t, a, StyleOf(done), |Marks(done)|, Offsets(done), Keys(done))
      ensures Shown(done + [t]) == Shown(done) + t.Shown()
      ensures style == StyleOf(done + [t]) && paramCount == |Marks(done + [t])|
      ensures params == Offsets(done + [t]) && keys == Keys(done + [t])
    {
      Snoc(done, t);
    }

    /** The buffer holds the rewritten text and the fields describe its placeholders. */
    ghost predicate Holds(ts: seq<Token>, cmd: Command)
      reads this, buf
    {
      && length <= buf.Length && buf[..length] == Shown(ts)
      && params == Offsets(ts) && paramCount == |Marks(ts)|
      && keys == Keys(ts) && style == StyleOf(ts) && command == cmd
    }

    /**
      The in-place scan refines the tokenizer.  It succeeds exactly when the statement is not
      empty and keeps to one placeholder style; then the buffer holds the rewritten text and
      the record says where every placeholder is, under which key, and which command it is.
     */
    method Parse(ghost statement: seq<byte>) returns (ok: bool)
      requires length == |statement| && buf.Length == |statement| + 1
      requires buf[..|statement|] == statement && buf[|statement|] == NUL
      requires Shaped() && Flags(NUL) == START
      requires style == NoStyle && paramCount == 0 && params == [] && keys == []
      modifies this, buf
      ensures ok <==> statement != [] && Uniform(Tokenize(server, START, statement))
      ensures ok ==> Holds(Tokenize(server, START, statement), Final(server, START, statement, false).command)
    {
      if length == 0 {
        return false;
      }
      var a: nat, end: nat, last, jump := 0, length - 1, NUL, false;
      ghost var done: seq<Token> := [];
      Begin(statement);
      while a <= end || jump
        invariant Scanned(statement, a, end, last, jump, done)
        decreases (if a <= end then end + 1 - a else 0), jump
      {
        if a <= end {
          a, end, last, jump, ok, done := Iterate(statement, a, end, last, jump, done);
          if !ok {
            return;
          }
        } else {
          last := Terminate(statement, a, end, last, done);
          a, jump := a + 1, false;
        }
      }
      length := end + 1;
      Finish(statement, a, end, last, done);
      ok := true;
    }

    lemma {:induction false} Begin(statement: seq<byte>)
      requires statement != [] && buf.Length == |statement| + 1
      requires buf[..|statement|] == statement && buf[|statement|] == NUL
      requires Shaped() && Flags(NUL) == START
      requires style == NoStyle && paramCount == 0 && params == [] && keys == []
      ensures Scanned(statement, 0, |statement| - 1, NUL, false, [])
    {
      assert Rest(0, |statement| - 1) == statement && buf[..0] == [];
    }

    method Terminate(ghost statement: seq<byte>, a: nat, end: nat, last: byte, ghost done: seq<Token>)
      returns (last': byte)
      requires Scanned(statement, a, end, last, true, done) && a == end + 1
      modifies this`command, this`commentEol
      ensures Scanned(statement, a + 1, end, last', false, done)
    {
      assert Rest(a, end) == [];
      last' := OnTerminator(a, end, last);
    }

    lemma {:induction false} Finish(statement: seq<byte>, a: nat, end: nat, last: byte, done: seq<Token>)
      requires Scanned(statement, a, end, last, false, done) && a > end && length == end + 1
      ensures Uniform(Tokenize(server, START, statement))
      ensures Holds(Tokenize(server, START, statement), Final(server, START, statement, false).command)
    {
      assert Rest(end + 1, end) == [];
      assert done == Tokenize(server, START, statement);
    }
  }

  lemma {:induction false} Unroll(server: nat, s: State, r: seq<byte>, done: seq<Token>)
    requires r != []
    ensures var o := Step(server, s, r);
      && done + Tokenize(server, s, r)
         == done + [o.token] + Tokenize(server, o.next, r[o.token.Size()..])
      && (forall jump ::
            Final(server, s, r, jump) == Final(server, o.next, r[o.token.Size()..], IsQuote(r[0])))
  {
  }

  lemma {:induction false} StyleOfMark(ts: seq<Token>)
    ensures StyleOf(ts) != NoStyle ==> exists i :: 0 <= i < |ts| && ts[i].Mark() && ts[i].MarkStyle() == StyleOf(ts)
    ensures StyleOf(ts) == NoStyle ==> forall i :: 0 <= i < |ts| ==> !ts[i].Mark()
  {
    if ts != [] {
      var ts' := ts[..|ts| - 1];
      StyleOfMark(ts');
      if ts[|ts| - 1].Mark() {
        assert ts[|ts| - 1].MarkStyle() == StyleOf(ts);
      } else if StyleOf(ts') != NoStyle {
        var i :| 0 <= i < |ts'| && ts'[i].Mark() && ts'[i].MarkStyle() == StyleOf(ts');
        assert ts[i] == ts'[i];
      }
    }
  }

  lemma {:induction false} UniformSnoc(ts: seq<Token>, t: Token)
    requires Uniform(ts)
    requires !(t.Mark() && StyleOf(ts) != NoStyle && StyleOf(ts) != t.MarkStyle())
    ensures Uniform(ts + [t])
  {
    StyleOfMark(ts);
  }

  lemma {:induction false} ClashBreaksUniform(ts: seq<Token>, t: Token, rest: seq<Token>)
    requires t.Mark() && StyleOf(ts) != NoStyle && StyleOf(ts) != t.MarkStyle()
    ensures !Uniform(ts + [t] + rest)
  {
    StyleOfMark(ts);
    var i :| 0 <= i < |ts| && ts[i].Mark() && ts[i].MarkStyle() == StyleOf(ts);
    var all := ts + [t] + rest;
    assert all[i] == ts[i] && all[|ts|] == t;
  }
}
