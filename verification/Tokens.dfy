/**
  What the scanner reads a statement as: runs of untouched text and placeholders in one of
  three styles.  `Source` is the spelling in the original statement, `Shown` the spelling
  after the rewrite, and `Interleave` the statement with every placeholder filled in.
 */
module Tokens {
  import opened Bytes
  import opened Seqs

  datatype Style = NoStyle | Qmark | Format | Pyformat

  datatype Token =
    | Text(bytes: seq<byte>)
    | Question
    | Percent(letter: byte)
    | Named(key: seq<byte>)
  {
    predicate Mark() {
      !Text?
    }

    function MarkStyle(): Style {
      match this
      case Text(_) => NoStyle
      case Question => Qmark
      case Percent(_) => Format
      case Named(_) => Pyformat
    }

    function Source(): seq<byte> {
      match this
      case Text(b) => b
      case Question => [QMARK]
      case Percent(l) => [PERCENT, l]
      case Named(k) => [PERCENT, LPAREN] + k + [RPAREN, LOWER_S]
    }

    function Shown(): seq<byte> {
      if Text? then bytes else [QMARK]
    }

    /** The length of the spelling. */
    function Size(): nat {
      match this
      case Text(b) => |b|
      case Question => 1
      case Percent(_) => 2
      case Named(k) => |k| + 4
    }
  }

  lemma SizeOfSource(t: Token)
    ensures t.Size() == |t.Source()|
  {
  }

  function Source(ts: seq<Token>): seq<byte> {
    if ts == [] then [] else Source(ts[..|ts| - 1]) + ts[|ts| - 1].Source()
  }

  function Shown(ts: seq<Token>): seq<byte> {
    if ts == [] then [] else Shown(ts[..|ts| - 1]) + ts[|ts| - 1].Shown()
  }

  /** The placeholders, in order. */
  function Marks(ts: seq<Token>): seq<Token> {
    if ts == [] then []
    else Marks(ts[..|ts| - 1]) + if ts[|ts| - 1].Mark() then [ts[|ts| - 1]] else []
  }

  /** Where each placeholder's question mark sits in the rewritten text. */
  function Offsets(ts: seq<Token>): seq<nat> {
    if ts == [] then []
    else Offsets(ts[..|ts| - 1]) + if ts[|ts| - 1].Mark() then [|Shown(ts[..|ts| - 1])|] else []
  }

  /** The keys of the named placeholders, in order. */
  function Keys(ts: seq<Token>): seq<seq<byte>> {
    if ts == [] then []
    else Keys(ts[..|ts| - 1]) + if ts[|ts| - 1].Named? then [ts[|ts| - 1].key] else []
  }

  /** All placeholders are written in one style. */
  ghost predicate Uniform(ts: seq<Token>) {
    forall i, j :: 0 <= i < |ts| && 0 <= j < |ts| && ts[i].Mark() && ts[j].Mark() ==>
      ts[i].MarkStyle() == ts[j].MarkStyle()
  }

  /** The style of the last placeholder; of every placeholder when the statement is uniform. */
  function StyleOf(ts: seq<Token>): Style {
    if ts == [] then NoStyle
    else if ts[|ts| - 1].Mark() then ts[|ts| - 1].MarkStyle()
    else StyleOf(ts[..|ts| - 1])
  }

  /** The token sequence with the i-th placeholder replaced by `fills[i]`, all at once. */
  function Interleave(ts: seq<Token>, fills: seq<seq<byte>>): seq<byte>
    requires |fills| == |Marks(ts)|
  {
    if ts == [] then []
    else
      var last := ts[|ts| - 1];
      if last.Mark() then
        Interleave(ts[..|ts| - 1], fills[..|fills| - 1]) + fills[|fills| - 1]
      else
        Interleave(ts[..|ts| - 1], fills) + last.bytes
  }

  ghost predicate Increasing(offsets: seq<nat>) {
    forall i, j :: 0 <= i < j < |offsets| ==> offsets[i] < offsets[j]
  }

  /** The byte at each of the (increasing) offsets replaced by a string, all at once. */
  function Fill(s: seq<byte>, offsets: seq<nat>, fills: seq<seq<byte>>): seq<byte>
    requires |offsets| == |fills|
    requires Increasing(offsets)
    requires forall i :: 0 <= i < |offsets| ==> offsets[i] < |s|
    decreases |offsets|
  {
    if offsets == [] then s
    else
      var n := |offsets| - 1;
      Fill(s[..offsets[n]], offsets[..n], fills[..n]) + fills[n] + s[offsets[n] + 1..]
  }

  // --- one more token at the end -------------------------------------------------------

  lemma {:induction false} Snoc(ts: seq<Token>, t: Token)
    ensures Source(ts + [t]) == Source(ts) + t.Source()
    ensures Shown(ts + [t]) == Shown(ts) + t.Shown()
    ensures Marks(ts + [t]) == Marks(ts) + if t.Mark() then [t] else []
    ensures Offsets(ts + [t]) == Offsets(ts) + if t.Mark() then [|Shown(ts)|] else []
    ensures Keys(ts + [t]) == Keys(ts) + if t.Named? then [t.key] else []
    ensures StyleOf(ts + [t]) == if t.Mark() then t.MarkStyle() else StyleOf(ts)
  {
    assert (ts + [t])[..|ts + [t]| - 1] == ts;
  }

  lemma {:induction false} AppendSource(a: seq<Token>, b: seq<Token>)
    ensures Source(a + b) == Source(a) + Source(b)
    decreases |b|
  {
    if b == [] {
      assert a + b == a;
    } else {
      var b', t := b[..|b| - 1], b[|b| - 1];
      assert (a + b)[..|a + b| - 1] == a + b';
      AppendSource(a, b');
      Regroup(Source(a), Source(b'), t.Source());
    }
  }

  lemma {:induction false} AppendShown(a: seq<Token>, b: seq<Token>)
    ensures Shown(a + b) == Shown(a) + Shown(b)
    decreases |b|
  {
    if b == [] {
      assert a + b == a;
    } else {
      var b', t := b[..|b| - 1], b[|b| - 1];
      assert (a + b)[..|a + b| - 1] == a + b';
      AppendShown(a, b');
      Regroup(Shown(a), Shown(b'), t.Shown());
    }
  }

  lemma {:induction false} Cons(t: Token, ts: seq<Token>)
    ensures Source([t] + ts) == t.Source() + Source(ts)
    ensures Shown([t] + ts) == t.Shown() + Shown(ts)
  {
    One(t);
    AppendSource([t], ts);
    AppendShown([t], ts);
  }

  lemma {:induction false} One(t: Token)
    ensures Source([t]) == t.Source() && Shown([t]) == t.Shown()
  {
    assert [t][..|[t]| - 1] == [];
    assert Source([t]) == [] + t.Source();
    assert Shown([t]) == [] + t.Shown();
  }

  // --- what the recorded offsets mean --------------------------------------------------

  /** Recorded offsets are increasing, in range, one per placeholder, and address a `?`. */
  lemma {:induction false} OffsetsAddressMarks(ts: seq<Token>)
    ensures |Offsets(ts)| == |Marks(ts)|
    ensures Increasing(Offsets(ts))
    ensures forall i :: 0 <= i < |Offsets(ts)| ==>
      Offsets(ts)[i] < |Shown(ts)| && Shown(ts)[Offsets(ts)[i]] == QMARK
  {
    if ts != [] {
      OffsetsAddressMarks(ts[..|ts| - 1]);
    }
  }

  /** In a uniform statement every placeholder has the statement's style. */
  lemma {:induction false} UniformMarks(ts: seq<Token>)
    requires Uniform(ts)
    ensures forall i :: 0 <= i < |Marks(ts)| ==> Marks(ts)[i].Mark() && Marks(ts)[i].MarkStyle() == StyleOf(ts)
    ensures StyleOf(ts) == NoStyle <==> Marks(ts) == []
  {
    if ts != [] {
      var ts', t := ts[..|ts| - 1], ts[|ts| - 1];
      UniformMarks(ts');
      if t.Mark() && Marks(ts') != [] {
        MarkIsToken(ts', 0);
      }
    }
  }

  /** With only named placeholders the keys are exactly theirs, in order; with none, none. */
  lemma {:induction false} KeysOfMarks(ts: seq<Token>)
    ensures (forall i :: 0 <= i < |Marks(ts)| ==> Marks(ts)[i].Named?) ==>
      |Keys(ts)| == |Marks(ts)| && forall i :: 0 <= i < |Keys(ts)| ==> Keys(ts)[i] == Marks(ts)[i].key
    ensures (forall i :: 0 <= i < |Marks(ts)| ==> !Marks(ts)[i].Named?) ==> Keys(ts) == []
  {
    if ts != [] {
      var ts', t := ts[..|ts| - 1], ts[|ts| - 1];
      KeysOfMarks(ts');
      assert forall i :: 0 <= i < |Marks(ts')| ==> Marks(ts)[i] == Marks(ts')[i];
      if t.Mark() {
        assert Marks(ts)[|Marks(ts')|] == t;
      }
    }
  }

  lemma {:induction false} MarkIsToken(ts: seq<Token>, i: nat)
    requires i < |Marks(ts)|
    ensures Marks(ts)[i] in ts && Marks(ts)[i].Mark()
  {
    var ts' := ts[..|ts| - 1];
    if i < |Marks(ts')| {
      MarkIsToken(ts', i);
      assert Marks(ts)[i] == Marks(ts')[i];
    }
  }

  /** Each placeholder loses the bytes of its spelling beyond the one `?`. */
  function Removed(ts: seq<Token>): nat {
    if ts == [] then 0
    else Removed(ts[..|ts| - 1]) + if ts[|ts| - 1].Mark() then ts[|ts| - 1].Size() - 1 else 0
  }

  lemma {:induction false} LengthAccount(ts: seq<Token>)
    ensures |Shown(ts)| + Removed(ts) == |Source(ts)|
  {
    if ts != [] {
      LengthAccount(ts[..|ts| - 1]);
      SizeOfSource(ts[|ts| - 1]);
    }
  }

  // --- filling at offsets is filling the tokens ------------------------------------------

  lemma {:induction false} FillPrefix(s: seq<byte>, cut: nat, offsets: seq<nat>, fills: seq<seq<byte>>)
    requires |offsets| == |fills|
    requires Increasing(offsets)
    requires cut <= |s|
    requires forall i :: 0 <= i < |offsets| ==> offsets[i] < cut
    ensures Fill(s, offsets, fills) == Fill(s[..cut], offsets, fills) + s[cut..]
  {
    if offsets != [] {
      var n := |offsets| - 1;
      var p := offsets[n];
      assert s[..cut][..p] == s[..p];
      assert s[p + 1..] == s[..cut][p + 1..] + s[cut..];
    }
  }

  /** Filling `s` at `offsets` is possible and gives `out`. */
  ghost predicate FillsTo(s: seq<byte>, offsets: seq<nat>, fills: seq<seq<byte>>, out: seq<byte>) {
    && |offsets| == |fills|
    && Increasing(offsets)
    && (forall i :: 0 <= i < |offsets| ==> offsets[i] < |s|)
    && Fill(s, offsets, fills) == out
  }

  lemma {:induction false} FillsSame(s: seq<byte>, offsets: seq<nat>, fills: seq<seq<byte>>, out: seq<byte>,
                                     s': seq<byte>, offsets': seq<nat>, fills': seq<seq<byte>>, out': seq<byte>)
    requires FillsTo(s, offsets, fills, out)
    requires s == s' && offsets == offsets' && fills == fills' && out == out'
    ensures FillsTo(s', offsets', fills', out')
  {
  }

  /** Filling the rewritten text at its offsets is filling the placeholders themselves. */
  lemma {:induction false} FillIsInterleave(ts: seq<Token>, fills: seq<seq<byte>>)
    requires |fills| == |Marks(ts)|
    ensures FillsTo(Shown(ts), Offsets(ts), fills, Interleave(ts, fills))
  {
    if ts != [] {
      var ts', t := ts[..|ts| - 1], ts[|ts| - 1];
      var s, offsets := Shown(ts'), Offsets(ts');
      if t.Mark() {
        var init, fill := fills[..|fills| - 1], fills[|fills| - 1];
        FillIsInterleave(ts', init);
        FillsMark(s, offsets, init, Interleave(ts', init), fill);
        FillsSame(s + [QMARK], offsets + [|s|], init + [fill], Interleave(ts', init) + fill,
                  Shown(ts), Offsets(ts), fills, Interleave(ts, fills));
      } else {
        FillIsInterleave(ts', fills);
        FillsText(s, offsets, fills, Interleave(ts', fills), t.bytes);
        FillsSame(s + t.bytes, offsets, fills, Interleave(ts', fills) + t.bytes,
                  Shown(ts), Offsets(ts), fills, Interleave(ts, fills));
      }
    }
  }

  lemma {:induction false} FillsMark(s: seq<byte>, offsets: seq<nat>, fills: seq<seq<byte>>, out: seq<byte>,
                                     fill: seq<byte>)
    requires FillsTo(s, offsets, fills, out)
    ensures FillsTo(s + [QMARK], offsets + [|s|], fills + [fill], out + fill)
  {
    assert (fills + [fill])[..|offsets|] == fills;
    FillLastMark(s, offsets, fills + [fill]);
  }

  lemma {:induction false} FillsText(s: seq<byte>, offsets: seq<nat>, fills: seq<seq<byte>>, out: seq<byte>,
                                     text: seq<byte>)
    requires FillsTo(s, offsets, fills, out)
    ensures FillsTo(s + text, offsets, fills, out + text)
  {
    FillLastText(s, text, offsets, fills);
  }

  lemma {:induction false} FillLastMark(s: seq<byte>, offsets: seq<nat>, fills: seq<seq<byte>>)
    requires |offsets| + 1 == |fills|
    requires Increasing(offsets)
    requires forall i :: 0 <= i < |offsets| ==> offsets[i] < |s|
    ensures Increasing(offsets + [|s|])
    ensures Fill(s + [QMARK], offsets + [|s|], fills)
         == Fill(s, offsets, fills[..|offsets|]) + fills[|offsets|]
  {
    var n := |offsets|;
    assert (offsets + [|s|])[..n] == offsets;
    assert (s + [QMARK])[..|s|] == s && (s + [QMARK])[|s| + 1..] == [];
  }

  lemma {:induction false} FillLastText(s: seq<byte>, t: seq<byte>, offsets: seq<nat>, fills: seq<seq<byte>>)
    requires |offsets| == |fills|
    requires Increasing(offsets)
    requires forall i :: 0 <= i < |offsets| ==> offsets[i] < |s|
    ensures Fill(s + t, offsets, fills) == Fill(s, offsets, fills) + t
  {
    FillPrefix(s + t, |s|, offsets, fills);
    assert (s + t)[..|s|] == s && (s + t)[|s|..] == t;
  }

  /** The spellings of the placeholders in the original statement. */
  function Spellings(ts: seq<Token>): (r: seq<seq<byte>>)
    ensures |r| == |Marks(ts)|
  {
    seq(|Marks(ts)|, i requires 0 <= i < |Marks(ts)| => Marks(ts)[i].Source())
  }

  /** Putting every spelling back undoes the rewrite. */
  lemma {:induction false} InterleaveSpellings(ts: seq<Token>)
    ensures Interleave(ts, Spellings(ts)) == Source(ts)
  {
    if ts != [] {
      var ts', t := ts[..|ts| - 1], ts[|ts| - 1];
      InterleaveSpellings(ts');
      if t.Mark() {
        assert Spellings(ts)[..|Spellings(ts)| - 1] == Spellings(ts');
      } else {
        assert Spellings(ts) == Spellings(ts');
      }
    }
  }
}
