/** Cursor._substitute_parameters: values spliced in at the recorded offsets. */
module Substitution {
  import opened Bytes
  import opened Tokens
  import opened Utf8

  /** A parameter value, as far as the substitution tells values apart. */
  datatype Value =
    | NoneValue
    | NullIndicator
    | DefaultIndicator
    | OtherIndicator                 // IGNORE, IGNORE_ROW: no branch assigns `replace`
    | Number(text: seq<rune>)        // its str()
    | BytesValue(bytes: seq<byte>)
    | DateValue(text: seq<rune>)     // str() of a date or datetime
    | TextValue(text: seq<rune>)     // str() of anything else

  const NULL_TEXT: seq<rune> := [78, 85, 76, 76]
  const DEFAULT_TEXT: seq<rune> := [68, 69, 70, 65, 85, 76, 84]
  const APOSTROPHE: seq<rune> := [39]

  type Escape = seq<rune> -> seq<rune>

  function Latin1(b: seq<byte>): seq<rune> {
    seq(|b|, i requires 0 <= i < |b| => b[i] as rune)
  }

  function Rendered(esc: Escape, v: Value): seq<rune>
    requires !v.OtherIndicator?
  {
    match v
    case NoneValue => NULL_TEXT
    case NullIndicator => NULL_TEXT
    case DefaultIndicator => DEFAULT_TEXT
    case Number(t) => t
    case BytesValue(b) => APOSTROPHE + esc(Latin1(b)) + APOSTROPHE
    case DateValue(t) => APOSTROPHE + esc(t) + APOSTROPHE
    case TextValue(t) => APOSTROPHE + esc(t) + APOSTROPHE
  }

  /** The text in `replace` when value `i` is spliced in; an unknown indicator keeps the last one. */
  function Replacement(esc: Escape, values: seq<Value>, i: nat): seq<rune>
    requires i < |values| && !values[0].OtherIndicator?
  {
    if values[i].OtherIndicator? then Replacement(esc, values, i - 1) else Rendered(esc, values[i])
  }

  /** The bytes spliced in for each value. */
  function Fills(esc: Escape, values: seq<Value>): (f: seq<seq<byte>>)
    requires values != [] ==> !values[0].OtherIndicator?
    ensures |f| == |values|
  {
    seq(|values|, i requires 0 <= i < |values| => EncodeAll(Replacement(esc, values, i)))
  }

  /** The width the loop accounts for: bytes for str() values, characters for everything else. */
  function Width(esc: Escape, values: seq<Value>, i: nat): nat
    requires i < |values| && !values[0].OtherIndicator?
  {
    if values[i].TextValue? || values[i].DateValue? then |EncodeAll(Replacement(esc, values, i))|
    else |Replacement(esc, values, i)|
  }

  function Widths(esc: Escape, values: seq<Value>): (w: seq<nat>)
    requires values != [] ==> !values[0].OtherIndicator?
    ensures |w| == |values|
  {
    seq(|values|, i requires 0 <= i < |values| => Width(esc, values, i))
  }

  // --- splicing with a running difference ------------------------------------------------------

  /** A Python slice bound. */
  function Bound(s: seq<byte>, k: int): (i: nat)
    ensures i <= |s|
  {
    if k > |s| then |s| else if k >= 0 then k else if k + |s| >= 0 then k + |s| else 0
  }

  function SpliceAt(s: seq<byte>, k: int, fill: seq<byte>): seq<byte> {
    s[..Bound(s, k)] + fill + s[Bound(s, k + 1)..]
  }

  /** `replace_diff` after the values with these widths. */
  function Shift(widths: seq<nat>): int {
    if widths == [] then 0 else Shift(widths[..|widths| - 1]) + widths[|widths| - 1] - 1
  }

  /** One splice after the other, each at its offset moved by the running difference. */
  function Splice(s: seq<byte>, offsets: seq<nat>, fills: seq<seq<byte>>, widths: seq<nat>): seq<byte>
    requires |offsets| == |fills| == |widths|
    decreases |offsets|
  {
    if offsets == [] then s
    else
      var n := |offsets| - 1;
      SpliceAt(Splice(s, offsets[..n], fills[..n], widths[..n]), offsets[n] + Shift(widths[..n]), fills[n])
  }

  function Lengths(fills: seq<seq<byte>>): (w: seq<nat>)
    ensures |w| == |fills|
  {
    seq(|fills|, i requires 0 <= i < |fills| => |fills[i]|)
  }

  ghost predicate Offsets?(s: seq<byte>, offsets: seq<nat>) {
    Increasing(offsets) && forall i :: 0 <= i < |offsets| ==> offsets[i] < |s| && s[offsets[i]] == QMARK
  }

  lemma {:induction false} OffsetsPrefix(s: seq<byte>, offsets: seq<nat>, n: nat)
    requires Offsets?(s, offsets) && n <= |offsets|
    ensures Offsets?(s, offsets[..n])
  {
  }

  lemma {:induction false} FillLength(s: seq<byte>, offsets: seq<nat>, fills: seq<seq<byte>>)
    requires Offsets?(s, offsets) && |offsets| == |fills|
    ensures |Fill(s, offsets, fills)| == |s| + Shift(Lengths(fills))
    decreases |offsets|
  {
    if offsets != [] {
      var n := |offsets| - 1;
      var p := offsets[n];
      assert Offsets?(s[..p], offsets[..n]);
      FillLength(s[..p], offsets[..n], fills[..n]);
      assert Lengths(fills)[..n] == Lengths(fills[..n]);
    }
  }

  /** With exact widths the splices fill all at once. */
  lemma {:induction false} SpliceExact(s: seq<byte>, offsets: seq<nat>, fills: seq<seq<byte>>)
    requires Offsets?(s, offsets) && |offsets| == |fills|
    ensures Splice(s, offsets, fills, Lengths(fills)) == Fill(s, offsets, fills)
    decreases |offsets|
  {
    if offsets != [] {
      var n := |offsets| - 1;
      OffsetsPrefix(s, offsets, n);
      SpliceExact(s, offsets[..n], fills[..n]);
      SpliceLast(s, offsets, fills);
      FillNext(s, offsets, fills);
    }
  }

  lemma {:induction false} SpliceLast(s: seq<byte>, offsets: seq<nat>, fills: seq<seq<byte>>)
    requires |offsets| == |fills| > 0
    ensures var n := |offsets| - 1;
      var widths := Lengths(fills[..n]);
      Splice(s, offsets, fills, Lengths(fills))
      == SpliceAt(Splice(s, offsets[..n], fills[..n], widths), offsets[n] + Shift(widths), fills[n])
  {
    assert Lengths(fills)[..|fills| - 1] == Lengths(fills[..|fills| - 1]);
  }

  lemma {:induction false} SpliceStep(s: seq<byte>, offsets: seq<nat>, fills: seq<seq<byte>>, widths: seq<nat>)
    requires |offsets| == |fills| == |widths| > 0
    ensures var n := |offsets| - 1;
      Splice(s, offsets, fills, widths)
      == SpliceAt(Splice(s, offsets[..n], fills[..n], widths[..n]), offsets[n] + Shift(widths[..n]), fills[n])
  {
  }

  /** The width of the last value does not matter. */
  lemma {:induction false} SpliceRight(s: seq<byte>, offsets: seq<nat>, fills: seq<seq<byte>>, widths: seq<nat>)
    requires Offsets?(s, offsets) && |offsets| == |fills| == |widths|
    requires forall i :: 0 <= i < |widths| - 1 ==> widths[i] == |fills[i]|
    ensures Splice(s, offsets, fills, widths) == Fill(s, offsets, fills)
  {
    if offsets != [] {
      var n := |offsets| - 1;
      OffsetsPrefix(s, offsets, n);
      SpliceExact(s, offsets[..n], fills[..n]);
      assert widths[..n] == Lengths(fills[..n]);
      SpliceStep(s, offsets, fills, widths);
      FillNext(s, offsets, fills);
    }
  }

  /** Filling up to the last offset, and the splice that is left to do. */
  lemma {:induction false} FillNext(s: seq<byte>, offsets: seq<nat>, fills: seq<seq<byte>>)
    requires Offsets?(s, offsets) && |offsets| == |fills| > 0
    ensures var n := |offsets| - 1;
      Offsets?(s, offsets[..n]) &&
      Fill(s, offsets, fills)
      == SpliceAt(Fill(s, offsets[..n], fills[..n]), offsets[n] + Shift(Lengths(fills[..n])), fills[n])
  {
    var n := |offsets| - 1;
    var p := offsets[n];
    var front := Fill(s[..p], offsets[..n], fills[..n]);
    FillPrefix(s, p, offsets[..n], fills[..n]);
    assert Offsets?(s[..p], offsets[..n]);
    FillLength(s[..p], offsets[..n], fills[..n]);
    SpliceMiddle(front, s[p..], fills[n]);
    assert s[p..][1..] == s[p + 1..];
  }

  lemma {:induction false} SpliceMiddle(front: seq<byte>, tail: seq<byte>, fill: seq<byte>)
    requires tail != []
    ensures SpliceAt(front + tail, |front|, fill) == front + fill + tail[1..]
  {
  }

  // --- what a wrong width does ---------------------------------------------------------------------

  ghost predicate EndsWith(s: seq<byte>, t: seq<byte>) {
    |t| <= |s| && s[|s| - |t|..] == t
  }

  lemma {:induction false} OffsetAtLeast(s: seq<byte>, offsets: seq<nat>, i: nat)
    requires Offsets?(s, offsets) && i < |offsets|
    ensures offsets[i] >= i
  {
    if i > 0 {
      OffsetAtLeast(s, offsets, i - 1);
    }
  }

  /** No width is larger than the bytes spliced in. */
  ghost predicate Under(widths: seq<nat>, fills: seq<seq<byte>>) {
    |widths| == |fills| && forall i :: 0 <= i < |widths| ==> widths[i] <= |fills[i]|
  }

  lemma {:induction false} UnderPrefix(widths: seq<nat>, fills: seq<seq<byte>>, n: nat)
    requires Under(widths, fills) && n <= |widths|
    ensures Under(widths[..n], fills[..n])
  {
  }

  lemma {:induction false} ShiftBounds(widths: seq<nat>, fills: seq<seq<byte>>)
    requires Under(widths, fills)
    ensures -|widths| <= Shift(widths) <= Shift(Lengths(fills))
    decreases |widths|
  {
    if widths != [] {
      var n := |widths| - 1;
      UnderPrefix(widths, fills, n);
      ShiftBounds(widths[..n], fills[..n]);
      LengthsSnoc(fills);
    }
  }

  /** One width that is too small makes the difference too small. */
  lemma {:induction false} ShiftStrict(widths: seq<nat>, fills: seq<seq<byte>>, i: nat)
    requires Under(widths, fills) && i < |widths| && widths[i] < |fills[i]|
    ensures Shift(widths) < Shift(Lengths(fills))
    decreases |widths|
  {
    var n := |widths| - 1;
    UnderPrefix(widths, fills, n);
    LengthsSnoc(fills);
    if i < n {
      ShiftStrict(widths[..n], fills[..n], i);
    } else {
      ShiftBounds(widths[..n], fills[..n]);
    }
  }

  lemma {:induction false} LengthsSnoc(fills: seq<seq<byte>>)
    requires fills != []
    ensures var n := |fills| - 1;
      Shift(Lengths(fills)) == Shift(Lengths(fills[..n])) + |fills[n]| - 1
  {
    assert Lengths(fills)[..|fills| - 1] == Lengths(fills[..|fills| - 1]);
  }

  /** `r` has grown by `grow` bytes out of `s`, all of them in front of what was at offset `q`. */
  ghost predicate Kept(r: seq<byte>, s: seq<byte>, grow: int, q: nat) {
    q <= |s| && |r| == |s| + grow && EndsWith(r, s[q..])
  }

  lemma {:induction false} SpliceEarly(s: seq<byte>, tail: seq<byte>, k: nat, fill: seq<byte>, cut: nat)
    requires EndsWith(s, tail) && k <= |s| - |tail| && tail != []
    requires cut <= |tail| && (cut > 0 || k < |s| - |tail|)
    ensures |SpliceAt(s, k, fill)| == |s| + |fill| - 1
    ensures EndsWith(SpliceAt(s, k, fill), tail[cut..])
  {
    var r := SpliceAt(s, k, fill);
    var m := |tail| - cut;
    assert r == s[..k] + fill + s[k + 1..];
    assert r[|r| - m..] == s[k + 1..][|s| - k - 1 - m..] == s[|s| - m..];
    assert s[|s| - m..] == s[|s| - |tail|..][cut..];
  }

  /** A splice in front of what was at offset `p` leaves in place what follows. */
  lemma {:induction false} KeptNext(r: seq<byte>, s: seq<byte>, grow: int, p: nat, k: int, fill: seq<byte>, q: nat)
    requires p < |s| && Kept(r, s, grow, p) && 0 <= k <= p + grow
    requires p <= q <= |s| && (p < q || k < p + grow)
    ensures Kept(SpliceAt(r, k, fill), s, grow + |fill| - 1, q)
  {
    SpliceEarly(r, s[p..], k, fill, q - p);
    assert s[p..][q - p..] == s[q..];
  }

  /** The last splice falls at or before where its placeholder has moved to. */
  lemma {:induction false} SplicePoint(s: seq<byte>, offsets: seq<nat>, fills: seq<seq<byte>>, widths: seq<nat>)
    requires Offsets?(s, offsets) && |offsets| == |fills| > 0 && Under(widths, fills)
    ensures var n := |offsets| - 1;
      0 <= offsets[n] + Shift(widths[..n]) <= offsets[n] + Shift(Lengths(fills[..n]))
  {
    var n := |offsets| - 1;
    UnderPrefix(widths, fills, n);
    OffsetAtLeast(s, offsets, n);
    ShiftBounds(widths[..n], fills[..n]);
  }

  /** Too small a difference splices too early: the text behind the last offset is untouched. */
  lemma {:induction false} SpliceKeepsTail(s: seq<byte>, offsets: seq<nat>, fills: seq<seq<byte>>,
                                           widths: seq<nat>, q: nat)
    requires Offsets?(s, offsets) && |offsets| == |fills| && Under(widths, fills)
    requires q <= |s| && (offsets != [] ==> offsets[|offsets| - 1] < q)
    ensures Kept(Splice(s, offsets, fills, widths), s, Shift(Lengths(fills)), q)
    decreases |offsets|
  {
    if offsets != [] {
      KeptBeforeLast(s, offsets, fills, widths);
      LastSplice(s, offsets, fills, widths, q);
    }
  }

  lemma {:induction false} KeptBeforeLast(s: seq<byte>, offsets: seq<nat>, fills: seq<seq<byte>>, widths: seq<nat>)
    requires Offsets?(s, offsets) && |offsets| == |fills| > 0 && Under(widths, fills)
    ensures var n := |offsets| - 1;
      Kept(Splice(s, offsets[..n], fills[..n], widths[..n]), s, Shift(Lengths(fills[..n])), offsets[n])
    decreases |offsets|, 0
  {
    var n := |offsets| - 1;
    OffsetsPrefix(s, offsets, n);
    UnderPrefix(widths, fills, n);
    SpliceKeepsTail(s, offsets[..n], fills[..n], widths[..n], offsets[n]);
  }

  lemma {:induction false} LastSplice(s: seq<byte>, offsets: seq<nat>, fills: seq<seq<byte>>,
                                      widths: seq<nat>, q: nat)
    requires Offsets?(s, offsets) && |offsets| == |fills| > 0 && Under(widths, fills)
    requires var n := |offsets| - 1;
      && Kept(Splice(s, offsets[..n], fills[..n], widths[..n]), s, Shift(Lengths(fills[..n])), offsets[n])
      && offsets[n] <= q <= |s| && (offsets[n] < q || Shift(widths[..n]) < Shift(Lengths(fills[..n])))
    ensures Kept(Splice(s, offsets, fills, widths), s, Shift(Lengths(fills)), q)
  {
    var n := |offsets| - 1;
    SplicePoint(s, offsets, fills, widths);
    var before := Splice(s, offsets[..n], fills[..n], widths[..n]);
    KeptNext(before, s, Shift(Lengths(fills[..n])), offsets[n], offsets[n] + Shift(widths[..n]), fills[n], q);
    SpliceStep(s, offsets, fills, widths);
    LengthsSnoc(fills);
  }

  /** A splice point that is too early leaves the last placeholder where it was. */
  lemma {:induction false} MarkSurvives(s: seq<byte>, offsets: seq<nat>, fills: seq<seq<byte>>, widths: seq<nat>)
    requires Offsets?(s, offsets) && |offsets| == |fills| > 0 && Under(widths, fills)
    requires Shift(widths[..|offsets| - 1]) < Shift(Lengths(fills[..|offsets| - 1]))
    ensures var p := offsets[|offsets| - 1];
      var r := Splice(s, offsets, fills, widths);
      |r| >= |s| - p && r[|r| - (|s| - p)] == s[p]
  {
    var p := offsets[|offsets| - 1];
    KeptBeforeLast(s, offsets, fills, widths);
    LastSplice(s, offsets, fills, widths, p);
    LastByte(Splice(s, offsets, fills, widths), s[p..]);
  }

  /** One width too small before the last value, and the last placeholder is never replaced. */
  lemma {:induction false} SpliceWrong(s: seq<byte>, offsets: seq<nat>, fills: seq<seq<byte>>, widths: seq<nat>)
    requires Offsets?(s, offsets) && |offsets| == |fills| > 0 && Under(widths, fills)
    requires var n := |offsets| - 1;
      Shift(widths[..n]) < Shift(Lengths(fills[..n])) && fills[n] != [] && fills[n][|fills[n]| - 1] != QMARK
    ensures Splice(s, offsets, fills, widths) != Fill(s, offsets, fills)
  {
    MarkSurvives(s, offsets, fills, widths);
    FilledByte(s, offsets, fills);
  }

  lemma {:induction false} FilledByte(s: seq<byte>, offsets: seq<nat>, fills: seq<seq<byte>>)
    requires Offsets?(s, offsets) && |offsets| == |fills| > 0 && fills[|fills| - 1] != []
    ensures var n := |offsets| - 1;
      var at := |Fill(s, offsets, fills)| - (|s| - offsets[n]);
      0 <= at < |Fill(s, offsets, fills)| && Fill(s, offsets, fills)[at] == fills[n][|fills[n]| - 1]
  {
    var n := |offsets| - 1;
    var p := offsets[n];
    var front := Fill(s[..p], offsets[..n], fills[..n]);
    assert Fill(s, offsets, fills) == front + fills[n] + s[p + 1..];
  }

  lemma LastByte(s: seq<byte>, t: seq<byte>)
    requires EndsWith(s, t) && t != []
    ensures s[|s| - |t|] == t[0]
  {
    assert s[|s| - |t|..][0] == t[0];
  }

  // --- the loop -----------------------------------------------------------------------------------

  datatype Outcome = Unbound | Statement(bytes: seq<byte>)

  /** The branches that set `replace` and `extra_bytes` for one value. */
  method Render(esc: Escape, values: seq<Value>, i: nat, previous: seq<rune>)
    returns (replace: seq<rune>, extraBytes: int)
    requires i < |values| && !values[0].OtherIndicator?
    requires i > 0 ==> previous == Replacement(esc, values, i - 1)
    ensures replace == Replacement(esc, values, i)
    ensures Fills(esc, values)[i] == EncodeAll(replace)
    ensures Widths(esc, values)[i] == |replace| + extraBytes
  {
    replace, extraBytes := previous, 0;
    var val := values[i];
    if !val.OtherIndicator? {
      replace := Rendered(esc, val);
      if val.TextValue? || val.DateValue? {
        extraBytes := |EncodeAll(replace)| - |replace|;
      }
    }
  }

  /** The substitution loop computes the successive splices, or fails on an unassigned `replace`. */
  method SubstituteParameters(statement: seq<byte>, offsets: seq<nat>, values: seq<Value>, esc: Escape)
    returns (r: Outcome)
    requires |values| == |offsets|
    ensures r.Unbound? <==> values != [] && values[0].OtherIndicator?
    ensures r.Statement? ==> r.bytes == Splice(statement, offsets, Fills(esc, values), Widths(esc, values))
  {
    if |offsets| > 0 && values[0].OtherIndicator? {
      return Unbound;  // the first pass through the loop reads `replace` before any assignment
    }
    ghost var fills, widths := Fills(esc, values), Widths(esc, values);
    var newStmt, replaceDiff: int := statement, 0;
    var replace: seq<rune> := [];
    var i := 0;
    while i < |offsets|
      invariant 0 <= i <= |offsets|
      invariant i > 0 ==> replace == Replacement(esc, values, i - 1)
      invariant Spliced(statement, offsets, fills, widths, i, newStmt, replaceDiff)
    {
      var extraBytes: int;
      replace, extraBytes := Render(esc, values, i, replace);
      NextSplice(statement, offsets, fills, widths, i, newStmt, replaceDiff);
      var ofs := offsets[i] + replaceDiff;
      newStmt := SpliceAt(newStmt, ofs, EncodeAll(replace));
      replaceDiff := replaceDiff + |replace| - 1 + extraBytes;
      i := i + 1;
    }
    AllSpliced(statement, offsets, fills, widths, newStmt, replaceDiff);
    r := Statement(newStmt);
  }

  /** The loop state after `i` values. */
  ghost predicate Spliced(s: seq<byte>, offsets: seq<nat>, fills: seq<seq<byte>>, widths: seq<nat>,
                          i: nat, newStmt: seq<byte>, replaceDiff: int)
    requires |offsets| == |fills| == |widths| && i <= |offsets|
  {
    && newStmt == Splice(s, offsets[..i], fills[..i], widths[..i])
    && replaceDiff == Shift(widths[..i])
  }

  lemma {:induction false} AllSpliced(s: seq<byte>, offsets: seq<nat>, fills: seq<seq<byte>>, widths: seq<nat>,
                                      newStmt: seq<byte>, replaceDiff: int)
    requires |offsets| == |fills| == |widths|
    requires Spliced(s, offsets, fills, widths, |offsets|, newStmt, replaceDiff)
    ensures newStmt == Splice(s, offsets, fills, widths)
  {
    var n := |offsets|;
    assert offsets[..n] == offsets && fills[..n] == fills && widths[..n] == widths;
  }

  lemma {:induction false} NextSplice(s: seq<byte>, offsets: seq<nat>, fills: seq<seq<byte>>, widths: seq<nat>,
                                      i: nat, newStmt: seq<byte>, replaceDiff: int)
    requires |offsets| == |fills| == |widths| && i < |offsets|
    requires Spliced(s, offsets, fills, widths, i, newStmt, replaceDiff)
    ensures Spliced(s, offsets, fills, widths, i + 1,
                    SpliceAt(newStmt, offsets[i] + replaceDiff, fills[i]), replaceDiff + widths[i] - 1)
  {
    assert offsets[..i + 1][..i] == offsets[..i] && fills[..i + 1][..i] == fills[..i];
    assert widths[..i + 1][..i] == widths[..i];
  }
}
