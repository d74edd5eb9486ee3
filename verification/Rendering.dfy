/**
  Reading a value back from the text it is sent as.  The reader knows the words NULL and
  DEFAULT, takes a text in apostrophes apart and takes everything else for a number.  Of the
  server's escaping it is only assumed that it can be undone and closes no literal.
 */
module Rendering {
  import opened Utf8
  import opened Substitution

  type Decoder = seq<rune> -> seq<rune>

  datatype Literal =
    | NullWord
    | DefaultWord
    | Bare(text: seq<rune>)
    | Quoted(text: seq<rune>)
    | Broken

  predicate IsWord(t: seq<rune>, w: string) {
    |t| == |w| && forall i :: 0 <= i < |w| ==> t[i] == w[i] as int
  }

  /** Where a literal that is read from offset `i` on is closed; a backslash hides the next character. */
  function CloseAt(t: seq<rune>, i: nat): nat
    decreases |t| - i
  {
    if i >= |t| then |t|
    else if t[i] == 39 then i
    else if t[i] == 92 then CloseAt(t, i + 2)
    else CloseAt(t, i + 1)
  }

  function Read(dec: Decoder, t: seq<rune>): Literal {
    if IsWord(t, "NULL") then NullWord
    else if IsWord(t, "DEFAULT") then DefaultWord
    else if t == [] || t[0] != 39 then Bare(t)
    else if |t| >= 2 && CloseAt(t, 1) == |t| - 1 then Quoted(dec(t[1..|t| - 1]))
    else Broken
  }

  ghost predicate Undoes(esc: Escape, dec: Decoder) {
    forall t: seq<rune> :: dec(esc(t)) == t && CloseAt(esc(t) + [39], 0) == |esc(t)|
  }

  /** What a literal must say to stand for a value. */
  ghost predicate Means(l: Literal, v: Value) {
    match v
    case NoneValue => l == NullWord
    case NullIndicator => l == NullWord
    case DefaultIndicator => l == DefaultWord
    case OtherIndicator => false
    case Number(t) => l == Bare(t)
    case BytesValue(b) => l.Quoted? && |l.text| == |b| && forall i :: 0 <= i < |b| ==> l.text[i] == b[i] as int
    case DateValue(t) => l == Quoted(t)
    case TextValue(t) => l == Quoted(t)
  }

  /** A number does not look like one of the words or like a string. */
  predicate NumberLike(v: Value) {
    v.Number? ==> !IsWord(v.text, "NULL") && !IsWord(v.text, "DEFAULT") && (v.text != [] ==> v.text[0] != 39)
  }

  lemma {:induction false} CloseShift(x: rune, t: seq<rune>, i: nat)
    ensures CloseAt([x] + t, i + 1) == CloseAt(t, i) + 1
    decreases |t| - i
  {
    if i < |t| {
      assert ([x] + t)[i + 1] == t[i];
      if t[i] == 92 {
        CloseShift(x, t, i + 2);
      } else if t[i] != 39 {
        CloseShift(x, t, i + 1);
      }
    }
  }

  lemma {:induction false} ReadsLiteral(dec: Decoder, text: seq<rune>, u: seq<rune>)
    requires text == [39] + (u + [39]) && CloseAt(text, 1) == |u| + 1
    ensures Read(dec, text) == Quoted(dec(u))
  {
    assert text[0] == 39 != 'N' as int && 39 != 'D' as int;
    assert "NULL"[0] == 'N' && "DEFAULT"[0] == 'D';
    assert !IsWord(text, "NULL") && !IsWord(text, "DEFAULT");
    assert text[1..|text| - 1] == u;
  }

  lemma {:induction false} ReadsQuoted(esc: Escape, dec: Decoder, t: seq<rune>)
    requires Undoes(esc, dec)
    ensures Read(dec, [39] + esc(t) + [39]) == Quoted(t)
  {
    var u := esc(t);
    var text := [39] + u + [39];
    assert text == [39] + (u + [39]);
    CloseShift(39, u + [39], 0);
    assert CloseAt(esc(t) + [39], 0) == |u| && dec(esc(t)) == t;
    ReadsLiteral(dec, text, u);
  }

  /** Every value that has a text is read back from it. */
  lemma {:induction false} ReadsBack(esc: Escape, dec: Decoder, v: Value)
    requires Undoes(esc, dec) && !v.OtherIndicator? && NumberLike(v)
    ensures Means(Read(dec, Rendered(esc, v)), v)
  {
    match v
    case BytesValue(b) => ReadsQuoted(esc, dec, Latin1(b));
    case DateValue(t) => ReadsQuoted(esc, dec, t);
    case TextValue(t) => ReadsQuoted(esc, dec, t);
    case _ =>
  }

  // --- an escaping that does what is assumed ---------------------------------------------------------------

  function Backslashed(t: seq<rune>): seq<rune> {
    if t == [] then []
    else (if t[0] == 39 || t[0] == 92 then [92, t[0]] else [t[0]]) + Backslashed(t[1..])
  }

  function Unbackslashed(t: seq<rune>): seq<rune> {
    if t == [] then []
    else if t[0] == 92 && |t| >= 2 then [t[1]] + Unbackslashed(t[2..])
    else [t[0]] + Unbackslashed(t[1..])
  }

  lemma {:induction false} EscapedFirst(x: rune, more: seq<rune>)
    ensures Unbackslashed([92, x] + more) == [x] + Unbackslashed(more)
    ensures CloseAt([92, x] + more + [39], 0) == 2 + CloseAt(more + [39], 0)
  {
    var u := [92, x] + more;
    assert u[2..] == more;
    assert u + [39] == [92] + ([x] + (more + [39]));
    CloseShift(x, more + [39], 0);
    CloseShift(92, [x] + (more + [39]), 1);
    assert (u + [39])[0] == 92;
  }

  lemma {:induction false} PlainFirst(x: rune, more: seq<rune>)
    requires x != 39 && x != 92
    ensures Unbackslashed([x] + more) == [x] + Unbackslashed(more)
    ensures CloseAt([x] + more + [39], 0) == 1 + CloseAt(more + [39], 0)
  {
    assert ([x] + more)[1..] == more;
    assert [x] + more + [39] == [x] + (more + [39]);
    CloseShift(x, more + [39], 0);
  }

  lemma {:induction false} BackslashUndone(t: seq<rune>)
    ensures Unbackslashed(Backslashed(t)) == t
    ensures CloseAt(Backslashed(t) + [39], 0) == |Backslashed(t)|
  {
    if t != [] {
      BackslashUndone(t[1..]);
      assert t == [t[0]] + t[1..];
      if t[0] == 39 || t[0] == 92 {
        EscapedFirst(t[0], Backslashed(t[1..]));
      } else {
        PlainFirst(t[0], Backslashed(t[1..]));
      }
    }
  }

  lemma {:induction false} EscapingExists()
    ensures Undoes(Backslashed, Unbackslashed)
  {
    forall t: seq<rune>
      ensures Unbackslashed(Backslashed(t)) == t && CloseAt(Backslashed(t) + [39], 0) == |Backslashed(t)|
    {
      BackslashUndone(t);
    }
  }
}
