/** UTF-8, section 3 of RFC 3629, and what the statement rewrite does to it. */
module Utf8 {
  import opened Bytes
  import opened Tokens
  import opened Seqs

  /** A Unicode scalar value. */
  type rune = c: int | 0 <= c < 0x110000 && !(0xD800 <= c < 0xE000)

  function Encode(c: rune): (b: seq<byte>)
    ensures 1 <= |b| <= 4
    ensures c < 0x80 <==> |b| == 1
    ensures |b| == 1 ==> b == [c]
    ensures |b| > 1 ==> forall i :: 0 <= i < |b| ==> b[i] >= 0x80
  {
    if c < 0x80 then [c]
    else if c < 0x800 then [0xC0 + c / 64, 0x80 + c % 64]
    else if c < 0x10000 then [0xE0 + c / 4096, 0x80 + (c / 64) % 64, 0x80 + c % 64]
    else [0xF0 + c / 262144, 0x80 + (c / 4096) % 64, 0x80 + (c / 64) % 64, 0x80 + c % 64]
  }

  // --- reading it back -----------------------------------------------------------------------------------

  /** How many bytes a lead byte announces; 0 for a byte that leads nothing. */
  function Announced(b: byte): nat {
    if b < 0x80 then 1
    else if b < 0xC0 then 0
    else if b < 0xE0 then 2
    else if b < 0xF0 then 3
    else if b < 0xF8 then 4
    else 0
  }

  /** The bits a byte carries: 7, or what is left of a lead byte, or 6. */
  function Payload(b: byte): nat {
    if b < 0x80 then b as int
    else if b < 0xC0 then b as int - 0x80
    else if b < 0xE0 then b as int - 0xC0
    else if b < 0xF0 then b as int - 0xE0
    else if b < 0xF8 then b as int - 0xF0
    else 0
  }

  /** The bits of a byte sequence put together, six for each further byte. */
  function Bits(b: seq<byte>): nat {
    if b == [] then 0 else 64 * Bits(b[..|b| - 1]) + Payload(b[|b| - 1])
  }

  lemma {:induction false} BitsSnoc(b: seq<byte>, x: byte)
    ensures Bits(b + [x]) == 64 * Bits(b) + Payload(x)
  {
    assert (b + [x])[..|b|] == b;
  }

  lemma {:induction false} BitsOfFour(a: byte, b: byte, c: byte, d: byte)
    ensures Bits([a]) == Payload(a)
    ensures Bits([a, b]) == 64 * Payload(a) + Payload(b)
    ensures Bits([a, b, c]) == 64 * (64 * Payload(a) + Payload(b)) + Payload(c)
    ensures Bits([a, b, c, d]) == 64 * (64 * (64 * Payload(a) + Payload(b)) + Payload(c)) + Payload(d)
  {
    BitsSnoc([], a);
    BitsSnoc([a], b);
    BitsSnoc([a, b], c);
    BitsSnoc([a, b, c], d);
    assert [] + [a] == [a] && [a] + [b] == [a, b] && [a, b] + [c] == [a, b, c];
    assert [a, b, c] + [d] == [a, b, c, d];
  }

  lemma SixBits(n: nat)
    ensures n == 64 * (n / 64) + n % 64 && n / 4096 == (n / 64) / 64 && n / 262144 == (n / 4096) / 64
  {
  }

  lemma {:induction false} EncodeShape(c: rune)
    ensures var b := Encode(c);
      Announced(b[0]) == |b| && forall i :: 0 < i < |b| ==> 0x80 <= b[i] < 0xC0
  {
  }

  /** A lead byte, that many continuation bytes, and the bits of the scalar value in order. */
  lemma {:induction false} EncodeReads(c: rune)
    ensures var b := Encode(c);
      && Announced(b[0]) == |b| && Bits(b) == c
      && forall i :: 0 < i < |b| ==> 0x80 <= b[i] < 0xC0
  {
    EncodeShape(c);
    EncodeBits(c);
  }

  lemma {:induction false} EncodeBits(c: rune)
    ensures Bits(Encode(c)) == c
  {
    var b := Encode(c);
    SixBits(c);
    SixBits(c / 64);
    SixBits(c / 4096);
    if |b| == 1 {
      BitsOfFour(b[0], 0, 0, 0);
    } else if |b| == 2 {
      assert b == [b[0], b[1]];
      BitsOfFour(b[0], b[1], 0, 0);
    } else if |b| == 3 {
      assert b == [b[0], b[1], b[2]];
      BitsOfFour(b[0], b[1], b[2], 0);
    } else {
      assert b == [b[0], b[1], b[2], b[3]];
      BitsOfFour(b[0], b[1], b[2], b[3]);
    }
  }

  function EncodeAll(s: seq<rune>): seq<byte> {
    if s == [] then [] else Encode(s[0]) + EncodeAll(s[1..])
  }

  /** Two texts with the same encoding are the same text. */
  lemma {:induction false} EncodeAllReads(s: seq<rune>, t: seq<rune>)
    requires EncodeAll(s) == EncodeAll(t)
    ensures s == t
    decreases |s|
  {
    if s != [] && t != [] {
      var a, b := Encode(s[0]), Encode(t[0]);
      EncodeReads(s[0]);
      EncodeReads(t[0]);
      assert EncodeAll(s)[0] == a[0] && EncodeAll(t)[0] == b[0];
      assert a == EncodeAll(s)[..|a|] && b == EncodeAll(t)[..|b|];
      assert EncodeAll(s)[|a|..] == EncodeAll(s[1..]) && EncodeAll(t)[|b|..] == EncodeAll(t[1..]);
      EncodeAllReads(s[1..], t[1..]);
      assert s == [s[0]] + s[1..] && t == [t[0]] + t[1..];
    }
  }

  predicate Ascii(s: seq<rune>) {
    forall i :: 0 <= i < |s| ==> s[i] < 0x80
  }

  /** Encoding never shrinks a text, and keeps its length exactly for ASCII. */
  lemma {:induction false} EncodedLength(s: seq<rune>)
    ensures |EncodeAll(s)| >= |s|
    ensures |EncodeAll(s)| == |s| <==> Ascii(s)
  {
    if s != [] {
      EncodedLength(s[1..]);
      assert Ascii(s) <==> s[0] < 0x80 && Ascii(s[1..]) by {
        assert s == [s[0]] + s[1..];
      }
    }
  }

  lemma {:induction false} EncodeJoin(a: seq<rune>, b: seq<rune>)
    ensures EncodeAll(a + b) == EncodeAll(a) + EncodeAll(b)
    decreases |a|
  {
    if a == [] {
      assert a + b == b;
    } else {
      EncodeJoin(a[1..], b);
      assert (a + b)[1..] == a[1..] + b;
      Regroup(Encode(a[0]), EncodeAll(a[1..]), EncodeAll(b));
    }
  }

  /** The bytes are the encoding of some text. */
  ghost predicate Valid(b: seq<byte>) {
    exists s :: EncodeAll(s) == b
  }

  lemma {:induction false} Prepend(c: rune, b: seq<byte>)
    requires Valid(b)
    ensures Valid(Encode(c) + b)
  {
    var s :| EncodeAll(s) == b;
    assert ([c] + s)[1..] == s;
    assert EncodeAll([c] + s) == Encode(c) + b;
  }

  /** An ASCII byte in an encoded text stands for itself: the text splits there. */
  lemma {:induction false} SplitAtAscii(s: seq<rune>, x: seq<byte>, c: byte, y: seq<byte>)
    requires EncodeAll(s) == x + [c] + y && c < 0x80
    ensures Valid(x) && Valid(y)
    decreases |s|
  {
    var u := Encode(s[0]);
    var rest := EncodeAll(s[1..]);
    assert u + rest == x + [c] + y;
    if |x| >= |u| {
      assert u == (u + rest)[..|u|] == (x + [c] + y)[..|u|] == x[..|u|];
      var x' := x[|u|..];
      assert rest == (u + rest)[|u|..] == (x + [c] + y)[|u|..] == x' + [c] + y;
      SplitAtAscii(s[1..], x', c, y);
      Prepend(s[0], x');
      assert x == u + x';
    } else {
      assert u[|x|] == (u + rest)[|x|] == c;
      assert x == [] && EncodeAll([]) == x;
      assert y == (x + [c] + y)[1..] == rest;
    }
  }

  lemma {:induction false} ValidJoin(a: seq<byte>, b: seq<byte>)
    requires Valid(a) && Valid(b)
    ensures Valid(a + b)
  {
    var s :| EncodeAll(s) == a;
    var t :| EncodeAll(t) == b;
    EncodeJoin(s, t);
  }

  lemma {:induction false} ValidAscii(c: byte)
    requires c < 0x80
    ensures Valid([c])
  {
    assert [c as rune][1..] == [];
    assert EncodeAll([c as rune]) == [c];
  }

  /** A part that starts and ends with an ASCII byte can be cut out. */
  lemma {:induction false} CutOut(x: seq<byte>, m: seq<byte>, y: seq<byte>)
    requires Valid(x + m + y) && m != [] && m[0] < 0x80 && m[|m| - 1] < 0x80
    ensures Valid(x) && Valid(y)
  {
    var n := |m| - 1;
    var s :| EncodeAll(s) == x + m + y;
    Around(x, m, y, 0);
    SplitAtAscii(s, x + m[..0], m[0], m[1..] + y);
    assert x + m[..0] == x;
    Around(x, m, y, n);
    SplitAtAscii(s, x + m[..n], m[n], m[n + 1..] + y);
    assert m[n + 1..] + y == y;
  }

  lemma Around(x: seq<byte>, m: seq<byte>, y: seq<byte>, i: nat)
    requires i < |m|
    ensures x + m + y == (x + m[..i]) + [m[i]] + (m[i + 1..] + y)
  {
  }

  /** A placeholder starts and ends with an ASCII byte, so what surrounds it stays valid. */
  lemma {:induction false} MarkReplaced(x: seq<byte>, t: Token, y: seq<byte>)
    requires Valid(x + t.Source() + y) && t.Mark() && (t.Percent? ==> t.letter < 0x80)
    ensures Valid(x + [QMARK] + y)
  {
    CutOut(x, t.Source(), y);
    ValidAscii(QMARK);
    ValidJoin(x, [QMARK]);
    ValidJoin(x + [QMARK], y);
  }

  /** The rewritten statement is valid UTF-8 whenever the original is. */
  lemma {:induction false} RewriteKeepsUtf8(x: seq<byte>, ts: seq<Token>)
    requires Valid(x + Source(ts))
    requires forall i :: 0 <= i < |ts| ==> ts[i].Percent? ==> ts[i].letter < 0x80
    ensures Valid(x + Shown(ts))
    decreases |ts|
  {
    if ts != [] {
      var t, rest := ts[0], ts[1..];
      assert ts == [t] + rest;
      Cons(t, rest);
      Regroup(x, t.Source(), Source(rest));
      Regroup(x, t.Shown(), Shown(rest));
      if t.Mark() {
        MarkReplaced(x, t, Source(rest));
      }
      RewriteKeepsUtf8(x + t.Shown(), rest);
    }
  }
}
