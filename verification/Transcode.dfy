/** UTF-16 and UTF-32 transcoding through 16-bit words (RFC 2781, sections 2.1 and 2.2). */
module Transcode {
  type Byte = b: int | 0 <= b < 256
  type Word = w: int | 0 <= w < 0x1_0000
  type Code = c: int | 0 <= c < 0x1_0000_0000

  datatype Errno = Ok | EILSEQ | E2BIG

  // ---------------------------------------------------------------- bytes and units

  /** The unit that two or four bytes hold, least significant byte first unless be. */
  function ReadWord(b0: Byte, b1: Byte, be: bool): Word {
    if be then b0 * 256 + b1 else b1 * 256 + b0
  }

  function ReadCode(b0: Byte, b1: Byte, b2: Byte, b3: Byte, be: bool): Code {
    if be then ReadWord(b0, b1, be) * 0x1_0000 + ReadWord(b2, b3, be)
    else ReadWord(b2, b3, be) * 0x1_0000 + ReadWord(b0, b1, be)
  }

  function WordBytes(w: Word, be: bool): (s: seq<Byte>)
    ensures |s| == 2
  {
    if be then [w / 256, w % 256] else [w % 256, w / 256]
  }

  function CodeBytes(c: Code, be: bool): (s: seq<Byte>)
    ensures |s| == 4
  {
    if be then WordBytes(c / 0x1_0000, be) + WordBytes(c % 0x1_0000, be)
    else WordBytes(c % 0x1_0000, be) + WordBytes(c / 0x1_0000, be)
  }

  /** The whole words, or whole codes, of a byte string. */
  function Words(b: seq<Byte>, be: bool): seq<Word>
    decreases |b|
  {
    if |b| < 2 then [] else Words(b[..|b| - 2], be) + [ReadWord(b[|b| - 2], b[|b| - 1], be)]
  }

  function Codes(b: seq<Byte>, be: bool): seq<Code>
    decreases |b|
  {
    if |b| < 4 then []
    else Codes(b[..|b| - 4], be) + [ReadCode(b[|b| - 4], b[|b| - 3], b[|b| - 2], b[|b| - 1], be)]
  }

  function WordsBytes(ws: seq<Word>, be: bool): (s: seq<Byte>)
    ensures |s| == 2 * |ws|
    decreases |ws|
  {
    if ws == [] then [] else WordsBytes(ws[..|ws| - 1], be) + WordBytes(ws[|ws| - 1], be)
  }

  function CodesBytes(cs: seq<Code>, be: bool): (s: seq<Byte>)
    ensures |s| == 4 * |cs|
    decreases |cs|
  {
    if cs == [] then [] else CodesBytes(cs[..|cs| - 1], be) + CodeBytes(cs[|cs| - 1], be)
  }

  // ---------------------------------------------------------------- codes and words

  predicate High(w: int) {
    0xD800 <= w <= 0xDBFF
  }

  predicate Low(w: int) {
    0xDC00 <= w <= 0xDFFF
  }

  /** The words UTF_32LE_to_widechar makes of one code: bits above the 20 of a pair are lost. */
  function CodeWords(c: Code): (ws: seq<Word>)
    ensures 1 <= |ws| <= 2
  {
    if c < 0x1_0000 then [c]
    else [0xD800 + (c - 0x1_0000) / 1024 % 1024, 0xDC00 + (c - 0x1_0000) % 1024]
  }

  function Wide(cs: seq<Code>): seq<Word>
    decreases |cs|
  {
    if cs == [] then [] else Wide(cs[..|cs| - 1]) + CodeWords(cs[|cs| - 1])
  }

  /** What widechar_to_UTF_32LE makes of a high surrogate and whatever word follows it. */
  function Pair(w1: Word, w2: Word): Code
    requires High(w1)
  {
    w1 % 1024 * 1024 + w2 % 1024 + 0x1_0000
  }

  /** The codes of a word sequence; a high surrogate with nothing after it stays unread. */
  function Narrow(ws: seq<Word>): seq<Code>
    decreases |ws|
  {
    if ws == [] then []
    else if !High(ws[0]) then [ws[0]] + Narrow(ws[1..])
    else if |ws| == 1 then []
    else [Pair(ws[0], ws[1])] + Narrow(ws[2..])
  }

  /** No high surrogate is left unread at the end. */
  predicate Whole(ws: seq<Word>)
    decreases |ws|
  {
    ws == [] || (if High(ws[0]) then |ws| > 1 && Whole(ws[2..]) else Whole(ws[1..]))
  }

  // ---------------------------------------------------------------- concatenation

  lemma WordsLast(b: seq<Byte>, be: bool)
    requires |b| >= 2
    ensures Words(b, be) == Words(b[..|b| - 2], be) + [ReadWord(b[|b| - 2], b[|b| - 1], be)]
  {
  }

  lemma {:induction false} WordsConcat(a: seq<Byte>, b: seq<Byte>, be: bool)
    requires |b| % 2 == 0
    ensures Words(a + b, be) == Words(a, be) + Words(b, be)
    decreases |b|
  {
    hide Words, ReadWord;
    if b == [] {
      NoUnits(be);
      assert a + b == a;
    } else {
      var front := b[..|b| - 2];
      assert (a + b)[..|a + b| - 2] == a + front;
      WordsConcat(a, front, be);
      WordsLast(b, be);
      WordsLast(a + b, be);
    }
  }

  lemma CodesLast(b: seq<Byte>, be: bool)
    requires |b| >= 4
    ensures Codes(b, be) == Codes(b[..|b| - 4], be) + [ReadCode(b[|b| - 4], b[|b| - 3], b[|b| - 2], b[|b| - 1], be)]
  {
  }

  lemma {:induction false} CodesConcat(a: seq<Byte>, b: seq<Byte>, be: bool)
    requires |b| % 4 == 0
    ensures Codes(a + b, be) == Codes(a, be) + Codes(b, be)
    decreases |b|
  {
    hide Codes, ReadCode;
    if b == [] {
      NoUnits(be);
      assert a + b == a;
    } else {
      var front := b[..|b| - 4];
      assert (a + b)[..|a + b| - 4] == a + front;
      CodesConcat(a, front, be);
      CodesLast(b, be);
      CodesLast(a + b, be);
    }
  }

  lemma {:induction false} WordsBytesConcat(a: seq<Word>, b: seq<Word>, be: bool)
    ensures WordsBytes(a + b, be) == WordsBytes(a, be) + WordsBytes(b, be)
    decreases |b|
  {
    hide WordsBytes, WordBytes;
    if b == [] {
      NoUnits(be);
      assert a + b == a;
    } else {
      assert (a + b)[..|a + b| - 1] == a + b[..|b| - 1];
      WordsBytesConcat(a, b[..|b| - 1], be);
      WordsBytesLast(b, be);
      WordsBytesLast(a + b, be);
    }
  }

  lemma {:induction false} CodesBytesConcat(a: seq<Code>, b: seq<Code>, be: bool)
    ensures CodesBytes(a + b, be) == CodesBytes(a, be) + CodesBytes(b, be)
    decreases |b|
  {
    hide CodesBytes, CodeBytes;
    if b == [] {
      NoUnits(be);
      assert a + b == a;
    } else {
      assert (a + b)[..|a + b| - 1] == a + b[..|b| - 1];
      CodesBytesConcat(a, b[..|b| - 1], be);
      CodesBytesLast(b, be);
      CodesBytesLast(a + b, be);
    }
  }

  lemma {:induction false} WideConcat(a: seq<Code>, b: seq<Code>)
    ensures Wide(a + b) == Wide(a) + Wide(b)
    decreases |b|
  {
    if b == [] {
      assert a + b == a;
    } else {
      assert (a + b)[..|a + b| - 1] == a + b[..|b| - 1];
      WideConcat(a, b[..|b| - 1]);
    }
  }

  lemma {:induction false} NarrowConcat(a: seq<Word>, b: seq<Word>)
    requires Whole(a)
    ensures Narrow(a + b) == Narrow(a) + Narrow(b)
    ensures Whole(a + b) <==> Whole(b)
    decreases |a|
  {
    if a == [] {
      assert a + b == b;
    } else {
      var n := if High(a[0]) then 2 else 1;
      assert (a + b)[n..] == a[n..] + b;
      NarrowConcat(a[n..], b);
    }
  }

  // ---------------------------------------------------------------- inverses

  lemma WordReads(w: Word, be: bool)
    ensures ReadWord(WordBytes(w, be)[0], WordBytes(w, be)[1], be) == w
  {
  }

  lemma WordsSnoc(b: seq<Byte>, w: Word, be: bool)
    ensures Words(b + WordBytes(w, be), be) == Words(b, be) + [w]
  {
    WordReads(w, be);
    hide ReadWord, WordBytes;
    var s := WordBytes(w, be);
    assert (b + s)[..|b|] == b;
  }

  lemma NoUnits(be: bool)
    ensures WordsBytes([], be) == [] && Words([], be) == [] && CodesBytes([], be) == [] && Codes([], be) == []
  {
  }

  lemma WordsBytesLast(ws: seq<Word>, be: bool)
    requires ws != []
    ensures WordsBytes(ws, be) == WordsBytes(ws[..|ws| - 1], be) + WordBytes(ws[|ws| - 1], be)
  {
  }

  lemma {:induction false} WordsInverse(ws: seq<Word>, be: bool)
    ensures Words(WordsBytes(ws, be), be) == ws
    decreases |ws|
  {
    hide Words, WordBytes, WordsBytes;
    if ws == [] {
      NoUnits(be);
    } else {
      var front, w := ws[..|ws| - 1], ws[|ws| - 1];
      WordsBytesLast(ws, be);
      WordsInverse(front, be);
      WordsSnoc(WordsBytes(front, be), w, be);
      assert front + [w] == ws;
    }
  }

  lemma CodeReads(c: Code, be: bool)
    ensures var s := CodeBytes(c, be); ReadCode(s[0], s[1], s[2], s[3], be) == c
  {
    WordReads(c / 0x1_0000, be);
    WordReads(c % 0x1_0000, be);
    hide ReadWord, WordBytes;
  }

  lemma CodesSnoc(b: seq<Byte>, c: Code, be: bool)
    ensures Codes(b + CodeBytes(c, be), be) == Codes(b, be) + [c]
  {
    CodeReads(c, be);
    hide ReadCode, CodeBytes;
    var s := CodeBytes(c, be);
    assert (b + s)[..|b|] == b;
  }

  lemma CodesBytesLast(cs: seq<Code>, be: bool)
    requires cs != []
    ensures CodesBytes(cs, be) == CodesBytes(cs[..|cs| - 1], be) + CodeBytes(cs[|cs| - 1], be)
  {
  }

  lemma {:induction false} CodesInverse(cs: seq<Code>, be: bool)
    ensures Codes(CodesBytes(cs, be), be) == cs
    decreases |cs|
  {
    hide Codes, CodeBytes, CodesBytes;
    if cs == [] {
      NoUnits(be);
    } else {
      var front, c := cs[..|cs| - 1], cs[|cs| - 1];
      CodesBytesLast(cs, be);
      CodesInverse(front, be);
      CodesSnoc(CodesBytes(front, be), c, be);
      assert front + [c] == cs;
    }
  }

  /** A code beyond the basic plane becomes the surrogate pair of RFC 2781, section 2.1, and the pair
      gives the code back as in section 2.2. */
  lemma Surrogates(c: Code)
    requires 0x1_0000 <= c < 0x11_0000
    ensures var ws := CodeWords(c);
      && |ws| == 2 && High(ws[0]) && Low(ws[1])
      && c == 0x1_0000 + (ws[0] as int - 0xD800) * 1024 + (ws[1] as int - 0xDC00) == Pair(ws[0], ws[1])
  {
    var u: int := c - 0x1_0000;
    assert u / 1024 < 1024 && u == u / 1024 * 1024 + u % 1024;
  }

  /** A code of the basic plane is its own word, surrogate or not; of a code above U+10FFFF only the low
      twenty bits of its distance from the basic plane count. */
  lemma OtherCodes(c: Code)
    ensures c < 0x1_0000 ==> CodeWords(c) == [c]
    ensures c >= 0x1_0000 ==> CodeWords(c) == CodeWords(0x1_0000 + (c - 0x1_0000) % 0x10_0000)
  {
    if c >= 0x1_0000 {
      LowTwenty(c - 0x1_0000);
    }
  }

  lemma LowTwenty(u: nat)
    ensures u % 0x10_0000 / 1024 % 1024 == u / 1024 % 1024 && u % 0x10_0000 % 1024 == u % 1024
  {
    var q, r := u / 0x10_0000, u % 0x10_0000;
    assert u == 1024 * (1024 * q) + r;
    Parts(1024 * q, r);
    Parts(q, r / 1024);
  }

  lemma Parts(q: nat, r: nat)
    ensures (1024 * q + r) / 1024 == q + r / 1024 && (1024 * q + r) % 1024 == r % 1024
  {
  }

  /** Whatever follows a high surrogate gives the low ten bits of the pair's code. */
  lemma AnyPair(w1: Word, w2: Word)
    requires 0xD800 <= w1 <= 0xDBFF
    ensures High(w1) && Narrow([w1, w2]) == [0x1_0000 + (w1 as int - 0xD800) * 1024 + w2 as int % 1024]
  {
    assert [w1, w2][2..] == [];
  }

  /** A code that survives UTF-16: in range and no high surrogate. */
  predicate Survives(c: Code) {
    c < 0x11_0000 && !High(c)
  }

  predicate AllSurvive(cs: seq<Code>) {
    forall i :: 0 <= i < |cs| ==> Survives(cs[i])
  }

  lemma WideOne(c: Code, rest: seq<Code>)
    ensures Wide([c]) == CodeWords(c)
    ensures Wide([c] + rest) == CodeWords(c) + Wide(rest)
  {
    assert [c][..0] == [];
    WideConcat([c], rest);
  }

  /** Codes pass through words unchanged exactly when each of them is in range and no high surrogate;
      Unicode scalar values are. */
  lemma CodesRoundTrip(cs: seq<Code>)
    ensures Narrow(Wide(cs)) == cs <==> forall i :: 0 <= i < |cs| ==> cs[i] < 0x11_0000 && !(0xD800 <= cs[i] <= 0xDBFF)
    ensures AllSurvive(cs) <==> forall i :: 0 <= i < |cs| ==> cs[i] < 0x11_0000 && !(0xD800 <= cs[i] <= 0xDBFF)
  {
    Survivors(cs);
    hide Narrow, Wide;
  }

  lemma {:induction false} Survivors(cs: seq<Code>)
    ensures Narrow(Wide(cs)) == cs <==> AllSurvive(cs)
    ensures AllSurvive(cs) ==> Whole(Wide(cs))
    decreases |cs|
  {
    if cs != [] {
      var c, rest := cs[0], cs[1..];
      assert [c] + rest == cs;
      WideOne(c, rest);
      Survivors(rest);
      FirstCode(c, Wide(rest));
      assert AllSurvive(cs) <==> Survives(c) && AllSurvive(rest) by {
        assert forall i :: 0 < i < |cs| ==> cs[i] == rest[i - 1];
        assert forall i :: 0 <= i < |rest| ==> rest[i] == cs[i + 1];
      }
      hide Survives, AllSurvive, Narrow, Wide, CodeWords, Whole;
      if Survives(c) && Narrow(Wide(cs)) == cs {
        assert Narrow(Wide(cs))[1..] == rest;
      }
    }
  }

  lemma FirstCode(c: Code, ws: seq<Word>)
    ensures Survives(c) ==> Narrow(CodeWords(c) + ws) == [c] + Narrow(ws) && (Whole(CodeWords(c) + ws) <==> Whole(ws))
    ensures !Survives(c) ==> Narrow(CodeWords(c) + ws) == [] || Narrow(CodeWords(c) + ws)[0] != c
  {
    var all := CodeWords(c) + ws;
    if c >= 0x1_0000 {
      assert all[2..] == ws && High(all[0]);
      assert c < 0x11_0000 ==> Pair(all[0], all[1]) == c;
    } else {
      assert all[1..] == ws;
    }
  }

  /** Every high surrogate is followed by a low one. */
  predicate WellPaired(ws: seq<Word>) {
    forall i :: 0 <= i < |ws| && High(ws[i]) ==> i + 1 < |ws| && Low(ws[i + 1])
  }

  /** Words pass through codes unchanged exactly when every high surrogate is followed by a low one. */
  lemma WordsRoundTrip(ws: seq<Word>)
    ensures Wide(Narrow(ws)) == ws <==>
      forall i :: 0 <= i < |ws| && 0xD800 <= ws[i] <= 0xDBFF ==> i + 1 < |ws| && 0xDC00 <= ws[i + 1] <= 0xDFFF
    ensures WellPaired(ws) <==>
      forall i :: 0 <= i < |ws| && 0xD800 <= ws[i] <= 0xDBFF ==> i + 1 < |ws| && 0xDC00 <= ws[i + 1] <= 0xDFFF
  {
    PairedRoundTrip(ws);
    hide Narrow, Wide;
  }

  lemma {:induction false} PairedRoundTrip(ws: seq<Word>)
    ensures Wide(Narrow(ws)) == ws <==> WellPaired(ws)
    decreases |ws|
  {
    if ws != [] {
      var n := if High(ws[0]) then 2 else 1;
      if n > |ws| {
        assert Narrow(ws) == [];
      } else {
        PairedRoundTrip(ws[n..]);
        RoundTripStep(ws, n);
      }
    }
  }

  lemma RoundTripStep(ws: seq<Word>, n: nat)
    requires ws != [] && n == (if High(ws[0]) then 2 else 1) && n <= |ws|
    requires Wide(Narrow(ws[n..])) == ws[n..] <==> WellPaired(ws[n..])
    ensures Wide(Narrow(ws)) == ws <==> WellPaired(ws)
  {
    hide CodeWords, Pair, Low, Narrow, Wide, WellPaired;
    var c, first, rest := if n == 2 then Pair(ws[0], ws[1]) else ws[0], ws[..n], ws[n..];
    NarrowStep(ws, n);
    FirstWords(ws, n);
    WideOne(c, Narrow(rest));
    PairingStep(ws, n);
    assert ws == first + rest;
    SamePrefix(CodeWords(c), Wide(Narrow(rest)), first, rest);
  }

  lemma NarrowStep(ws: seq<Word>, n: nat)
    requires ws != [] && n == (if High(ws[0]) then 2 else 1) && n <= |ws|
    ensures Narrow(ws) == [if n == 2 then Pair(ws[0], ws[1]) else ws[0]] + Narrow(ws[n..])
  {
  }

  lemma FirstWords(ws: seq<Word>, n: nat)
    requires ws != [] && n == (if High(ws[0]) then 2 else 1) && n <= |ws|
    ensures var c := if n == 2 then Pair(ws[0], ws[1]) else ws[0];
      |CodeWords(c)| == n && (CodeWords(c) == ws[..n] <==> (n == 2 ==> Low(ws[1])))
  {
    if n == 2 {
      var c := Pair(ws[0], ws[1]);
      assert CodeWords(c)[0] == ws[0];
      assert CodeWords(c)[1] == 0xDC00 + ws[1] % 1024;
      assert Low(ws[1]) <==> 0xDC00 + ws[1] % 1024 == ws[1];
      assert ws[..2] == [ws[0], ws[1]];
    } else {
      assert ws[..1] == [ws[0]];
    }
  }

  lemma SamePrefix(a1: seq<Word>, b1: seq<Word>, a2: seq<Word>, b2: seq<Word>)
    requires |a1| == |a2|
    ensures a1 + b1 == a2 + b2 <==> a1 == a2 && b1 == b2
  {
    if a1 + b1 == a2 + b2 {
      assert a1 == (a1 + b1)[..|a1|] && b1 == (a1 + b1)[|a1|..];
      assert a2 == (a2 + b2)[..|a1|] && b2 == (a2 + b2)[|a1|..];
    }
  }

  lemma PairingStep(ws: seq<Word>, n: nat)
    requires ws != [] && n == (if High(ws[0]) then 2 else 1) && n <= |ws|
    ensures WellPaired(ws) <==> WellPaired(ws[n..]) && (n == 2 ==> Low(ws[1]))
  {
    var rest := ws[n..];
    forall i | n <= i < |ws| ensures ws[i] == rest[i - n] {}
    if WellPaired(ws) {
      forall i | 0 <= i < |rest| && High(rest[i]) ensures i + 1 < |rest| && Low(rest[i + 1]) {
        assert High(ws[n + i]);
      }
      assert n == 2 ==> High(ws[0]);
    }
    if WellPaired(rest) && (n == 2 ==> Low(ws[1])) {
      forall i | 0 <= i < |ws| && High(ws[i]) ensures i + 1 < |ws| && Low(ws[i + 1]) {
        if i >= n {
          assert High(rest[i - n]);
        }
      }
    }
  }

  // ---------------------------------------------------------------- code pages

  /** codepage_t for the UTF pages: UTF-32 or UTF-16, byte order, UCS-2 (no surrogates). */
  datatype Codepage = Codepage(wide32: bool, be: bool, ucs2: bool)

  /** The words some source bytes stand for, and the target bytes for some words. */
  function SourceWords(cp: Codepage, b: seq<Byte>): seq<Word> {
    if cp.wide32 then Wide(Codes(b, cp.be)) else Words(b, cp.be)
  }

  function TargetBytes(cp: Codepage, ws: seq<Word>): seq<Byte> {
    if cp.wide32 then CodesBytes(Narrow(ws), cp.be) else WordsBytes(ws, cp.be)
  }

  function Unit(cp: Codepage): nat {
    if cp.wide32 then 4 else 2
  }

  /** Translating a source piece by piece gives the words of the whole. */
  lemma SourceResumes(cp: Codepage, a: seq<Byte>, b: seq<Byte>)
    requires |b| % Unit(cp) == 0
    ensures SourceWords(cp, a + b) == SourceWords(cp, a) + SourceWords(cp, b)
  {
    if cp.wide32 {
      CodesConcat(a, b, cp.be);
      WideConcat(Codes(a, cp.be), Codes(b, cp.be));
    } else {
      WordsConcat(a, b, cp.be);
    }
  }

  /** So does writing words piece by piece, when no piece cuts a pair. */
  lemma TargetResumes(cp: Codepage, a: seq<Word>, b: seq<Word>)
    requires cp.wide32 ==> Whole(a)
    ensures TargetBytes(cp, a + b) == TargetBytes(cp, a) + TargetBytes(cp, b)
  {
    if cp.wide32 {
      NarrowConcat(a, b);
      CodesBytesConcat(Narrow(a), Narrow(b), cp.be);
    } else {
      WordsBytesConcat(a, b, cp.be);
    }
  }

  /** UTF-32 bytes in either byte order, through words, back to UTF-32 in either byte order: the
      same codes come out exactly when each of them survives. */
  lemma Utf32RoundTrip(from: Codepage, to: Codepage, b: seq<Byte>)
    requires from.wide32 && to.wide32
    ensures Codes(TargetBytes(to, SourceWords(from, b)), to.be) == Codes(b, from.be) <==>
      var cs := Codes(b, from.be);
      forall i :: 0 <= i < |cs| ==> cs[i] < 0x11_0000 && !(0xD800 <= cs[i] <= 0xDBFF)
  {
    hide Codes, CodesBytes, Narrow, Wide, WordsBytes, Words;
    CodesRoundTrip(Codes(b, from.be));
    CodesInverse(Narrow(Wide(Codes(b, from.be))), to.be);
  }

  /** The same for UTF-16 text that goes through UTF-32 and back. */
  lemma Utf16RoundTrip(from: Codepage, to: Codepage, b: seq<Byte>)
    requires !from.wide32 && to.wide32
    ensures SourceWords(to, TargetBytes(to, SourceWords(from, b))) == SourceWords(from, b)
      <==> WellPaired(SourceWords(from, b))
  {
    hide Codes, CodesBytes, Narrow, Wide, WordsBytes, Words;
    WordsRoundTrip(Words(b, from.be));
    CodesInverse(Narrow(Words(b, from.be)), to.be);
  }

  /** Word i of a byte string is in bytes 2i and 2i + 1, the high byte first exactly when be. */
  lemma WordAt(b: seq<Byte>, be: bool, i: nat)
    requires |b| % 2 == 0 && 2 * i + 2 <= |b|
    ensures 2 * |Words(b, be)| == |b|
    ensures Words(b, be)[i] as int ==
      if be then 256 * b[2 * i] as int + b[2 * i + 1] as int else b[2 * i] as int + 256 * b[2 * i + 1] as int
    ensures (b[2 * i], b[2 * i + 1]) ==
      if be then (Words(b, be)[i] / 256, Words(b, be)[i] % 256) else (Words(b, be)[i] % 256, Words(b, be)[i] / 256)
  {
    hide Words, ReadWord;
    BytesOfWord(b[2 * i], b[2 * i + 1], be);
    WordsLength(b, be);
    WordsLength(b[..2 * i], be);
    WordsNext(b, 2 * i, be);
    WordsConcat(b[..2 * i + 2], b[2 * i + 2..], be);
    assert b[..2 * i + 2] + b[2 * i + 2..] == b;
  }

  lemma BytesOfWord(b0: Byte, b1: Byte, be: bool)
    ensures var w := ReadWord(b0, b1, be);
      && w as int == (if be then 256 * b0 as int + b1 as int else b0 as int + 256 * b1 as int)
      && (b0, b1) == if be then (w / 256, w % 256) else (w % 256, w / 256)
  {
  }

  /** Code i is in the four bytes from 4i on. */
  lemma CodeAtBytes(b: seq<Byte>, be: bool, i: nat)
    requires |b| % 4 == 0 && 4 * i + 4 <= |b|
    ensures 4 * |Codes(b, be)| == |b|
    ensures Codes(b, be)[i] as int ==
      if be then
        0x100_0000 * b[4 * i] as int + 0x1_0000 * b[4 * i + 1] as int + 256 * b[4 * i + 2] as int + b[4 * i + 3] as int
      else
        b[4 * i] as int + 256 * b[4 * i + 1] as int + 0x1_0000 * b[4 * i + 2] as int + 0x100_0000 * b[4 * i + 3] as int
  {
    hide Codes;
    CodesLength(b, be);
    CodesPrefix(b, be, i);
  }

  // ---------------------------------------------------------------- valid UTF-32LE text

  /** _helper_is_valid_utf32le_text, for a non-null s. */
  method IsValidUtf32leText(s: seq<Byte>) returns (ok: bool)
    ensures ok <==> s != [] && |s| % 4 == 0 && forall i :: 0 <= i < |Codes(s, false)| ==>
      0 < Codes(s, false)[i] <= 0x10_FFFF && !(0xD800 <= Codes(s, false)[i] <= 0xDFFF)
  {
    if |s| == 0 { return false; }
    if |s| % 4 != 0 { return false; }
    var i := 0;
    while i < |s|
      invariant i <= |s| && i % 4 == 0
      invariant forall j :: 0 <= j < |Codes(s[..i], false)| ==>
        0 < Codes(s[..i], false)[j] <= 0x10_FFFF && !(0xD800 <= Codes(s[..i], false)[j] <= 0xDFFF)
    {
      var cp: int := s[i] as int + s[i + 1] as int * 0x100 + s[i + 2] as int * 0x1_0000 + s[i + 3] as int * 0x100_0000;
      CodeAt(s, i);
      assert cp == ReadCode(s[i], s[i + 1], s[i + 2], s[i + 3], false);
      if cp == 0 { return false; }
      if cp > 0x10_FFFF { return false; }
      if cp >= 0xD800 && cp <= 0xDFFF { return false; }
      i := i + 4;
    }
    assert s[..i] == s;
    return true;
  }

  /** The code at byte i of a string of whole codes follows those before it. */
  lemma CodeAt(s: seq<Byte>, i: nat)
    requires i + 4 <= |s| && |s| % 4 == 0 && i % 4 == 0
    ensures Codes(s[..i + 4], false) == Codes(s[..i], false) + [ReadCode(s[i], s[i + 1], s[i + 2], s[i + 3], false)]
    ensures var c := ReadCode(s[i], s[i + 1], s[i + 2], s[i + 3], false);
      exists j :: 0 <= j < |Codes(s, false)| && Codes(s, false)[j] == c
  {
    hide Codes, ReadCode;
    var front, rest := s[..i + 4], s[i + 4..];
    CodesNext(s, i, false);
    assert front + rest == s;
    CodesConcat(front, rest, false);
    assert Codes(s, false)[|Codes(s[..i], false)|] == ReadCode(s[i], s[i + 1], s[i + 2], s[i + 3], false);
  }

  /** Text that passes the check comes back as it was from every UTF page. */
  lemma ValidTextRoundTrips(s: seq<Byte>, to: Codepage)
    requires to.wide32
    requires forall i :: 0 <= i < |Codes(s, false)| ==>
      Codes(s, false)[i] <= 0x10_FFFF && !(0xD800 <= Codes(s, false)[i] <= 0xDFFF)
    ensures Codes(TargetBytes(to, SourceWords(Codepage(true, false, false), s)), to.be) == Codes(s, false)
  {
    Utf32RoundTrip(Codepage(true, false, false), to, s);
  }

  // ---------------------------------------------------------------- the transcoders

  /** now is was with bs in place of its bytes from k on. */
  predicate Emitted(was: seq<Byte>, now: seq<Byte>, k: nat, bs: seq<Byte>) {
    k + |bs| <= |was| && now == was[..k] + bs + was[k + |bs|..]
  }

  lemma EmittedNothing(was: seq<Byte>, k: nat)
    requires k <= |was|
    ensures Emitted(was, was, k, [])
  {
  }

  lemma EmittedMore(was: seq<Byte>, mid: seq<Byte>, now: seq<Byte>, k: nat, bs: seq<Byte>, more: seq<Byte>)
    requires Emitted(was, mid, k, bs) && Emitted(mid, now, k + |bs|, more)
    ensures Emitted(was, now, k, bs + more)
  {
  }

  /** A 16-bit store at byte k; the machine is little-endian. */
  method StoreWord(dst: array<Byte>, k: nat, w: Word)
    requires k + 2 <= dst.Length
    modifies dst
    ensures Emitted(old(dst[..]), dst[..], k, WordBytes(w, false))
  {
    dst[k], dst[k + 1] := w % 256, w / 256;
  }

  method StoreCode(dst: array<Byte>, k: nat, c: Code)
    requires k + 4 <= dst.Length
    modifies dst
    ensures Emitted(old(dst[..]), dst[..], k, CodeBytes(c, false))
  {
    ghost var was := dst[..];
    StoreWord(dst, k, c % 0x1_0000);
    ghost var mid := dst[..];
    StoreWord(dst, k + 2, c / 0x1_0000);
    EmittedMore(was, mid, dst[..], k, WordBytes(c % 0x1_0000, false), WordBytes(c / 0x1_0000, false));
  }

  /** ((w & 0xff) << 8) | (w >> 8). */
  function Swapped(w: Word): Word {
    w % 256 * 256 + w / 256
  }

  lemma SwappedStores(w: Word)
    ensures WordBytes(Swapped(w), false) == WordBytes(w, true)
  {
  }

  lemma Joined(high: int, low: int)
    requires 0 <= low < 0x1_0000
    ensures (high * 0x1_0000 + low) % 0x1_0000 == low && (high * 0x1_0000 + low) / 0x1_0000 == high
  {
  }

  lemma SwappedReads(b0: Byte, b1: Byte)
    ensures Swapped(ReadWord(b0, b1, false)) == ReadWord(b0, b1, true)
  {
  }

  /** The four-byte swap of the UTF-32 transcoders. */
  function SwappedCode(c: Code): Code {
    Swapped(c % 0x1_0000) * 0x1_0000 + Swapped(c / 0x1_0000)
  }

  lemma SwappedCodeStores(c: Code)
    ensures CodeBytes(SwappedCode(c), false) == CodeBytes(c, true)
  {
    var high: int, low: int := Swapped(c % 0x1_0000), Swapped(c / 0x1_0000);
    SwappedStores(c % 0x1_0000);
    SwappedStores(c / 0x1_0000);
    hide Swapped, WordBytes;
    Joined(high, low);
  }

  lemma SwappedCodeReads(b0: Byte, b1: Byte, b2: Byte, b3: Byte)
    ensures SwappedCode(ReadCode(b0, b1, b2, b3, false)) == ReadCode(b0, b1, b2, b3, true)
  {
    SwappedReads(b0, b1);
    SwappedReads(b2, b3);
    hide Swapped, ReadWord;
    var low: int, high: int := ReadWord(b0, b1, false), ReadWord(b2, b3, false);
    Joined(high, low);
  }

  lemma WordsNext(src: seq<Byte>, used: nat, be: bool)
    requires used + 2 <= |src|
    ensures Words(src[..used + 2], be) == Words(src[..used], be) + [ReadWord(src[used], src[used + 1], be)]
  {
    assert src[..used + 2][..used] == src[..used];
  }

  lemma CodesNext(src: seq<Byte>, used: nat, be: bool)
    requires used + 4 <= |src|
    ensures Codes(src[..used + 4], be) == Codes(src[..used], be)
      + [ReadCode(src[used], src[used + 1], src[used + 2], src[used + 3], be)]
  {
    assert src[..used + 4][..used] == src[..used];
  }

  lemma WordsBytesNext(ws: seq<Word>, w: Word, be: bool)
    ensures WordsBytes(ws + [w], be) == WordsBytes(ws, be) + WordBytes(w, be)
  {
    assert (ws + [w])[..|ws|] == ws;
  }

  predicate NoHigh(ws: seq<Word>) {
    forall i :: 0 <= i < |ws| ==> !High(ws[i])
  }

  lemma CopyStep(src: seq<Byte>, used: nat, inBe: bool, outBe: bool, w: Word)
    requires used + 2 <= |src| && w == ReadWord(src[used], src[used + 1], inBe)
    ensures WordsBytes(Words(src[..used + 2], inBe), outBe)
      == WordsBytes(Words(src[..used], inBe), outBe) + WordBytes(w, outBe)
    ensures NoHigh(Words(src[..used], inBe)) && !High(w) ==> NoHigh(Words(src[..used + 2], inBe))
  {
    hide WordBytes, ReadWord, Words, WordsBytes;
    WordsNext(src, used, inBe);
    WordsBytesNext(Words(src[..used], inBe), w, outBe);
  }

  /** UTF_16LE_to_widechar and widechar_to_UTF_16LE: both copy words until the source or the room
      runs out, or a UCS-2 page meets a high surrogate.  The source is read in order inBe and the
      output is written in order outBe; in C one of the two is always the machine's. */
  method CopyWords(ucs2: bool, inBe: bool, outBe: bool, src: seq<Byte>, dst: array<Byte>, k: nat, room: nat)
    returns (e: Errno, used: nat)
    requires k + room <= dst.Length && !(inBe && outBe)
    modifies dst
    ensures used <= |src| && used <= room && used == |WordsBytes(Words(src[..used], inBe), outBe)|
    ensures Emitted(old(dst[..]), dst[..], k, WordsBytes(Words(src[..used], inBe), outBe))
    ensures e == Ok <==> used == |src|
    ensures e == E2BIG ==> |src| - used < 2 || room - used < 2
    ensures e == EILSEQ ==>
      ucs2 && used + 2 <= |src| && 0xD800 <= ReadWord(src[used], src[used + 1], inBe) <= 0xDBFF
    ensures ucs2 ==> NoHigh(Words(src[..used], inBe))
  {
    hide Emitted, Words, WordsBytes, WordBytes, ReadWord, Swapped;
    used := 0;
    ghost var was, out := dst[..], [];
    EmittedNothing(was, k);
    assert src[..0] == [];
    NoUnits(inBe);
    NoUnits(outBe);
    while |src| - used >= 2 && room - used >= 2
      invariant used <= |src| && used <= room && used == |out|
      invariant out == WordsBytes(Words(src[..used], inBe), outBe)
      invariant Emitted(was, dst[..], k, out)
      invariant ucs2 ==> NoHigh(Words(src[..used], inBe))
    {
      var wc := ReadWord(src[used], src[used + 1], false);
      SwappedReads(src[used], src[used + 1]);
      if inBe { wc := Swapped(wc); }
      if ucs2 && 0xD800 <= wc <= 0xDBFF { return EILSEQ, used; }
      ghost var w := wc;
      SwappedStores(w);
      if outBe { wc := Swapped(wc); }
      ghost var mid := dst[..];
      StoreWord(dst, k + used, wc);
      EmittedMore(was, mid, dst[..], k, out, WordBytes(w, outBe));
      CopyStep(src, used, inBe, outBe, w);
      out, used := out + WordBytes(w, outBe), used + 2;
    }
    return if used < |src| then E2BIG else Ok, used;
  }

  lemma CodeStep(src: seq<Byte>, used: nat, be: bool, c: Code)
    requires used + 4 <= |src| && c == ReadCode(src[used], src[used + 1], src[used + 2], src[used + 3], be)
    ensures WordsBytes(Wide(Codes(src[..used + 4], be)), false)
      == WordsBytes(Wide(Codes(src[..used], be)), false) + WordsBytes(CodeWords(c), false)
  {
    hide Wide, Codes, WordsBytes, CodeWords, ReadCode;
    CodesNext(src, used, be);
    var cs := Codes(src[..used], be);
    WideConcat(cs, [c]);
    WideOne(c, []);
    WordsBytesConcat(Wide(cs), CodeWords(c), false);
  }

  lemma OneWordBytes(w: Word)
    ensures WordsBytes([w], false) == WordBytes(w, false)
  {
    hide WordBytes;
    NoUnits(false);
    WordsBytesNext([], w, false);
    assert [] + [w] == [w];
  }

  /** The words of one code stored at byte k. */
  method StoreWords(dst: array<Byte>, k: nat, c: Code)
    requires k + 2 * |CodeWords(c)| <= dst.Length
    modifies dst
    ensures Emitted(old(dst[..]), dst[..], k, WordsBytes(CodeWords(c), false))
  {
    hide Emitted, WordsBytes, WordBytes;
    ghost var was := dst[..];
    if c < 0x1_0000 {
      StoreWord(dst, k, c);
      OneWordBytes(c);
    } else {
      var wc := c - 0x1_0000;
      var w1, w2 := 0xD800 + wc / 1024 % 1024, 0xDC00 + wc % 1024;
      StoreWord(dst, k, w1);
      ghost var mid := dst[..];
      StoreWord(dst, k + 2, w2);
      OneWordBytes(w1);
      EmittedMore(was, mid, dst[..], k, WordBytes(w1, false), WordBytes(w2, false));
      WordsBytesNext([w1], w2, false);
      assert [w1] + [w2] == CodeWords(c);
    }
  }

  /** UTF_32LE_to_widechar: a code whose words do not fit is left for the next call, whole. */
  method Utf32ToWide(be: bool, src: seq<Byte>, dst: array<Byte>, k: nat, room: nat)
    returns (e: Errno, used: nat, made: nat)
    requires k + room <= dst.Length
    modifies dst
    ensures used <= |src| && used % 4 == 0 && made <= room && made == |WordsBytes(Wide(Codes(src[..used], be)), false)|
    ensures Emitted(old(dst[..]), dst[..], k, WordsBytes(Wide(Codes(src[..used], be)), false))
    ensures e == (if used == |src| then Ok else E2BIG)
    ensures |src| - used >= 4 ==>
      room - made < 2 * |CodeWords(ReadCode(src[used], src[used + 1], src[used + 2], src[used + 3], be))|
  {
    hide Emitted, Codes, Wide, WordsBytes, WordBytes, ReadCode, SwappedCode;
    used, made := 0, 0;
    ghost var was, out := dst[..], [];
    EmittedNothing(was, k);
    assert src[..0] == [];
    NoUnits(be);
    NoUnits(false);
    NoCodes();
    while |src| - used >= 4
      invariant used <= |src| && used % 4 == 0 && made <= room && made == |out|
      invariant out == WordsBytes(Wide(Codes(src[..used], be)), false)
      invariant Emitted(was, dst[..], k, out)
    {
      var wc := ReadCode(src[used], src[used + 1], src[used + 2], src[used + 3], false);
      SwappedCodeReads(src[used], src[used + 1], src[used + 2], src[used + 3]);
      if be { wc := SwappedCode(wc); }
      var n := if wc < 0x1_0000 then 2 else 4;
      if room - made < n { return E2BIG, used, made; }
      ghost var mid := dst[..];
      StoreWords(dst, k + made, wc);
      EmittedMore(was, mid, dst[..], k, out, WordsBytes(CodeWords(wc), false));
      CodeStep(src, used, be, wc);
      out, used, made := out + WordsBytes(CodeWords(wc), false), used + 4, made + n;
    }
    return if used < |src| then E2BIG else Ok, used, made;
  }

  lemma NoCodes()
    ensures Wide([]) == [] && Narrow([]) == [] && Whole([])
  {
  }

  lemma NarrowStep2(src: seq<Byte>, used: nat, n: nat, be: bool)
    requires used + n <= |src| && (n == 2 || n == 4) && Whole(Words(src[..used], false))
    requires n == (if High(ReadWord(src[used], src[used + 1], false)) then 4 else 2)
    ensures var w := ReadWord(src[used], src[used + 1], false);
      var c := if n == 4 then Pair(w, ReadWord(src[used + 2], src[used + 3], false)) else w;
      && Whole(Words(src[..used + n], false))
      && CodesBytes(Narrow(Words(src[..used + n], false)), be)
        == CodesBytes(Narrow(Words(src[..used], false)), be) + CodeBytes(c, be)
  {
    hide Words, CodesBytes, CodeBytes, ReadWord, Pair;
    var w := ReadWord(src[used], src[used + 1], false);
    var ws := Words(src[..used], false);
    WordsNext(src, used, false);
    if n == 4 {
      WordsNext(src, used + 2, false);
      var w2 := ReadWord(src[used + 2], src[used + 3], false);
      assert ws + [w] + [w2] == ws + [w, w2];
      NarrowConcat(ws, [w, w2]);
      OneCode([w, w2]);
      CodesBytesNext(Narrow(ws), Pair(w, w2), be);
    } else {
      NarrowConcat(ws, [w]);
      OneCode([w]);
      CodesBytesNext(Narrow(ws), w, be);
    }
  }

  lemma OneCode(ws: seq<Word>)
    requires |ws| == if |ws| > 0 && High(ws[0]) then 2 else 1
    ensures Whole(ws) && Narrow(ws) == [if |ws| == 2 then Pair(ws[0], ws[1]) else ws[0]]
  {
    assert ws[|ws|..] == [];
  }

  lemma CodesBytesNext(cs: seq<Code>, c: Code, be: bool)
    ensures CodesBytes(cs + [c], be) == CodesBytes(cs, be) + CodeBytes(c, be)
  {
    assert (cs + [c])[..|cs|] == cs;
  }

  /** widechar_to_UTF_32LE: stops before a pair that is cut, never inside one. */
  method WideToUtf32(be: bool, src: seq<Byte>, dst: array<Byte>, k: nat, room: nat)
    returns (e: Errno, used: nat, made: nat)
    requires k + room <= dst.Length
    modifies dst
    ensures used <= |src| && used % 2 == 0
    ensures made <= room && made == |CodesBytes(Narrow(Words(src[..used], false)), be)|
    ensures Emitted(old(dst[..]), dst[..], k, CodesBytes(Narrow(Words(src[..used], false)), be))
    ensures Whole(Words(src[..used], false))
    ensures e == (if used == |src| then Ok else E2BIG)
    ensures |src| - used >= 2 ==>
      room - made < 4 || (High(ReadWord(src[used], src[used + 1], false)) && |src| - used < 4)
  {
    hide Emitted, Words, Narrow, Whole, CodesBytes, CodeBytes, ReadWord, SwappedCode, Pair;
    used, made := 0, 0;
    ghost var was, out := dst[..], [];
    EmittedNothing(was, k);
    assert src[..0] == [];
    NoUnits(be);
    NoUnits(false);
    NoCodes();
    while |src| - used >= 2
      invariant used <= |src| && used % 2 == 0 && made <= room && made == |out|
      invariant out == CodesBytes(Narrow(Words(src[..used], false)), be)
      invariant Emitted(was, dst[..], k, out) && Whole(Words(src[..used], false))
    {
      if room - made < 4 { return E2BIG, used, made; }
      var wc: Code := ReadWord(src[used], src[used + 1], false);
      var n := 2;
      if 0xD800 <= wc <= 0xDBFF {
        if |src| - used < 4 { return E2BIG, used, made; }
        wc := Pair(wc, ReadWord(src[used + 2], src[used + 3], false));
        n := 4;
      }
      ghost var c := wc;
      SwappedCodeStores(c);
      if be { wc := SwappedCode(wc); }
      ghost var mid := dst[..];
      StoreCode(dst, k + made, wc);
      EmittedMore(was, mid, dst[..], k, out, CodeBytes(c, be));
      NarrowStep2(src, used, n, be);
      out, used, made := out + CodeBytes(c, be), used + n, made + 4;
    }
    return if used < |src| then E2BIG else Ok, used, made;
  }

  // ---------------------------------------------------------------- do_iconv

  /** A UCS-2 page refuses high surrogates; a UTF-32 page never looks. */
  predicate Refuses(cp: Codepage) {
    cp.ucs2 && !cp.wide32
  }

  /** src_to_widechar of a code page. */
  method ToWide(cp: Codepage, src: seq<Byte>, dst: array<Byte>, k: nat, room: nat)
    returns (e: Errno, used: nat, made: nat)
    requires k + room <= dst.Length
    modifies dst
    ensures used <= |src| && used % Unit(cp) == 0
    ensures made <= room && made == |WordsBytes(SourceWords(cp, src[..used]), false)|
    ensures Emitted(old(dst[..]), dst[..], k, WordsBytes(SourceWords(cp, src[..used]), false))
    ensures e == EILSEQ ==> Refuses(cp) && used + 2 <= |src| && High(ReadWord(src[used], src[used + 1], cp.be))
    ensures e != EILSEQ && |src| - used >= Unit(cp) ==> room - made < Unit(cp)
    ensures cp.wide32 && |src| - used >= 4 ==>
      room - made < 2 * |CodeWords(ReadCode(src[used], src[used + 1], src[used + 2], src[used + 3], cp.be))|
    ensures e == Ok ==> used == |src|
    ensures !cp.wide32 ==> made == used
    ensures Refuses(cp) ==> NoHigh(SourceWords(cp, src[..used]))
  {
    hide Emitted, Words, Codes, Wide, WordsBytes, ReadWord, ReadCode, CodeWords, NoHigh;
    if cp.wide32 {
      e, used, made := Utf32ToWide(cp.be, src, dst, k, room);
    } else {
      e, used := CopyWords(cp.ucs2, cp.be, false, src, dst, k, room);
      made := used;
    }
  }

  /** widechar_to_dst of a code page. */
  method FromWide(cp: Codepage, src: seq<Byte>, dst: array<Byte>, k: nat, room: nat)
    returns (e: Errno, used: nat, made: nat)
    requires k + room <= dst.Length && |src| % 2 == 0
    modifies dst
    ensures used <= |src| && used % 2 == 0 && made <= room && made == |TargetBytes(cp, Words(src[..used], false))|
    ensures Emitted(old(dst[..]), dst[..], k, TargetBytes(cp, Words(src[..used], false)))
    ensures cp.wide32 ==> Whole(Words(src[..used], false))
    ensures Refuses(cp) ==> NoHigh(Words(src[..used], false))
    ensures e == Ok <==> used == |src|
    ensures e == EILSEQ ==> cp.ucs2 && !cp.wide32
    ensures Takes(cp, Words(src, false)) && |TargetBytes(cp, Words(src, false))| <= room ==> e == Ok
    ensures Takes(cp, Words(src, false)) && room >= 4 && src != [] ==> used >= 2
  {
    hide Emitted, Words, WordsBytes, CodesBytes, Narrow, Whole, NoHigh, ReadWord;
    if cp.wide32 {
      e, used, made := WideToUtf32(cp.be, src, dst, k, room);
    } else {
      e, used := CopyWords(cp.ucs2, false, cp.be, src, dst, k, room);
      made := used;
    }
    if e != Ok {
      LeftoverDoesNotFit(cp, src, used);
      NoTarget(cp);
      assert used == 0 ==> src[..used] == [];
    }
  }

  /** Words a page can write out: no cut pair at the end, no high surrogate on a UCS-2 page. */
  predicate Takes(cp: Codepage, ws: seq<Word>) {
    (cp.wide32 ==> Whole(ws)) && (Refuses(cp) ==> NoHigh(ws))
  }

  /** What is left when a page stops would have needed room for one more unit. */
  lemma LeftoverDoesNotFit(cp: Codepage, src: seq<Byte>, used: nat)
    requires used + 2 <= |src| && |src| % 2 == 0 && used % 2 == 0
    requires cp.wide32 ==> Whole(Words(src[..used], false))
    ensures var w := ReadWord(src[used], src[used + 1], false);
      && (Takes(cp, Words(src, false)) ==>
        |TargetBytes(cp, Words(src, false))| >= |TargetBytes(cp, Words(src[..used], false))| + Unit(cp))
      && (cp.wide32 && Whole(Words(src, false)) && High(w) ==> |src| - used >= 4)
      && (NoHigh(Words(src, false)) ==> !High(w))
  {
    hide TargetBytes, ReadWord, Words;
    var a, b := Words(src[..used], false), Words(src[used..], false);
    assert src[..used] + src[used..] == src;
    WordsConcat(src[..used], src[used..], false);
    FirstWord(src[used..]);
    assert b[0] == ReadWord(src[used], src[used + 1], false);
    assert (a + b)[|a|] == b[0];
    if cp.wide32 {
      NarrowConcat(a, b);
    }
    TargetResumes(cp, a, b);
    if Takes(cp, a + b) {
      NotEmptyTarget(cp, b);
    }
  }

  lemma FirstWord(b: seq<Byte>)
    requires |b| >= 2 && |b| % 2 == 0
    ensures 2 * |Words(b, false)| == |b| && Words(b, false)[0] == ReadWord(b[0], b[1], false)
  {
    hide ReadWord;
    WordsNext(b, 0, false);
    WordsConcat(b[..2], b[2..], false);
    assert b[..2] + b[2..] == b;
    assert b[..0 + 2] == b[..2];
    WordsLength(b, false);
  }

  lemma {:induction false} WordsLength(b: seq<Byte>, be: bool)
    requires |b| % 2 == 0
    ensures 2 * |Words(b, be)| == |b|
    decreases |b|
  {
    if b != [] {
      WordsLength(b[..|b| - 2], be);
    }
  }

  lemma NotEmptyTarget(cp: Codepage, ws: seq<Word>)
    requires ws != [] && (cp.wide32 ==> Whole(ws))
    ensures |TargetBytes(cp, ws)| >= Unit(cp)
  {
  }

  function Sum(rooms: seq<nat>): nat {
    if rooms == [] then 0 else Sum(rooms[..|rooms| - 1]) + rooms[|rooms| - 1]
  }

  lemma {:induction false} SumNext(rooms: seq<nat>, i: nat)
    requires i < |rooms|
    ensures Sum(rooms[..i]) + rooms[i] == Sum(rooms[..i + 1]) <= Sum(rooms)
    decreases |rooms|
  {
    var front := rooms[..|rooms| - 1];
    assert rooms[..i + 1][..i] == rooms[..i];
    if i == |rooms| - 1 {
      assert rooms[..i + 1] == rooms;
    } else {
      SumNext(front, i);
      assert front[..i] == rooms[..i] && front[..i + 1] == rooms[..i + 1];
    }
  }

  predicate AtLeast4(rooms: seq<nat>) {
    forall i :: 0 <= i < |rooms| ==> rooms[i] >= 4
  }

  /** Calling src_to_widechar again and again, each time with the room given and where the last call
      stopped, writes exactly the words of the source bytes consumed, as one call would.  When every
      call has room for one code and no surrogate is refused, every call consumes at least one unit,
      until the source is used up. */
  method ToWideInPieces(cp: Codepage, src: seq<Byte>, dst: array<Byte>, k: nat, rooms: seq<nat>)
    returns (used: nat, made: nat)
    requires k + Sum(rooms) <= dst.Length
    modifies dst
    ensures used <= |src| && made == |WordsBytes(SourceWords(cp, src[..used]), false)|
    ensures Emitted(old(dst[..]), dst[..], k, WordsBytes(SourceWords(cp, src[..used]), false))
    ensures Steady(cp, src, rooms) ==> Advanced(cp, src, used, |rooms|)
  {
    hide Emitted, WordsBytes, SourceWords, ReadWord, ReadCode, CodeWords, NoHigh, High, Advanced, Steady, Sum;
    used, made := 0, 0;
    ghost var was := dst[..];
    NoSource(cp);
    NotAdvanced(cp, src);
    assert src[..0] == [];
    EmittedNothing(was, k);
    for i := 0 to |rooms|
      invariant used <= |src| && used % Unit(cp) == 0 && made <= Sum(rooms[..i])
      invariant made == |WordsBytes(SourceWords(cp, src[..used]), false)|
      invariant Emitted(was, dst[..], k, WordsBytes(SourceWords(cp, src[..used]), false))
      invariant Steady(cp, src, rooms) ==> Advanced(cp, src, used, i)
    {
      SumNext(rooms, i);
      ghost var mid := dst[..];
      var e, n, m := ToWide(cp, src[used..], dst, k + made, rooms[i]);
      assert src[used..][..n] == src[used..used + n];
      if Steady(cp, src, rooms) {
        SourceAdvances(cp, src, rooms, i, used, e, n, m);
      }
      SourcePiece(cp, src, used, n);
      EmittedMore(was, mid, dst[..], k, WordsBytes(SourceWords(cp, src[..used]), false),
                  WordsBytes(SourceWords(cp, src[used..used + n]), false));
      used, made := used + n, made + m;
    }
  }

  lemma SourcePiece(cp: Codepage, src: seq<Byte>, used: nat, n: nat)
    requires used + n <= |src| && n % Unit(cp) == 0 && used % Unit(cp) == 0
    ensures (used + n) % Unit(cp) == 0
    ensures WordsBytes(SourceWords(cp, src[..used + n]), false)
         == WordsBytes(SourceWords(cp, src[..used]), false) + WordsBytes(SourceWords(cp, src[used..used + n]), false)
  {
    hide WordsBytes, SourceWords;
    assert src[..used] + src[used..used + n] == src[..used + n];
    SourceResumes(cp, src[..used], src[used..used + n]);
    WordsBytesConcat(SourceWords(cp, src[..used]), SourceWords(cp, src[used..used + n]), false);
    UnitsAdd(cp, used, n);
  }

  /** After i calls: at least i units are consumed, or the whole source is. */
  predicate Advanced(cp: Codepage, src: seq<Byte>, used: nat, i: nat) {
    used == |src| || used >= Unit(cp) * i
  }

  /** Whole units, room for one code in every call, and no surrogate that the page refuses. */
  predicate Steady(cp: Codepage, src: seq<Byte>, rooms: seq<nat>) {
    |src| % Unit(cp) == 0 && AtLeast4(rooms) && (Refuses(cp) ==> NoHigh(SourceWords(cp, src)))
  }

  lemma NotAdvanced(cp: Codepage, src: seq<Byte>)
    ensures Advanced(cp, src, 0, 0)
  {
  }

  /** A call with room for one code consumes at least one unit. */
  lemma SourceAdvances(cp: Codepage, src: seq<Byte>, rooms: seq<nat>, i: nat, used: nat, e: Errno, n: nat, m: nat)
    requires i < |rooms| && Steady(cp, src, rooms) && Advanced(cp, src, used, i)
    requires used + n <= |src| && used % Unit(cp) == 0 && n % Unit(cp) == 0
    requires m == |WordsBytes(SourceWords(cp, src[used..used + n]), false)|
    requires e != EILSEQ && |src| - used - n >= Unit(cp) ==> rooms[i] - m < Unit(cp)
    requires e == EILSEQ ==>
      Refuses(cp) && used + n + 2 <= |src| && High(ReadWord(src[used + n], src[used + n + 1], cp.be))
    ensures Advanced(cp, src, used + n, i + 1)
  {
    hide WordsBytes, NoHigh, ReadWord, Words, Codes, Wide;
    var taken := src[used..used + n];
    if e == EILSEQ {
      NoHighAt(src, used + n, cp.be);
    }
    NoSource(cp);
    assert |taken| == n;
  }

  /** The same for widechar_to_dst: no piece ends inside a pair, and with room for one code in every
      call, every call consumes at least one word of what the page can write out. */
  method FromWideInPieces(cp: Codepage, src: seq<Byte>, dst: array<Byte>, k: nat, rooms: seq<nat>)
    returns (used: nat, made: nat)
    requires k + Sum(rooms) <= dst.Length && |src| % 2 == 0
    modifies dst
    ensures used <= |src| && made == |TargetBytes(cp, Words(src[..used], false))|
    ensures Emitted(old(dst[..]), dst[..], k, TargetBytes(cp, Words(src[..used], false)))
    ensures cp.wide32 ==> Whole(Words(src[..used], false))
    ensures AtLeast4(rooms) && Takes(cp, Words(src, false)) ==> used == |src| || used >= 2 * |rooms|
  {
    hide Emitted, Words, TargetBytes, Whole, NoHigh, Takes;
    used, made := 0, 0;
    ghost var was := dst[..];
    ghost var steady := AtLeast4(rooms) && Takes(cp, Words(src, false));
    NoTarget(cp);
    assert src[..0] == [];
    EmittedNothing(was, k);
    for i := 0 to |rooms|
      invariant used <= |src| && used % 2 == 0 && made <= Sum(rooms[..i])
      invariant made == |TargetBytes(cp, Words(src[..used], false))|
      invariant Emitted(was, dst[..], k, TargetBytes(cp, Words(src[..used], false)))
      invariant cp.wide32 ==> Whole(Words(src[..used], false))
      invariant steady ==> used == |src| || used >= 2 * i
    {
      SumNext(rooms, i);
      ghost var mid := dst[..];
      var e, n, m := FromWide(cp, src[used..], dst, k + made, rooms[i]);
      assert src[used..][..n] == src[used..used + n];
      if steady {
        TakesRest(cp, src, used);
      }
      TargetPiece(cp, src, used, n);
      EmittedMore(was, mid, dst[..], k, TargetBytes(cp, Words(src[..used], false)),
                  TargetBytes(cp, Words(src[used..used + n], false)));
      used, made := used + n, made + m;
    }
  }

  lemma TakesRest(cp: Codepage, src: seq<Byte>, used: nat)
    requires used <= |src| && |src| % 2 == 0 && used % 2 == 0 && Takes(cp, Words(src, false))
    requires cp.wide32 ==> Whole(Words(src[..used], false))
    ensures Takes(cp, Words(src[used..], false))
  {
    hide Words, Whole, NoHigh;
    assert src[..used] + src[used..] == src;
    WordsConcat(src[..used], src[used..], false);
    NoHighParts(Words(src[..used], false), Words(src[used..], false));
    if cp.wide32 {
      NarrowConcat(Words(src[..used], false), Words(src[used..], false));
    }
  }

  lemma TargetPiece(cp: Codepage, src: seq<Byte>, used: nat, n: nat)
    requires used + n <= |src| && n % 2 == 0
    requires cp.wide32 ==> Whole(Words(src[..used], false)) && Whole(Words(src[used..used + n], false))
    ensures TargetBytes(cp, Words(src[..used + n], false))
         == TargetBytes(cp, Words(src[..used], false)) + TargetBytes(cp, Words(src[used..used + n], false))
    ensures cp.wide32 ==> Whole(Words(src[..used + n], false))
  {
    hide Words, TargetBytes, Whole;
    var a, b := src[..used], src[used..used + n];
    assert a + b == src[..used + n];
    WordsConcat(a, b, false);
    TargetResumes(cp, Words(a, false), Words(b, false));
    if cp.wide32 {
      NarrowConcat(Words(a, false), Words(b, false));
    }
  }

  lemma NoSource(cp: Codepage)
    ensures SourceWords(cp, []) == [] && WordsBytes([], false) == []
  {
    NoUnits(cp.be);
    NoUnits(false);
    NoCodes();
  }

  lemma NoTarget(cp: Codepage)
    ensures Words([], false) == [] && TargetBytes(cp, []) == [] && Whole([])
  {
    NoUnits(cp.be);
    NoUnits(false);
    NoCodes();
  }

  lemma UnitsAdd(cp: Codepage, a: nat, b: nat)
    requires a % Unit(cp) == 0 && b % Unit(cp) == 0
    ensures (a + b) % Unit(cp) == 0
  {
  }

  /** How many codes fit, whole, into room bytes of words. */
  function Taken(cs: seq<Code>, room: nat): (t: nat)
    ensures t <= |cs|
  {
    if cs == [] || 2 * |CodeWords(cs[0])| > room then 0 else 1 + Taken(cs[1..], room - 2 * |CodeWords(cs[0])|)
  }

  /** Where a round of do_iconv that starts at byte u stops reading: after 4096 bytes of UTF-16, or
      after the UTF-32 codes whose words fit into 4096 bytes. */
  function NextCut(from: Codepage, src: seq<Byte>, u: nat): nat
    requires u <= |src|
  {
    if from.wide32 then u + 4 * Taken(Codes(src[u..], from.be), 4096)
    else if |src| - u < 4096 then |src|
    else u + 4096
  }

  /** No round from byte u on stops reading inside a pair. */
  predicate CutsWhole(from: Codepage, src: seq<Byte>, u: nat)
    requires u <= |src|
    decreases |src| - u
  {
    u == |src|
    || (var v := NextCut(from, src, u);
        u < v <= |src| && Whole(SourceWords(from, src[u..v])) && CutsWhole(from, src, v))
  }

  /** Every piece read can be written: no round stops inside a pair when the target is UTF-32, and no
      surrogate meets a UCS-2 page. */
  predicate Accepted(from: Codepage, to: Codepage, src: seq<Byte>) {
    && (to.wide32 ==> CutsWhole(from, src, 0))
    && (Refuses(from) || Refuses(to) ==> NoHigh(SourceWords(from, src)))
  }

  /** The translation in one piece. */
  function OneShot(from: Codepage, to: Codepage, src: seq<Byte>): seq<Byte> {
    TargetBytes(to, SourceWords(from, src))
  }

  lemma PiecesJoin(from: Codepage, to: Codepage, src: seq<Byte>, used: nat, n: nat)
    requires used + n <= |src| && n % Unit(from) == 0 && used % Unit(from) == 0
    requires to.wide32 ==> Whole(SourceWords(from, src[..used]))
    ensures SourceWords(from, src[..used + n]) == SourceWords(from, src[..used])
      + SourceWords(from, src[used..used + n])
    ensures OneShot(from, to, src[..used + n]) == OneShot(from, to, src[..used])
      + OneShot(from, to, src[used..used + n])
  {
    hide SourceWords, TargetBytes, Whole;
    assert src[..used] + src[used..used + n] == src[..used + n];
    SourceResumes(from, src[..used], src[used..used + n]);
    TargetResumes(to, SourceWords(from, src[..used]), SourceWords(from, src[used..used + n]));
  }

  lemma NoHighParts(a: seq<Word>, b: seq<Word>)
    ensures NoHigh(a + b) <==> NoHigh(a) && NoHigh(b)
  {
    if NoHigh(a + b) {
      forall i | 0 <= i < |a| ensures !High(a[i]) {
        assert a[i] == (a + b)[i];
      }
      forall i | 0 <= i < |b| ensures !High(b[i]) {
        assert b[i] == (a + b)[|a| + i];
      }
    }
  }

  lemma {:induction false} CodesLength(b: seq<Byte>, be: bool)
    requires |b| % 4 == 0
    ensures 4 * |Codes(b, be)| == |b|
    decreases |b|
  {
    if b != [] {
      CodesLength(b[..|b| - 4], be);
    }
  }

  lemma SourceNotEmpty(cp: Codepage, b: seq<Byte>)
    requires b != [] && |b| % Unit(cp) == 0
    ensures SourceWords(cp, b) != []
  {
    if cp.wide32 {
      CodesLast(b, cp.be);
    } else {
      WordsLast(b, cp.be);
    }
  }

  lemma CodesPrefix(b: seq<Byte>, be: bool, t: nat)
    requires 4 * t <= |b| && |b| % 4 == 0
    ensures t <= |Codes(b, be)| && Codes(b[..4 * t], be) == Codes(b, be)[..t]
    ensures 4 * t < |b| ==>
      t < |Codes(b, be)| && Codes(b, be)[t] == ReadCode(b[4 * t], b[4 * t + 1], b[4 * t + 2], b[4 * t + 3], be)
  {
    hide Codes, ReadCode;
    CodesLength(b, be);
    CodesLength(b[..4 * t], be);
    CodesConcat(b[..4 * t], b[4 * t..], be);
    assert b[..4 * t] + b[4 * t..] == b;
    if 4 * t < |b| {
      CodesNext(b, 4 * t, be);
      CodesConcat(b[..4 * t + 4], b[4 * t + 4..], be);
      assert b[..4 * t + 4] + b[4 * t + 4..] == b;
    }
  }

  /** Taking codes one by one until the next does not fit takes that many. */
  lemma {:induction false} TakenIs(cs: seq<Code>, t: nat, room: nat)
    requires t <= |cs| && 2 * |Wide(cs[..t])| <= room
    requires t < |cs| ==> 2 * |Wide(cs[..t])| + 2 * |CodeWords(cs[t])| > room
    ensures t == Taken(cs, room)
    decreases t
  {
    hide Wide, CodeWords;
    NoCodes();
    if t > 0 {
      WideOne(cs[0], cs[1..][..t - 1]);
      assert [cs[0]] + cs[1..][..t - 1] == cs[..t];
      TakenIs(cs[1..], t - 1, room - 2 * |CodeWords(cs[0])|);
    } else {
      assert cs[..t] == [];
    }
  }

  /** A round reads something, up to the next cut. */
  lemma RoundCut(from: Codepage, src: seq<Byte>, u: nat, n: nat, m: nat)
    requires u < |src| && |src| % Unit(from) == 0 && u % Unit(from) == 0 && u + n <= |src| && n % Unit(from) == 0
    requires m <= 4096 && m == |WordsBytes(SourceWords(from, src[u..u + n]), false)|
    requires !from.wide32 ==> m == n && (|src| - u - n >= 2 ==> 4096 - m < 2)
    requires from.wide32 && |src| - u - n >= 4 ==>
      4096 - m < 2 * |CodeWords(ReadCode(src[u + n], src[u + n + 1], src[u + n + 2], src[u + n + 3], from.be))|
    ensures n > 0 && u + n == NextCut(from, src, u)
  {
    if from.wide32 {
      RoundCut32(from, src, u, n, m);
    }
  }

  lemma RoundCut32(from: Codepage, src: seq<Byte>, u: nat, n: nat, m: nat)
    requires from.wide32 && u < |src| && |src| % 4 == 0 && u % 4 == 0 && u + n <= |src| && n % 4 == 0
    requires m <= 4096 && m == |WordsBytes(Wide(Codes(src[u..u + n], from.be)), false)|
    requires |src| - u - n >= 4 ==>
      4096 - m < 2 * |CodeWords(ReadCode(src[u + n], src[u + n + 1], src[u + n + 2], src[u + n + 3], from.be))|
    ensures n > 0 && n == 4 * Taken(Codes(src[u..], from.be), 4096)
  {
    hide Codes, Wide, WordsBytes, ReadCode, CodeWords, Taken;
    var b, t := src[u..], n / 4;
    assert b[..4 * t] == src[u..u + n];
    CodesPrefix(b, from.be, t);
    CodesLength(b, from.be);
    NoCodes();
    var taken := Codes(b, from.be)[..t];
    assert t == 0 ==> taken == [];
    TakenIs(Codes(b, from.be), t, 4096);
  }

  /** The next round of an accepted source translates into something, and it fits. */
  lemma RoundFits(from: Codepage, to: Codepage, src: seq<Byte>, u: nat, n: nat, room: nat)
    requires |src| % Unit(from) == 0 && Accepted(from, to, src) && |OneShot(from, to, src)| <= room
    requires u % Unit(from) == 0 && 0 < n && u + n <= |src| && n % Unit(from) == 0 && u + n == NextCut(from, src, u)
    requires to.wide32 ==> Whole(SourceWords(from, src[..u])) && CutsWhole(from, src, u)
    ensures Takes(to, SourceWords(from, src[u..u + n]))
    ensures |OneShot(from, to, src[u..u + n])| > 0
    ensures |OneShot(from, to, src[..u])| + |OneShot(from, to, src[u..u + n])| <= room
  {
    hide SourceWords, TargetBytes, Whole, NoHigh, Accepted, NextCut;
    var p, c := SourceWords(from, src[..u]), SourceWords(from, src[u..u + n]);
    assert to.wide32 ==> Whole(c);
    hide CutsWhole;
    UnitsAdd(from, u, n);
    PiecesJoin(from, to, src, u, n);
    if to.wide32 {
      NarrowConcat(p, c);
    }
    RestJoins(from, to, src, u + n);
    if Refuses(to) {
      AcceptedNoHigh(from, to, src);
      NoHighParts(p + c, SourceWords(from, src[u + n..]));
      NoHighParts(p, c);
    }
    SourceNotEmpty(from, src[u..u + n]);
    NotEmptyTarget(to, c);
  }

  /** There is a next round as long as the source is not used up. */
  lemma CutAhead(from: Codepage, src: seq<Byte>, u: nat)
    requires u < |src| && |src| % Unit(from) == 0 && u % Unit(from) == 0
    ensures u < NextCut(from, src, u) <= |src| && (NextCut(from, src, u) - u) % Unit(from) == 0
  {
    if from.wide32 {
      CodesLength(src[u..], from.be);
      hide Codes, CodeWords;
    }
  }

  /** Taking the next n bytes leaves the rest. */
  lemma RestJoins(from: Codepage, to: Codepage, src: seq<Byte>, used: nat)
    requires used <= |src| && |src| % Unit(from) == 0 && used % Unit(from) == 0
    requires to.wide32 ==> Whole(SourceWords(from, src[..used]))
    ensures SourceWords(from, src) == SourceWords(from, src[..used]) + SourceWords(from, src[used..])
    ensures OneShot(from, to, src) == OneShot(from, to, src[..used]) + OneShot(from, to, src[used..])
  {
    hide SourceWords, TargetBytes, Whole;
    UnitsRest(from, |src|, used);
    PiecesJoin(from, to, src, used, |src| - used);
    assert src[..used + (|src| - used)] == src && src[used..used + (|src| - used)] == src[used..];
  }

  lemma UnitsRest(cp: Codepage, a: nat, b: nat)
    requires b <= a && a % Unit(cp) == 0 && b % Unit(cp) == 0
    ensures (a - b) % Unit(cp) == 0
  {
    if cp.wide32 {
      FoursRest(a, b);
    } else {
      TwosRest(a, b);
    }
  }

  lemma FoursRest(a: nat, b: nat)
    requires b <= a && a % 4 == 0 && b % 4 == 0
    ensures (a - b) % 4 == 0
  {
  }

  lemma TwosRest(a: nat, b: nat)
    requires b <= a && a % 2 == 0 && b % 2 == 0
    ensures (a - b) % 2 == 0
  {
  }

  lemma AcceptedNoHigh(from: Codepage, to: Codepage, src: seq<Byte>)
    requires Accepted(from, to, src) && (Refuses(from) || Refuses(to))
    ensures NoHigh(SourceWords(from, src))
  {
    assert src[..|src|] == src;
  }

  /** No word of text without high surrogates is one. */
  lemma NoHighAt(src: seq<Byte>, j: nat, be: bool)
    requires NoHigh(Words(src, be)) && j + 2 <= |src| && j % 2 == 0 && |src| % 2 == 0
    ensures !High(ReadWord(src[j], src[j + 1], be))
  {
    hide ReadWord, Words, NoHigh;
    WordsNext(src, j, be);
    WordsConcat(src[..j + 2], src[j + 2..], be);
    assert src[..j + 2] + src[j + 2..] == src;
    NoHighParts(Words(src[..j + 2], be), Words(src[j + 2..], be));
    NoHighParts(Words(src[..j], be), [ReadWord(src[j], src[j + 1], be)]);
    OnlyWord(ReadWord(src[j], src[j + 1], be));
  }

  lemma RefusedWord(from: Codepage, to: Codepage, src: seq<Byte>, j: nat)
    requires Refuses(from) && Accepted(from, to, src) && j + 2 <= |src|
    requires j % Unit(from) == 0 && |src| % Unit(from) == 0
    ensures !High(ReadWord(src[j], src[j + 1], from.be))
  {
    hide ReadWord, Words, NoHigh, CutsWhole;
    NoHighAt(src, j, from.be);
  }

  lemma OnlyWord(w: Word)
    ensures NoHigh([w]) <==> !High(w)
  {
    assert [w][0] == w;
  }

  /** Where do_iconv stands after reading u bytes and writing made. */
  ghost predicate Done(
    from: Codepage, to: Codepage, src: seq<Byte>, u: nat, was: seq<Byte>, now: seq<Byte>, k: nat, made: nat)
  {
    && u <= |src| && u % Unit(from) == 0
    && made == |OneShot(from, to, src[..u])| && Emitted(was, now, k, OneShot(from, to, src[..u]))
    && (to.wide32 ==> Whole(SourceWords(from, src[..u])) && (CutsWhole(from, src, 0) <==> CutsWhole(from, src, u)))
    && (Refuses(from) || Refuses(to) ==> NoHigh(SourceWords(from, src[..u])))
  }

  ghost predicate Fits(from: Codepage, to: Codepage, src: seq<Byte>, room: nat) {
    Accepted(from, to, src) && |OneShot(from, to, src)| <= room
  }

  lemma RestAt(src: seq<Byte>, u: nat, n: nat)
    requires u + n <= |src|
    ensures src[u..][..n] == src[u..u + n]
    ensures forall i :: n <= i < |src| - u ==> src[u..][i] == src[u + i]
  {
  }

  /** One round of do_iconv's loop: at most 4096 bytes of words, then those words to the target. */
  method Round(
    from: Codepage, to: Codepage, src: seq<Byte>, u: nat,
    dst: array<Byte>, ghost was: seq<Byte>, k: nat, made: nat, room: nat, foreign: nat)
    returns (e: Errno, n: int, m: nat)
    requires made < room && k + room <= dst.Length && |src| % Unit(from) == 0 && u < |src|
    requires Done(from, to, src, u, was, dst[..], k, made)
    modifies dst
    ensures made + m <= room
    ensures e == Ok ==> n > 0 && Done(from, to, src, u + n, was, dst[..], k, made + m)
    ensures Fits(from, to, src, room) ==> e == Ok
    ensures e == EILSEQ ==> (from.ucs2 && !from.wide32) || (to.ucs2 && !to.wide32)
  {
    hide Emitted, Words, WordsBytes, TargetBytes, SourceWords, Whole, NoHigh, ReadWord, ReadCode, CodeWords;
    hide High, Takes, NextCut, CutsWhole, OneShot;
    var buf := new Byte[4096](_ => 0);
    ghost var empty, mid := buf[..], dst[..];
    var e1, n1, m1 := ToWide(from, src[u..], buf, 0, 4096);
    if e1 == EILSEQ {
      if Fits(from, to, src, room) {
        RestAt(src, u, n1);
        UnitsAdd(from, u, n1);
        RefusedWord(from, to, src, u + n1);
      }
      return EILSEQ, n1, 0;
    }
    RestAt(src, u, n1);
    RoundCut(from, src, u, n1, m1);
    BufferHolds(empty, buf[..], m1, SourceWords(from, src[u..u + n1]));
    var e2, n2, m2 := FromWide(to, buf[..m1], dst, k + made, room - made);
    ChunkTarget(from, to, src, u, n1);
    if Fits(from, to, src, room) {
      RoundFits(from, to, src, u, n1, room);
    }
    if n2 < m1 { return e2, n1 - foreign, m2; }
    if e2 != Ok { return e2, n1, m2; }
    assert buf[..m1][..n2] == buf[..m1];
    RoundDone(from, to, src, u, n1, was, mid, dst[..], k, made, m2);
    return Ok, n1, m2;
  }

  /** do_iconv on whole source units: rounds of at most 4096 bytes through a local buffer.  foreign is
      what WideCharToMultiByte answers when a round leaves words over; that round is the last.
      It succeeds exactly when every piece is accepted and the translation fits, and then the output
      is the one-piece translation of the whole source. */
  method DoIconv(
    from: Codepage, to: Codepage, src: seq<Byte>, dst: array<Byte>, k: nat, room: nat, foreign: nat)
    returns (e: Errno, used: int, made: nat)
    requires k + room <= dst.Length && |src| % Unit(from) == 0
    modifies dst
    ensures made <= room
    ensures e == Ok <==> Accepted(from, to, src) && |OneShot(from, to, src)| <= room
    ensures e == Ok ==> used == |src| && made == |OneShot(from, to, src)|
    ensures e == Ok ==> Emitted(old(dst[..]), dst[..], k, OneShot(from, to, src))
    ensures e == Ok && !to.wide32 && !from.wide32 ==> Words(dst[k..k + made], to.be) == Words(src, from.be)
    ensures e == Ok && !to.wide32 && from.wide32 ==> Words(dst[k..k + made], to.be) == Wide(Codes(src, from.be))
    ensures e == Ok && to.wide32 && !from.wide32 ==> Codes(dst[k..k + made], to.be) == Narrow(Words(src, from.be))
    ensures e == Ok && to.wide32 && from.wide32 ==> Codes(dst[k..k + made], to.be) == Narrow(Wide(Codes(src, from.be)))
    ensures e == Ok && !to.wide32 && from.wide32 && Narrow(Wide(Codes(src, from.be))) == Codes(src, from.be) ==>
      Narrow(Words(dst[k..k + made], to.be)) == Codes(src, from.be)
    ensures e == EILSEQ ==> (from.ucs2 && !from.wide32) || (to.ucs2 && !to.wide32)
  {
    hide Emitted, SourceWords, Whole, NoHigh, CutsWhole, NextCut, OneShot, Words, Codes, Wide, Narrow;
    var u: nat := 0;
    made := 0;
    ghost var was := dst[..];
    Start(from, to, src, was, k);
    while u < |src|
      invariant made <= room && Done(from, to, src, u, was, dst[..], k, made)
      decreases |src| - u
    {
      if made == room {
        if Fits(from, to, src, room) {
          CutAhead(from, src, u);
          RoundFits(from, to, src, u, NextCut(from, src, u) - u, room);
        }
        return E2BIG, u, made;
      }
      var e1, n, m := Round(from, to, src, u, dst, was, k, made, room, foreign);
      if e1 != Ok { return e1, u + n, made + m; }
      u, made := u + n, made + m;
    }
    assert src[..u] == src;
    NothingLeft(from, src);
    OutputSays(from, to, src, was, dst[..], k);
    return Ok, u, made;
  }

  lemma Start(from: Codepage, to: Codepage, src: seq<Byte>, was: seq<Byte>, k: nat)
    requires k <= |was|
    ensures Done(from, to, src, 0, was, was, k, 0)
  {
    NoUnits(from.be);
    NoUnits(to.be);
    NoCodes();
    assert src[..0] == [] && SourceWords(from, []) == [];
  }

  /** What a reader of the output, in the target's byte order, finds there. */
  lemma OutputSays(from: Codepage, to: Codepage, src: seq<Byte>, was: seq<Byte>, now: seq<Byte>, k: nat)
    requires Emitted(was, now, k, OneShot(from, to, src))
    ensures k + |OneShot(from, to, src)| <= |now|
    ensures var out := now[k..k + |OneShot(from, to, src)|];
      var ws := if from.wide32 then Wide(Codes(src, from.be)) else Words(src, from.be);
      && (!to.wide32 ==> Words(out, to.be) == ws)
      && (to.wide32 ==> Codes(out, to.be) == Narrow(ws))
  {
    hide Words, Codes, Wide, Narrow, WordsBytes, CodesBytes;
    var ws := SourceWords(from, src);
    assert now[k..k + |OneShot(from, to, src)|] == OneShot(from, to, src);
    WordsInverse(ws, to.be);
    CodesInverse(Narrow(ws), to.be);
  }

  lemma NothingLeft(from: Codepage, src: seq<Byte>)
    ensures CutsWhole(from, src, |src|)
  {
  }

  lemma BufferHolds(was: seq<Byte>, buf: seq<Byte>, m: nat, chunk: seq<Word>)
    requires m <= |buf| && m == |WordsBytes(chunk, false)| && Emitted(was, buf, 0, WordsBytes(chunk, false))
    ensures m % 2 == 0 && Words(buf[..m], false) == chunk
  {
    assert buf[..m] == WordsBytes(chunk, false);
    WordsInverse(chunk, false);
  }

  lemma ChunkTarget(from: Codepage, to: Codepage, src: seq<Byte>, u: nat, n: nat)
    requires u + n <= |src|
    ensures OneShot(from, to, src[u..u + n]) == TargetBytes(to, SourceWords(from, src[u..u + n]))
  {
  }

  lemma RoundDone(
    from: Codepage, to: Codepage, src: seq<Byte>, u: nat, n: nat,
    was: seq<Byte>, mid: seq<Byte>, now: seq<Byte>, k: nat, made: nat, m: nat)
    requires n > 0 && u + n <= |src| && n % Unit(from) == 0 && Done(from, to, src, u, was, mid, k, made)
    requires u + n == NextCut(from, src, u)
    requires to.wide32 ==> Whole(SourceWords(from, src[u..u + n]))
    requires Refuses(from) || Refuses(to) ==> NoHigh(SourceWords(from, src[u..u + n]))
    requires m == |OneShot(from, to, src[u..u + n])| && Emitted(mid, now, k + made, OneShot(from, to, src[u..u + n]))
    ensures Done(from, to, src, u + n, was, now, k, made + m)
  {
    hide SourceWords, Emitted, Whole, NoHigh, NextCut, OneShot;
    assert to.wide32 ==> (CutsWhole(from, src, u) <==> CutsWhole(from, src, u + n));
    hide CutsWhole;
    UnitsAdd(from, u, n);
    PiecesJoin(from, to, src, u, n);
    if to.wide32 {
      NarrowConcat(SourceWords(from, src[..u]), SourceWords(from, src[u..u + n]));
    }
    NoHighParts(SourceWords(from, src[..u]), SourceWords(from, src[u..u + n]));
    EmittedMore(was, mid, now, k, OneShot(from, to, src[..u]), OneShot(from, to, src[u..u + n]));
  }

  // ---------------------------------------------------------------- what is accepted

  /** To a UTF-16 page that is not UCS-2, from one that is not UCS-2, everything is accepted. */
  lemma Utf16Accepts(from: Codepage, to: Codepage, src: seq<Byte>)
    requires !to.wide32 && !to.ucs2 && (from.wide32 || !from.ucs2)
    ensures Accepted(from, to, src)
  {
  }

  /** To a UTF-16 page, exactly the sources are accepted that keep surrogates away from UCS-2. */
  lemma Utf16AcceptsExactly(from: Codepage, to: Codepage, src: seq<Byte>)
    requires !to.wide32
    ensures Accepted(from, to, src) <==>
      ((from.ucs2 && !from.wide32) || to.ucs2 ==>
        var ws := if from.wide32 then Wide(Codes(src, from.be)) else Words(src, from.be);
        forall i :: 0 <= i < |ws| ==> !(0xD800 <= ws[i] <= 0xDBFF))
  {
    hide Words, Codes, Wide;
  }

  /** How many high surrogates stand at the end. */
  function TrailingHighs(ws: seq<Word>): nat {
    if ws == [] || !(0xD800 <= ws[|ws| - 1] <= 0xDBFF) then 0 else 1 + TrailingHighs(ws[..|ws| - 1])
  }

  /** Nothing is left unread exactly when an even number of high surrogates stands at the end. */
  lemma {:induction false} WholeExactly(ws: seq<Word>)
    ensures Whole(ws) <==> TrailingHighs(ws) % 2 == 0
    decreases |ws|
  {
    hide Whole;
    if ws == [] {
      NoCodes();
    } else {
      var front, w := ws[..|ws| - 1], ws[|ws| - 1];
      assert front + [w] == ws;
      WholeExactly(front);
      WholeSnoc(front, w);
    }
  }

  lemma {:induction false} WholeSnoc(ws: seq<Word>, w: Word)
    ensures Whole(ws + [w]) <==> !(Whole(ws) && High(w))
    decreases |ws|
  {
    if ws == [] {
      assert [] + [w] == [w] && [w][1..] == [];
    } else {
      var n := if High(ws[0]) then 2 else 1;
      if n <= |ws| {
        assert (ws + [w])[n..] == ws[n..] + [w];
        WholeSnoc(ws[n..], w);
      } else {
        assert (ws + [w])[2..] == [];
      }
    }
  }

  /** From UTF-16 to UTF-32 a source is accepted exactly when nothing is left unread at any multiple of
      4096 bytes and at its end. */
  lemma Utf16CutsExactly(from: Codepage, to: Codepage, src: seq<Byte>)
    requires !from.wide32 && to.wide32 && !from.ucs2 && |src| % 2 == 0
    ensures Accepted(from, to, src) <==>
      forall j: nat :: j <= |src| && (j % 4096 == 0 || j == |src|) ==> Whole(Words(src[..j], from.be))
  {
    hide CutsWhole, Words, Whole;
    NoUnits(from.be);
    NoCodes();
    assert src[..0] == [];
    CutsFrom(from, src, 0);
  }

  lemma {:induction false} CutsFrom(from: Codepage, src: seq<Byte>, u: nat)
    requires !from.wide32 && |src| % 2 == 0 && u <= |src| && (u % 4096 == 0 || u == |src|)
    requires Whole(Words(src[..u], from.be))
    ensures CutsWhole(from, src, u) <==>
      forall j: nat :: u <= j <= |src| && (j % 4096 == 0 || j == |src|) ==> Whole(Words(src[..j], from.be))
    decreases |src| - u
  {
    hide Words, Whole;
    if u < |src| {
      var v := NextCut(from, src, u);
      assert u < v <= |src| && (v % 4096 == 0 || v == |src|);
      assert src[..u] + src[u..v] == src[..v];
      WordsConcat(src[..u], src[u..v], from.be);
      NarrowConcat(Words(src[..u], from.be), Words(src[u..v], from.be));
      assert forall j: nat :: u <= j <= |src| && (j % 4096 == 0 || j == |src|) && j != u ==> j >= v;
      if Whole(Words(src[..v], from.be)) {
        CutsFrom(from, src, v);
      }
    }
  }

  /** From UTF-32 a round takes 2048 codes of the basic plane, or 1024 codes beyond it. */
  lemma EvenRounds(from: Codepage, src: seq<Byte>, u: nat, basic: bool)
    requires from.wide32 && u <= |src| && |src| % 4 == 0 && u % 4 == 0
    requires forall i :: 0 <= i < |Codes(src[u..], from.be)| ==> (Codes(src[u..], from.be)[i] < 0x1_0000 <==> basic)
    ensures NextCut(from, src, u) ==
      var n := if basic then 8192 else 4096; if |src| - u < n then |src| else u + n
  {
    hide Codes, Taken;
    var cs := Codes(src[u..], from.be);
    var most := if basic then 2048 else 1024;
    var t := if |cs| < most then |cs| else most;
    CodesLength(src[u..], from.be);
    EvenWide(cs[..t], basic);
    TakenIs(cs, t, 4096);
  }

  lemma {:induction false} EvenWide(cs: seq<Code>, basic: bool)
    requires forall i :: 0 <= i < |cs| ==> (cs[i] < 0x1_0000 <==> basic)
    ensures |Wide(cs)| == if basic then |cs| else 2 * |cs|
    decreases |cs|
  {
    if cs != [] {
      EvenWide(cs[..|cs| - 1], basic);
    }
  }

  predicate NoHighCode(cs: seq<Code>) {
    forall i :: 0 <= i < |cs| ==> !High(cs[i])
  }

  /** From UTF-32 to UTF-32, sources without a high surrogate are accepted, wherever rounds stop. */
  lemma Utf32Accepts(from: Codepage, to: Codepage, src: seq<Byte>)
    requires from.wide32 && to.wide32 && |src| % 4 == 0 && NoHighCode(Codes(src, from.be))
    ensures Accepted(from, to, src)
  {
    hide Codes, NoHighCode, CutsWhole;
    assert src[0..] == src;
    NoHighCuts(from, src, 0);
  }

  lemma {:induction false} NoHighCuts(from: Codepage, src: seq<Byte>, u: nat)
    requires from.wide32 && u <= |src| && |src| % 4 == 0 && u % 4 == 0 && NoHighCode(Codes(src[u..], from.be))
    ensures CutsWhole(from, src, u)
    decreases |src| - u
  {
    hide Codes, Whole, Wide, NextCut, NoHighCode;
    if u < |src| {
      CutAhead(from, src, u);
      var v := NextCut(from, src, u);
      var a, b := src[u..v], src[v..];
      assert a + b == src[u..];
      CodesConcat(a, b, from.be);
      NoHighWhole(Codes(a, from.be), Codes(b, from.be));
      NoHighTail(Codes(a, from.be), Codes(b, from.be));
      NoHighCuts(from, src, v);
    }
  }

  lemma NoHighTail(a: seq<Code>, b: seq<Code>)
    requires NoHighCode(a + b)
    ensures NoHighCode(b)
  {
    forall i | 0 <= i < |b| ensures !High(b[i]) {
      assert (a + b)[|a| + i] == b[i];
    }
  }

  /** With one it depends on where it stands: followed by another code in the same round it is
      accepted, and combined with that code; alone it is not. */
  lemma HighCodeExamples(from: Codepage, to: Codepage)
    requires from.wide32 && to.wide32
    ensures Accepted(from, to, CodesBytes([0xD800, 0x41], from.be))
    ensures OneShot(from, to, CodesBytes([0xD800, 0x41], from.be)) == CodesBytes([0x1_0041], to.be)
    ensures !Accepted(from, to, CodesBytes([0xD800], from.be))
  {
    hide CutsWhole, Wide, Whole, Narrow, Codes, CodesBytes;
    CodesInverse([0xD800, 0x41], from.be);
    OneRound(from, [0xD800, 0x41]);
    OneRound(from, [0xD800]);
    HighCodeWords();
  }

  lemma HighCodeWords()
    ensures Whole(Wide([0xD800, 0x41])) && !Whole(Wide([0xD800])) && Narrow(Wide([0xD800, 0x41])) == [0x1_0041]
  {
    hide Wide;
    WideOne(0xD800, [0x41]);
    WideOne(0xD800, []);
    WideOne(0x41, []);
    var ws: seq<Word> := [0xD800, 0x41];
    assert [0xD800] + [0x41] == [0xD800, 0x41];
    assert Wide([0xD800, 0x41]) == ws && ws[2..] == [];
  }

  /** A short source is read in one round. */
  lemma OneRound(from: Codepage, cs: seq<Code>)
    requires from.wide32 && 0 < |cs| <= 1024
    ensures CutsWhole(from, CodesBytes(cs, from.be), 0) <==> Whole(Wide(cs))
  {
    hide Codes, CodesBytes, Wide, Whole, Taken;
    var b := CodesBytes(cs, from.be);
    CodesInverse(cs, from.be);
    WideLength(cs);
    assert cs[..|cs|] == cs && b[0..] == b && b[0..|b|] == b;
    TakenIs(cs, |cs|, 4096);
    NothingLeft(from, b);
  }

  lemma {:induction false} WideLength(cs: seq<Code>)
    ensures |Wide(cs)| <= 2 * |cs|
    decreases |cs|
  {
    hide CodeWords;
    if cs != [] {
      WideLength(cs[..|cs| - 1]);
    }
  }

  /** One code's words are whole unless it is a high surrogate. */
  lemma WholeCode(c: Code)
    ensures Whole(CodeWords(c)) <==> !High(c)
  {
    assert CodeWords(c)[|CodeWords(c)|..] == [];
  }

  lemma {:induction false} NoHighWhole(cs: seq<Code>, rest: seq<Code>)
    requires NoHighCode(cs + rest)
    ensures Whole(Wide(cs))
    decreases |cs|
  {
    hide Wide, CodeWords, Whole, High;
    if cs == [] {
      NoCodes();
    } else {
      var front, c := cs[..|cs| - 1], cs[|cs| - 1];
      assert front + ([c] + rest) == cs + rest && front + [c] == cs;
      NoHighWhole(front, [c] + rest);
      assert (cs + rest)[|front|] == c;
      WideConcat(front, [c]);
      WideOne(c, []);
      WholeCode(c);
      NarrowConcat(Wide(front), CodeWords(c));
    }
  }
}
