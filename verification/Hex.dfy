/** Hexadecimal printing and reading of byte strings. */
module Hex {
  type Byte = b: int | 0 <= b < 256

  /** The sixteen lower-case digits tod_hexify and "%02x" print. */
  function Digit(d: nat): char
    requires d < 16
  {
    "0123456789abcdef"[d]
  }

  function ByteText(b: Byte): string {
    [Digit(b / 16), Digit(b % 16)]
  }

  function Text(bs: seq<Byte>): (t: string)
    ensures |t| == 2 * |bs|
  {
    if bs == [] then "" else ByteText(bs[0]) + Text(bs[1..])
  }

  lemma ByteTextInjective(a: Byte, b: Byte)
    requires ByteText(a) == ByteText(b)
    ensures a == b
  {
    assert ByteText(a)[0] == ByteText(b)[0] && ByteText(a)[1] == ByteText(b)[1];
    assert a / 16 == b / 16 && a % 16 == b % 16;
  }

  lemma {:induction false} TextAppend(bs: seq<Byte>, b: Byte)
    ensures Text(bs + [b]) == Text(bs) + ByteText(b)
  {
    if bs == [] {
      assert [] + [b] == [b];
      assert Text([b]) == ByteText(b) + Text([]);
    } else {
      assert (bs + [b])[1..] == bs[1..] + [b];
      TextAppend(bs[1..], b);
    }
  }

  // ---------------------------------------------------------------- reading

  /** The table _hex_map: digits of both cases, and '_' for everything else. */
  function Nibble(c: char): (v: nat)
    ensures v < 16 || v == 95
  {
    if '0' <= c <= '9' then c as nat - '0' as nat
    else if 'a' <= c <= 'f' then c as nat - 'a' as nat + 10
    else if 'A' <= c <= 'F' then c as nat - 'A' as nat + 10
    else '_' as nat
  }

  /** (v1 << 4) | v2 stored in a byte; 95 is 0x5f, whose high nibble 5 merges into v1's. */
  function Pack(v1: nat, v2: nat): Byte
    requires (v1 < 16 || v1 == 95) && (v2 < 16 || v2 == 95)
  {
    var high := v1 % 16;
    if v2 < 16 then high * 16 + v2
    else (high + (if high % 2 == 0 then 1 else 0) + (if high / 4 % 2 == 0 then 4 else 0)) * 16 + 15
  }

  /** The bytes that pairs of digits stand for. */
  function Bytes(hex: string): (bs: seq<Byte>)
    requires |hex| % 2 == 0
    ensures |bs| == |hex| / 2
  {
    if hex == "" then [] else [Pack(Nibble(hex[0]), Nibble(hex[1]))] + Bytes(hex[2..])
  }

  /** Reading undoes printing. */
  lemma {:induction false} RoundTrip(bs: seq<Byte>)
    ensures Bytes(Text(bs)) == bs
  {
    if bs != [] {
      var t := Text(bs);
      assert t[0] == ByteText(bs[0])[0] && t[1] == ByteText(bs[0])[1] && t[2..] == Text(bs[1..]);
      ByteRoundTrip(bs[0]);
      RoundTrip(bs[1..]);
    }
  }

  lemma ByteRoundTrip(b: Byte)
    ensures Pack(Nibble(ByteText(b)[0]), Nibble(ByteText(b)[1])) == b
  {
    var d1, d2 := b / 16, b % 16;
    assert Nibble(Digit(d1)) == d1 && Nibble(Digit(d2)) == d2;
  }

  lemma BytesStep(hex: string, i: nat, n: nat)
    requires i + n <= |hex| && i % 2 == 0 && n % 2 == 0
    ensures Bytes(hex[..i + n]) == Bytes(hex[..i]) + Bytes(hex[i..i + n])
  {
    BytesConcat(hex[..i], hex[i..i + n]);
    assert hex[..i] + hex[i..i + n] == hex[..i + n];
  }

  lemma BytesSplit(before: seq<Byte>, v1: string, v2: string)
    requires |v1| % 2 == 0 && |v2| % 2 == 0
    ensures |v1 + v2| % 2 == 0 && before + Bytes(v1) + Bytes(v2) == before + Bytes(v1 + v2)
  {
    hide Bytes;
    BytesConcat(v1, v2);
    assert before + Bytes(v1) + Bytes(v2) == before + (Bytes(v1) + Bytes(v2));
  }

  lemma {:induction false} BytesConcat(h1: string, h2: string)
    requires |h1| % 2 == 0 && |h2| % 2 == 0
    ensures |h1 + h2| % 2 == 0 && Bytes(h1 + h2) == Bytes(h1) + Bytes(h2)
  {
    if h1 == "" {
      assert h1 + h2 == h2;
    } else {
      assert (h1 + h2)[2..] == h1[2..] + h2;
      BytesConcat(h1[2..], h2);
    }
  }

  // ---------------------------------------------------------------- the C functions

  /** tod_hexify: the digits of bin and a NUL, or null when they do not fit. */
  method Hexify(hex: array<char>, nr: nat, bin: seq<Byte>) returns (ok: bool)
    requires nr <= hex.Length
    modifies hex
    ensures ok <==> nr / 2 > |bin|
    ensures ok ==> hex[..2 * |bin|] == Text(bin) && hex[2 * |bin|] == '\0'
    ensures if ok then hex[2 * |bin| + 1..] == old(hex[2 * |bin| + 1..]) else hex[..] == old(hex[..])
  {
    if nr / 2 <= |bin| { return false; }
    var i := 0;
    while i < |bin|
      invariant i <= |bin| && hex[..2 * i] == Text(bin[..i])
      invariant hex[2 * |bin| + 1..] == old(hex[2 * |bin| + 1..])
    {
      TextAppend(bin[..i], bin[i]);
      assert bin[..i] + [bin[i]] == bin[..i + 1];
      hex[2 * i] := Digit(bin[i] / 16);
      hex[2 * i + 1] := Digit(bin[i] % 16);
      assert hex[..2 * (i + 1)] == hex[..2 * i] + ByteText(bin[i]);
      i := i + 1;
    }
    assert bin[..|bin|] == bin;
    hex[2 * |bin|] := '\0';
    return true;
  }

  /** tod_hex2bytes_unsafe into the front of bytes. */
  method Hex2BytesUnsafe(hex: string, bytes: array<Byte>)
    requires |hex| % 2 == 0 && |hex| / 2 <= bytes.Length
    modifies bytes
    ensures bytes[..|hex| / 2] == Bytes(hex) && bytes[|hex| / 2..] == old(bytes[|hex| / 2..])
  {
    var i := 0;
    while i < |hex|
      invariant i <= |hex| && i % 2 == 0 && bytes[..i / 2] == Bytes(hex[..i])
      invariant bytes[|hex| / 2..] == old(bytes[|hex| / 2..])
    {
      BytesStep(hex, i, 2);
      bytes[i / 2] := Pack(Nibble(hex[i]), Nibble(hex[i + 1]));
      assert Bytes(hex[i..i + 2]) == [bytes[i / 2]] + Bytes("");
      assert bytes[..(i + 2) / 2] == bytes[..i / 2] + [bytes[i / 2]];
      i := i + 2;
    }
    assert hex[..|hex|] == hex;
  }

  datatype Errno = Ok | EINVAL | E2BIG

  /** tod_hex2bytes: an odd number of digits or a buffer without a spare byte is refused. */
  method Hex2Bytes(buf: array<Byte>, n: nat, hex: string) returns (e: Errno)
    requires n <= buf.Length
    modifies buf
    ensures e == if |hex| % 2 == 1 then EINVAL else if n <= |hex| / 2 then E2BIG else Ok
    ensures e == Ok ==> buf[..|hex| / 2] == Bytes(hex) && buf[|hex| / 2..] == old(buf[|hex| / 2..])
    ensures e != Ok ==> buf[..] == old(buf[..])
  {
    if |hex| % 2 == 1 { return EINVAL; }
    if n <= |hex| / 2 { return E2BIG; }
    Hex2BytesUnsafe(hex, buf);
    return Ok;
  }

  /** A growing byte buffer (_ejson_bin_t): the bytes stored and the allocated capacity. */
  class Bin {
    var bytes: seq<Byte>
    var cap: nat

    ghost predicate Valid()
      reads this
    {
      |bytes| <= cap
    }

    constructor ()
      ensures Valid() && bytes == []
    {
      bytes, cap := [], 0;
    }

    /** _ejson_bin_append; grants says which buffer sizes realloc can give. */
    method Append(v: seq<Byte>, grants: nat -> bool) returns (r: int)
      requires Valid()
      modifies this
      ensures Valid() && (r == 0 || r == -1)
      ensures r == 0 ==> bytes == old(bytes) + v && cap >= old(cap)
      ensures r == -1 ==> bytes == old(bytes) && cap == old(cap)
      ensures r == -1 <==> v != [] && |old(bytes)| + |v| > old(cap) && !grants((|old(bytes)| + |v| + 15) / 16 * 16 + 1)
      ensures r == 0 ==>
        cap == if v == [] || |old(bytes)| + |v| <= old(cap) then old(cap) else (|old(bytes)| + |v| + 15) / 16 * 16
    {
      if |v| == 0 {
        assert bytes + v == bytes;
        return 0;
      }
      var need := |bytes| + |v|;
      if need > cap {
        var more := (need + 15) / 16 * 16;
        if !grants(more + 1) { return -1; }
        cap := more;
      }
      bytes := bytes + v;
      return 0;
    }

    /** One round of _ejson_bin_append_hex: up to 2048 digits through a local buffer. */
    method AppendChunk(hex: string, grants: nat -> bool) returns (r: int)
      requires Valid() && |hex| % 2 == 0 && |hex| <= 2048
      modifies this
      ensures Valid() && (r == 0 || r == -1)
      ensures r == 0 ==> bytes == old(bytes) + Bytes(hex)
      ensures r == -1 ==> bytes == old(bytes) && exists n :: !grants(n)
    {
      var buf := new Byte[1024](_ => 0);
      Hex2BytesUnsafe(hex, buf);
      r := Append(buf[..|hex| / 2], grants);
    }

    /** _ejson_bin_append_hex: decodes up to 2048 digits at a time; however many rounds that takes, the
        bytes appended are those of the whole digit string.  An odd number of digits appends nothing;
        when memory runs out, the bytes of the first done digits are there. */
    method AppendHex(hex: string, grants: nat -> bool) returns (r: int, ghost done: nat)
      requires Valid()
      modifies this
      ensures Valid() && (r == 0 || r == -1)
      ensures r == 0 ==> |hex| % 2 == 0 && bytes == old(bytes) + Bytes(hex)
      ensures done <= |hex| && done % 2 == 0 && bytes == old(bytes) + Bytes(hex[..done])
      ensures |hex| % 2 == 1 ==> r == -1 && done == 0
      ensures |hex| % 2 == 0 && r == -1 ==> exists n :: !grants(n)
    {
      done := 0;
      assert hex[..0] == "" && bytes + Bytes("") == bytes;
      if |hex| == 0 { return 0, 0; }
      if |hex| % 2 == 1 { return -1, 0; }
      hide Bytes;
      ghost var was := bytes;
      var v := hex;
      while |v| > 0
        invariant |v| % 2 == 0 && Valid() && done + |v| == |hex| && done % 2 == 0 && v == hex[done..]
        invariant bytes == was + Bytes(hex[..done])
      {
        var hn := 2048;
        if hn > |v| { hn := |v|; }
        var now, rest := v[..hn], v[hn..];
        r := AppendChunk(now, grants);
        if r != 0 { return -1, done; }
        Joined(was, hex, done, hn);
        v, done := rest, done + hn;
      }
      assert hex[..done] == hex;
      return 0, done;
    }
  }

  lemma Joined(was: seq<Byte>, hex: string, done: nat, hn: nat)
    requires done + hn <= |hex| && done % 2 == 0 && hn % 2 == 0
    ensures was + Bytes(hex[..done]) + Bytes(hex[done..][..hn]) == was + Bytes(hex[..done + hn])
    ensures (done + hn) % 2 == 0
  {
    hide Bytes;
    BytesSplit(was, hex[..done], hex[done..][..hn]);
    assert hex[..done] + hex[done..][..hn] == hex[..done + hn];
  }

  // ---------------------------------------------------------------- the digits, spelled out

  /** Byte i prints as two lower-case digits, the high half first. */
  lemma {:induction false} TextAt(bs: seq<Byte>, i: nat)
    requires i < |bs|
    ensures Text(bs)[2 * i] == "0123456789abcdef"[bs[i] / 16]
    ensures Text(bs)[2 * i + 1] == "0123456789abcdef"[bs[i] % 16]
  {
    if i > 0 {
      TextAt(bs[1..], i - 1);
    }
  }

  /** What each digit, of either case, stands for; anything else stands for 95. */
  lemma NibbleTable(c: char)
    ensures Nibble('0') == 0 && Nibble('1') == 1 && Nibble('2') == 2 && Nibble('3') == 3 && Nibble('4') == 4
    ensures Nibble('5') == 5 && Nibble('6') == 6 && Nibble('7') == 7 && Nibble('8') == 8 && Nibble('9') == 9
    ensures Nibble('a') == Nibble('A') == 10 && Nibble('b') == Nibble('B') == 11 && Nibble('c') == Nibble('C') == 12
    ensures Nibble('d') == Nibble('D') == 13 && Nibble('e') == Nibble('E') == 14 && Nibble('f') == Nibble('F') == 15
    ensures c !in "0123456789abcdefABCDEF" ==> Nibble(c) == 95
  {
  }

  /** Two digits make the byte they spell; next to something else the eight bits (v1 << 4) | v2 remain. */
  lemma PackMeaning(v1: nat, v2: nat)
    ensures v1 < 16 && v2 < 16 ==> Pack(v1, v2) == 16 * v1 + v2
    ensures v1 == 95 && v2 < 16 ==> Pack(v1, v2) == 0xF0 + v2
    ensures (v1 < 16 || v1 == 95) && v2 == 95 ==> Pack(v1, v2) == ((v1 as bv8 << 4) | 95) as int
  {
  }

  /** Byte i comes from digits 2i and 2i + 1. */
  lemma {:induction false} BytesAt(hex: string, i: nat)
    requires |hex| % 2 == 0 && 2 * i < |hex|
    ensures Bytes(hex)[i] == Pack(Nibble(hex[2 * i]), Nibble(hex[2 * i + 1]))
  {
    if i > 0 {
      BytesAt(hex[2..], i - 1);
    }
  }
}
