/** The serialisers that write an ejson value into a C buffer (the _ADJUST/_SNPRINTF family). */
module EjsonWriter {
  import Hex
  import opened EjsonText

  const SIZE_RANGE: nat := 0x1_0000_0000_0000_0000
  const INT_RANGE: nat := 0x8000_0000

  /** A count of characters, and the length of one printed run: a non-negative int. */
  type Count = n: nat | n < INT_RANGE

  /** Room for more than twice n characters, and few enough for an int to count. */
  predicate Fits(n: nat, len: nat) {
    2 * n < len < SIZE_RANGE && n < INT_RANGE
  }

  /** The locals of a serialiser: the write pointer (an index, or null), the room left as a
      64-bit size_t, and the count of characters produced. */
  datatype Cursor = Cursor(p: nat, null_: bool, len: nat, count: Count)

  /** _ADJUST: the room is reduced, modulo the width of size_t, before n is compared with it. */
  function Adjust(cur: Cursor, n: Count): Cursor
    requires cur.count + n < INT_RANGE
  {
    var len := (cur.len - n) % SIZE_RANGE;
    if n >= len then Cursor(cur.p + n, true, 0, cur.count + n) else Cursor(cur.p + n, cur.null_, len, cur.count + n)
  }

  /** Less than half of the room used keeps the pointer; half or more loses it, though it fits; more than
      the room makes the room wrap to almost all of a size_t and keeps the pointer. */
  lemma AdjustMeaning(cur: Cursor, n: Count)
    requires cur.count + n < INT_RANGE && cur.len < SIZE_RANGE
    ensures 2 * n < cur.len ==> Adjust(cur, n) == Cursor(cur.p + n, cur.null_, cur.len - n, cur.count + n)
    ensures n <= cur.len <= 2 * n ==> Adjust(cur, n) == Cursor(cur.p + n, true, 0, cur.count + n)
    ensures n > cur.len ==> Adjust(cur, n) == Cursor(cur.p + n, cur.null_, SIZE_RANGE + cur.len - n, cur.count + n)
  {
  }

  /** The buffer `now` is `before` with w and a terminating NUL written at base. */
  ghost predicate Written(before: seq<char>, now: seq<char>, base: nat, w: string) {
    |now| == |before| && base + |w| < |before| &&
    now == before[..base] + w + "\0" + before[base + |w| + 1..]
  }

  lemma WrittenThenMore(b0: seq<char>, b1: seq<char>, b2: seq<char>, base: nat, w: string, s: string)
    requires Written(b0, b1, base, w) && Written(b1, b2, base + |w|, s)
    ensures Written(b0, b2, base, w + s)
  {
    assert b1[..base + |w|] == b0[..base] + w;
    assert b1[base + |w| + |s| + 1..] == b0[base + |w| + |s| + 1..];
    assert b0[..base] + w + s == b0[..base] + (w + s);
  }

  /** snprintf(p, len, ...) producing the text s: as much as fits, NUL-terminated. */
  method Snprintf(buf: array<char>, cur: Cursor, s: string) returns (n: Count)
    requires |s| < INT_RANGE
    requires cur.len > 0 ==> !cur.null_ && cur.p + (if |s| < cur.len then |s| else cur.len - 1) < buf.Length
    modifies buf
    ensures n == |s|
    ensures cur.len == 0 ==> buf[..] == old(buf[..])
    ensures cur.len > 0 ==> Written(old(buf[..]), buf[..], cur.p, s[..if |s| < cur.len then |s| else cur.len - 1])
  {
    n := |s|;
    if cur.len == 0 { return; }
    var k := if |s| < cur.len then |s| else cur.len - 1;
    ghost var before := buf[..];
    forall i | 0 <= i < k {
      buf[cur.p + i] := s[i];
    }
    buf[cur.p + k] := '\0';
    assert buf[..] == before[..cur.p] + s[..k] + "\0" + before[cur.p + k + 1..];
  }

  /** One _SNPRINTF with more than twice the needed room. */
  method Emit(buf: array<char>, cur: Cursor, s: string) returns (next: Cursor)
    requires !cur.null_ && cur.p + cur.len <= buf.Length && Fits(|s|, cur.len) && cur.count + |s| < INT_RANGE
    modifies buf
    ensures next == Cursor(cur.p + |s|, false, cur.len - |s|, cur.count + |s|)
    ensures Written(old(buf[..]), buf[..], cur.p, s)
  {
    var n := Snprintf(buf, cur, s);
    assert s[..|s|] == s;
    next := Adjust(cur, n);
  }

  /** What a serialiser has done after producing w: nothing yet, or w written at base. */
  ghost predicate Progress(before: seq<char>, now: seq<char>, base: nat, len: nat, cur: Cursor, w: string) {
    && base + len <= |before| == |now| && |w| < len && |w| < INT_RANGE
    && cur == Cursor(base + |w|, false, len - |w|, |w|)
    && ((w == "" && now == before) || Written(before, now, base, w))
  }

  /** Extends Progress by one more text. */
  method Append(buf: array<char>, cur: Cursor, s: string, ghost before: seq<char>, ghost base: nat, ghost len: nat,
    ghost w: string)
    returns (next: Cursor)
    requires Progress(before, buf[..], base, len, cur, w) && Fits(|w| + |s|, len)
    modifies buf
    ensures Progress(before, buf[..], base, len, next, w + s) && Written(before, buf[..], base, w + s)
  {
    ghost var mid := buf[..];
    next := Emit(buf, cur, s);
    ProgressStep(before, mid, buf[..], base, len, cur, w, s);
  }

  lemma ProgressStep(before: seq<char>, mid: seq<char>, now: seq<char>, base: nat, len: nat, cur: Cursor, w: string,
    s: string)
    requires Progress(before, mid, base, len, cur, w) && Written(mid, now, cur.p, s)
    ensures Written(before, now, base, w + s)
  {
    if w == "" && mid == before {
      assert w + s == s;
    } else {
      WrittenThenMore(before, mid, now, base, w, s);
    }
  }

  /** A serialiser's locals on entry. */
  function Start(buf: array<char>, base: nat, len: nat): (cur: Cursor)
    requires base + len <= buf.Length && len > 0
    reads buf
    ensures Progress(buf[..], buf[..], base, len, cur, "")
  {
    Cursor(base, false, len, 0)
  }

  lemma Finish(before: seq<char>, now: seq<char>, base: nat, len: nat, cur: Cursor, w: string)
    requires Progress(before, now, base, len, cur, w)
    ensures cur.count == |w|
  {
  }

  lemma {:induction false} EscapedConcat(a: string, b: string)
    ensures EscapedText(a + b) == EscapedText(a) + EscapedText(b)
  {
    if a == "" {
      assert a + b == b;
    } else {
      assert (a + b)[1..] == a[1..] + b;
      EscapedConcat(a[1..], b);
    }
  }

  lemma {:induction false} PlainText(s: string)
    requires forall i :: 0 <= i < |s| ==> !Escaped(s[i])
    ensures EscapedText(s) == s
  {
    if s != "" {
      PlainText(s[1..]);
    }
  }

  /** The text up to i, when the characters from prev on need no escape. */
  lemma RunText(str: string, prev: nat, i: nat)
    requires prev <= i <= |str| && forall k :: prev <= k < i ==> !Escaped(str[k])
    ensures EscapedText(str[..i]) == EscapedText(str[..prev]) + str[prev..i]
    ensures |EscapedText(str[..i])| <= |EscapedText(str)|
  {
    assert str[..i] == str[..prev] + str[prev..i] && str == str[..i] + str[i..];
    EscapedConcat(str[..prev], str[prev..i]);
    EscapedConcat(str[..i], str[i..]);
    PlainText(str[prev..i]);
  }

  lemma EscapeStep(str: string, i: nat)
    requires i < |str| && Escaped(str[i])
    ensures EscapedText(str[..i + 1]) == EscapedText(str[..i]) + ("\\" + EscapeCode(str[i]))
    ensures |EscapedText(str[..i + 1])| <= |EscapedText(str)|
  {
    assert str[..i + 1] == str[..i] + [str[i]] && str == str[..i + 1] + str[i + 1..];
    EscapedConcat(str[..i], [str[i]]);
    EscapedConcat(str[..i + 1], str[i + 1..]);
    assert EscapedText([str[i]]) == CharText(str[i]) + EscapedText("");
  }

  /** The opening quote and the escaped text of the first i characters. */
  function StrSoFar(str: string, i: nat): string
    requires i <= |str|
  {
    "\"" + EscapedText(str[..i])
  }

  /** Writes the pending run of characters that need no escape. */
  method FlushRun(buf: array<char>, cur: Cursor, str: string, prev: nat, i: nat, ghost before: seq<char>,
    ghost base: nat, ghost len: nat)
    returns (next: Cursor)
    requires prev <= i <= |str| && forall k :: prev <= k < i ==> !Escaped(str[k])
    requires Progress(before, buf[..], base, len, cur, StrSoFar(str, prev)) && Fits(|StrText(str)|, len)
    modifies buf
    ensures Progress(before, buf[..], base, len, next, StrSoFar(str, i))
  {
    hide Written, Progress, Escaped;
    next := cur;
    RunText(str, prev, i);
    assert StrSoFar(str, prev) + str[prev..i] == StrSoFar(str, i);
    if i > prev {
      next := Append(buf, cur, str[prev..i], before, base, len, StrSoFar(str, prev));
    }
  }

  method EscapeOne(buf: array<char>, cur: Cursor, str: string, i: nat, ghost before: seq<char>, ghost base: nat,
    ghost len: nat)
    returns (next: Cursor)
    requires i < |str| && Escaped(str[i])
    requires Progress(before, buf[..], base, len, cur, StrSoFar(str, i)) && Fits(|StrText(str)|, len)
    modifies buf
    ensures Progress(before, buf[..], base, len, next, StrSoFar(str, i + 1))
  {
    hide Written, Progress, Escaped;
    EscapeStep(str, i);
    next := Append(buf, cur, "\\" + EscapeCode(str[i]), before, base, len, StrSoFar(str, i));
    assert StrSoFar(str, i) + ("\\" + EscapeCode(str[i])) == StrSoFar(str, i + 1);
  }

  /** _str_serialize. */
  method SerializeStr(str: string, buf: array<char>, base: nat, len: nat) returns (count: Count)
    requires base + len <= buf.Length && Fits(|StrText(str)|, len)
    modifies buf
    ensures count == |StrText(str)| && Written(old(buf[..]), buf[..], base, StrText(str))
  {
    hide Written, Progress, StrSoFar;
    ghost var b0 := buf[..];
    var cur := Start(buf, base, len);
    cur := Append(buf, cur, "\"", b0, base, len, "");
    StrSoFarEnds(str);
    var prev, i := 0, 0;
    while i < |str|
      invariant prev <= i <= |str| && forall k :: prev <= k < i ==> !Escaped(str[k])
      invariant Progress(b0, buf[..], base, len, cur, StrSoFar(str, prev))
    {
      if Escaped(str[i]) {
        cur := FlushRun(buf, cur, str, prev, i, b0, base, len);
        cur := EscapeOne(buf, cur, str, i, b0, base, len);
        prev := i + 1;
      }
      i := i + 1;
    }
    cur := FlushRun(buf, cur, str, prev, |str|, b0, base, len);
    cur := Append(buf, cur, "\"", b0, base, len, StrSoFar(str, |str|));
    count := cur.count;
    Finish(b0, buf[..], base, len, cur, StrText(str));
  }

  lemma StrSoFarEnds(str: string)
    ensures StrSoFar(str, 0) == "" + "\""
    ensures StrSoFar(str, |str|) + "\"" == StrText(str)
  {
    assert str[..|str|] == str;
  }

  /** The text of the first i bytes of a binary, without the closing quote. */
  function BinSoFar(bin: seq<Hex.Byte>, i: nat): string
    requires i <= |bin|
  {
    "b\"\\x" + Hex.Text(bin[..i])
  }

  lemma BinSoFarStep(bin: seq<Hex.Byte>, i: nat)
    requires i < |bin|
    ensures BinSoFar(bin, i + 1) == BinSoFar(bin, i) + Hex.ByteText(bin[i]) && |BinSoFar(bin, i + 1)| <= |BinText(bin)|
  {
    assert bin[..i] + [bin[i]] == bin[..i + 1];
    Hex.TextAppend(bin[..i], bin[i]);
  }

  lemma BinSoFarEnds(bin: seq<Hex.Byte>)
    requires bin != []
    ensures BinSoFar(bin, 0) == "" + "b\"" + "\\x" && BinSoFar(bin, |bin|) + "\"" == BinText(bin)
  {
    assert bin[..|bin|] == bin;
    assert BinSoFar(bin, 0) == "" + "b\"" + "\\x" + Hex.Text([]);
    Regroup("b\"", "\\x", Hex.Text(bin));
  }

  /** _bin_serialize. */
  method SerializeBin(bin: seq<Hex.Byte>, buf: array<char>, base: nat, len: nat) returns (count: Count)
    requires base + len <= buf.Length && Fits(|BinText(bin)|, len)
    modifies buf
    ensures count == |BinText(bin)| && Written(old(buf[..]), buf[..], base, BinText(bin))
  {
    hide Written, Progress, BinSoFar;
    ghost var b0 := buf[..];
    var cur := Start(buf, base, len);
    cur := Append(buf, cur, "b\"", b0, base, len, "");
    ghost var w := "" + "b\"";
    if |bin| > 0 {
      BinSoFarEnds(bin);
      cur := Append(buf, cur, "\\x", b0, base, len, w);
      var i := 0;
      while i < |bin|
        invariant i <= |bin| && Progress(b0, buf[..], base, len, cur, BinSoFar(bin, i))
      {
        BinSoFarStep(bin, i);
        cur := Append(buf, cur, Hex.ByteText(bin[i]), b0, base, len, BinSoFar(bin, i));
        i := i + 1;
      }
      w := BinSoFar(bin, |bin|);
    }
    assert w + "\"" == BinText(bin);
    cur := Append(buf, cur, "\"", b0, base, len, w);
    count := cur.count;
    Finish(b0, buf[..], base, len, cur, BinText(bin));
  }

  /** After a nested serialiser has written s at the write pointer: n = ...; _ADJUST(). */
  method Nested(buf: array<char>, cur: Cursor, n: Count, ghost s: string, ghost mid: seq<char>,
                ghost before: seq<char>, ghost base: nat, ghost len: nat, ghost w: string)
    returns (next: Cursor)
    requires Progress(before, mid, base, len, cur, w) && Fits(|w| + |s|, len)
    requires n == |s| && Written(mid, buf[..], cur.p, s)
    ensures Progress(before, buf[..], base, len, next, w + s)
  {
    next := Adjust(cur, n);
    ProgressStep(before, mid, buf[..], base, len, cur, w, s);
  }

  /** _ejson_kv_serialize. */
  method SerializeKv(kv: Member, buf: array<char>, base: nat, len: nat) returns (count: Count)
    requires base + len <= buf.Length && Fits(|KvText(kv)|, len)
    modifies buf
    ensures count == |KvText(kv)| && Written(old(buf[..]), buf[..], base, KvText(kv))
    decreases kv, 3
  {
    hide Written, Progress;
    ghost var b0 := buf[..];
    ghost var key := StrText(kv.key);
    assert KvText(kv) == key + (":" + Text(kv.val));
    var cur := Start(buf, base, len);
    var n := SerializeStr(kv.key, buf, base, len);
    StartPoint(b0, base, len, cur);
    cur := Nested(buf, cur, n, key, b0, b0, base, len, "");
    assert "" + key == key;
    cur := Append(buf, cur, ":", b0, base, len, key);
    ghost var mid := buf[..];
    WritePoint(b0, mid, base, len, cur, key + ":");
    n := Serialize(kv.val, buf, cur.p, cur.len);
    cur := Nested(buf, cur, n, Text(kv.val), mid, b0, base, len, key + ":");
    assert key + ":" + Text(kv.val) == KvText(kv);
    count := cur.count;
    Finish(b0, buf[..], base, len, cur, KvText(kv));
  }

  lemma WritePoint(before: seq<char>, now: seq<char>, base: nat, len: nat, cur: Cursor, w: string)
    requires Progress(before, now, base, len, cur, w)
    ensures cur.p == base + |w| && cur.len == len - |w| && base + len <= |now|
  {
  }

  lemma StartPoint(before: seq<char>, base: nat, len: nat, cur: Cursor)
    requires Progress(before, before, base, len, cur, "")
    ensures cur.p == base
  {
  }

  lemma ArrEnds(vals: seq<Value>)
    ensures vals[0..] == vals && ArrRest([], false) == ArrRest([], true) == "]"
  {
  }

  lemma ArrStep(vals: seq<Value>, i: nat, w: string)
    requires i < |vals|
    ensures w + ArrRest(vals[i..], i == 0) == (if i > 0 then w + "," else w) + Text(vals[i])
      + ArrRest(vals[i + 1..], false)
  {
    assert vals[i..][1..] == vals[i + 1..];
  }

  /** _ejson_arr_serialize. */
  method SerializeArr(vals: seq<Value>, buf: array<char>, base: nat, len: nat) returns (count: Count)
    requires base + len <= buf.Length && Fits(|"[" + ArrRest(vals, true)|, len)
    modifies buf
    ensures count == |"[" + ArrRest(vals, true)| && Written(old(buf[..]), buf[..], base, "[" + ArrRest(vals, true))
    decreases vals, 0
  {
    hide Written, Progress, ArrRest;
    ghost var b0, all := buf[..], "[" + ArrRest(vals, true);
    ArrEnds(vals);
    var cur := Start(buf, base, len);
    cur := Append(buf, cur, "[", b0, base, len, "");
    ghost var w := "" + "[";
    var i := 0;
    while i < |vals|
      invariant i <= |vals| && w + ArrRest(vals[i..], i == 0) == all && Progress(b0, buf[..], base, len, cur, w)
    {
      ghost var txt := Text(vals[i]);
      ArrStep(vals, i, w);
      if i > 0 {
        cur := Append(buf, cur, ",", b0, base, len, w);
      }
      w := if i > 0 then w + "," else w;
      ghost var mid := buf[..];
      WritePoint(b0, mid, base, len, cur, w);
      var n := Serialize(vals[i], buf, cur.p, cur.len);
      cur := Nested(buf, cur, n, txt, mid, b0, base, len, w);
      w := w + txt;
      i := i + 1;
    }
    assert vals[i..] == [];
    cur := Append(buf, cur, "]", b0, base, len, w);
    count := cur.count;
    Finish(b0, buf[..], base, len, cur, all);
  }

  lemma ObjEnds(kvs: seq<Member>)
    ensures kvs[0..] == kvs && ObjRest([], false) == ObjRest([], true) == "}"
  {
  }

  lemma ObjStep(kvs: seq<Member>, i: nat, w: string)
    requires i < |kvs|
    ensures w + ObjRest(kvs[i..], i == 0) == (if i > 0 then w + "," else w) + KvText(kvs[i])
      + ObjRest(kvs[i + 1..], false)
  {
    assert kvs[i..][1..] == kvs[i + 1..];
  }

  /** _ejson_obj_serialize. */
  method SerializeObj(kvs: seq<Member>, buf: array<char>, base: nat, len: nat) returns (count: Count)
    requires base + len <= buf.Length && Fits(|"{" + ObjRest(kvs, true)|, len)
    modifies buf
    ensures count == |"{" + ObjRest(kvs, true)| && Written(old(buf[..]), buf[..], base, "{" + ObjRest(kvs, true))
    decreases kvs, 0
  {
    hide Written, Progress, KvText, ObjRest;
    ghost var b0, all := buf[..], "{" + ObjRest(kvs, true);
    ObjEnds(kvs);
    var cur := Start(buf, base, len);
    cur := Append(buf, cur, "{", b0, base, len, "");
    ghost var w := "" + "{";
    var i := 0;
    while i < |kvs|
      invariant i <= |kvs| && w + ObjRest(kvs[i..], i == 0) == all && Progress(b0, buf[..], base, len, cur, w)
    {
      ghost var txt := KvText(kvs[i]);
      ObjStep(kvs, i, w);
      if i > 0 {
        cur := Append(buf, cur, ",", b0, base, len, w);
      }
      w := if i > 0 then w + "," else w;
      ghost var mid := buf[..];
      WritePoint(b0, mid, base, len, cur, w);
      var n := SerializeKv(kvs[i], buf, cur.p, cur.len);
      cur := Nested(buf, cur, n, txt, mid, b0, base, len, w);
      w := w + txt;
      i := i + 1;
    }
    assert kvs[i..] == [];
    cur := Append(buf, cur, "}", b0, base, len, w);
    count := cur.count;
    Finish(b0, buf[..], base, len, cur, all);
  }

  method SerializeScalar(text: string, buf: array<char>, base: nat, len: nat) returns (count: Count)
    requires base + len <= buf.Length && |text| < len && |text| < INT_RANGE
    modifies buf
    ensures count == |text| && Written(old(buf[..]), buf[..], base, text)
  {
    count := Snprintf(buf, Cursor(base, false, len, 0), text);
    assert text[..|text|] == text;
  }

  method Clear(buf: array<char>, base: nat)
    requires base < buf.Length
    modifies buf
    ensures Written(old(buf[..]), buf[..], base, "")
  {
    buf[base] := '\0';
  }

  /** ejson_serialize: with room for more than twice the text, which an int can count, the buffer
      holds exactly the value's text, NUL-terminated, nothing else changes, and the length is returned. */
  method Serialize(v: Value, buf: array<char>, base: nat, len: nat) returns (count: Count)
    requires base + len <= buf.Length && Fits(|Text(v)|, len)
    modifies buf
    ensures count == |Text(v)| && Written(old(buf[..]), buf[..], base, Text(v))
    decreases v, 1
  {
    hide Written;
    ghost var b0 := buf[..];
    Clear(buf, base);
    ghost var b1 := buf[..];
    match v {
      case Null => count := SerializeScalar("null", buf, base, len);
      case False => count := SerializeScalar("false", buf, base, len);
      case True => count := SerializeScalar("true", buf, base, len);
      case Num(text) => count := SerializeScalar(text, buf, base, len);
      case Str(str) => count := SerializeStr(str, buf, base, len);
      case Bin(bin) => count := SerializeBin(bin, buf, base, len);
      case Obj(kvs) => count := SerializeObj(kvs, buf, base, len);
      case Arr(vals) => count := SerializeArr(vals, buf, base, len);
    }
    WrittenThenMore(b0, b1, buf[..], base, "", Text(v));
    assert "" + Text(v) == Text(v);
  }

  /** What Written says of the buffer: the text and a NUL stand there, and nothing else changed. */
  lemma WrittenMeaning(before: seq<char>, now: seq<char>, base: nat, w: string)
    requires Written(before, now, base, w)
    ensures |now| == |before| && base + |w| < |now|
    ensures now[base..base + |w|] == w && now[base + |w|] == '\0'
    ensures now[..base] == before[..base] && now[base + |w| + 1..] == before[base + |w| + 1..]
  {
  }
}
