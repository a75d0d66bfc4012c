/** Serialising ejson values into a C buffer, and why the text determines the value. */
module EjsonText {
  import Hex

  /** A value.  Num carries the text that "%lg" prints for its double. */
  datatype Value =
    | Null
    | False
    | True
    | Num(text: string)
    | Str(str: string)
    | Bin(bin: seq<Hex.Byte>)
    | Obj(kvs: seq<Member>)
    | Arr(vals: seq<Value>)

  datatype Member = Member(key: string, val: Value)

  // ---------------------------------------------------------------- the text of a value

  /** The characters after a backslash for those that are escaped.  NUL counts as one of them:
      strchr finds a string's terminator. */
  function EscapeCode(c: char): (r: string)
    ensures |r| <= 1
  {
    if c == '\\' || c == '"' || c == '\0' then [c]
    else if c == 8 as char then "b"
    else if c == 12 as char then "f"
    else if c == '\r' then "r"
    else if c == '\n' then "n"
    else if c == '\t' then "t"
    else ""
  }

  predicate Escaped(c: char) {
    EscapeCode(c) != ""
  }

  function CharText(c: char): string {
    if Escaped(c) then "\\" + EscapeCode(c) else [c]
  }

  function EscapedText(s: string): string {
    if s == "" then "" else CharText(s[0]) + EscapedText(s[1..])
  }

  function StrText(s: string): string {
    "\"" + EscapedText(s) + "\""
  }

  function BinText(bin: seq<Hex.Byte>): string {
    "b\"" + (if bin == [] then "" else "\\x" + Hex.Text(bin)) + "\""
  }

  function Text(v: Value): string
    decreases v, 1
  {
    match v
    case Null => "null"
    case False => "false"
    case True => "true"
    case Num(text) => text
    case Str(s) => StrText(s)
    case Bin(bin) => BinText(bin)
    case Obj(kvs) => "{" + ObjRest(kvs, true)
    case Arr(vals) => "[" + ArrRest(vals, true)
  }

  function Separator(first: bool): string {
    if first then "" else ","
  }

  /** What follows the elements of an array printed so far. */
  function ArrRest(vals: seq<Value>, first: bool): string
    decreases vals, 0
  {
    if vals == [] then "]" else Separator(first) + (Text(vals[0]) + ArrRest(vals[1..], false))
  }

  function KvText(kv: Member): string
    decreases kv, 2
  {
    StrText(kv.key) + (":" + Text(kv.val))
  }

  function ObjRest(kvs: seq<Member>, first: bool): string
    decreases kvs, 0
  {
    if kvs == [] then "}" else Separator(first) + (KvText(kvs[0]) + ObjRest(kvs[1..], false))
  }

  // ---------------------------------------------------------------- unique decoding

  /** Values without numbers. */
  predicate NumberFree(v: Value)
    decreases v
  {
    match v
    case Num(_) => false
    case Obj(kvs) => forall i :: 0 <= i < |kvs| ==> NumberFree(kvs[i].val)
    case Arr(vals) => forall i :: 0 <= i < |vals| ==> NumberFree(vals[i])
    case _ => true
  }

  lemma Cancel(a: string, x: string, b: string, y: string)
    requires a + x == b + y && |a| == |b|
    ensures a == b && x == y
  {
    assert (a + x)[..|a|] == a && (b + y)[..|b|] == b;
    assert (a + x)[|a|..] == x && (b + y)[|b|..] == y;
  }

  lemma Regroup(a: string, b: string, c: string)
    ensures a + b + c == a + (b + c)
  {
  }

  lemma EscapedStart(s: string, r: string)
    ensures (EscapedText(s) + ("\"" + r))[0] == '"' <==> s == ""
    ensures s != "" ==> EscapedText(s) + ("\"" + r) == CharText(s[0]) + (EscapedText(s[1..]) + ("\"" + r))
  {
    if s != "" {
      Regroup(CharText(s[0]), EscapedText(s[1..]), "\"" + r);
    }
  }

  /** Equal first characters mean equal lengths, so the characters printed can be told apart. */
  lemma CharDecodes(c1: char, c2: char, r1: string, r2: string)
    requires CharText(c1) + r1 == CharText(c2) + r2
    ensures c1 == c2 && r1 == r2
  {
    assert (CharText(c1) + r1)[0] == CharText(c1)[0] && (CharText(c2) + r2)[0] == CharText(c2)[0];
    Cancel(CharText(c1), r1, CharText(c2), r2);
    if Escaped(c1) {
      assert CharText(c1)[1] == EscapeCode(c1)[0] && CharText(c2)[1] == EscapeCode(c2)[0];
    }
  }

  /** A quoted string ends where its text says: the text is uniquely decodable. */
  lemma {:induction false} EscapedDecodes(s1: string, s2: string, r1: string, r2: string)
    requires EscapedText(s1) + ("\"" + r1) == EscapedText(s2) + ("\"" + r2)
    ensures s1 == s2 && r1 == r2
  {
    EscapedStart(s1, r1);
    EscapedStart(s2, r2);
    if s1 == "" {
      assert "" + ("\"" + r1) == "\"" + r1 && "" + ("\"" + r2) == "\"" + r2;
      Cancel("\"", r1, "\"", r2);
    } else {
      CharDecodes(s1[0], s2[0], EscapedText(s1[1..]) + ("\"" + r1), EscapedText(s2[1..]) + ("\"" + r2));
      EscapedDecodes(s1[1..], s2[1..], r1, r2);
    }
  }

  lemma StrShape(s: string, r: string)
    ensures StrText(s) + r == "\"" + (EscapedText(s) + ("\"" + r))
  {
  }

  lemma StrDecodes(s1: string, s2: string, r1: string, r2: string)
    requires StrText(s1) + r1 == StrText(s2) + r2
    ensures s1 == s2 && r1 == r2
  {
    StrShape(s1, r1);
    StrShape(s2, r2);
    Cancel("\"", EscapedText(s1) + ("\"" + r1), "\"", EscapedText(s2) + ("\"" + r2));
    EscapedDecodes(s1, s2, r1, r2);
  }

  lemma HexStart(b: seq<Hex.Byte>, r: string)
    ensures (Hex.Text(b) + ("\"" + r))[0] == '"' <==> b == []
    ensures b != [] ==> Hex.Text(b) + ("\"" + r) == Hex.ByteText(b[0]) + (Hex.Text(b[1..]) + ("\"" + r))
  {
    hide Hex.Text, Hex.ByteText;
    if b != [] {
      HexFirst(b);
      Regroup(Hex.ByteText(b[0]), Hex.Text(b[1..]), "\"" + r);
    }
  }

  lemma HexFirst(b: seq<Hex.Byte>)
    requires b != []
    ensures Hex.Text(b) == Hex.ByteText(b[0]) + Hex.Text(b[1..])
    ensures Hex.ByteText(b[0]) != "" && Hex.ByteText(b[0])[0] != '"'
  {
  }

  lemma {:induction false} HexDecodes(b1: seq<Hex.Byte>, b2: seq<Hex.Byte>, r1: string, r2: string)
    requires Hex.Text(b1) + ("\"" + r1) == Hex.Text(b2) + ("\"" + r2)
    ensures b1 == b2 && r1 == r2
  {
    HexStart(b1, r1);
    HexStart(b2, r2);
    if b1 == [] {
      assert "" + ("\"" + r1) == "\"" + r1 && "" + ("\"" + r2) == "\"" + r2;
      Cancel("\"", r1, "\"", r2);
    } else {
      Cancel(
        Hex.ByteText(b1[0]), Hex.Text(b1[1..]) + ("\"" + r1),
        Hex.ByteText(b2[0]), Hex.Text(b2[1..]) + ("\"" + r2));
      Hex.ByteTextInjective(b1[0], b2[0]);
      HexDecodes(b1[1..], b2[1..], r1, r2);
    }
  }

  lemma BinDecodes(b1: seq<Hex.Byte>, b2: seq<Hex.Byte>, r1: string, r2: string)
    requires BinText(b1) + r1 == BinText(b2) + r2
    ensures b1 == b2 && r1 == r2
  {
    BinStart(b1, r1);
    BinStart(b2, r2);
    if b1 == [] {
      Cancel("b\"\"", r1, "b\"\"", r2);
    } else {
      Cancel("b\"\\x", Hex.Text(b1) + ("\"" + r1), "b\"\\x", Hex.Text(b2) + ("\"" + r2));
      HexDecodes(b1, b2, r1, r2);
    }
  }

  lemma BinStart(b: seq<Hex.Byte>, r: string)
    ensures (BinText(b) + r)[2] == (if b == [] then '"' else '\\')
    ensures BinText(b) + r == if b == [] then "b\"\"" + r else "b\"\\x" + (Hex.Text(b) + ("\"" + r))
  {
    hide BinText, Hex.Text;
    if b == [] {
      NoBytes();
    } else {
      BinShape(b);
      Regroup("b\"\\x", Hex.Text(b), "\"");
      Regroup("b\"\\x", Hex.Text(b) + "\"", r);
      Regroup(Hex.Text(b), "\"", r);
    }
  }

  lemma NoBytes()
    ensures BinText([]) == "b\"\""
  {
  }

  /** The digits printed for a binary are those the reader turns back into its bytes. */
  lemma BinReloads(b: seq<Hex.Byte>)
    requires b != []
    ensures var t := BinText(b); |t| > 5 && t[..4] == "b\"\\x" && t[|t| - 1] == '"' && Hex.Bytes(t[4..|t| - 1]) == b
  {
    hide BinText;
    BinShape(b);
    hide Hex.Text;
    assert BinText(b)[4..|BinText(b)| - 1] == Hex.Text(b);
    Hex.RoundTrip(b);
  }

  lemma BinShape(b: seq<Hex.Byte>)
    requires b != []
    ensures BinText(b) == "b\"\\x" + Hex.Text(b) + "\"" && |Hex.Text(b)| == 2 * |b|
  {
    hide Hex.Text;
    Regroup("b\"", "\\x", Hex.Text(b));
    assert "b\"" + "\\x" == "b\"\\x";
  }

  /** The first character tells the kind of a number-free value. */
  function FirstChar(v: Value): char
    requires !v.Num?
  {
    match v
    case Null => 'n'
    case False => 'f'
    case True => 't'
    case Str(_) => '"'
    case Bin(_) => 'b'
    case Obj(_) => '{'
    case Arr(_) => '['
  }

  lemma FirstCharOf(v: Value)
    requires !v.Num?
    ensures Text(v) != "" && Text(v)[0] == FirstChar(v)
  {
  }

  /** Whatever follows, the text of a number-free value determines the value and where its
      text ends. */
  lemma {:induction false} Decodes(v1: Value, v2: Value, r1: string, r2: string)
    requires NumberFree(v1) && NumberFree(v2) && Text(v1) + r1 == Text(v2) + r2
    ensures v1 == v2 && r1 == r2
    decreases v1, 1
  {
    SameKind(v1, v2, r1, r2);
    match v1
    case Str(s) => StrDecodes(s, v2.str, r1, r2);
    case Bin(bin) => BinDecodes(bin, v2.bin, r1, r2);
    case Obj(kvs) =>
      Regroup("{", ObjRest(kvs, true), r1);
      Regroup("{", ObjRest(v2.kvs, true), r2);
      Cancel("{", ObjRest(kvs, true) + r1, "{", ObjRest(v2.kvs, true) + r2);
      ObjDecodes(kvs, v2.kvs, true, r1, r2);
    case Arr(vals) =>
      Regroup("[", ArrRest(vals, true), r1);
      Regroup("[", ArrRest(v2.vals, true), r2);
      Cancel("[", ArrRest(vals, true) + r1, "[", ArrRest(v2.vals, true) + r2);
      ArrDecodes(vals, v2.vals, true, r1, r2);
    case _ => Cancel(Text(v1), r1, Text(v2), r2);
  }

  lemma SameKind(v1: Value, v2: Value, r1: string, r2: string)
    requires !v1.Num? && !v2.Num? && Text(v1) + r1 == Text(v2) + r2
    ensures FirstChar(v1) == FirstChar(v2)
  {
    FirstCharOf(v1);
    FirstCharOf(v2);
    assert (Text(v1) + r1)[0] == Text(v1)[0] && (Text(v2) + r2)[0] == Text(v2)[0];
  }

  /** The rest of an array: its end, or one element and the rest after it. */
  lemma ArrShape(a: seq<Value>, first: bool, r: string)
    requires forall i :: 0 <= i < |a| ==> NumberFree(a[i])
    ensures ArrRest(a, first) != "" && ((ArrRest(a, first) + r)[0] == ']' <==> a == [])
    ensures a != [] ==> ArrRest(a, first) + r == Separator(first) + (Text(a[0]) + (ArrRest(a[1..], false) + r))
  {
    if a != [] {
      FirstCharOf(a[0]);
      var rest := ArrRest(a[1..], false);
      Regroup(Separator(first), Text(a[0]) + rest, r);
      Regroup(Text(a[0]), rest, r);
    }
  }

  lemma {:induction false} ArrDecodes(a1: seq<Value>, a2: seq<Value>, first: bool, r1: string, r2: string)
    requires (forall i :: 0 <= i < |a1| ==> NumberFree(a1[i])) && (forall i :: 0 <= i < |a2| ==> NumberFree(a2[i]))
    requires ArrRest(a1, first) + r1 == ArrRest(a2, first) + r2
    ensures a1 == a2 && r1 == r2
    decreases a1, 0
  {
    ArrShape(a1, first, r1);
    ArrShape(a2, first, r2);
    if a1 == [] {
      Cancel("]", r1, "]", r2);
    } else {
      var q1, q2 := ArrRest(a1[1..], false) + r1, ArrRest(a2[1..], false) + r2;
      Cancel(Separator(first), Text(a1[0]) + q1, Separator(first), Text(a2[0]) + q2);
      Decodes(a1[0], a2[0], q1, q2);
      ArrDecodes(a1[1..], a2[1..], false, r1, r2);
    }
  }

  lemma ObjShape(o: seq<Member>, first: bool, r: string)
    ensures ObjRest(o, first) != "" && ((ObjRest(o, first) + r)[0] == '}' <==> o == [])
    ensures o != [] ==>
              ObjRest(o, first) + r == Separator(first)
                + (StrText(o[0].key) + (":" + (Text(o[0].val) + (ObjRest(o[1..], false) + r))))
  {
    if o != [] {
      var key, val, rest := StrText(o[0].key), Text(o[0].val), ObjRest(o[1..], false);
      assert KvText(o[0]) == key + (":" + val);
      Regroup(Separator(first), KvText(o[0]) + rest, r);
      Regroup(KvText(o[0]), rest, r);
      Regroup(key, ":" + val, rest + r);
      Regroup(":", val, rest + r);
    }
  }

  lemma {:induction false} ObjDecodes(o1: seq<Member>, o2: seq<Member>, first: bool, r1: string, r2: string)
    requires (forall i :: 0 <= i < |o1| ==> NumberFree(o1[i].val))
      && (forall i :: 0 <= i < |o2| ==> NumberFree(o2[i].val))
    requires ObjRest(o1, first) + r1 == ObjRest(o2, first) + r2
    ensures o1 == o2 && r1 == r2
    decreases o1, 0
  {
    ObjShape(o1, first, r1);
    ObjShape(o2, first, r2);
    if o1 == [] {
      Cancel("}", r1, "}", r2);
    } else {
      var q1, q2 := ObjRest(o1[1..], false) + r1, ObjRest(o2[1..], false) + r2;
      var p1, p2 := Text(o1[0].val) + q1, Text(o2[0].val) + q2;
      Cancel(Separator(first), StrText(o1[0].key) + (":" + p1), Separator(first), StrText(o2[0].key) + (":" + p2));
      StrDecodes(o1[0].key, o2[0].key, ":" + p1, ":" + p2);
      Cancel(":", p1, ":", p2);
      Decodes(o1[0].val, o2[0].val, q1, q2);
      ObjDecodes(o1[1..], o2[1..], false, r1, r2);
    }
  }

  /** Distinct number-free values never print alike. */
  lemma TextInjective(v1: Value, v2: Value)
    requires NumberFree(v1) && NumberFree(v2) && Text(v1) == Text(v2)
    ensures v1 == v2
  {
    assert Text(v1) + "" == Text(v1) && Text(v2) + "" == Text(v2);
    Decodes(v1, v2, "", "");
  }

  // ---------------------------------------------------------------- the text, spelled out

  /** What each character becomes inside a string. */
  lemma EscapeTable(c: char)
    ensures CharText('\\') == ['\\', '\\'] && CharText('"') == ['\\', '"'] && CharText('\0') == ['\\', '\0']
    ensures CharText(8 as char) == ['\\', 'b'] && CharText(12 as char) == ['\\', 'f']
    ensures CharText('\r') == ['\\', 'r'] && CharText('\n') == ['\\', 'n'] && CharText('\t') == ['\\', 't']
    ensures c !in ['\\', '"', '\0', 8 as char, 12 as char, '\r', '\n', '\t'] ==> CharText(c) == [c]
  {
  }

  lemma EscapedFirst(s: string)
    requires s != ""
    ensures EscapedText(s) == CharText(s[0]) + EscapedText(s[1..])
    ensures EscapedText("") == ""
  {
  }

  lemma {:induction false} EscapedSnoc(s: string, c: char)
    ensures EscapedText(s + [c]) == EscapedText(s) + CharText(c)
    decreases |s|
  {
    hide CharText, EscapedText;
    EscapedFirst(s + [c]);
    if s == "" {
      assert ([] + [c])[1..] == [];
    } else {
      assert (s + [c])[1..] == s[1..] + [c] && (s + [c])[0] == s[0];
      EscapedFirst(s);
      EscapedSnoc(s[1..], c);
    }
  }

  /** A string's text is a quote, its characters' texts one after the other, and a quote. */
  lemma StrForm(s: string, c: char)
    ensures StrText("") == ['"', '"']
    ensures |StrText(s)| >= 2 && StrText(s + [c]) == StrText(s)[..|StrText(s)| - 1] + (CharText(c) + ['"'])
  {
    hide CharText, EscapedText, StrText;
    EscapedSnoc(s, c);
    NoCharacters();
    StrTextIs("");
    StrTextIs(s);
    StrTextIs(s + [c]);
    FrontOf(EscapedText(s));
    MiddleOf(EscapedText(s), CharText(c));
  }

  lemma NoCharacters()
    ensures EscapedText("") == ""
  {
  }

  lemma StrTextIs(s: string)
    ensures StrText(s) == ['"'] + EscapedText(s) + ['"']
  {
  }

  lemma FrontOf(t: string)
    ensures var q := ['"'] + t + ['"']; q[..|q| - 1] == ['"'] + t
  {
  }

  lemma MiddleOf(t: string, x: string)
    ensures ['"'] + (t + x) + ['"'] == ['"'] + t + (x + ['"'])
  {
  }

  lemma ArrRestFirst(a: seq<Value>, first: bool)
    requires a != []
    ensures ArrRest(a, first) == Separator(first) + (Text(a[0]) + ArrRest(a[1..], false))
  {
  }

  lemma ObjRestFirst(o: seq<Member>, first: bool)
    requires o != []
    ensures ObjRest(o, first) == Separator(first) + (KvText(o[0]) + ObjRest(o[1..], false))
  {
  }

  lemma NoRest(first: bool)
    ensures ArrRest([], first) == "]" && ObjRest([], first) == "}"
  {
  }

  /** Cutting the last character of what is printed in front of it. */
  lemma CutLast(a: string, b: string, r: string)
    requires r != ""
    ensures var t := a + (b + r); t[..|t| - 1] == a + (b + r[..|r| - 1]) && t[|t| - 1] == r[|r| - 1]
  {
  }

  lemma {:induction false} ArrSnoc(a: seq<Value>, v: Value, first: bool)
    ensures var r := ArrRest(a, first);
      && |r| > 0 && r[|r| - 1] == ']'
      && ArrRest(a + [v], first) == r[..|r| - 1] + ((if a == [] && first then "" else ",") + Text(v) + "]")
    decreases |a|
  {
    hide Text, ArrRest;
    ArrRestFirst(a + [v], first);
    NoRest(first);
    NoRest(false);
    if a == [] {
      assert ([] + [v])[1..] == [];
    } else {
      ArrSnoc(a[1..], v, false);
      assert (a + [v])[1..] == a[1..] + [v] && (a + [v])[0] == a[0];
      ArrRestFirst(a, first);
      CutLast(Separator(first), Text(a[0]), ArrRest(a[1..], false));
      JoinLast(Separator(first), Text(a[0]), ArrRest(a[1..], false), "," + Text(v) + "]");
    }
  }

  lemma JoinLast(a: string, b: string, r: string, x: string)
    requires r != ""
    ensures a + (b + r[..|r| - 1]) + x == a + (b + (r[..|r| - 1] + x))
  {
  }

  lemma {:induction false} ObjSnoc(o: seq<Member>, m: Member, first: bool)
    ensures var r := ObjRest(o, first);
      && |r| > 0 && r[|r| - 1] == '}'
      && ObjRest(o + [m], first) == r[..|r| - 1] + ((if o == [] && first then "" else ",") + KvText(m) + "}")
    decreases |o|
  {
    hide KvText, ObjRest;
    ObjRestFirst(o + [m], first);
    NoRest(first);
    NoRest(false);
    if o == [] {
      assert ([] + [m])[1..] == [];
    } else {
      ObjSnoc(o[1..], m, false);
      assert (o + [m])[1..] == o[1..] + [m] && (o + [m])[0] == o[0];
      ObjRestFirst(o, first);
      CutLast(Separator(first), KvText(o[0]), ObjRest(o[1..], false));
      JoinLast(Separator(first), KvText(o[0]), ObjRest(o[1..], false), "," + KvText(m) + "}");
    }
  }

  /** The text of values that are no containers. */
  lemma ScalarForms(text: string, s: string, b: seq<Hex.Byte>)
    ensures Text(Null) == "null" && Text(False) == "false" && Text(True) == "true" && Text(Num(text)) == text
    ensures Text(Str(s)) == StrText(s)
    ensures Text(Bin([])) == "b\"\"" && (b != [] ==> Text(Bin(b)) == "b\"\\x" + Hex.Text(b) + "\"")
  {
    hide StrText, Hex.Text;
    if b != [] {
      BinShape(b);
    }
  }

  /** The text of an array, one element at a time. */
  lemma ArrForm(a: seq<Value>, v: Value)
    ensures Text(Arr([])) == "[]"
    ensures var t := Text(Arr(a));
      |t| >= 2 && Text(Arr(a + [v])) == t[..|t| - 1] + ((if a == [] then "" else ",") + Text(v) + "]")
  {
    hide ArrRest, Text;
    NoRest(true);
    ArrSnoc(a, v, true);
    ArrText([]);
    ArrText(a);
    ArrText(a + [v]);
    var r := ArrRest(a, true);
    assert ("[" + r)[..|r|] == "[" + r[..|r| - 1];
  }

  lemma ArrText(a: seq<Value>)
    ensures Text(Arr(a)) == "[" + ArrRest(a, true)
  {
  }

  /** The text of an object, one member at a time. */
  lemma ObjForm(o: seq<Member>, key: string, v: Value)
    ensures Text(Obj([])) == "{}"
    ensures var t := Text(Obj(o));
      && |t| >= 2
      && Text(Obj(o + [Member(key, v)])) ==
         t[..|t| - 1] + ((if o == [] then "" else ",") + (StrText(key) + (":" + Text(v))) + "}")
  {
    hide ObjRest, StrText, Text, KvText;
    NoRest(true);
    ObjSnoc(o, Member(key, v), true);
    ObjText([]);
    ObjText(o);
    ObjText(o + [Member(key, v)]);
    KvTextIs(key, v);
    var r := ObjRest(o, true);
    assert ("{" + r)[..|r|] == "{" + r[..|r| - 1];
  }

  lemma KvTextIs(key: string, v: Value)
    ensures KvText(Member(key, v)) == StrText(key) + (":" + Text(v))
  {
  }

  lemma ObjText(o: seq<Member>)
    ensures Text(Obj(o)) == "{" + ObjRest(o, true)
  {
  }
}
