/** The table-type filter: a comma-separated list packed into one buffer, and the search in it. */
module TableTypes {
  // ---------------------------------------------------------------- what the list means

  predicate IsSpace(c: char) {
    c == ' ' || '\t' <= c <= '\r'
  }

  /** Leading blanks dropped; trailing ones stay. */
  function Trim(s: string): (t: string)
    ensures |t| <= |s|
  {
    if s != "" && IsSpace(s[0]) then Trim(s[1..]) else s
  }

  /** Where the first comma is, or the length. */
  function Comma(s: string): (k: nat)
    ensures k <= |s| && (k < |s| ==> s[k] == ',') && forall i :: 0 <= i < k ==> s[i] != ','
  {
    if s == "" || s[0] == ',' then 0 else 1 + Comma(s[1..])
  }

  function Piece(s: string): (p: seq<string>)
    ensures p == [] || (p == [Trim(s)] && Trim(s) != "")
  {
    if Trim(s) == "" then [] else [Trim(s)]
  }

  /** The non-empty pieces of a list. */
  function Pieces(s: string): seq<string>
    decreases |s|
  {
    var k := Comma(s);
    Piece(s[..k]) + (if k == |s| then [] else Pieces(s[k + 1..]))
  }

  /** Nothing but blanks after the last comma. */
  predicate BlankTail(s: string)
    decreases |s|
  {
    var k := Comma(s);
    if k == |s| then Trim(s) == "" else BlankTail(s[k + 1..])
  }

  predicate NulFree(s: string) {
    forall i :: 0 <= i < |s| ==> s[i] != '\0'
  }

  /** Each piece with a NUL after it. */
  function Packed(ps: seq<string>): string {
    if ps == [] then "" else ps[0] + "\0" + Packed(ps[1..])
  }

  lemma {:induction false} PackedAppend(ps: seq<string>, qs: seq<string>)
    ensures Packed(ps + qs) == Packed(ps) + Packed(qs)
  {
    if ps == [] {
      assert ps + qs == qs;
    } else {
      assert (ps + qs)[1..] == ps[1..] + qs;
      PackedAppend(ps[1..], qs);
    }
  }

  lemma {:induction false} TrimNulFree(s: string)
    requires NulFree(s)
    ensures NulFree(Trim(s))
  {
    if s != "" && IsSpace(s[0]) {
      TrimNulFree(s[1..]);
    }
  }

  lemma {:induction false} PiecesNulFree(s: string)
    requires NulFree(s)
    ensures forall i :: 0 <= i < |Pieces(s)| ==> NulFree(Pieces(s)[i]) && Pieces(s)[i] != ""
    decreases |s|
  {
    var k := Comma(s);
    TrimNulFree(s[..k]);
    if k < |s| {
      PiecesNulFree(s[k + 1..]);
    }
  }

  lemma PackedPiece(s: string)
    ensures |Packed(Piece(s))| <= |s| + 1
    ensures Trim(s) == "" ==> Packed(Piece(s)) == ""
    ensures Trim(s) != "" ==> Packed(Piece(s)) == Trim(s) + "\0"
  {
    assert Packed([]) == "";
  }

  lemma LastPiece(s: string)
    requires Comma(s) == |s|
    ensures Pieces(s) == Piece(s) && (BlankTail(s) <==> Trim(s) == "")
  {
    assert s[..|s|] == s;
  }

  lemma NextPiece(s: string)
    requires Comma(s) < |s|
    ensures var k := Comma(s);
      Pieces(s) == Piece(s[..k]) + Pieces(s[k + 1..]) && (BlankTail(s) <==> BlankTail(s[k + 1..]))
  {
  }

  /** The packed pieces are no longer than the list and one NUL; with a blank tail, than the list. */
  lemma {:induction false} PackedFits(s: string)
    ensures |Packed(Pieces(s))| <= |s| + (if BlankTail(s) then 0 else 1)
    decreases |s|
  {
    hide Packed, Pieces, BlankTail, Piece;
    var k := Comma(s);
    PackedPiece(s[..k]);
    if k < |s| {
      NextPiece(s);
      PackedFits(s[k + 1..]);
      PackedAppend(Piece(s[..k]), Pieces(s[k + 1..]));
    } else {
      LastPiece(s);
      assert s[..k] == s;
    }
  }

  // ---------------------------------------------------------------- packing

  datatype Outcome = Success | Error

  /** One segment of the list: nothing but blanks, or blanks and then the text from begin on. */
  lemma {:induction false} TrimSegment(s: string, begin: nat)
    requires begin <= |s| && (forall i :: 0 <= i < begin ==> IsSpace(s[i])) && (begin < |s| ==> !IsSpace(s[begin]))
    ensures Trim(s) == s[begin..]
    decreases begin
  {
    if begin > 0 {
      TrimSegment(s[1..], begin - 1);
    }
  }

  lemma {:induction false} FirstComma(s: string, k: nat)
    requires k <= |s| && (k < |s| ==> s[k] == ',') && forall i :: 0 <= i < k ==> s[i] != ','
    ensures Comma(s) == k
    decreases k
  {
    if k > 0 {
      FirstComma(s[1..], k - 1);
    }
  }

  /** _tables_add_table_type under identity conversion: the piece and a NUL go behind what is
      packed already. */
  method AddTableType(piece: string, buf: array<char>, nr: nat) returns (now: nat)
    requires nr + |piece| < buf.Length
    modifies buf
    ensures now == nr + |piece| + 1 && buf[..now] == old(buf[..nr]) + (piece + "\0")
  {
    for i := 0 to |piece|
      invariant buf[..nr + i] == old(buf[..nr]) + piece[..i]
    {
      buf[nr + i] := piece[i];
    }
    buf[nr + |piece|] := '\0';
    assert buf[..nr + |piece|] == old(buf[..nr]) + piece;
    return nr + |piece| + 1;
  }

  /** _tables_parse_table_type.  takesNull says whether iconv accepts the null input it gets when
      nothing but blanks follows the last comma; it writes nothing then.  The capacity kept is six
      bytes for each character and one more; it always suffices. */
  method ParseTableType(list: string, takesNull: bool) returns (o: Outcome, packed: string)
    ensures o == Error <==> BlankTail(list) && !takesNull
    ensures o == Success ==> packed == Packed(Pieces(list)) + (if BlankTail(list) then "\0" else "")
    ensures |packed| <= (|list| + 1) * 6
  {
    hide Packed, Pieces, BlankTail, Piece, Comma, Trim;
    var buf := new char[(|list| + 1) * 6](_ => '\0');
    var nr: nat, p := 0, 0;
    var begin := -1;
    ghost var seg := 0;
    PackedFits(list);
    Nothing();
    while p < |list|
      invariant InSegment(list, seg, begin, p)
      invariant nr <= buf.Length && buf[..nr] + Packed(Pieces(list[seg..])) == Packed(Pieces(list))
      invariant BlankTail(list) <==> BlankTail(list[seg..])
      decreases |list| - p, if begin < 0 then 1 else 0
    {
      if begin < 0 {
        if IsSpace(list[p]) {
          p := p + 1;
        } else {
          begin := p;
        }
      } else if list[p] != ',' {
        p := p + 1;
      } else {
        SegmentEnds(list, seg, begin, p);
        if p > begin {
          nr := AddTableType(list[begin..p], buf, nr);
        }
        seg, begin, p := p + 1, -1, p + 1;
      }
    }
    ListEnds(list, seg, begin);
    if begin < 0 {
      if !takesNull { return Error, buf[..nr]; }
      nr := AddTableType("", buf, nr);
    } else {
      nr := AddTableType(list[begin..], buf, nr);
    }
    return Success, buf[..nr];
  }

  /** Where the scan stands: in the segment from seg on, whose text starts at begin, -1 meaning that
      only blanks were seen. */
  predicate InSegment(list: string, seg: nat, begin: int, p: nat) {
    && seg <= p <= |list|
    && (forall i :: seg <= i < p ==> list[i] != ',')
    && (if begin < 0 then forall i :: seg <= i < p ==> IsSpace(list[i])
        else
          && seg <= begin <= p && begin < |list| && !IsSpace(list[begin])
          && forall i :: seg <= i < begin ==> IsSpace(list[i]))
  }

  lemma Nothing()
    ensures Packed([]) == "" && Pieces("") == [] && BlankTail("")
  {
  }

  /** A comma ends the segment: its text, if any, is the next piece. */
  lemma SegmentEnds(list: string, seg: nat, begin: nat, p: nat)
    requires InSegment(list, seg, begin, p) && p < |list| && list[p] == ','
    ensures Packed(Pieces(list[seg..])) == (if p > begin then list[begin..p] + "\0" else "")
      + Packed(Pieces(list[p + 1..]))
    ensures BlankTail(list[seg..]) <==> BlankTail(list[p + 1..])
  {
    hide Packed, Pieces, BlankTail, Piece, Comma, Trim;
    var s := list[seg..];
    var k := p - seg;
    FirstComma(s, k);
    NextPiece(s);
    assert s[k + 1..] == list[p + 1..];
    TrimSegment(s[..k], begin - seg);
    assert s[..k][begin - seg..] == list[begin..p];
    PackedPiece(s[..k]);
    PackedAppend(Piece(s[..k]), Pieces(s[k + 1..]));
  }

  lemma ListEnds(list: string, seg: nat, begin: int)
    requires InSegment(list, seg, begin, |list|)
    ensures Packed(Pieces(list[seg..])) == if begin < 0 then "" else list[begin..] + "\0"
    ensures BlankTail(list[seg..]) <==> begin < 0
  {
    hide Packed, Pieces, BlankTail, Piece, Comma, Trim;
    var s := list[seg..];
    FirstComma(s, |s|);
    LastPiece(s);
    TrimSegment(s, if begin < 0 then |s| else begin - seg);
    PackedPiece(s);
    assert begin >= 0 ==> s[begin - seg..] == list[begin..];
  }

  // ---------------------------------------------------------------- searching

  /** strlen from p on. */
  method StrLen(s: string, p: nat) returns (n: nat)
    requires p < |s| && s[|s| - 1] == '\0'
    ensures p + n < |s| && s[p + n] == '\0' && NulFree(s[p..p + n])
  {
    n := 0;
    while s[p + n] != '\0'
      invariant p + n < |s| && NulFree(s[p..p + n])
      decreases |s| - n
    {
      assert s[p..p + n + 1] == s[p..p + n] + [s[p + n]];
      n := n + 1;
    }
  }

  predicate AllNulFree(ps: seq<string>) {
    forall i :: 0 <= i < |ps| ==> NulFree(ps[i])
  }

  /** _match: finds name among the pieces packed into s. */
  method Match(s: string, name: string, ghost ps: seq<string>) returns (matched: bool)
    requires s == Packed(ps) && AllNulFree(ps)
    ensures matched <==> name in ps
  {
    hide Packed, NulFree;
    var p := 0;
    ghost var k := 0;
    EndsInNul(ps);
    assert ps[0..] == ps;
    while p < |s|
      invariant p <= |s| && k <= |ps| && s[p..] == Packed(ps[k..]) && name !in ps[..k]
    {
      Head(ps[k..], s[p..]);
      assert ps[k..][0] == ps[k] && ps[k..][1..] == ps[k + 1..];
      var n := StrLen(s, p);
      SameLength(s, p, n, ps[k]);
      if |name| == n && name == s[p..p + n] { return true; }
      assert ps[..k + 1] == ps[..k] + [ps[k]];
      assert s[p..][n + 1..] == s[p + n + 1..];
      p, k := p + n + 1, k + 1;
    }
    NothingPacked(ps[k..]);
    assert ps[..k] == ps;
    return false;
  }

  lemma NothingPacked(ps: seq<string>)
    requires Packed(ps) == ""
    ensures ps == []
  {
  }

  lemma {:induction false} EndsInNul(ps: seq<string>)
    ensures Packed(ps) != "" ==> Packed(ps)[|Packed(ps)| - 1] == '\0'
  {
    if |ps| > 1 {
      EndsInNul(ps[1..]);
    }
  }

  lemma Head(ps: seq<string>, s: string)
    requires s == Packed(ps) && s != ""
    ensures ps != [] && |ps[0]| < |s| && s[..|ps[0]|] == ps[0] && s[|ps[0]|] == '\0'
    ensures s[|ps[0]| + 1..] == Packed(ps[1..])
  {
  }

  /** The text up to the next NUL is the piece. */
  lemma SameLength(s: string, p: nat, n: nat, piece: string)
    requires p + n < |s| && s[p + n] == '\0' && NulFree(s[p..p + n]) && NulFree(piece)
    requires |piece| < |s| - p && s[p..][..|piece|] == piece && s[p..][|piece|] == '\0'
    ensures n == |piece| && s[p..p + n] == piece
  {
    var rest := s[p..];
    assert rest[n] == s[p + n] && s[p..p + n] == rest[..n];
    assert forall i :: 0 <= i < |piece| ==> rest[i] == piece[i];
  }

  /** The filter that a NUL-free list becomes accepts exactly the list's pieces, and, when nothing but
      blanks follows the last comma, the empty name as well. */
  method Accepts(list: string, name: string, takesNull: bool) returns (o: Outcome, matched: bool)
    requires NulFree(list)
    ensures o == Error <==> BlankTail(list) && !takesNull
    ensures o == Success ==> (matched <==> name in Pieces(list) || (BlankTail(list) && name == ""))
  {
    var packed;
    o, packed := ParseTableType(list, takesNull);
    if o == Error { return o, false; }
    PiecesNulFree(list);
    ghost var ps := Pieces(list) + (if BlankTail(list) then [""] else []);
    PackedAppend(Pieces(list), if BlankTail(list) then [""] else []);
    assert Packed([""]) == "\0" + Packed([]);
    assert packed == Packed(ps);
    matched := Match(packed, name, ps);
  }

  /** s[i..j] is a whole stretch between commas. */
  predicate Between(s: string, i: nat, j: nat) {
    && i <= j <= |s|
    && (i == 0 || s[i - 1] == ',') && (j == |s| || s[j] == ',')
    && forall n :: i <= n < j ==> s[n] != ','
  }

  ghost predicate Stretch(s: string, name: string) {
    exists i: nat, j: nat :: Between(s, i, j) && Trim(s[i..j]) == name
  }

  lemma StretchHead(s: string)
    ensures Between(s, 0, Comma(s)) && s[0..Comma(s)] == s[..Comma(s)]
    ensures Stretch(s, Trim(s[..Comma(s)]))
  {
  }

  lemma StretchAt(s: string, i: nat, j: nat)
    requires Between(s, i, j)
    ensures Stretch(s, Trim(s[i..j]))
  {
  }

  lemma Witness(s: string, name: string) returns (i: nat, j: nat)
    requires Stretch(s, name)
    ensures Between(s, i, j) && Trim(s[i..j]) == name
  {
    i, j :| Between(s, i, j) && Trim(s[i..j]) == name;
  }

  lemma BetweenShifts(s: string, k: nat, i: nat, j: nat)
    requires 0 < k <= |s| && s[k - 1] == ',' && Between(s[k..], i, j)
    ensures Between(s, k + i, k + j) && s[k + i..k + j] == s[k..][i..j]
  {
    var rest := s[k..];
    assert i > 0 ==> s[k + i - 1] == rest[i - 1];
    assert j < |rest| ==> s[k + j] == rest[j];
    forall n | k + i <= n < k + j ensures s[n] != ',' {
      assert s[n] == rest[n - k];
    }
  }

  lemma BetweenRest(s: string, k: nat, i: nat, j: nat)
    requires 0 < k <= i && Between(s, i, j)
    ensures k <= |s| && Between(s[k..], i - k, j - k) && s[k..][i - k..j - k] == s[i..j]
  {
    var rest := s[k..];
    assert i > k ==> s[i - 1] == rest[i - k - 1];
    assert j < |s| ==> s[j] == rest[j - k];
    forall n | i - k <= n < j - k ensures rest[n] != ',' {
      assert rest[n] == s[n + k];
    }
  }

  lemma StretchTail(s: string, name: string)
    requires Comma(s) < |s| && Stretch(s[Comma(s) + 1..], name)
    ensures Stretch(s, name)
  {
    hide Trim, Stretch, Between, Comma;
    StretchLater(s, Comma(s) + 1, name);
  }

  lemma StretchLater(s: string, k: nat, name: string)
    requires 0 < k <= |s| && s[k - 1] == ',' && Stretch(s[k..], name)
    ensures Stretch(s, name)
  {
    hide Trim, Stretch, Between, Comma;
    var rest := s[k..];
    var i, j := Witness(rest, name);
    BetweenBounds(rest, i, j);
    BetweenShifts(s, k, i, j);
    StretchAt(s, k + i, k + j);
  }

  lemma BetweenBounds(s: string, i: nat, j: nat)
    requires Between(s, i, j)
    ensures i <= j <= |s| && (i > 0 ==> Comma(s) < i) && (i == 0 ==> Comma(s) == j)
  {
    if i == 0 {
      FirstComma(s, j);
    } else {
      assert s[i - 1] == ',';
    }
  }

  lemma StretchSplits(s: string, name: string)
    requires Stretch(s, name)
    ensures Trim(s[..Comma(s)]) == name || (Comma(s) < |s| && Stretch(s[Comma(s) + 1..], name))
  {
    hide Trim, Stretch, Between, Comma;
    var k := Comma(s) + 1;
    var i, j := Witness(s, name);
    BetweenBounds(s, i, j);
    if i == 0 {
      assert s[0..j] == s[..j];
    } else {
      BetweenRest(s, k, i, j);
      BetweenBounds(s[k..], i - k, j - k);
      StretchAt(s[k..], i - k, j - k);
    }
  }

  /** A name is a piece exactly when it is not empty and some stretch of the list between commas is
      blanks and then the name. */
  lemma {:induction false} PieceMeaning(s: string, name: string)
    ensures name in Pieces(s) <==> name != "" && Stretch(s, name)
    decreases |s|
  {
    hide Trim, Stretch, Pieces, BlankTail;
    var k := Comma(s);
    StretchHead(s);
    if k < |s| {
      PieceMeaning(s[k + 1..], name);
      NextPiece(s);
      if Stretch(s[k + 1..], name) {
        StretchTail(s, name);
      }
    } else {
      LastPiece(s);
      assert s[..k] == s;
    }
    if Stretch(s, name) {
      StretchSplits(s, name);
    }
  }

  /** Such a list: "TABLE," accepts the empty name, which is none of its pieces. */
  lemma BlankTailExample()
    ensures BlankTail("TABLE,") && "" !in Pieces("TABLE,")
  {
    FirstComma("TABLE,", 5);
    NextPiece("TABLE,");
    assert "TABLE,"[6..] == "";
    PiecesNulFree("TABLE,");
  }

  // ---------------------------------------------------------------- blanks, spelled out

  /** The blanks of isspace: horizontal tab, line feed, vertical tab, form feed, carriage return, space. */
  lemma SpaceTable(c: char)
    ensures IsSpace(c) <==> c as int in {9, 10, 11, 12, 13, 32}
  {
  }

  /** What is dropped in front is all blanks, and what stays does not start with one. */
  lemma {:induction false} TrimMeaning(s: string)
    ensures var k := |s| - |Trim(s)|;
      && Trim(s) == s[k..] && (forall i :: 0 <= i < k ==> s[i] as int in {9, 10, 11, 12, 13, 32})
      && (k < |s| ==> s[k] as int !in {9, 10, 11, 12, 13, 32})
  {
    if s != "" {
      SpaceTable(s[0]);
      if IsSpace(s[0]) {
        TrimMeaning(s[1..]);
        var k := |s[1..]| - |Trim(s[1..])|;
        assert forall i :: 1 <= i < k + 1 ==> s[i] == s[1..][i - 1];
      }
    }
  }

  /** From the start, or from some comma, on there are only blanks. */
  predicate BlankFrom(s: string, k: int) {
    && 0 <= k <= |s| && (k == 0 || s[k - 1] == ',')
    && forall i :: k <= i < |s| ==> s[i] as int in {9, 10, 11, 12, 13, 32}
  }

  lemma {:induction false} BlankTailMeaning(s: string)
    ensures BlankTail(s) <==> exists k :: BlankFrom(s, k)
    decreases |s|
  {
    hide Trim, IsSpace;
    var c := Comma(s);
    if c == |s| {
      TrimMeaning(s);
      assert Trim(s) == "" <==> BlankFrom(s, 0);
    } else {
      BlankTailMeaning(s[c + 1..]);
      BlankTailRest(s, c + 1);
    }
  }

  lemma BlankTailRest(s: string, n: nat)
    requires 0 < n <= |s| && s[n - 1] == ',' && forall i :: 0 <= i < n - 1 ==> s[i] != ','
    ensures (exists k :: BlankFrom(s, k)) <==> (exists k :: BlankFrom(s[n..], k))
  {
    var rest := s[n..];
    if k: int :| BlankFrom(s, k) {
      assert k >= n;
      assert forall i :: k - n <= i < |rest| ==> rest[i] == s[n + i];
      assert k > n ==> rest[k - n - 1] == s[k - 1];
      assert BlankFrom(rest, k - n);
    }
    if k: int :| BlankFrom(rest, k) {
      assert forall i :: n + k <= i < |s| ==> s[i] == rest[i - n];
      assert k > 0 ==> s[n + k - 1] == rest[k - 1];
      assert BlankFrom(s, n + k);
    }
  }
}
