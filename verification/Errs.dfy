/** The diagnostic records of a handle: two lists that trade nodes. */
module Errs {
  datatype Option<T> = None | Some(value: T)

  /** What a caller reports: the native error, the SQLSTATE and the formatted message. */
  datatype Record = Record(native: int, state: string, text: string)

  function Cut(s: string, n: nat): (r: string)
    ensures r <= s && |r| == if |s| <= n then |s| else n
  {
    if |s| <= n then s else s[..n]
  }

  /** What fits into a node: six characters of state (a sixth one takes the place of the NUL), 1023 of
      message. */
  function Stored(r: Record): Record {
    Record(r.native, Cut(r.state, 6), Cut(r.text, 1023))
  }

  class Node {
    var record: Record

    constructor ()
    {
      record := Record(0, "", "");
    }
  }

  predicate Distinct(nodes: seq<Node>) {
    forall i, j :: 0 <= i < j < |nodes| ==> nodes[i] != nodes[j]
  }

  /** Which of two lists a node is in does not matter. */
  lemma Swapped(a: seq<Node>, b: seq<Node>)
    requires Distinct(a + b)
    ensures Distinct(b + a)
  {
    forall i, j | 0 <= i < j < |b + a| ensures (b + a)[i] != (b + a)[j] {
      var i', j' := if i < |b| then |a| + i else i - |b|, if j < |b| then |a| + j else j - |b|;
      assert (b + a)[i] == (a + b)[i'] && (b + a)[j] == (a + b)[j'];
    }
  }

  lemma NewNode(a: seq<Node>, n: Node)
    requires Distinct(a) && n !in a
    ensures Distinct(a + [n])
  {
  }

  function Max(a: nat, b: nat): nat {
    if a < b then b else a
  }

  /** errs_t.  history is what was reported since the last clear, peak the largest number of live
      records there ever was. */
  class ErrList {
    var errs: seq<Node>
    var frees: seq<Node>
    var count: nat
    ghost var history: seq<Record>
    ghost var peak: nat

    /** The live list holds the history in order; no node is in two places; the nodes are as many
        as the live records ever were at once. */
    ghost predicate Valid()
      reads this, errs, frees
    {
      && Distinct(errs + frees)
      && |errs| == |history| == count
      && (forall k :: 0 <= k < |errs| ==> errs[k].record == Stored(history[k]))
      && |errs| + |frees| == peak
    }

    lemma Counted()
      requires Valid()
      ensures |errs| == |history| == count && |errs| + |frees| == peak
    {
    }

    ghost function Nodes(): set<Node>
      reads this
    {
      set n | n in errs + frees
    }

    constructor ()
      ensures Valid() && history == [] && peak == 0 && errs == [] && frees == []
    {
      errs, frees, count, history, peak := [], [], 0, [], 0;
    }

    /** errs_append_x; memory says whether a new node can be allocated when one is needed. */
    method Append(r: Record, memory: bool)
      requires Valid()
      modifies this, Nodes()
      ensures Valid()
      ensures
        if old(frees) == [] && !memory then
          history == old(history) && peak == old(peak) && errs == old(errs) && frees == old(frees)
        else history == old(history) + [r] && peak == Max(old(peak), |history|)
      ensures fresh(Nodes() - old(Nodes()))
    {
      if frees == [] {
        if !memory { return; }
        var added := new Node();
        assert errs + frees == errs;
        NewNode(errs, added);
        frees := frees + [added];
        assert errs + frees == errs + [added];
      }
      var node := frees[0];
      assert errs + frees == errs + [node] + frees[1..];
      forall k | 0 <= k < |errs| ensures errs[k] != node {
        assert (errs + frees)[k] == errs[k] && (errs + frees)[|errs|] == node;
      }
      frees := frees[1..];
      node.record := Record(r.native, Cut(r.state, 6), Cut(r.text, 1023));
      errs := errs + [node];
      count := count + 1;
      history, peak := history + [r], Max(peak, |history| + 1);
    }

    /** errs_clr_x. */
    method Clear()
      requires Valid()
      modifies this
      ensures Valid() && history == [] && peak == old(peak)
      ensures errs == [] && frees == old(frees + errs) && Nodes() == old(Nodes())
    {
      if errs == [] {
        assert frees + errs == frees;
        return;
      }
      Swapped(errs, frees);
      while errs != []
        invariant frees + errs == old(frees + errs)
        invariant Distinct(frees + errs) && |errs| + |frees| == peak && peak == old(peak)
        decreases |errs|
      {
        var p := errs[0];
        errs := errs[1..];
        frees := frees + [p];
        assert frees + errs == old(frees + errs);
      }
      count, history := 0, [];
      assert frees + [] == frees && [] + frees == frees && errs == [];
    }

    /** errs_get_diag_rec_x: record number k is the k-th error since the last clear; the message is
        cut to the caller's buffer and its full length reported. */
    method GetDiagRec(number: int, bufferLength: nat) returns (found: Option<Record>, length: nat)
      requires Valid()
      ensures found.Some? <==> 1 <= number <= |history|
      ensures found.Some? ==>
        && found.value.native == history[number - 1].native
        && found.value.state == Cut(history[number - 1].state, 6)
        && length == |Cut(history[number - 1].text, 1023)|
        && found.value.text
           == Cut(Cut(history[number - 1].text, 1023), if bufferLength == 0 then 0 else bufferLength - 1)
    {
      if number == 0 { return None, 0; }
      if errs == [] { return None, 0; }
      var i := 1;
      var rest := errs;
      while rest != [] && i != number
        invariant 1 <= i && rest == errs[if i - 1 <= |errs| then i - 1 else |errs|..] && i - 1 <= |errs|
        invariant 1 <= number ==> i <= number
        decreases |rest|
      {
        i, rest := i + 1, rest[1..];
      }
      if rest == [] { return None, 0; }
      var p := rest[0].record;
      length := |p.text|;
      found := Some(Record(p.native, p.state, Cut(p.text, if bufferLength == 0 then 0 else bufferLength - 1)));
    }
  }

  // ---------------------------------------------------------------- every run

  /** memory says whether a new node can be allocated when one is needed. */
  datatype Op = AppendOp(r: Record, memory: bool) | ClearOp

  /** The errors recorded since the last clear: one reported without memory is lost exactly when every
      node there ever was is in use. */
  function Since(ops: seq<Op>): seq<Record>
    decreases |ops|, 0
  {
    if ops == [] then []
    else
      var before := ops[..|ops| - 1];
      match ops[|ops| - 1]
      case AppendOp(r, memory) =>
        if memory || |Since(before)| < Peak(before) then Since(before) + [r] else Since(before)
      case ClearOp => []
  }

  /** The most live records there ever were at once. */
  function Peak(ops: seq<Op>): nat
    decreases |ops|, 1
  {
    if ops == [] then 0 else Max(Peak(ops[..|ops| - 1]), |Since(ops)|)
  }

  /** Any run, failed allocations included: the live records are those recorded since the last clear,
      and the nodes ever allocated are as many as the high-water mark. */
  method Replay(ops: seq<Op>) returns (list: ErrList)
    ensures fresh(list) && list.Valid() && list.history == Since(ops) && list.peak == Peak(ops)
    ensures |list.errs| + |list.frees| == Peak(ops) && list.count == |Since(ops)|
  {
    hide ErrList.Valid;
    list := new ErrList();
    list.Counted();
    for i := 0 to |ops|
      invariant fresh(list) && list.Valid() && list.history == Since(ops[..i]) && list.peak == Peak(ops[..i])
      invariant fresh(list.Nodes())
    {
      assert ops[..i + 1][..i] == ops[..i];
      list.Counted();
      match ops[i]
      case AppendOp(r, memory) => list.Append(r, memory);
      case ClearOp => list.Clear();
    }
    list.Counted();
    assert ops[..|ops|] == ops;
  }
}
