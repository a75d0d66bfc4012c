/** Reference counting of ejson values: a C heap of nodes that arrays may share. */
module EjsonHeap {
  /** An address; 0 is the null pointer. */
  type Ptr = nat

  const NULL: Ptr := 0

  datatype Kv = Kv(key: string, val: Ptr)

  /** The payload of a node.  Scalar stands for null, true, false, numbers, strings and
      binaries, which own no other node.  cap is the allocated number of slots. */
  datatype Body = Scalar | Obj(kvs: seq<Kv>, cap: nat) | Arr(vals: seq<Ptr>, cap: nat)

  datatype Cell = Cell(refc: int, body: Body)

  type Cells = map<Ptr, Cell>

  function Vals(kvs: seq<Kv>): (r: seq<Ptr>)
    ensures |r| == |kvs| && forall i :: 0 <= i < |kvs| ==> r[i] == kvs[i].val
  {
    if kvs == [] then [] else Vals(kvs[..|kvs| - 1]) + [kvs[|kvs| - 1].val]
  }

  /** The child slots of a node, null pointers included. */
  function Kids(body: Body): seq<Ptr> {
    match body
    case Scalar => []
    case Obj(kvs, _) => Vals(kvs)
    case Arr(vals, _) => vals
  }

  /** No slot is used beyond the allocation. */
  predicate Fits(body: Body) {
    match body
    case Scalar => true
    case Obj(kvs, cap) => |kvs| <= cap
    case Arr(vals, cap) => |vals| <= cap
  }

  // ---------------------------------------------------------------- the accounting

  /** All child slots of all nodes of m. */
  ghost function Edges(m: Cells): multiset<Ptr> {
    if m == map[] then multiset{}
    else
      var p :| p in m;
      multiset(Kids(m[p].body)) + Edges(m - {p})
  }

  lemma {:induction false} EdgesRemove(m: Cells, p: Ptr)
    requires p in m
    ensures Edges(m) == multiset(Kids(m[p].body)) + Edges(m - {p})
    decreases |m|
  {
    var q :| q in m && Edges(m) == multiset(Kids(m[q].body)) + Edges(m - {q});
    if q != p {
      var rest := m - {p, q};
      assert m - {q} - {p} == rest && m - {p} - {q} == rest;
      EdgesRemove(m - {q}, p);
      EdgesRemove(m - {p}, q);
      calc {
        Edges(m);
        multiset(Kids(m[q].body)) + (multiset(Kids(m[p].body)) + Edges(rest));
        multiset(Kids(m[p].body)) + (multiset(Kids(m[q].body)) + Edges(rest));
      }
    }
  }

  /** One more slot, holding v, in node p. */
  lemma EdgesExtend(m: Cells, p: Ptr, c: Cell, v: Ptr)
    requires p in m && Kids(c.body) == Kids(m[p].body) + [v]
    ensures Edges(m[p := c]) == Edges(m) + multiset{v}
  {
    EdgesRemove(m, p);
    EdgesRemove(m[p := c], p);
    assert m[p := c] - {p} == m - {p};
    assert multiset(Kids(c.body)) == multiset(Kids(m[p].body)) + multiset{v};
  }

  lemma EdgesSame(m: Cells, p: Ptr, c: Cell)
    requires p in m && c.body == m[p].body
    ensures Edges(m[p := c]) == Edges(m)
  {
    EdgesRemove(m, p);
    EdgesRemove(m[p := c], p);
    assert m[p := c] - {p} == m - {p};
  }

  lemma EdgesAdd(m: Cells, p: Ptr, c: Cell)
    requires p !in m
    ensures Edges(m[p := c]) == multiset(Kids(c.body)) + Edges(m)
  {
    EdgesRemove(m[p := c], p);
    assert m[p := c] - {p} == m;
  }

  /** A slot of a node is one of the edges, and every edge is a slot of some node. */
  lemma EdgeFrom(m: Cells, p: Ptr, q: Ptr)
    requires p in m && q in Kids(m[p].body)
    ensures q in Edges(m)
  {
    EdgesRemove(m, p);
    assert q in multiset(Kids(m[p].body));
  }

  lemma {:induction false} EdgeSource(m: Cells, q: Ptr) returns (p: Ptr)
    requires q in Edges(m)
    ensures p in m && q in Kids(m[p].body)
    decreases |m|
  {
    p :| p in m;
    EdgesRemove(m, p);
    if q !in Kids(m[p].body) {
      assert q !in multiset(Kids(m[p].body));
      p := EdgeSource(m - {p}, q);
    }
  }

  /** Each node's count is the number of references to it: those held outside the heap plus
      its occurrences in nodes; no reference points to anything that is not a node. */
  ghost predicate Accounted(m: Cells, outside: multiset<Ptr>) {
    && NULL !in m && NULL !in outside
    && (forall p {:trigger m[p]} :: p in m ==> m[p].refc >= 1 && Fits(m[p].body))
    && (forall p {:trigger Uses(m, outside, p)} :: p != NULL ==> Uses(m, outside, p) == Refc(m, p))
  }

  ghost function Refc(m: Cells, p: Ptr): int {
    if p in m then m[p].refc else 0
  }

  ghost function Uses(m: Cells, outside: multiset<Ptr>, p: Ptr): nat {
    outside[p] + Edges(m)[p]
  }

  /** A node that survives: its count moves with the outside references to it. */
  lemma AccountedRefc(m: Cells, outside: multiset<Ptr>, p: Ptr, refc: int, outside': multiset<Ptr>)
    requires Accounted(m, outside) && p in m && refc >= 1
    requires forall q :: q != p ==> outside'[q] == outside[q]
    requires outside'[p] + m[p].refc == outside[p] + refc
    ensures Accounted(m[p := m[p].(refc := refc)], outside')
  {
    var c := m[p].(refc := refc);
    var m' := m[p := c];
    EdgesSame(m, p, c);
    forall q | q != NULL ensures Uses(m', outside', q) == Refc(m', q) {
      assert Uses(m, outside, q) == Refc(m, q);
    }
  }

  /** The last reference goes: the node leaves the heap, and what its slots referred to is now
      referred to from outside, by the release in progress. */
  lemma AccountedRelease(m: Cells, outside: multiset<Ptr>, p: Ptr, kids: multiset<Ptr>)
    requires Accounted(m, outside) && p in outside && p in m && m[p].refc == 1
    requires kids == Owned(Kids(m[p].body))
    ensures Accounted(m - {p}, outside - multiset{p} + kids)
  {
    var m', o' := m - {p}, outside - multiset{p} + kids;
    EdgesRemove(m, p);
    assert Uses(m, outside, p) == 1;
    assert Kids(m[p].body) != [] || kids == multiset{};
    forall q | q != NULL ensures Uses(m', o', q) == Refc(m', q) {
      assert Uses(m, outside, q) == Refc(m, q);
      assert Edges(m)[q] == kids[q] + Edges(m')[q];
      if q != p {
        assert o'[q] == outside[q] + kids[q];
      }
    }
  }

  /** References and pointers in use lead to nodes. */
  lemma UsedAreNodes(m: Cells, outside: multiset<Ptr>, p: Ptr)
    requires Accounted(m, outside) && p != NULL && (p in outside || p in Edges(m))
    ensures p in m && m[p].refc >= 1
  {
    assert Uses(m, outside, p) == Refc(m, p);
  }

  // ---------------------------------------------------------------- the operations

  /** What releasing references may do to the heap: nodes only disappear or lose count, bodies
      stay, dying nodes are left alone, and each node that disappears is given back once. */
  ghost predicate Shrunk(m: Cells, freed: seq<Ptr>, m': Cells, freed': seq<Ptr>, dying: set<Ptr>) {
    && m'.Keys <= m.Keys
    && (forall q {:trigger m'[q]} :: q in m' ==> m'[q].body == m[q].body && m'[q].refc <= m[q].refc)
    && (forall q :: q in dying && q in m ==> q in m' && m'[q] == m[q])
    && freed <= freed'
    && (forall i, j :: |freed| <= i < j < |freed'| ==> freed'[i] != freed'[j])
    && (forall q :: q in freed'[|freed|..] <==> q in m && q !in m')
  }

  lemma ShrunkTransitive(m: Cells, f: seq<Ptr>, m': Cells, f': seq<Ptr>, m'': Cells, f'': seq<Ptr>, dying: set<Ptr>)
    requires Shrunk(m, f, m', f', dying) && Shrunk(m', f', m'', f'', dying)
    ensures Shrunk(m, f, m'', f'', dying)
  {
    assert f''[|f|..] == f'[|f|..] + f''[|f'|..];
    forall i, j | |f| <= i < j < |f''| ensures f''[i] != f''[j] {
      if i < |f'| <= j {
        assert f''[i] == f'[|f|..][i - |f|] && f''[i] in f'[|f|..];
        assert f''[j] == f''[|f'|..][j - |f'|] && f''[j] in f''[|f'|..];
      }
    }
  }

  /** A dying node's own cell plays no part in the accounting of the others. */
  lemma ShrunkElsewhere(m: Cells, freed: seq<Ptr>, m': Cells, freed': seq<Ptr>, dying: set<Ptr>, p: Ptr)
    requires Shrunk(m, freed, m', freed', dying) && p in dying && p in m
    ensures p in m' && m'[p] == m[p]
    ensures Shrunk(m - {p}, freed, m' - {p}, freed', dying)
  {
  }

  /** Giving back p itself completes a release that started from m with p's cell set to c. */
  lemma ShrunkRelease(m: Cells, freed: seq<Ptr>, p: Ptr, c: Cell, m': Cells, freed': seq<Ptr>, dying: set<Ptr>)
    requires p in m && p !in dying && p in m'
    requires Shrunk(m[p := c] - {p}, freed, m' - {p}, freed', dying + {p})
    ensures Shrunk(m, freed, m' - {p}, freed' + [p], dying)
  {
    var new_ := freed'[|freed|..];
    assert (freed' + [p])[|freed|..] == new_ + [p];
    assert p !in new_;
    assert forall i :: |freed| <= i < |freed'| ==> freed'[i] == new_[i - |freed|];
  }

  lemma DyingWrite(m: Cells, dying: set<Ptr>, p: Ptr, c: Cell)
    requires p in dying && p in m
    ensures m[p := c] - dying == m - dying && m[p := c] - {p} == m - {p} && m[p := c].Keys == m.Keys
  {
  }

  lemma ShrunkStart(m: Cells, freed: seq<Ptr>, dying: set<Ptr>)
    ensures Shrunk(m, freed, m, freed, dying)
  {
  }

  lemma ShrunkCount(m: Cells, freed: seq<Ptr>, dying: set<Ptr>, p: Ptr, refc: int)
    requires p in m && p !in dying && refc <= m[p].refc
    ensures Shrunk(m, freed, m[p := m[p].(refc := refc)], freed, dying)
  {
  }

  /** Releasing never adds nodes: what makes the recursion of the release terminate. */
  lemma FewerAlive(m: Cells, freed: seq<Ptr>, m': Cells, freed': seq<Ptr>, dying: set<Ptr>, p: Ptr)
    requires Shrunk(m - {p}, freed, m' - {p}, freed', dying) && p in dying
    ensures |m'.Keys - dying| <= |m.Keys - dying|
  {
    assert forall q :: q in m' && q !in dying ==> q in (m' - {p}).Keys;
    SubsetSize(m'.Keys - dying, m.Keys - dying);
  }

  lemma {:induction false} SubsetSize(a: set<Ptr>, b: set<Ptr>)
    requires a <= b
    ensures |a| <= |b|
  {
    if a != {} {
      var x :| x in a;
      SubsetSize(a - {x}, b - {x});
    }
  }

  /** The references in slots that are not null. */
  ghost function Owned(slots: seq<Ptr>): multiset<Ptr> {
    multiset(slots)[NULL := 0]
  }

  lemma OwnedFirst(slots: seq<Ptr>)
    requires slots != []
    ensures Owned(slots) == (if slots[0] == NULL then multiset{} else multiset{slots[0]}) + Owned(slots[1..])
  {
    assert slots == [slots[0]] + slots[1..];
  }

  lemma OwnedNone(slots: seq<Ptr>)
    requires slots == []
    ensures Owned(slots) == multiset{}
  {
  }

  class Heap {
    /** The allocated nodes. */
    var cells: Cells
    /** The references held outside the heap, one entry each. */
    ghost var outside: multiset<Ptr>
    /** Nodes whose count has reached zero and whose release is in progress. */
    ghost var dying: set<Ptr>
    /** The nodes given back so far, in order. */
    ghost var freed: seq<Ptr>

    ghost predicate Valid()
      reads this
    {
      dying <= cells.Keys && Accounted(cells - dying, outside)
    }

    constructor ()
      ensures Valid() && cells == map[] && outside == multiset{} && dying == {} && freed == []
    {
      cells, outside, dying, freed := map[], multiset{}, {}, [];
    }

    /** ejson_inc_ref. */
    method IncRef(p: Ptr)
      requires Valid() && (p != NULL ==> p in cells && p !in dying)
      modifies this`cells, this`outside
      ensures Valid()
      ensures outside == if p == NULL then old(outside) else old(outside) + multiset{p}
      ensures cells == if p == NULL then old(cells) else old(cells)[p := old(cells)[p].(refc := old(cells)[p].refc + 1)]
    {
      if p == NULL { return; }
      assert (cells - dying)[p].refc >= 1;
      AccountedRefc(cells - dying, outside, p, cells[p].refc + 1, outside + multiset{p});
      cells := cells[p := cells[p].(refc := cells[p].refc + 1)];
      outside := outside + multiset{p};
      assert cells - dying == (old(cells) - dying)[p := cells[p]];
    }

    /** ejson_dec_ref: drops one outside reference.  Every node it touches is allocated, each
        node it gives back is given back once, and the accounting is kept. */
    method DecRef(p: Ptr)
      requires Valid() && (p != NULL ==> p in outside)
      modifies this
      ensures Valid() && dying == old(dying)
      ensures Shrunk(old(cells), old(freed), cells, freed, dying)
      ensures outside == if p == NULL then old(outside) else old(outside) - multiset{p}
      decreases |cells.Keys - dying|, 1
    {
      hide Accounted, Shrunk, Owned;
      if p == NULL {
        ShrunkStart(cells, freed, dying);
        return;
      }
      UsedAreNodes(cells - dying, outside, p);
      if cells[p].refc > 1 {
        ShrunkCount(cells, freed, dying, p, cells[p].refc - 1);
        AccountedRefc(cells - dying, outside, p, cells[p].refc - 1, outside - multiset{p});
        cells := cells[p := cells[p].(refc := cells[p].refc - 1)];
        outside := outside - multiset{p};
        assert cells - dying == (old(cells) - dying)[p := cells[p]];
        return;
      }
      Destroy(p);
    }

    /** The last reference goes: release what the node owns, then free it. */
    method Destroy(p: Ptr)
      requires Valid() && p in outside && p in cells && p !in dying && cells[p].refc == 1
      modifies this
      ensures Valid() && dying == old(dying)
      ensures Shrunk(old(cells), old(freed), cells, freed, dying)
      ensures outside == old(outside) - multiset{p}
      decreases |cells.Keys - dying|, 0
    {
      hide Accounted, Shrunk, Owned;
      StartRelease(p);
      assert old(cells.Keys - dying) == (cells.Keys - dying) + {p};
      ghost var c := cells[p];
      Release(p, old(outside) - multiset{p});
      ShrunkRelease(old(cells), old(freed), p, c, cells, freed, old(dying));
      Free(p);
    }

    /** free() of a node whose release is over. */
    method Free(p: Ptr)
      requires Valid() && p in dying
      modifies this`cells, this`dying, this`freed
      ensures Valid() && cells == old(cells) - {p} && dying == old(dying) - {p} && freed == old(freed) + [p]
    {
      hide Accounted;
      ghost var alive := cells - dying;
      cells := cells - {p};
      dying := dying - {p};
      freed := freed + [p];
      assert cells - dying == alive;
    }

    /** The count reaches zero: from here on the node's slots are references of the release. */
    method StartRelease(p: Ptr)
      requires Valid() && p in outside && p in cells && p !in dying && cells[p].refc == 1
      modifies this`cells, this`outside, this`dying
      ensures Valid() && dying == old(dying) + {p}
      ensures cells == old(cells)[p := old(cells)[p].(refc := 0)]
      ensures outside == old(outside) - multiset{p} + Owned(Kids(cells[p].body))
    {
      AccountedRelease(cells - dying, outside, p, Owned(Kids(cells[p].body)));
      cells := cells[p := cells[p].(refc := cells[p].refc - 1)];
      outside := outside - multiset{p} + Owned(Kids(cells[p].body));
      dying := dying + {p};
      assert cells - dying == (old(cells) - old(dying)) - {p};
    }

    /** _ejson_release: gives up what a node owns.  base is what is referenced from outside
        apart from the node's own slots. */
    method Release(p: Ptr, ghost base: multiset<Ptr>)
      requires Valid() && p in dying && outside == base + Owned(Kids(cells[p].body))
      modifies this
      ensures Valid() && dying == old(dying) && outside == base
      ensures p in cells && Shrunk(old(cells) - {p}, old(freed), cells - {p}, freed, dying)
      decreases |cells.Keys - dying|, 4
    {
      match cells[p].body
      case Scalar =>
      case Obj(kvs, _) => ReleaseObj(p, kvs, base);
      case Arr(vals, _) => ReleaseArr(p, vals, base);
    }

    /** One round of a release loop: drop the reference v and store the slots that remain. */
    method DropChild(p: Ptr, v: Ptr, body: Body, ghost rest: multiset<Ptr>)
      requires Valid() && p in dying
      requires outside == (if v == NULL then multiset{} else multiset{v}) + rest
      modifies this
      ensures Valid() && dying == old(dying) && outside == rest
      ensures p in cells && cells[p].body == body
      ensures Shrunk(old(cells) - {p}, old(freed), cells - {p}, freed, dying)
      decreases |cells.Keys - dying|, 2
    {
      DecRef(v);
      ShrunkElsewhere(old(cells), old(freed), cells, freed, dying, p);
      DyingWrite(cells, dying, p, cells[p].(body := body));
      cells := cells[p := cells[p].(body := body)];
    }

    /** _ejson_arr_release. */
    method ReleaseArr(p: Ptr, vals: seq<Ptr>, ghost base: multiset<Ptr>)
      requires Valid() && p in dying && cells[p].body.Arr? && cells[p].body.vals == vals
      requires outside == base + Owned(vals)
      modifies this
      ensures Valid() && dying == old(dying) && outside == base
      ensures p in cells && Shrunk(old(cells) - {p}, old(freed), cells - {p}, freed, dying)
      decreases |cells.Keys - dying|, 3
    {
      hide Accounted, Shrunk, Owned;
      var i := 0;
      assert vals[0..] == vals;
      ShrunkStart(cells - {p}, freed, dying);
      while i < |vals|
        invariant i <= |vals|
        invariant Valid() && dying == old(dying) && outside == base + Owned(vals[i..])
        invariant p in cells && cells[p].body.Arr? && |cells[p].body.vals| == |vals|
        invariant cells[p].body.vals[i..] == vals[i..]
        invariant Shrunk(old(cells) - {p}, old(freed), cells - {p}, freed, dying)
      {
        ghost var m, f := cells, freed;
        var body := cells[p].body;
        OwnedFirst(vals[i..]);
        FewerAlive(old(cells), old(freed), cells, freed, dying, p);
        DropChild(p, body.vals[i], body.(vals := body.vals[i := NULL]), base + Owned(vals[i + 1..]));
        ShrunkTransitive(old(cells) - {p}, old(freed), m - {p}, f, cells - {p}, freed, dying);
        i := i + 1;
      }
      OwnedNone(vals[i..]);
      DyingWrite(cells, dying, p, cells[p].(body := Arr([], 0)));
      cells := cells[p := cells[p].(body := Arr([], 0))];
    }

    /** _ejson_obj_release. */
    method ReleaseObj(p: Ptr, kvs: seq<Kv>, ghost base: multiset<Ptr>)
      requires Valid() && p in dying && cells[p].body.Obj? && cells[p].body.kvs == kvs
      requires outside == base + Owned(Vals(kvs))
      modifies this
      ensures Valid() && dying == old(dying) && outside == base
      ensures p in cells && Shrunk(old(cells) - {p}, old(freed), cells - {p}, freed, dying)
      decreases |cells.Keys - dying|, 3
    {
      hide Accounted, Shrunk, Owned, Vals;
      var i := 0;
      assert Vals(kvs)[0..] == Vals(kvs);
      ShrunkStart(cells - {p}, freed, dying);
      while i < |kvs|
        invariant i <= |kvs|
        invariant Valid() && dying == old(dying) && outside == base + Owned(Vals(kvs)[i..])
        invariant p in cells && cells[p].body.Obj? && |cells[p].body.kvs| == |kvs|
        invariant cells[p].body.kvs[i..] == kvs[i..]
        invariant Shrunk(old(cells) - {p}, old(freed), cells - {p}, freed, dying)
      {
        ghost var m, f := cells, freed;
        var body := cells[p].body;
        OwnedFirst(Vals(kvs)[i..]);
        FewerAlive(old(cells), old(freed), cells, freed, dying, p);
        DropChild(p, body.kvs[i].val, body.(kvs := body.kvs[i := Kv("", NULL)]), base + Owned(Vals(kvs)[i + 1..]));
        ShrunkTransitive(old(cells) - {p}, old(freed), m - {p}, f, cells - {p}, freed, dying);
        i := i + 1;
      }
      OwnedNone(Vals(kvs)[i..]);
      DyingWrite(cells, dying, p, cells[p].(body := Obj([], 0)));
      cells := cells[p := cells[p].(body := Obj([], 0))];
    }

    /** ejson_new_null, ejson_new_obj, ejson_new_arr and their like; addr is what calloc returns. */
    method New(body: Body, addr: Ptr) returns (r: Ptr)
      requires Valid() && (body == Scalar || body == Obj([], 0) || body == Arr([], 0))
      requires addr !in cells
      modifies this`cells, this`outside
      ensures Valid() && r == addr
      ensures addr == NULL ==> cells == old(cells) && outside == old(outside)
      ensures addr != NULL ==> cells == old(cells)[addr := Cell(1, body)] && outside == old(outside) + multiset{addr}
    {
      if addr == NULL { return NULL; }
      AccountedNew(cells - dying, outside, addr, body);
      cells := cells[addr := Cell(1, body)];
      outside := outside + multiset{addr};
      assert cells - dying == (old(cells) - dying)[addr := Cell(1, body)];
      return addr;
    }

    /** ejson_arr_append: the array shares v with its other owners.  granted tells whether
        realloc succeeds when the array is full. */
    method ArrAppend(a: Ptr, v: Ptr, granted: bool) returns (r: int)
      requires Valid() && a in cells && a !in dying && (v != NULL ==> v in cells && v !in dying)
      modifies this`cells
      ensures Valid() && (r == 0 || r == -1)
      ensures r == 0 <==> old(cells)[a].body.Arr? && (|old(cells)[a].body.vals| == old(cells)[a].body.cap ==> granted)
      ensures r == -1 ==> cells == old(cells)
      ensures r == 0 ==> var arr := old(cells)[a].body;
                cells == Appended(old(cells), a, v, if |arr.vals| == arr.cap then arr.cap + 16 else arr.cap)
      ensures r == 0 ==> var arr := old(cells)[a].body;
                && cells.Keys == old(cells).Keys
                && cells[a].body == Arr(arr.vals + [v], if |arr.vals| == arr.cap then arr.cap + 16 else arr.cap)
                && (forall q :: q in cells && q != a ==> cells[q].body == old(cells)[q].body)
                && (forall q :: q in cells ==>
                      cells[q].refc == old(cells)[q].refc + (if q == v && v != NULL then 1 else 0))
    {
      if !cells[a].body.Arr? { return -1; }
      var cap := cells[a].body.cap;
      if |cells[a].body.vals| == cap {
        if !granted { return -1; }
        cap := cap + 16;
      }
      hide Accounted;
      RefcPositive(cells - dying, outside, a);
      AppendedMeaning(cells, a, v, cap);
      AccountedAppend(cells - dying, outside, a, v, cap);
      assert Appended(cells, a, v, cap) - dying == Appended(cells - dying, a, v, cap);
      var grown := Arr(cells[a].body.vals + [v], cap);
      if v != NULL {
        cells := cells[v := cells[v].(refc := cells[v].refc + 1)];
      }
      cells := cells[a := cells[a].(body := grown)];
      return 0;
    }

    /** _ejson_obj_set: the object takes over the caller's reference on kv.val. */
    method ObjSet(o: Ptr, kv: Kv, granted: bool) returns (r: int)
      requires Valid() && o in cells && o !in dying && cells[o].body.Obj? && (kv.val != NULL ==> kv.val in outside)
      modifies this`cells, this`outside
      ensures Valid() && (r == 0 || r == -1)
      ensures r == 0 <==> |old(cells)[o].body.kvs| + 1 >= old(cells)[o].body.cap ==> granted
      ensures r == -1 ==> cells == old(cells) && outside == old(outside)
      ensures r == 0 ==> outside == old(outside) - multiset{kv.val}
      ensures r == 0 ==> var obj, nr := old(cells)[o].body, |old(cells)[o].body.kvs|;
                cells == old(cells)[o := old(cells)[o].(body :=
                  Obj(obj.kvs + [kv], if nr + 1 >= obj.cap then (nr + 16) / 16 * 16 else obj.cap))]
    {
      var body := cells[o].body;
      var cap := body.cap;
      if |body.kvs| + 1 >= cap {
        if !granted { return -1; }
        cap := (|body.kvs| + 1 + 15) / 16 * 16;
      }
      assert (cells - dying)[o].refc >= 1;
      assert (body.kvs + [kv])[..|body.kvs|] == body.kvs;
      AccountedOwn(cells - dying, outside, o, Obj(body.kvs + [kv], cap), kv.val);
      cells := cells[o := cells[o].(body := Obj(body.kvs + [kv], cap))];
      outside := outside - multiset{kv.val};
      assert cells - dying == (old(cells) - dying)[o := cells[o]];
      return 0;
    }

    /** ejson_dec_ref as its callers see it: on an acyclic heap the nodes left are exactly those
        some remaining outside reference reaches, and the others were given back once each. */
    method DropReference(p: Ptr)
      requires Valid() && dying == {} && Acyclic(cells) && p in outside
      modifies this
      ensures Valid() && dying == {} && Acyclic(cells) && outside == old(outside) - multiset{p}
      ensures forall q :: q in cells <==> Reachable(old(cells), outside, q)
      ensures old(freed) <= freed && forall i, j :: |old(freed)| <= i < j < |freed| ==> freed[i] != freed[j]
      ensures forall q :: q in freed[|old(freed)|..] <==> q in old(cells) && !Reachable(old(cells), outside, q)
    {
      assert cells - dying == cells;
      DecRef(p);
      assert cells - dying == cells;
      LiveIsReachable(old(cells), cells, old(freed), freed, outside);
    }
  }

  // ---------------------------------------------------------------- more accounting

  lemma AccountedNew(m: Cells, outside: multiset<Ptr>, p: Ptr, body: Body)
    requires Accounted(m, outside) && p !in m && p != NULL && Kids(body) == [] && Fits(body)
    ensures Accounted(m[p := Cell(1, body)], outside + multiset{p})
  {
    var m', o' := m[p := Cell(1, body)], outside + multiset{p};
    EdgesAdd(m, p, Cell(1, body));
    forall q | q != NULL ensures Uses(m', o', q) == Refc(m', q) {
      assert Uses(m, outside, q) == Refc(m, q);
      NewUses(m, outside, p, body, q);
    }
  }

  lemma NewUses(m: Cells, outside: multiset<Ptr>, p: Ptr, body: Body, q: Ptr)
    requires p !in m && Uses(m, outside, q) == Refc(m, q) && Edges(m[p := Cell(1, body)]) == Edges(m)
    ensures Uses(m[p := Cell(1, body)], outside + multiset{p}, q) == Refc(m[p := Cell(1, body)], q)
  {
    hide Edges;
  }

  /** The heap after an append: v counted once more, and in a new last slot of a. */
  function Appended(m: Cells, a: Ptr, v: Ptr, cap: nat): Cells
    requires a in m && m[a].body.Arr? && (v != NULL ==> v in m)
  {
    var m1 := if v == NULL then m else m[v := m[v].(refc := m[v].refc + 1)];
    m1[a := m1[a].(body := Arr(m1[a].body.vals + [v], cap))]
  }

  lemma AppendedMeaning(m: Cells, a: Ptr, v: Ptr, cap: nat)
    requires a in m && m[a].body.Arr? && (v != NULL ==> v in m)
    ensures var m' := Appended(m, a, v, cap);
      && m'.Keys == m.Keys && m'[a].body == Arr(m[a].body.vals + [v], cap)
      && (forall q :: q in m' && q != a ==> m'[q].body == m[q].body)
      && (forall q :: q in m' ==> m'[q].refc == m[q].refc + (if q == v && v != NULL then 1 else 0))
  {
  }

  lemma AccountedAppend(m: Cells, outside: multiset<Ptr>, a: Ptr, v: Ptr, cap: nat)
    requires Accounted(m, outside) && a in m && m[a].body.Arr? && (v != NULL ==> v in m) && |m[a].body.vals| < cap
    ensures Accounted(Appended(m, a, v, cap), outside)
  {
    hide Accounted;
    if v == NULL {
      NullIsNoNode(m, outside);
      AccountedOwn(m, outside, a, Arr(m[a].body.vals + [v], cap), v);
      assert outside - multiset{v} == outside;
    } else {
      RefcPositive(m, outside, v);
      AccountedRefc(m, outside, v, m[v].refc + 1, outside + multiset{v});
      var m1 := m[v := m[v].(refc := m[v].refc + 1)];
      AccountedOwn(m1, outside + multiset{v}, a, Arr(m1[a].body.vals + [v], cap), v);
      assert outside + multiset{v} - multiset{v} == outside;
    }
  }

  lemma RefcPositive(m: Cells, outside: multiset<Ptr>, p: Ptr)
    requires Accounted(m, outside) && p in m
    ensures m[p].refc >= 1
  {
  }

  /** A node takes over an outside reference in a new last slot. */
  lemma AccountedOwn(m: Cells, outside: multiset<Ptr>, p: Ptr, body: Body, v: Ptr)
    requires Accounted(m, outside) && p in m && (v != NULL ==> v in outside)
    requires Kids(body) == Kids(m[p].body) + [v] && Fits(body)
    ensures Accounted(m[p := m[p].(body := body)], outside - multiset{v})
  {
    var m', o' := m[p := m[p].(body := body)], outside - multiset{v};
    EdgesExtend(m, p, m[p].(body := body), v);
    forall q | q != NULL ensures Uses(m', o', q) == Refc(m', q) {
      assert Uses(m, outside, q) == Refc(m, q);
    }
  }

  // ---------------------------------------------------------------- reachability

  ghost predicate IsEdge(m: Cells, p: Ptr, q: Ptr) {
    p in m && q in Kids(m[p].body) && q != NULL
  }

  /** No node contains itself, directly or not: children rank below their parents. */
  ghost predicate Descends(m: Cells, rank: map<Ptr, nat>) {
    forall p, q :: IsEdge(m, p, q) ==> p in rank && q in rank && rank[q] < rank[p]
  }

  ghost predicate Acyclic(m: Cells) {
    exists rank: map<Ptr, nat> :: rank.Keys == m.Keys && Descends(m, rank)
  }

  ghost predicate IsPath(m: Cells, path: seq<Ptr>) {
    && path != [] && (forall i :: 0 <= i < |path| ==> path[i] in m && path[i] != NULL)
    && (forall i :: 0 < i < |path| ==> path[i] in Kids(m[path[i - 1]].body))
  }

  /** Some chain of slots leads from one of the roots to p. */
  ghost predicate Reachable(m: Cells, roots: multiset<Ptr>, p: Ptr) {
    exists path :: IsPath(m, path) && path[0] in roots && path[|path| - 1] == p
  }

  ghost function Above(m: Cells, rank: map<Ptr, nat>, q: Ptr): set<Ptr>
    requires m.Keys <= rank.Keys && q in m
  {
    set r | r in m.Keys && rank[r] > rank[q]
  }

  lemma AboveShrinks(m: Cells, rank: map<Ptr, nat>, q: Ptr, p: Ptr)
    requires m.Keys <= rank.Keys && p in m && q in m && rank[q] < rank[p]
    ensures |Above(m, rank, p)| < |Above(m, rank, q)|
  {
    assert p !in Above(m, rank, p);
    SubsetSize(Above(m, rank, p) + {p}, Above(m, rank, q));
  }

  lemma ReachChild(m: Cells, roots: multiset<Ptr>, p: Ptr, q: Ptr)
    requires Reachable(m, roots, p) && q in m && q != NULL && q in Kids(m[p].body)
    ensures Reachable(m, roots, q)
  {
    var path :| IsPath(m, path) && path[0] in roots && path[|path| - 1] == p;
    assert IsPath(m, path + [q]) && (path + [q])[0] in roots;
  }

  /** In an accounted heap without cycles every node is reached from outside: follow any
      reference to it upwards. */
  lemma {:induction false} LiveReached(m: Cells, m': Cells, outside: multiset<Ptr>, rank: map<Ptr, nat>, q: Ptr)
    requires Accounted(m', outside) && q in m' && rank.Keys == m.Keys && Descends(m, rank) && NULL !in m
    requires m'.Keys <= m.Keys && forall p {:trigger m'[p]} :: p in m' ==> m'[p].body == m[p].body
    ensures Reachable(m, outside, q)
    decreases |Above(m', rank, q)|
  {
    hide Reachable;
    assert Uses(m', outside, q) == Refc(m', q) && m'[q].refc >= 1;
    if q in outside {
      ReachRoot(m, outside, q);
    } else {
      var p := EdgeSource(m', q);
      assert m'[p].body == m[p].body && IsEdge(m, p, q);
      AboveShrinks(m', rank, q, p);
      LiveReached(m, m', outside, rank, p);
      ReachChild(m, outside, p, q);
    }
  }

  lemma ReachRoot(m: Cells, roots: multiset<Ptr>, q: Ptr)
    requires q in roots && q in m && q != NULL
    ensures Reachable(m, roots, q)
  {
    assert IsPath(m, [q]) && [q][0] in roots;
  }

  /** Nothing on a path from a remaining outside reference has been given back. */
  lemma {:induction false} PathStays(m: Cells, m': Cells, outside: multiset<Ptr>, path: seq<Ptr>, i: nat)
    requires Accounted(m', outside) && IsPath(m, path) && path[0] in outside && i < |path|
    requires forall p {:trigger m'[p]} :: p in m' ==> p in m && m'[p].body == m[p].body
    ensures path[i] in m'
  {
    if i == 0 {
      UsedAreNodes(m', outside, path[0]);
    } else {
      PathStays(m, m', outside, path, i - 1);
      assert m'[path[i - 1]].body == m[path[i - 1]].body;
      EdgeFrom(m', path[i - 1], path[i]);
      UsedAreNodes(m', outside, path[i]);
    }
  }

  /** After references were dropped: alive means reachable, freed means unreachable. */
  lemma LiveIsReachable(m: Cells, m': Cells, freed: seq<Ptr>, freed': seq<Ptr>, outside: multiset<Ptr>)
    requires Acyclic(m) && NULL !in m && Accounted(m', outside) && Shrunk(m, freed, m', freed', {})
    ensures forall q :: q in m' <==> Reachable(m, outside, q)
    ensures forall q :: q in freed'[|freed|..] <==> q in m && !Reachable(m, outside, q)
    ensures Acyclic(m')
  {
    forall q ensures q in m' <==> Reachable(m, outside, q) {
      LiveIff(m, m', outside, q);
    }
    AcyclicShrink(m, m', outside);
  }

  lemma LiveIff(m: Cells, m': Cells, outside: multiset<Ptr>, q: Ptr)
    requires Acyclic(m) && NULL !in m && Accounted(m', outside)
    requires m'.Keys <= m.Keys && forall p {:trigger m'[p]} :: p in m' ==> m'[p].body == m[p].body
    ensures q in m' <==> Reachable(m, outside, q)
  {
    if q in m' {
      var rank: map<Ptr, nat> :| rank.Keys == m.Keys && Descends(m, rank);
      LiveReached(m, m', outside, rank, q);
    } else if Reachable(m, outside, q) {
      var path :| IsPath(m, path) && path[0] in outside && path[|path| - 1] == q;
      PathStays(m, m', outside, path, |path| - 1);
    }
  }

  lemma AcyclicShrink(m: Cells, m': Cells, outside: multiset<Ptr>)
    requires Acyclic(m) && Accounted(m', outside)
    requires m'.Keys <= m.Keys && forall p {:trigger m'[p]} :: p in m' ==> m'[p].body == m[p].body
    ensures Acyclic(m')
  {
    var rank: map<Ptr, nat> :| rank.Keys == m.Keys && Descends(m, rank);
    var rank' := map p | p in m' :: rank[p];
    forall p, q | IsEdge(m', p, q) ensures q in rank' && rank'[q] < rank'[p] {
      assert m'[p].body == m[p].body && IsEdge(m, p, q);
      EdgeFrom(m', p, q);
      UsedAreNodes(m', outside, q);
    }
    assert Descends(m', rank');
  }

  /** Adding v as a slot of a creates no cycle when a cannot be reached from v. */
  lemma SlotKeepsAcyclic(m: Cells, outside: multiset<Ptr>, a: Ptr, v: Ptr, m': Cells)
    requires Acyclic(m) && Accounted(m, outside) && a in m && (v != NULL ==> v in m && !Reachable(m, multiset{v}, a))
    requires m'.Keys == m.Keys && Kids(m'[a].body) == Kids(m[a].body) + [v]
    requires forall p {:trigger m'[p]} :: p in m && p != a ==> m'[p].body == m[p].body
    ensures Acyclic(m')
  {
    hide Reachable, Accounted, IsEdge, Lifted;
    var rank: map<Ptr, nat> :| rank.Keys == m.Keys && Descends(m, rank);
    NullIsNoNode(m, outside);
    var rank' := Lifted(m, rank, a, v);
    forall p, q | IsEdge(m', p, q) ensures q in rank' && p in rank' && rank'[q] < rank'[p] {
      SlotEdge(m, outside, rank, a, v, m', p, q);
    }
    assert Descends(m', rank');
  }

  /** Everything that reaches a moves above v. */
  ghost function Lifted(m: Cells, rank: map<Ptr, nat>, a: Ptr, v: Ptr): (lifted: map<Ptr, nat>)
    requires m.Keys == rank.Keys && (v != NULL ==> v in m)
    ensures lifted.Keys == m.Keys
  {
    var lift: nat := if v == NULL then 0 else rank[v] + 1;
    map p | p in m :: if Reachable(m, multiset{p}, a) then rank[p] + lift else rank[p]
  }

  lemma SlotEdge(m: Cells, outside: multiset<Ptr>, rank: map<Ptr, nat>, a: Ptr, v: Ptr, m': Cells, p: Ptr, q: Ptr)
    requires Accounted(m, outside) && a in m && (v != NULL ==> v in m && !Reachable(m, multiset{v}, a))
    requires m'.Keys == m.Keys && Kids(m'[a].body) == Kids(m[a].body) + [v]
    requires p != a && p in m' ==> m'[p].body == m[p].body
    requires rank.Keys == m.Keys && Descends(m, rank) && IsEdge(m', p, q) && a != NULL
    ensures var r := Lifted(m, rank, a, v); q in r && p in r && r[q] < r[p]
  {
    hide Reachable;
    if IsEdge(m, p, q) {
      EdgeFrom(m, p, q);
      UsedAreNodes(m, outside, q);
      if Reachable(m, multiset{q}, a) {
        ReachFromParent(m, p, q, a);
      }
    } else {
      assert p == a && q == v;
      ReachRoot(m, multiset{a}, a);
    }
  }

  lemma NullIsNoNode(m: Cells, outside: multiset<Ptr>)
    requires Accounted(m, outside)
    ensures NULL !in m && NULL !in outside
  {
  }

  lemma ReachFromParent(m: Cells, p: Ptr, q: Ptr, a: Ptr)
    requires p in m && p != NULL && q in Kids(m[p].body) && Reachable(m, multiset{q}, a)
    ensures Reachable(m, multiset{p}, a)
  {
    var path :| IsPath(m, path) && path[0] in multiset{q} && path[|path| - 1] == a;
    assert IsPath(m, [p] + path) && ([p] + path)[0] in multiset{p};
  }

  /** The slots of a node: an array's values, an object's values under their keys, nothing else. */
  lemma SlotsMeaning(m: Cells, p: Ptr, q: Ptr)
    ensures IsEdge(m, p, q) <==>
      && p in m && q != NULL
      && (|| (m[p].body.Arr? && exists i :: 0 <= i < |m[p].body.vals| && m[p].body.vals[i] == q)
          || (m[p].body.Obj? && exists i :: 0 <= i < |m[p].body.kvs| && m[p].body.kvs[i].val == q))
  {
    if p in m && m[p].body.Obj? {
      var kvs := m[p].body.kvs;
      assert forall i :: 0 <= i < |kvs| ==> Vals(kvs)[i] == kvs[i].val;
    }
  }

  /** The references a node owns: each slot that is not null counts once. */
  lemma OwnedMeaning(slots: seq<Ptr>, q: Ptr)
    ensures Owned(slots)[q] == if q == NULL then 0 else multiset(slots)[q]
  {
  }
}
