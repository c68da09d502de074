/**
  A model of the expression-tree optimizer of MoarVM's JIT (src/jit/optimize.c).

  The expression tree is a flat array of integers: a node is the index of its
  opcode cell, and the cells after it hold the node ids of its children (the
  "slots").  While the tree is traversed, the optimizer records for every node the
  slots that refer to it, as a linked list ("chain") of edge records threaded
  through an arena, so that a node can later be replaced by rewriting all those
  slots at once.
*/
module JitOptimize {

  // Opcode numbers of the expression language.  They are defined in a header that
  // is not part of this model; only their being distinct matters here.
  const LOAD := 1
  const COPY := 2
  const IDX := 3
  const CONST := 4
  const ADDR := 5

  /** An edge: the slot ptr of node parent refers to the node on whose chain the
      edge is, and next is the following edge of that chain (0 ends it). */
  datatype NodeRef = NodeRef(parent: int, ptr: int, next: int)

  /** Per node: the first edge of its chain (0 for none) and the number of edges. */
  datatype NodeInfo = NodeInfo(refs: int, refCnt: int)

  const NoInfo := NodeInfo(0, 0)

  /** The tree's node array together with the optimizer's tables.  chains gives,
      for every node, the list of edges its chain is made of; it has no counterpart
      in the program and serves to state what the tables mean. */
  datatype Tables = Tables(nodes: seq<int>, refs: seq<NodeRef>, info: seq<NodeInfo>,
                           replacements: seq<int>, replacementCnt: int,
                           chains: seq<seq<int>>)

  // ---------------------------------------------------------------------------
  // Chains

  /** Walking from head along next visits exactly the edges of c, in order, and
      then reaches 0.  Edge 0 is never allocated, so it can serve as terminator. */
  ghost predicate IsChain(refs: seq<NodeRef>, head: int, c: seq<int>)
  {
    (forall j :: 0 <= j < |c| ==> 0 < c[j] < |refs|)
    && head == (if c == [] then 0 else c[0])
    && (forall j :: 0 <= j < |c| ==> refs[c[j]].next == if j + 1 < |c| then c[j + 1] else 0)
  }

  lemma ChainNext(refs: seq<NodeRef>, head: int, c: seq<int>, j: int)
    requires IsChain(refs, head, c) && 0 <= j < |c|
    ensures 0 < c[j] < |refs| && refs[c[j]].next == if j + 1 < |c| then c[j + 1] else 0
  {
  }

  lemma {:induction false} ChainNoRepeatFrom(refs: seq<NodeRef>, head: int, c: seq<int>, i: int, j: int)
    requires IsChain(refs, head, c)
    requires 0 <= i < j < |c| && c[i] == c[j]
    ensures false
    decreases |c| - j
  {
    ChainNext(refs, head, c, i);
    ChainNext(refs, head, c, j);
    if j + 1 < |c| {
      ChainNoRepeatFrom(refs, head, c, i + 1, j + 1);
    } else {
      ChainNext(refs, head, c, i + 1);
    }
  }

  /** A chain never visits an edge twice. */
  lemma ChainNoDuplicates(refs: seq<NodeRef>, head: int, c: seq<int>)
    requires IsChain(refs, head, c)
    ensures forall i, j :: 0 <= i < j < |c| ==> c[i] != c[j]
  {
    forall i, j | 0 <= i < j < |c| ensures c[i] != c[j] {
      if c[i] == c[j] {
        ChainNoRepeatFrom(refs, head, c, i, j);
      }
    }
  }

  lemma ChainTail(refs: seq<NodeRef>, c: seq<int>)
    requires c != [] && IsChain(refs, c[0], c)
    ensures IsChain(refs, refs[c[0]].next, c[1..])
  {
    var tail := c[1..];
    ChainNext(refs, c[0], c, 0);
    assert refs[c[0]].next == if tail == [] then 0 else tail[0] by {
      if |c| > 1 {
        assert tail[0] == c[1];
      }
    }
    forall j | 0 <= j < |tail| ensures 0 < tail[j] < |refs| {
      assert tail[j] == c[j + 1];
      ChainNext(refs, c[0], c, j + 1);
    }
    forall j | 0 <= j < |tail|
      ensures refs[tail[j]].next == if j + 1 < |tail| then tail[j + 1] else 0
    {
      assert tail[j] == c[j + 1];
      ChainNext(refs, c[0], c, j + 1);
      if j + 1 < |tail| {
        assert tail[j + 1] == c[j + 2];
      }
    }
    assert IsChain(refs, refs[c[0]].next, tail);
  }

  /** The edges of a chain are determined by its head: the walk of the program
      visits exactly the list the tables are described by. */
  lemma {:induction false} ChainDetermined(refs: seq<NodeRef>, head: int, c: seq<int>, d: seq<int>)
    requires IsChain(refs, head, c) && IsChain(refs, head, d)
    ensures c == d
    decreases |c|
  {
    if c != [] && d != [] {
      ChainTail(refs, c);
      ChainTail(refs, d);
      ChainDetermined(refs, refs[c[0]].next, c[1..], d[1..]);
      assert c == [c[0]] + c[1..] && d == [d[0]] + d[1..];
    }
  }

  /** A chain survives any change to the arena that leaves its own edges alone. */
  lemma ChainFrame(refs: seq<NodeRef>, refs2: seq<NodeRef>, head: int, c: seq<int>)
    requires IsChain(refs, head, c)
    requires |refs| <= |refs2|
    requires forall j :: 0 <= j < |c| ==> refs2[c[j]] == refs[c[j]]
    ensures IsChain(refs2, head, c)
  {
  }

  /** The arena after linking the last edge of c to head (nothing to link when c is
      empty or head is 0). */
  function Splice(refs: seq<NodeRef>, c: seq<int>, head: int): seq<NodeRef>
    requires forall j :: 0 <= j < |c| ==> 0 <= c[j] < |refs|
  {
    if c != [] && head > 0 then refs[c[|c| - 1] := refs[c[|c| - 1]].(next := head)] else refs
  }

  /** Putting chain c in front of a disjoint chain d yields the chain c + d, headed
      by c's head, or by d's when c is empty. */
  lemma SpliceChains(refs: seq<NodeRef>, c: seq<int>, hd: int, d: seq<int>)
    requires IsChain(refs, if c == [] then 0 else c[0], c) && IsChain(refs, hd, d)
    requires forall i, j :: 0 <= i < |c| && 0 <= j < |d| ==> c[i] != d[j]
    ensures IsChain(Splice(refs, c, hd), if c == [] then hd else c[0], c + d)
  {
    if c == [] {
      assert c + d == d;
    } else if hd > 0 {
      ChainSplice(refs, c, hd, d);
    } else {
      assert d == [] && c + d == c;
    }
  }

  /** Linking the last edge of c to the head of d gives one chain c + d. */
  lemma ChainSplice(refs: seq<NodeRef>, c: seq<int>, hd: int, d: seq<int>)
    requires c != [] && IsChain(refs, c[0], c) && IsChain(refs, hd, d)
    requires forall i, j :: 0 <= i < |c| && 0 <= j < |d| ==> c[i] != d[j]
    ensures IsChain(refs[c[|c| - 1] := refs[c[|c| - 1]].(next := hd)], c[0], c + d)
  {
    var last := c[|c| - 1];
    var refs2 := refs[last := refs[last].(next := hd)];
    ChainNoDuplicates(refs, c[0], c);
    forall j | 0 <= j < |c + d|
      ensures refs2[(c + d)[j]].next == if j + 1 < |c + d| then (c + d)[j + 1] else 0
    {
      if j < |c| - 1 {
        ChainNext(refs, c[0], c, j);
        assert c[j] != last && (c + d)[j] == c[j] && (c + d)[j + 1] == c[j + 1];
        assert refs2[c[j]] == refs[c[j]];
      } else if j == |c| - 1 {
        assert (c + d)[j] == last;
        assert d != [] ==> (c + d)[j + 1] == d[0];
      } else {
        var k := j - |c|;
        ChainNext(refs, hd, d, k);
        assert d[k] != last && (c + d)[j] == d[k];
        assert k + 1 < |d| ==> (c + d)[j + 1] == d[k + 1];
        assert refs2[d[k]] == refs[d[k]];
      }
    }
  }

  // ---------------------------------------------------------------------------
  // What the tables mean

  /** Every edge of c names a slot that holds n. */
  ghost predicate SlotsHold(nodes: seq<int>, refs: seq<NodeRef>, c: seq<int>, n: int)
  {
    forall j :: 0 <= j < |c| ==>
      0 <= c[j] < |refs| && 0 <= refs[c[j]].ptr < |nodes| && nodes[refs[c[j]].ptr] == n
  }

  /** A node that has not been replaced: its chain is well formed, its count is the
      chain's length, and every slot on the chain refers to it. */
  ghost predicate LiveOk(t: Tables, n: int)
    requires 0 <= n < |t.info| == |t.chains|
  {
    IsChain(t.refs, t.info[n].refs, t.chains[n])
    && t.info[n].refCnt == |t.chains[n]|
    && SlotsHold(t.nodes, t.refs, t.chains[n], n)
  }

  ghost predicate EntryOk(t: Tables, n: int)
    requires 0 <= n < |t.info| == |t.replacements| == |t.chains|
  {
    && 0 <= t.replacements[n]
    && (t.replacements[n] > 0 ==> t.replacements[n] < |t.info| && t.replacements[n] < |t.nodes|)
    && (t.replacements[n] == 0 ==> LiveOk(t, n))
    && (n >= |t.nodes| ==> t.info[n] == NoInfo && t.replacements[n] == 0 && t.chains[n] == [])
  }

  /** The invariant the optimizer keeps: edge 0 is reserved, the per-node tables
      have one entry per node id they cover, and every entry is as described. */
  ghost predicate Consistent(t: Tables)
  {
    && |t.refs| >= 1
    && |t.info| == |t.replacements| == |t.chains|
    && forall n :: 0 <= n < |t.info| ==> EntryOk(t, n)
  }

  /** The tables as the driver sets them up: the edge arena holds only the
      reserved edge 0, and the per-node tables hold twice as many empty entries as
      the tree has cells. */
  function Initial(nodes: seq<int>): (t: Tables)
    ensures Consistent(t)
    ensures forall n :: 0 <= n < |t.info| ==> t.replacements[n] == 0 && t.chains[n] == []
  {
    Tables(nodes, [NodeRef(0, 0, 0)], seq(2 * |nodes|, _ => NoInfo), seq(2 * |nodes|, _ => 0), 0,
           seq(2 * |nodes|, _ => []))
  }

  // ---------------------------------------------------------------------------
  // Building blocks

  /** MVM_VECTOR_ENSURE_SIZE: index n becomes valid, new entries are zero. */
  function Grow<T>(s: seq<T>, n: int, zero: T): (r: seq<T>)
    ensures |r| == if n < |s| then |s| else n + 1
    ensures forall i :: 0 <= i < |r| ==> r[i] == if i < |s| then s[i] else zero
  {
    if n < |s| then s else s + seq(n + 1 - |s|, _ => zero)
  }

  /** The slots named by the edges of c. */
  function SlotSet(refs: seq<NodeRef>, c: seq<int>): set<int>
  {
    set j | 0 <= j < |c| && 0 <= c[j] < |refs| :: refs[c[j]].ptr
  }

  /** The node array with every cell of s set to r. */
  function Redirect(nodes: seq<int>, s: set<int>, r: int): seq<int>
  {
    seq(|nodes|, i requires 0 <= i < |nodes| => if i in s then r else nodes[i])
  }

  /** MVM_jit_expr_apply_template_adhoc: a new node record at the end of the tree. */
  function Append(t: Tables, record: seq<int>): Tables
  {
    t.(nodes := t.nodes + record)
  }

  // ---------------------------------------------------------------------------
  // replace_node

  ghost predicate ReplaceReady(t: Tables, node: int, replacement: int)
  {
    && 0 <= node < |t.nodes| && node < |t.info| == |t.replacements| == |t.chains|
    && t.replacements[node] == 0
    && 0 < replacement < |t.nodes| && replacement != node
    && (replacement < |t.info| ==> t.replacements[replacement] == 0)
    && forall j :: 0 <= j < |t.chains[node]| ==> 0 <= t.chains[node][j] < |t.refs|
  }

  /** replace_node: every slot on node's chain is set to the replacement; node's
      chain is put in front of the replacement's (through the last edge's next, or,
      when node's chain is empty, through node's own head); counts are added;
      node is recorded as replaced. */
  function Replace(t: Tables, node: int, replacement: int): Tables
    requires 0 <= node < |t.info| == |t.replacements| == |t.chains|
    requires 0 <= replacement && replacement != node
    requires forall j :: 0 <= j < |t.chains[node]| ==> 0 <= t.chains[node][j] < |t.refs|
  {
    var c := t.chains[node];
    var info := Grow(t.info, replacement, NoInfo);
    var chains := Grow(t.chains, replacement, []);
    var head := info[replacement].refs;
    var refs := Splice(t.refs, c, head);
    var info1 := if c == [] && head > 0 then info[node := info[node].(refs := head)] else info;
    Tables(Redirect(t.nodes, SlotSet(t.refs, c), replacement),
           refs,
           info1[replacement := NodeInfo(info1[node].refs, info[replacement].refCnt + info[node].refCnt)],
           Grow(t.replacements, replacement, 0)[node := replacement],
           t.replacementCnt + 1,
           chains[replacement := c + chains[replacement]])
  }

  /** The slots on node's chain hold node, and no edge of another live node names
      one of them. */
  lemma SlotsOfReplaced(t: Tables, node: int, m: int)
    requires Consistent(t) && 0 <= node < |t.info| && t.replacements[node] == 0
    requires 0 <= m < |t.info| && m != node && t.replacements[m] == 0
    ensures forall j :: 0 <= j < |t.chains[m]| ==>
      0 <= t.chains[m][j] < |t.refs| && t.refs[t.chains[m][j]].ptr !in SlotSet(t.refs, t.chains[node])
    ensures forall i, j :: 0 <= i < |t.chains[node]| && 0 <= j < |t.chains[m]| ==> t.chains[node][i] != t.chains[m][j]
  {
    assert EntryOk(t, node) && EntryOk(t, m);
    var c := t.chains[node];
    forall j | 0 <= j < |t.chains[m]|
      ensures 0 <= t.chains[m][j] < |t.refs| && t.refs[t.chains[m][j]].ptr !in SlotSet(t.refs, c)
    {
    }
    forall i, j | 0 <= i < |c| && 0 <= j < |t.chains[m]| ensures c[i] != t.chains[m][j] {
      assert t.nodes[t.refs[c[i]].ptr] == node;
    }
  }

  lemma ReplaceKeepsReplacement(t: Tables, node: int, replacement: int)
    requires Consistent(t) && ReplaceReady(t, node, replacement)
    ensures var t' := Replace(t, node, replacement);
      |t'.info| == |t'.replacements| == |t'.chains| > replacement && EntryOk(t', replacement)
  {
    var t' := Replace(t, node, replacement);
    var c := t.chains[node];
    var d := Grow(t.chains, replacement, [])[replacement];
    var hd := Grow(t.info, replacement, NoInfo)[replacement].refs;
    assert EntryOk(t, node);
    var s := SlotSet(t.refs, c);
    if replacement < |t.info| {
      assert EntryOk(t, replacement);
      SlotsOfReplaced(t, node, replacement);
    }
    assert IsChain(t.refs, hd, d);
    assert forall j :: 0 <= j < |d| ==> t.refs[d[j]].ptr !in s && t.nodes[t.refs[d[j]].ptr] == replacement;
    assert forall i, j :: 0 <= i < |c| && 0 <= j < |d| ==> c[i] != d[j];
    assert t'.chains[replacement] == c + d;
    assert t'.info[replacement].refs == if c == [] then hd else c[0];
    SpliceChains(t.refs, c, hd, d);
    assert forall e :: 0 <= e < |t.refs| ==> t'.refs[e].ptr == t.refs[e].ptr;
    forall j | 0 <= j < |c| ensures t'.nodes[t.refs[c[j]].ptr] == replacement {
      assert t.refs[c[j]].ptr in s;
    }
    assert SlotsHold(t'.nodes, t'.refs, c + d, replacement);
  }

  lemma ReplaceKeepsOther(t: Tables, node: int, replacement: int, n: int)
    requires Consistent(t) && ReplaceReady(t, node, replacement)
    requires 0 <= n < |t.info| && n != node && n != replacement
    ensures var t' := Replace(t, node, replacement);
      |t'.info| == |t'.replacements| == |t'.chains| > n && EntryOk(t', n)
  {
    var t' := Replace(t, node, replacement);
    assert EntryOk(t, n);
    assert t'.info[n] == t.info[n] && t'.replacements[n] == t.replacements[n] && t'.chains[n] == t.chains[n];
    if t.replacements[n] == 0 {
      var m := t.chains[n];
      SlotsOfReplaced(t, node, n);
      assert forall j :: 0 <= j < |m| ==> t'.refs[m[j]] == t.refs[m[j]];
      ChainFrame(t.refs, t'.refs, t.info[n].refs, m);
      assert forall j :: 0 <= j < |m| ==> t'.nodes[t.refs[m[j]].ptr] == t.nodes[t.refs[m[j]].ptr];
    }
  }

  /** replace_node keeps the tables consistent. */
  lemma ReplaceKeeps(t: Tables, node: int, replacement: int)
    requires Consistent(t) && ReplaceReady(t, node, replacement)
    ensures Consistent(Replace(t, node, replacement))
  {
    var t' := Replace(t, node, replacement);
    forall n | 0 <= n < |t'.info| ensures EntryOk(t', n) {
      if n == replacement {
        ReplaceKeepsReplacement(t, node, replacement);
      } else if n == node {
      } else if n < |t.info| {
        ReplaceKeepsOther(t, node, replacement, n);
      } else {
        assert IsChain(t'.refs, t'.info[n].refs, t'.chains[n]);
      }
    }
  }

  /** One more step of the walk adds one slot to the redirected set. */
  lemma RedirectStep(nodes: seq<int>, refs: seq<NodeRef>, c: seq<int>, i: int, r: int)
    requires 0 <= i < |c| && 0 <= c[i] < |refs| && 0 <= refs[c[i]].ptr < |nodes|
    ensures Redirect(nodes, SlotSet(refs, c[..i + 1]), r)
         == Redirect(nodes, SlotSet(refs, c[..i]), r)[refs[c[i]].ptr := r]
  {
    assert SlotSet(refs, c[..i + 1]) == SlotSet(refs, c[..i]) + {refs[c[i]].ptr};
  }

  /** What replace_node does: exactly the slots on node's chain now hold the
      replacement; the replacement's chain is node's chain followed by its own;
      the counts are added while node's own count is left as it was; node is
      recorded as replaced and the counter goes up by one. */
  lemma ReplaceEffect(t: Tables, node: int, replacement: int)
    requires Consistent(t) && ReplaceReady(t, node, replacement)
    ensures var t' := Replace(t, node, replacement);
      && |t'.nodes| == |t.nodes|
      && (forall p :: p in SlotSet(t.refs, t.chains[node]) ==> 0 <= p < |t'.nodes| && t'.nodes[p] == replacement)
      && (forall i :: 0 <= i < |t.nodes| && i !in SlotSet(t.refs, t.chains[node]) ==> t'.nodes[i] == t.nodes[i])
      && |t'.info| == |t'.chains| > replacement
      && t'.chains[replacement] == t.chains[node] + (if replacement < |t.chains| then t.chains[replacement] else [])
      && IsChain(t'.refs, t'.info[replacement].refs, t'.chains[replacement])
      && t'.info[replacement].refCnt == t.info[node].refCnt + (if replacement < |t.info| then t.info[replacement].refCnt else 0)
      && t'.info[node].refCnt == t.info[node].refCnt
      && t'.replacements[node] == replacement && t'.replacementCnt == t.replacementCnt + 1
  {
    var t' := Replace(t, node, replacement);
    var c := t.chains[node];
    ReplaceKeepsReplacement(t, node, replacement);
    assert EntryOk(t, node);
    if replacement < |t.info| {
      assert EntryOk(t, replacement);
    }
    assert SlotsHold(t.nodes, t.refs, c, node);
  }

  // ---------------------------------------------------------------------------
  // optimize_child

  /** The cell of the first child: operators with a variable number of children
      (nchild < 0) keep the count in the cell after the opcode. */
  function FirstChild(node: int, nchild: int): int
  {
    if nchild < 0 then node + 2 else node + 1
  }

  /** The slot and the node it refers to are cells of the tree, and the node has a
      table entry. */
  ghost predicate ChildReady(t: Tables, slot: int)
  {
    0 <= slot < |t.nodes| && 0 <= t.nodes[slot] < |t.nodes| && t.nodes[slot] < |t.info|
  }

  /** The guard for wrapping a LOAD in a COPY, with the check that the LOAD has not
      been replaced already. */
  predicate WrapGuard(t: Tables, c0: int)
    requires 0 <= c0 < |t.nodes| && c0 < |t.info| == |t.replacements|
  {
    t.nodes[c0] == LOAD && t.info[c0].refCnt > 1 && t.replacements[c0] == 0
  }

  /** The guard as the program writes it. */
  predicate WrapGuardAsWritten(t: Tables, c0: int)
    requires 0 <= c0 < |t.nodes| && c0 < |t.info|
  {
    t.nodes[c0] == LOAD && t.info[c0].refCnt > 1
  }

  /** Appends COPY(c0) and replaces c0 by it. */
  function WrapLoad(t: Tables, c0: int): Tables
    requires 0 <= c0 < |t.nodes| && c0 < |t.info| == |t.replacements| == |t.chains|
    requires forall j :: 0 <= j < |t.chains[c0]| ==> 0 <= t.chains[c0][j] < |t.refs|
  {
    Replace(Append(t, [COPY, c0]), c0, |t.nodes|)
  }

  function WrapStep(t: Tables, c0: int): Tables
    requires Consistent(t) && 0 <= c0 < |t.nodes| && c0 < |t.info|
  {
    assert EntryOk(t, c0);
    if WrapGuard(t, c0) then WrapLoad(t, c0) else t
  }

  /** The child's replacement, looked up once (not transitively). */
  function Effective(t: Tables, c0: int): int
    requires 0 <= c0 < |t.replacements|
  {
    if t.replacements[c0] > 0 then t.replacements[c0] else c0
  }

  /** A replaced child is redirected in the slot, and the counter goes up. */
  function Propagate(t: Tables, slot: int, c0: int): Tables
    requires 0 <= slot < |t.nodes| && 0 <= c0 < |t.replacements|
  {
    if t.replacements[c0] > 0 then
      t.(nodes := t.nodes[slot := t.replacements[c0]], replacementCnt := t.replacementCnt + 1)
    else t
  }

  /** A new edge (node, slot) becomes the head of child's chain. */
  function Register(t: Tables, node: int, slot: int, child: int): Tables
    requires 0 <= child < |t.info| == |t.chains|
  {
    var r := |t.refs|;
    t.(refs := t.refs + [NodeRef(node, slot, t.info[child].refs)],
       info := t.info[child := NodeInfo(r, t.info[child].refCnt + 1)],
       chains := t.chains[child := [r] + t.chains[child]])
  }

  /** optimize_child on the given slot of node. */
  function ChildStep(t: Tables, node: int, slot: int): Tables
    requires Consistent(t) && ChildReady(t, slot)
  {
    var c0 := t.nodes[slot];
    var t1 := WrapStep(t, c0);
    WrapStepKeeps(t, c0);
    assert EntryOk(t1, c0);
    Register(Propagate(t1, slot, c0), node, slot, Effective(t1, c0))
  }

  /** Appending a node record keeps the tables consistent. */
  lemma AppendKeeps(t: Tables, record: seq<int>)
    requires Consistent(t)
    ensures Consistent(Append(t, record))
  {
    var t' := Append(t, record);
    forall n | 0 <= n < |t'.info| ensures EntryOk(t', n) {
      assert EntryOk(t, n);
      if t.replacements[n] == 0 {
        var c := t.chains[n];
        assert forall j :: 0 <= j < |c| ==> t'.nodes[t.refs[c[j]].ptr] == t.nodes[t.refs[c[j]].ptr];
      }
    }
  }

  lemma WrapReady(t: Tables, c0: int)
    requires Consistent(t) && 0 <= c0 < |t.nodes| && c0 < |t.info| && t.replacements[c0] == 0
    ensures Consistent(Append(t, [COPY, c0]))
    ensures ReplaceReady(Append(t, [COPY, c0]), c0, |t.nodes|)
  {
    AppendKeeps(t, [COPY, c0]);
    assert EntryOk(t, c0);
    if |t.nodes| < |t.info| {
      assert EntryOk(t, |t.nodes|);
    }
  }

  lemma WrapStepKeeps(t: Tables, c0: int)
    requires Consistent(t) && 0 <= c0 < |t.nodes| && c0 < |t.info|
    ensures var t1 := WrapStep(t, c0);
      Consistent(t1) && c0 < |t1.nodes| && c0 < |t1.info| && |t1.nodes| >= |t.nodes|
  {
    if WrapGuard(t, c0) {
      WrapReady(t, c0);
      ReplaceKeeps(Append(t, [COPY, c0]), c0, |t.nodes|);
    }
  }

  /** After the wrap the slot holds c0 or, if it was already on c0's chain, the
      COPY that replaced c0. */
  lemma WrapStepSlot(t: Tables, slot: int)
    requires Consistent(t) && ChildReady(t, slot)
    ensures var c0 := t.nodes[slot]; var t1 := WrapStep(t, c0);
      && slot < |t1.nodes| && c0 < |t1.replacements|
      && (t1.nodes[slot] == c0 || (t1.replacements[c0] > 0 && t1.nodes[slot] == t1.replacements[c0]))
  {
    var c0 := t.nodes[slot];
    WrapStepKeeps(t, c0);
    if WrapGuard(t, c0) {
      WrapReady(t, c0);
      ReplaceEffect(Append(t, [COPY, c0]), c0, |t.nodes|);
    }
  }

  /** Redirecting a slot whose node is replaced keeps the tables consistent. */
  lemma PropagateKeeps(t: Tables, slot: int, c0: int)
    requires Consistent(t) && 0 <= slot < |t.nodes| && 0 <= c0 < |t.info|
    requires t.nodes[slot] == c0 || (t.replacements[c0] > 0 && t.nodes[slot] == t.replacements[c0])
    ensures var t2 := Propagate(t, slot, c0);
      Consistent(t2) && t2.nodes[slot] == Effective(t, c0)
  {
    var t2 := Propagate(t, slot, c0);
    assert EntryOk(t, c0);
    if t.replacements[c0] > 0 {
      forall n | 0 <= n < |t2.info| ensures EntryOk(t2, n) {
        assert EntryOk(t, n);
        if t.replacements[n] == 0 {
          var c := t.chains[n];
          forall j | 0 <= j < |c| ensures t2.nodes[t.refs[c[j]].ptr] == n {
            if t.refs[c[j]].ptr == slot {
              assert t.nodes[slot] == n;
            }
          }
        }
      }
    }
  }

  /** Registering an edge for a slot that holds child keeps the tables consistent. */
  lemma RegisterKeeps(t: Tables, node: int, slot: int, child: int)
    requires Consistent(t) && 0 <= slot < |t.nodes| && 0 <= child < |t.nodes| && child < |t.info|
    requires t.nodes[slot] == child
    ensures Consistent(Register(t, node, slot, child))
  {
    var t' := Register(t, node, slot, child);
    var r := |t.refs|;
    forall n | 0 <= n < |t'.info| ensures EntryOk(t', n) {
      assert EntryOk(t, n);
      if t.replacements[n] == 0 {
        var c := t.chains[n];
        assert forall j :: 0 <= j < |c| ==> t'.refs[c[j]] == t.refs[c[j]];
        ChainFrame(t.refs, t'.refs, t.info[n].refs, c);
        if n == child {
          var c' := [r] + c;
          assert forall j :: 1 <= j < |c'| ==> c'[j] == c[j - 1];
          assert IsChain(t'.refs, r, c');
        }
      }
    }
  }

  /** optimize_child keeps the tables consistent. */
  lemma ChildStepKeeps(t: Tables, node: int, slot: int)
    requires Consistent(t) && ChildReady(t, slot)
    ensures Consistent(ChildStep(t, node, slot))
  {
    var c0 := t.nodes[slot];
    var t1 := WrapStep(t, c0);
    WrapStepKeeps(t, c0);
    WrapStepSlot(t, slot);
    PropagateKeeps(t1, slot, c0);
    var t2 := Propagate(t1, slot, c0);
    assert EntryOk(t1, c0);
    RegisterKeeps(t2, node, slot, Effective(t1, c0));
  }

  /** What optimize_child does once the wrap is done: the slot is redirected to the
      child's replacement, if it has one (a single lookup), and one new edge
      (node, slot) becomes the head of the chain of the node the slot now holds,
      whose count goes up by one. */
  lemma ChildStepEffect(t: Tables, node: int, slot: int)
    requires Consistent(t) && ChildReady(t, slot)
    ensures var c0 := t.nodes[slot]; var t1 := WrapStep(t, c0); var t' := ChildStep(t, node, slot);
      var child := t'.nodes[slot]; var r := |t1.refs|;
      && c0 < |t1.replacements| && slot < |t'.nodes|
      && child == (if t1.replacements[c0] > 0 then t1.replacements[c0] else c0)
      && 0 <= child < |t1.info| == |t1.chains|
      && |t'.refs| == r + 1 && t'.refs[r] == NodeRef(node, slot, t1.info[child].refs)
      && t'.info[child] == NodeInfo(r, t1.info[child].refCnt + 1)
      && t'.chains[child] == [r] + t1.chains[child]
      && t'.replacementCnt == t1.replacementCnt + (if t1.replacements[c0] > 0 then 1 else 0)
  {
    var c0 := t.nodes[slot];
    var t1 := WrapStep(t, c0);
    WrapStepKeeps(t, c0);
    WrapStepSlot(t, slot);
    PropagateKeeps(t1, slot, c0);
    assert EntryOk(t1, c0);
  }

  /** A LOAD already referenced twice is wrapped on its third reference: a COPY of
      it is appended, every earlier slot of the LOAD and the current slot now
      refer to the COPY, and the LOAD is recorded as replaced by it. */
  lemma WrapEffect(t: Tables, node: int, slot: int)
    requires Consistent(t) && ChildReady(t, slot)
    requires WrapGuard(t, t.nodes[slot])
    ensures var c0 := t.nodes[slot]; var copy := |t.nodes|; var t' := ChildStep(t, node, slot);
      && |t'.nodes| == |t.nodes| + 2 && t'.nodes[copy..] == [COPY, c0]
      && t'.replacements[c0] == copy
      && t'.nodes[slot] == copy
      && (forall p :: p in SlotSet(t.refs, t.chains[c0]) ==> 0 <= p < |t'.nodes| && t'.nodes[p] == copy)
      && t'.chains[copy] == [|t.refs|] + t.chains[c0]
  {
    var c0 := t.nodes[slot];
    var copy := |t.nodes|;
    var ta := Append(t, [COPY, c0]);
    WrapReady(t, c0);
    ReplaceEffect(ta, c0, copy);
    assert EntryOk(t, c0);
    if copy < |t.info| {
      assert EntryOk(t, copy);
    }
    var t1 := WrapStep(t, c0);
    assert t1 == Replace(ta, c0, copy);
    ChildStepEffect(t, node, slot);
    assert copy !in SlotSet(ta.refs, ta.chains[c0]) && copy + 1 !in SlotSet(ta.refs, ta.chains[c0]) by {
      assert SlotsHold(t.nodes, t.refs, t.chains[c0], c0);
    }
    assert t1.nodes[copy] == COPY && t1.nodes[copy + 1] == c0;
  }

  // ---------------------------------------------------------------------------
  // optimize_postorder

  ghost predicate FoldReady(t: Tables, node: int)
  {
    && 0 <= node < |t.nodes|
    && (t.nodes[node] == IDX ==>
          node + 3 < |t.nodes| && 0 <= t.nodes[node + 2] < |t.nodes|
          && (t.nodes[t.nodes[node + 2]] == CONST ==>
                t.nodes[node + 2] + 1 < |t.nodes| && node < |t.info| == |t.replacements|
                && t.replacements[node] == 0))
  }

  /** IDX(base, CONST k, scale): the pattern optimize_postorder folds. */
  predicate Folds(nodes: seq<int>, node: int)
    requires 0 <= node < |nodes|
    requires nodes[node] == IDX ==> node + 3 < |nodes| && 0 <= nodes[node + 2] < |nodes|
  {
    nodes[node] == IDX && nodes[nodes[node + 2]] == CONST
  }

  /** ADDR(base, k * scale); the product is unbounded here. */
  function AddrRecord(nodes: seq<int>, node: int): seq<int>
    requires 0 <= node && node + 3 < |nodes| && 0 <= nodes[node + 2] && nodes[node + 2] + 1 < |nodes|
  {
    [ADDR, nodes[node + 1], nodes[nodes[node + 2] + 1] * nodes[node + 3]]
  }

  /** optimize_postorder on node. */
  function Fold(t: Tables, node: int): Tables
    requires Consistent(t) && FoldReady(t, node)
  {
    if Folds(t.nodes, node) then
      assert EntryOk(t, node);
      Replace(Append(t, AddrRecord(t.nodes, node)), node, |t.nodes|)
    else t
  }

  /** optimize_postorder keeps the tables consistent; an IDX with a constant index
      is replaced by a new ADDR(base, k * scale) that every slot of the IDX now
      refers to; any other node leaves the tree and the tables as they were. */
  lemma FoldEffect(t: Tables, node: int)
    requires Consistent(t) && FoldReady(t, node)
    ensures Consistent(Fold(t, node))
    ensures Folds(t.nodes, node) ==>
      var addr := |t.nodes|; var t' := Fold(t, node);
      && t'.nodes[addr..] == AddrRecord(t.nodes, node)
      && t'.replacements[node] == addr
      && forall p :: p in SlotSet(t.refs, t.chains[node]) ==> 0 <= p < |t'.nodes| && t'.nodes[p] == addr
    ensures !Folds(t.nodes, node) ==> Fold(t, node) == t
  {
    if Folds(t.nodes, node) {
      var rec := AddrRecord(t.nodes, node);
      var ta := Append(t, rec);
      var addr := |t.nodes|;
      AppendKeeps(t, rec);
      assert EntryOk(t, node);
      if addr < |t.info| {
        assert EntryOk(t, addr);
      }
      assert ReplaceReady(ta, node, addr);
      ReplaceKeeps(ta, node, addr);
      ReplaceEffect(ta, node, addr);
      assert SlotsHold(t.nodes, t.refs, t.chains[node], node);
      forall i | addr <= i < addr + 3 ensures Fold(t, node).nodes[i] == rec[i - addr] {
        assert i !in SlotSet(ta.refs, ta.chains[node]);
      }
    }
  }

  // ---------------------------------------------------------------------------
  // The guard as written

  /** Replacing c0 a second time breaks the tables when a live node m still lists
      an edge that is also on c0's (stale) chain: the edge's slot is moved to the
      new node while m's chain keeps it. */
  lemma StaleChainBreaks(t: Tables, c0: int, m: int, i: int, j: int)
    requires Consistent(t) && 0 <= c0 < |t.nodes| && c0 < |t.info|
    requires 0 <= m < |t.nodes| && m < |t.info| && m != c0 && t.replacements[m] == 0
    requires forall k :: 0 <= k < |t.chains[c0]| ==> 0 <= t.chains[c0][k] < |t.refs|
    requires 0 <= i < |t.chains[c0]| && 0 <= j < |t.chains[m]| && t.chains[c0][i] == t.chains[m][j]
    ensures !Consistent(WrapLoad(t, c0))
  {
    var t3 := WrapLoad(t, c0);
    var ta := Append(t, [COPY, c0]);
    var e := t.chains[m][j];
    assert EntryOk(t, m);
    assert SlotsHold(t.nodes, t.refs, t.chains[m], m);
    var p := t.refs[e].ptr;
    assert p in SlotSet(ta.refs, ta.chains[c0]);
    assert t3.nodes[p] == |t.nodes|;
    assert t3.refs[e].ptr == p;
    assert t3.replacements[m] == 0 && t3.chains[m] == t.chains[m];
    assert !EntryOk(t3, m);
  }

  /** The state after a LOAD has been wrapped: the LOAD is untouched in the tree
      and keeps its count and its chain, while the COPY is live and its chain is
      the new edge followed by the LOAD's old chain. */
  lemma AfterWrap(t: Tables, node: int, slot: int)
    requires Consistent(t) && ChildReady(t, slot)
    // The LOAD's node id differs from the LOAD opcode value. Consistent does not
    // record that slots are argument cells of a parent, never a node's own opcode
    // cell; this excludes the one case where the LOAD's chain could list its own cell.
    requires WrapGuard(t, t.nodes[slot]) && t.nodes[slot] != LOAD
    ensures var c0 := t.nodes[slot]; var copy := |t.nodes|; var t1 := ChildStep(t, node, slot);
      && Consistent(t1) && c0 < |t1.nodes| && c0 < |t1.info| && copy < |t1.nodes| && copy < |t1.info|
      && t1.nodes[c0] == LOAD && t1.info[c0].refCnt == t.info[c0].refCnt
      && t1.replacements[c0] == copy && t1.replacements[copy] == 0
      && t1.chains[c0] == t.chains[c0] && t1.chains[copy] == [|t.refs|] + t.chains[c0]
  {
    var c0 := t.nodes[slot];
    var copy := |t.nodes|;
    var ta := Append(t, [COPY, c0]);
    ChildStepKeeps(t, node, slot);
    WrapEffect(t, node, slot);
    ChildStepEffect(t, node, slot);
    WrapReady(t, c0);
    ReplaceEffect(ta, c0, copy);
    assert EntryOk(t, c0);
    if copy < |t.info| {
      assert EntryOk(t, copy);
    }
    // c0's own cell is no slot on its chain: such a slot holds c0, not LOAD.
    assert SlotsHold(t.nodes, t.refs, t.chains[c0], c0);
    assert c0 !in SlotSet(t.refs, t.chains[c0]);
  }

  /** As written, the wrap guard does not look at replacements.  Once a LOAD has
      been wrapped it is still a LOAD with a count above one (its entry is not
      cleared), so the guard fires again on the next slot that refers to it, and
      doing the wrap a second time breaks the tables: the first COPY keeps edges
      whose slots now refer to the second COPY. */
  lemma RewrapAsWritten(t: Tables, node: int, slot: int)
    requires Consistent(t) && ChildReady(t, slot)
    // The LOAD's node id differs from the LOAD opcode value. Consistent does not
    // record that slots are argument cells of a parent, never a node's own opcode
    // cell; this excludes the one case where the LOAD's chain could list its own cell.
    requires WrapGuard(t, t.nodes[slot]) && t.nodes[slot] != LOAD
    ensures var c0 := t.nodes[slot]; var t1 := ChildStep(t, node, slot);
      && c0 < |t1.nodes| && c0 < |t1.info| == |t1.replacements| == |t1.chains|
      && WrapGuardAsWritten(t1, c0) && !WrapGuard(t1, c0)
      && (forall j :: 0 <= j < |t1.chains[c0]| ==> 0 <= t1.chains[c0][j] < |t1.refs|)
      && !Consistent(WrapLoad(t1, c0))
  {
    var c0 := t.nodes[slot];
    var copy := |t.nodes|;
    var t1 := ChildStep(t, node, slot);
    AfterWrap(t, node, slot);
    assert EntryOk(t, c0);
    assert EntryOk(t1, copy);
    assert forall j :: 0 <= j < |t1.chains[c0]| ==> t1.chains[c0][j] == t1.chains[copy][j + 1];
    StaleChainBreaks(t1, c0, copy, 0, 1);
  }

  // ---------------------------------------------------------------------------
  // The program's state

  /** The tree's node array; nodes are added by appending records. */
  class ExprTree {
    var nodes: seq<int>

    constructor (nodes: seq<int>)
      ensures this.nodes == nodes
    {
      this.nodes := nodes;
    }

    /** MVM_jit_expr_apply_template_adhoc, for the one-node templates used here:
        the record goes at the end and its index is returned. */
    method AppendNode(record: seq<int>) returns (id: int)
      modifies this
      ensures nodes == old(nodes) + record && id == |old(nodes)|
    {
      id := |nodes|;
      nodes := nodes + record;
    }
  }

  /** struct Optimizer, together with the tree it works on. */
  class Optimizer {
    const tree: ExprTree
    var refs: seq<NodeRef>
    var info: seq<NodeInfo>
    var replacements: seq<int>
    var replacementCnt: int
    ghost var chains: seq<seq<int>>

    ghost function Snapshot(): Tables
      reads this, tree
    {
      Tables(tree.nodes, refs, info, replacements, replacementCnt, chains)
    }

    ghost predicate Valid()
      reads this, tree
    {
      Consistent(Snapshot())
    }

    /** The table setup of MVM_jit_expr_tree_optimize. */
    constructor (tree: ExprTree)
      ensures this.tree == tree && Snapshot() == Initial(tree.nodes) && Valid()
    {
      this.tree := tree;
      refs := [NodeRef(0, 0, 0)];
      info := seq(2 * |tree.nodes|, _ => NoInfo);
      replacements := seq(2 * |tree.nodes|, _ => 0);
      replacementCnt := 0;
      chains := seq(2 * |tree.nodes|, _ => []);
    }

    /** replace_node. */
    method ReplaceNode(node: int, replacement: int)
      requires Valid() && ReplaceReady(Snapshot(), node, replacement)
      modifies this, tree
      ensures Snapshot() == Replace(old(Snapshot()), node, replacement)
      ensures Valid()
    {
      ghost var t := Snapshot();
      ghost var c := chains[node];
      assert EntryOk(t, node);
      info := Grow(info, replacement, NoInfo);
      replacements := Grow(replacements, replacement, 0);
      chains := Grow(chains, replacement, []);
      var tail := RedirectSlots(node, replacement, c);
      if c != [] {
        ChainNext(t.refs, t.info[node].refs, c, |c| - 1);
      }
      TakeOver(node, replacement, tail, c);
      assert Tables(tree.nodes, refs, info, replacements, replacementCnt, chains) == Replace(t, node, replacement);
      ReplaceKeeps(t, node, replacement);
    }

    /** The end of replace_node: the replacement's chain is appended to node's
        (after the last edge tail, or as node's head when node has no edges), the
        replacement takes over node's chain and count, and node is recorded as
        replaced. */
    method TakeOver(node: int, replacement: int, tail: int, ghost c: seq<int>)
      requires 0 <= node < |info| == |replacements| == |chains| && 0 <= replacement < |info|
      requires node != replacement
      requires forall j :: 0 <= j < |c| ==> 0 <= c[j] < |refs|
      requires tail == (if c == [] then 0 else c[|c| - 1]) && (c != [] ==> 0 < tail)
      modifies this
      ensures var head := old(info[replacement].refs);
        var info1 := if c == [] && head > 0 then old(info)[node := old(info[node]).(refs := head)] else old(info);
        && refs == Splice(old(refs), c, head)
        && info == info1[replacement := NodeInfo(info1[node].refs, old(info[replacement].refCnt + info[node].refCnt))]
        && replacements == old(replacements)[node := replacement]
        && replacementCnt == old(replacementCnt) + 1
        && chains == old(chains)[replacement := c + old(chains[replacement])]
    {
      var head := info[replacement].refs;
      if head > 0 {
        if tail == 0 {
          info := info[node := info[node].(refs := head)];
        } else {
          refs := refs[tail := refs[tail].(next := head)];
        }
      }
      info := info[replacement := NodeInfo(info[node].refs, info[replacement].refCnt + info[node].refCnt)];
      replacements := replacements[node := replacement];
      replacementCnt := replacementCnt + 1;
      chains := chains[replacement := c + chains[replacement]];
    }

    /** The walk of replace_node over node's chain c: every slot on it is set to
        replacement, and the last edge is returned (0 when c is empty), which is
        where the pointer of the walk stops. */
    method RedirectSlots(node: int, replacement: int, ghost c: seq<int>) returns (tail: int)
      requires 0 <= node < |info| && IsChain(refs, info[node].refs, c)
      requires SlotsHold(tree.nodes, refs, c, node)
      modifies tree
      ensures tree.nodes == Redirect(old(tree.nodes), SlotSet(refs, c), replacement)
      ensures tail == if c == [] then 0 else c[|c| - 1]
    {
      ghost var nodes := tree.nodes;
      // cur is the edge the walk stands on; tail is the edge whose next field led
      // there, or 0 while the walk is still at node's own head.
      var cur := info[node].refs;
      tail := 0;
      ghost var i := 0;
      assert c[..0] == [];
      while cur > 0
        invariant 0 <= i <= |c|
        invariant cur == if i < |c| then c[i] else 0
        invariant tail == if i == 0 then 0 else c[i - 1]
        invariant tree.nodes == Redirect(nodes, SlotSet(refs, c[..i]), replacement)
        modifies tree
        decreases |c| - i
      {
        ChainNext(refs, info[node].refs, c, i);
        RedirectStep(nodes, refs, c, i, replacement);
        tree.nodes := tree.nodes[refs[cur].ptr := replacement];
        tail := cur;
        cur := refs[cur].next;
        i := i + 1;
      }
      assert c[..i] == c;
    }

    /** optimize_child: child is the index of the slot among node's children, and
        nchild the child count of node's operator. */
    method OptimizeChild(node: int, child: int, nchild: int)
      requires Valid() && ChildReady(Snapshot(), FirstChild(node, nchild) + child)
      modifies this, tree
      ensures Snapshot() == ChildStep(old(Snapshot()), node, FirstChild(node, nchild) + child)
      ensures Valid()
    {
      ghost var t := Snapshot();
      var firstChild := if nchild < 0 then node + 2 else node + 1;
      var slot := firstChild + child;
      var childNode := tree.nodes[slot];
      WrapSharedLoad(childNode);
      WrapStepKeeps(t, childNode);
      WrapStepSlot(t, slot);
      ghost var t1 := Snapshot();
      assert EntryOk(t1, childNode);
      ghost var c0 := childNode;
      if replacements[childNode] > 0 {
        childNode := replacements[childNode];
        tree.nodes := tree.nodes[slot := childNode];
        replacementCnt := replacementCnt + 1;
      }
      assert Snapshot() == Propagate(t1, slot, c0);
      PropagateKeeps(t1, slot, c0);
      AddReference(node, slot, childNode);
      ChildStepKeeps(t, node, slot);
    }

    /** The start of optimize_child: a LOAD referenced more than once and not yet
        replaced is wrapped in a COPY. */
    method WrapSharedLoad(childNode: int)
      requires Valid() && 0 <= childNode < |tree.nodes| && childNode < |info|
      modifies this, tree
      ensures Snapshot() == WrapStep(old(Snapshot()), childNode)
    {
      ghost var t := Snapshot();
      assert EntryOk(t, childNode);
      if tree.nodes[childNode] == LOAD && info[childNode].refCnt > 1 && replacements[childNode] == 0 {
        WrapReady(t, childNode);
        var replacement := tree.AppendNode([COPY, childNode]);
        ReplaceNode(childNode, replacement);
      }
    }

    /** The end of optimize_child: the edge (node, slot) becomes the head of
        childNode's chain. */
    method AddReference(node: int, slot: int, childNode: int)
      requires 0 <= childNode < |info| == |chains|
      modifies this
      ensures Snapshot() == Register(old(Snapshot()), node, slot, childNode)
    {
      var r := |refs|;
      refs := refs + [NodeRef(node, slot, info[childNode].refs)];
      info := info[childNode := info[childNode].(refs := r)];
      info := info[childNode := info[childNode].(refCnt := info[childNode].refCnt + 1)];
      chains := chains[childNode := [r] + chains[childNode]];
    }

    /** optimize_postorder. */
    method OptimizePostorder(node: int)
      requires Valid() && FoldReady(Snapshot(), node)
      modifies this, tree
      ensures Snapshot() == Fold(old(Snapshot()), node)
      ensures Valid()
    {
      ghost var t := Snapshot();
      var replacement := -1;
      if tree.nodes[node] == IDX {
        var base := tree.nodes[node + 1];
        var idx := tree.nodes[node + 2];
        var scale := tree.nodes[node + 3];
        if tree.nodes[idx] == CONST {
          var ofs := tree.nodes[idx + 1] * scale;
          AppendKeeps(t, [ADDR, base, ofs]);
          assert EntryOk(t, node);
          if |t.nodes| < |t.info| {
            assert EntryOk(t, |t.nodes|);
          }
          replacement := tree.AppendNode([ADDR, base, ofs]);
        }
      }
      if replacement > 0 {
        ReplaceNode(node, replacement);
      }
      FoldEffect(t, node);
    }
  }
}
