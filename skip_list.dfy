/** The append-only skip list: every node gets the next id and a random
    number of levels, is linked after the current tail of each of its levels,
    and is found again by id with a top-down search.

    Nodes live in an arena: `nodes[k]` is the (k+1)-th node appended, with id
    k + 1, and a link is the arena index of the node it points at. */
module SkipList {
  import opened Options

  /** A forward link: the arena index of the next node on a level, if any. */
  type Link = Option<nat>

  /** A node: its payload, one forward link per level it is on, and its id. */
  datatype SkipNode<T> = SkipNode(data: T, next: seq<Link>, id: nat)

  /** How many levels each node is on (the length of its `next` vector). */
  function Heights<T>(ns: seq<SkipNode<T>>): (hs: seq<nat>)
    ensures |hs| == |ns|
    ensures forall k :: 0 <= k < |ns| ==> hs[k] == |ns[k].next|
  {
    seq(|ns|, k requires 0 <= k < |ns| => |ns[k].next|)
  }

  /** The first node after index k whose height reaches level l. */
  function NextOnLevel(hs: seq<nat>, k: nat, l: nat): (r: Link)
    ensures r.Some? ==> k < r.value < |hs| && l < hs[r.value]
    ensures r.Some? ==> forall m :: k < m < r.value ==> hs[m] <= l
    ensures r.None? ==> forall m :: k < m < |hs| ==> hs[m] <= l
    decreases |hs| - k
  {
    if k + 1 >= |hs| then None
    else if l < hs[k + 1] then Some(k + 1)
    else NextOnLevel(hs, k + 1, l)
  }

  /** The last node whose height reaches level l. */
  function LastOnLevel(hs: seq<nat>, l: nat): (r: Link)
    ensures r.Some? ==> r.value < |hs| && l < hs[r.value]
    ensures r.Some? ==> forall m :: r.value < m < |hs| ==> hs[m] <= l
    ensures r.None? ==> forall m :: 0 <= m < |hs| ==> hs[m] <= l
  {
    if |hs| == 0 then None
    else if l < hs[|hs| - 1] then Some(|hs| - 1)
    else LastOnLevel(hs[..|hs| - 1], l)
  }

  /** Level l is wired as a forward chain through exactly the nodes on it,
      in arena order, and `tails[l]` is its last node. */
  ghost predicate LevelLinked<T>(ns: seq<SkipNode<T>>, tails: seq<Link>, l: nat)
    requires l < |tails|
  {
    (forall k {:trigger ns[k].next[l]} :: 0 <= k < |ns| && l < |ns[k].next| ==>
       ns[k].next[l] == NextOnLevel(Heights(ns), k, l)) &&
    tails[l] == LastOnLevel(Heights(ns), l)
  }

  /** The `(id, data)` pairs of the nodes at index k and later that are on level l. */
  function LevelFrom<T>(ns: seq<SkipNode<T>>, l: nat, k: nat): seq<(nat, T)>
    decreases |ns| - k
  {
    if k >= |ns| then []
    else if l < |ns[k].next| then [(ns[k].id, ns[k].data)] + LevelFrom(ns, l, k + 1)
    else LevelFrom(ns, l, k + 1)
  }

  /** The payloads in append order. */
  function Data<T>(ns: seq<SkipNode<T>>): (d: seq<T>)
    ensures |d| == |ns|
    ensures forall k :: 0 <= k < |ns| ==> d[k] == ns[k].data
  {
    seq(|ns|, k requires 0 <= k < |ns| => ns[k].data)
  }

  /** `a` is obtained from `b` by deleting elements. */
  ghost predicate Subsequence<X>(a: seq<X>, b: seq<X>)
    decreases |b|
  {
    a == [] ||
    (b != [] && ((a[0] == b[0] && Subsequence(a[1..], b[1..])) || Subsequence(a, b[1..])))
  }

  // ---------------------------------------------------------------------
  // Facts about the level structure.

  /** Appending a node changes a level's forward links only at that level's
      old last node, and only when the new node is on the level. */
  lemma {:induction false} NextOnLevelAppend(hs: seq<nat>, h: nat, k: nat, l: nat)
    requires k < |hs|
    ensures NextOnLevel(hs + [h], k, l) ==
              if NextOnLevel(hs, k, l).Some? then NextOnLevel(hs, k, l)
              else if l < h then Some(|hs|) else None
    decreases |hs| - k
  {
    if k + 1 < |hs| {
      assert (hs + [h])[k + 1] == hs[k + 1];
      NextOnLevelAppend(hs, h, k + 1, l);
    }
  }

  /** Appending a node makes it the last node of every level it is on. */
  lemma {:induction false} LastOnLevelAppend(hs: seq<nat>, h: nat, l: nat)
    ensures LastOnLevel(hs + [h], l) == if l < h then Some(|hs|) else LastOnLevel(hs, l)
  {
    var a, b := LastOnLevel(hs + [h], l), LastOnLevel(hs, l);
    if l >= h {
      if b.Some? {
        assert (hs + [h])[b.value] == hs[b.value];
      }
      if a.Some? {
        assert (hs + [h])[a.value] == hs[a.value];
      }
    }
  }

  /** On a level, exactly the last node has no successor. */
  lemma NoSuccessorIsLast(hs: seq<nat>, k: nat, l: nat)
    requires k < |hs| && l < hs[k]
    ensures NextOnLevel(hs, k, l).None? <==> LastOnLevel(hs, l) == Some(k)
  {
  }

  /** Nodes that are not on level l contribute nothing to it. */
  lemma {:induction false} LevelFromSkip<T>(ns: seq<SkipNode<T>>, l: nat, a: nat, b: nat)
    requires a <= b <= |ns|
    requires forall m :: a <= m < b ==> |ns[m].next| <= l
    ensures LevelFrom(ns, l, a) == LevelFrom(ns, l, b)
    decreases b - a
  {
    if a < b {
      LevelFromSkip(ns, l, a + 1, b);
    }
  }

  /** Each level lists a subsequence of the level below it. */
  lemma {:induction false} LevelAboveIsSubsequence<T>(ns: seq<SkipNode<T>>, l: nat, k: nat)
    ensures Subsequence(LevelFrom(ns, l + 1, k), LevelFrom(ns, l, k))
    decreases |ns| - k
  {
    if k < |ns| {
      LevelAboveIsSubsequence(ns, l, k + 1);
    }
  }

  /** When every node's id is its arena index + 1, each level lists strictly
      increasing ids, all beyond k. */
  lemma {:induction false} LevelIdsIncrease<T>(ns: seq<SkipNode<T>>, l: nat, k: nat)
    requires forall m :: 0 <= m < |ns| ==> ns[m].id == m + 1
    ensures forall i :: 0 <= i < |LevelFrom(ns, l, k)| ==> LevelFrom(ns, l, k)[i].0 > k
    ensures forall i, j :: 0 <= i < j < |LevelFrom(ns, l, k)| ==>
              LevelFrom(ns, l, k)[i].0 < LevelFrom(ns, l, k)[j].0
    decreases |ns| - k
  {
    if k < |ns| {
      LevelIdsIncrease(ns, l, k + 1);
    }
  }

  /** When every node is on level 0, level 0 lists every node in append order. */
  lemma {:induction false} BottomLevelIsEverything<T>(ns: seq<SkipNode<T>>, k: nat)
    requires k <= |ns|
    requires forall m :: 0 <= m < |ns| ==> 1 <= |ns[m].next|
    ensures |LevelFrom(ns, 0, k)| == |ns| - k
    ensures forall i :: 0 <= i < |ns| - k ==> LevelFrom(ns, 0, k)[i] == (ns[k + i].id, ns[k + i].data)
    decreases |ns| - k
  {
    if k < |ns| {
      BottomLevelIsEverything(ns, k + 1);
    }
  }

  // ---------------------------------------------------------------------
  // The append loop, level by level.

  /** One pass of the append loop on the arena: the old tail of level i (if
      any) gets its level-i link pointed at index idx. That is the only link
      that changes; payloads, ids and the number of levels of every node stay. */
  function LinkTail<T>(ns: seq<SkipNode<T>>, tails: seq<Link>, idx: nat, i: nat): (r: seq<SkipNode<T>>)
    requires i < |tails|
    requires tails[i].Some? ==> tails[i].value < |ns| && i < |ns[tails[i].value].next|
    ensures |r| == |ns|
    ensures forall k :: 0 <= k < |ns| ==>
              r[k].data == ns[k].data && r[k].id == ns[k].id && |r[k].next| == |ns[k].next|
    ensures forall k, l :: 0 <= k < |ns| && 0 <= l < |ns[k].next| ==>
              r[k].next[l] == if tails[i] == Some(k) && l == i then Some(idx) else ns[k].next[l]
  {
    match tails[i]
    case Some(t) => ns[t := ns[t].(next := ns[t].next[i := Some(idx)])]
    case None => ns
  }

  /** What holds after the append loop has handled levels 0 .. i-1, starting
      from arena ns0 + [nw] and tails tails0: those levels are wired for the
      extended arena, the higher ones are as they were, and the only links that
      changed are the old tails' links on the handled levels. */
  ghost predicate AppendLoopState<T>(ns0: seq<SkipNode<T>>, tails0: seq<Link>, nw: SkipNode<T>, i: nat,
                                     ns: seq<SkipNode<T>>, ts: seq<Link>)
  {
    var idx := |ns0|;
    |ns| == idx + 1 && |ts| == |tails0| &&
    Heights(ns) == Heights(ns0) + [|nw.next|] &&
    (forall k :: 0 <= k < idx ==> ns[k].data == ns0[k].data && ns[k].id == ns0[k].id) &&
    ns[idx].data == nw.data && ns[idx].id == nw.id &&
    (forall l :: 0 <= l < i && l < |ts| ==> LevelLinked(ns, ts, l)) &&
    (forall l :: i <= l < |ts| ==> ts[l] == tails0[l]) &&
    (forall l :: i <= l < |nw.next| ==> ns[idx].next[l] == None) &&
    (forall k, l :: 0 <= k < idx && i <= l < |ns[k].next| ==> ns[k].next[l] == ns0[k].next[l]) &&
    (forall k, l :: 0 <= k < idx && 0 <= l < |ns[k].next| ==>
       ns[k].next[l] == ns0[k].next[l] || (l < i && l < |tails0| && tails0[l] == Some(k)))
  }

  ghost predicate AppendPre<T>(ns0: seq<SkipNode<T>>, tails0: seq<Link>, nw: SkipNode<T>)
  {
    (forall l :: 0 <= l < |tails0| ==> LevelLinked(ns0, tails0, l)) &&
    (forall k :: 0 <= k < |ns0| ==> |ns0[k].next| <= |tails0|) &&
    1 <= |nw.next| <= |tails0| &&
    forall l :: 0 <= l < |nw.next| ==> nw.next[l] == None
  }

  /** Before the loop: nothing handled yet. */
  lemma AppendLoopStart<T>(ns0: seq<SkipNode<T>>, tails0: seq<Link>, nw: SkipNode<T>)
    requires AppendPre(ns0, tails0, nw)
    ensures AppendLoopState(ns0, tails0, nw, 0, ns0 + [nw], tails0)
  {
    assert Heights(ns0 + [nw]) == Heights(ns0) + [|nw.next|];
  }

  /** One loop iteration at level i keeps the loop state. */
  lemma AppendLoopStep<T>(ns0: seq<SkipNode<T>>, tails0: seq<Link>, nw: SkipNode<T>, i: nat,
                          ns: seq<SkipNode<T>>, ts: seq<Link>)
    requires AppendPre(ns0, tails0, nw) && i < |nw.next|
    requires AppendLoopState(ns0, tails0, nw, i, ns, ts)
    ensures ts[i].Some? ==> ts[i].value < |ns0| && i < |ns[ts[i].value].next|
    ensures AppendLoopState(ns0, tails0, nw, i + 1, LinkTail(ns, ts, |ns0|, i), ts[i := Some(|ns0|)])
  {
    var idx, hs0 := |ns0|, Heights(ns0);
    assert LevelLinked(ns0, tails0, i);
    assert ts[i] == LastOnLevel(hs0, i);
    var ns', ts' := LinkTail(ns, ts, idx, i), ts[i := Some(idx)];
    LinkTailEffect(ns, ts, idx, i);
    forall l | 0 <= l < i
      ensures LevelLinked(ns', ts', l)
    {
      LevelLinkedFrame(ns, ts, ns', ts', l);
    }
    WireLevel(ns0, tails0, nw, i, ns, ts);
  }

  /** The loop body leaves every node's number of levels alone. */
  lemma LinkTailEffect<T>(ns: seq<SkipNode<T>>, ts: seq<Link>, idx: nat, i: nat)
    requires i < |ts|
    requires ts[i].Some? ==> ts[i].value < |ns| && i < |ns[ts[i].value].next|
    ensures Heights(LinkTail(ns, ts, idx, i)) == Heights(ns)
  {
  }

  /** A level stays wired when neither the heights, nor that level's links,
      nor its tail change. */
  lemma LevelLinkedFrame<T>(ns: seq<SkipNode<T>>, ts: seq<Link>, ns': seq<SkipNode<T>>, ts': seq<Link>, l: nat)
    requires l < |ts| && l < |ts'| && LevelLinked(ns, ts, l)
    requires |ns'| == |ns| && Heights(ns') == Heights(ns) && ts'[l] == ts[l]
    requires forall k :: 0 <= k < |ns| && l < |ns[k].next| ==> ns'[k].next[l] == ns[k].next[l]
    ensures LevelLinked(ns', ts', l)
  {
    forall k | 0 <= k < |ns'| && l < |ns'[k].next|
      ensures ns'[k].next[l] == NextOnLevel(Heights(ns'), k, l)
    {
      assert Heights(ns')[k] == Heights(ns)[k];
    }
  }

  /** After the loop body at level i, level i is wired for the extended arena. */
  lemma WireLevel<T>(ns0: seq<SkipNode<T>>, tails0: seq<Link>, nw: SkipNode<T>, i: nat,
                     ns: seq<SkipNode<T>>, ts: seq<Link>)
    requires AppendPre(ns0, tails0, nw) && i < |nw.next|
    requires AppendLoopState(ns0, tails0, nw, i, ns, ts)
    requires ts[i].Some? ==> ts[i].value < |ns| && i < |ns[ts[i].value].next|
    ensures LevelLinked(LinkTail(ns, ts, |ns0|, i), ts[i := Some(|ns0|)], i)
  {
    var idx, hs0 := |ns0|, Heights(ns0);
    var hs1 := hs0 + [|nw.next|];
    var ns', ts' := LinkTail(ns, ts, idx, i), ts[i := Some(idx)];
    assert LevelLinked(ns0, tails0, i);
    LinkTailEffect(ns, ts, idx, i);
    LastOnLevelAppend(hs0, |nw.next|, i);
    forall k | 0 <= k < |ns'| && i < |ns'[k].next|
      ensures ns'[k].next[i] == NextOnLevel(hs1, k, i)
    {
      if k < idx {
        assert hs1[k] == hs0[k] == |ns0[k].next|;
        RelinkOne(hs0, |nw.next|, i, k, ts[i], ns0[k].next[i], ns'[k].next[i]);
      }
    }
  }

  /** The link of node k on level i after the loop body has handled level i. */
  lemma RelinkOne(hs0: seq<nat>, h: nat, i: nat, k: nat, last: Link, before: Link, after: Link)
    requires i < h && k < |hs0| && i < hs0[k]
    requires last == LastOnLevel(hs0, i) && before == NextOnLevel(hs0, k, i)
    requires after == if last == Some(k) then Some(|hs0|) else before
    ensures after == NextOnLevel(hs0 + [h], k, i)
  {
    NoSuccessorIsLast(hs0, k, i);
    NextOnLevelAppend(hs0, h, k, i);
  }

  /** After the loop every level is wired for the extended arena, the new
      node is the tail of each of its levels and the old tails of those levels
      point at it; nothing else changed. */
  lemma AppendLoopDone<T>(ns0: seq<SkipNode<T>>, tails0: seq<Link>, nw: SkipNode<T>,
                          ns: seq<SkipNode<T>>, ts: seq<Link>)
    requires AppendPre(ns0, tails0, nw)
    requires AppendLoopState(ns0, tails0, nw, |nw.next|, ns, ts)
    ensures |ns| == |ns0| + 1 && |ts| == |tails0|
    ensures ns[|ns0|].data == nw.data && ns[|ns0|].id == nw.id && |ns[|ns0|].next| == |nw.next|
    ensures forall k :: 0 <= k < |ns0| ==>
              ns[k].data == ns0[k].data && ns[k].id == ns0[k].id && |ns[k].next| == |ns0[k].next|
    ensures forall l :: 0 <= l < |ts| ==> LevelLinked(ns, ts, l)
    ensures forall l :: 0 <= l < |nw.next| ==> ts[l] == Some(|ns0|)
    ensures forall l :: |nw.next| <= l < |ts| ==> ts[l] == tails0[l]
    ensures forall k, l :: 0 <= k < |ns0| && 0 <= l < |ns[k].next| ==>
              if l < |nw.next| && tails0[l] == Some(k) then ns[k].next[l] == Some(|ns0|)
              else ns[k].next[l] == ns0[k].next[l]
  {
    var idx, hs0 := |ns0|, Heights(ns0);
    var hs1 := hs0 + [|nw.next|];
    assert Heights(ns) == hs1;
    forall k | 0 <= k < idx
      ensures |ns[k].next| == |ns0[k].next|
    {
      assert hs1[k] == hs0[k];
    }
    forall l | |nw.next| <= l < |ts|
      ensures LevelLinked(ns, ts, l)
    {
      assert LevelLinked(ns0, tails0, l);
      LastOnLevelAppend(hs0, |nw.next|, l);
      forall k | 0 <= k < |ns| && l < |ns[k].next|
        ensures ns[k].next[l] == NextOnLevel(hs1, k, l)
      {
        NextOnLevelAppend(hs0, |nw.next|, k, l);
      }
    }
    forall l | 0 <= l < |nw.next|
      ensures ts[l] == Some(idx)
    {
      assert LevelLinked(ns, ts, l);
      LastOnLevelAppend(hs0, |nw.next|, l);
    }
    forall k, l | 0 <= k < idx && 0 <= l < |ns[k].next| && l < |nw.next| && tails0[l] == Some(k)
      ensures ns[k].next[l] == Some(idx)
    {
      assert LevelLinked(ns0, tails0, l) && LevelLinked(ns, ts, l);
      NoSuccessorIsLast(hs0, k, l);
      NextOnLevelAppend(hs0, |nw.next|, k, l);
    }
  }

  /** How appending a node on `level` levels rewires the old nodes: every old
      node keeps its number of levels, the old tail of each of the first
      `level` levels now links to the new node at index |ns0|, and every other
      link is unchanged. */
  ghost predicate Relinked<T>(ns0: seq<SkipNode<T>>, tails0: seq<Link>, ns: seq<SkipNode<T>>, level: nat)
  {
    |ns0| <= |ns| &&
    (forall k :: 0 <= k < |ns0| ==> |ns[k].next| == |ns0[k].next|) &&
    forall k, l :: 0 <= k < |ns0| && 0 <= l < |ns0[k].next| ==>
      if l < level && l < |tails0| && tails0[l] == Some(k)
      then ns[k].next[l] == Some(|ns0|)
      else ns[k].next[l] == ns0[k].next[l]
  }

  /** The skip list's invariant over its fields: one tail per level, ids are
      1, 2, ... in arena order, every node is on 1 to maxLevel + 1 levels, the
      head is the first node and is on every level, and every level is wired. */
  ghost predicate Wellformed<T>(maxLevel: nat, head: Link, tails: seq<Link>, length: nat, nodes: seq<SkipNode<T>>)
  {
    |tails| == maxLevel + 1 &&
    |nodes| == length &&
    (forall k :: 0 <= k < |nodes| ==>
       nodes[k].id == k + 1 && 1 <= |nodes[k].next| <= maxLevel + 1) &&
    (head.None? <==> length == 0) &&
    (length > 0 ==> head == Some(0) && |nodes[0].next| == maxLevel + 1) &&
    forall l :: 0 <= l <= maxLevel ==> LevelLinked(nodes, tails, l)
  }

  /** The append loop, run to completion, re-establishes the invariant with the
      new node at the end of the arena. */
  lemma AppendWellformed<T>(maxLevel: nat, head0: Link, tails0: seq<Link>, ns0: seq<SkipNode<T>>,
                            nw: SkipNode<T>, ns: seq<SkipNode<T>>, ts: seq<Link>)
    requires Wellformed(maxLevel, head0, tails0, |ns0|, ns0)
    requires nw.id == |ns0| + 1 && 1 <= |nw.next| <= maxLevel + 1
    requires head0.None? ==> |nw.next| == maxLevel + 1
    requires forall l :: 0 <= l < |nw.next| ==> nw.next[l] == None
    requires AppendLoopState(ns0, tails0, nw, |nw.next|, ns, ts)
    ensures AppendPre(ns0, tails0, nw)
    ensures Wellformed(maxLevel, if head0.None? then Some(|ns0|) else head0, ts, |ns0| + 1, ns)
    ensures Data(ns) == Data(ns0) + [nw.data]
  {
    assert AppendPre(ns0, tails0, nw);
    AppendLoopDone(ns0, tails0, nw, ns, ts);
    assert Data(ns) == Data(ns0) + [nw.data];
  }

  /** Moving the first remaining pair to the end of the pairs taken keeps
      their concatenation; stated apart so the iterator's drain loop stays
      cheap to check. */
  lemma ConsumeOne<X>(taken: seq<X>, x: X, rest: seq<X>)
    ensures (taken + [x]) + rest == taken + ([x] + rest)
  {
  }

  // ---------------------------------------------------------------------
  // The list.

  class SkipList<T> {
    var head: Link
    var tails: seq<Link>
    const maxLevel: nat
    var length: nat
    /** The arena holding the nodes; `nodes[k]` has id k + 1. */
    var nodes: seq<SkipNode<T>>

    ghost predicate Valid()
      reads this
    {
      Wellformed(maxLevel, head, tails, length, nodes)
    }

    /** The payloads in append order: the item with id k is `Contents()[k - 1]`. */
    ghost function Contents(): seq<T>
      reads this
    {
      Data(nodes)
    }

    /** `new(max_level)`: an empty list with one empty tail per level. */
    constructor (maxLevel: nat)
      ensures Valid()
      ensures this.maxLevel == maxLevel && length == 0 && head == None
      ensures tails == seq(maxLevel + 1, _ => None)
      ensures Contents() == []
    {
      this.maxLevel := maxLevel;
      head := None;
      tails := seq(maxLevel + 1, _ => None);
      length := 0;
      nodes := [];
    }

    /** `get_level`: count successive heads among the coin flips, stopping at
        the first tail, at `maxLevel`, or when the flips run out. */
    method GetLevel(flips: seq<bool>) returns (n: nat)
      ensures n <= maxLevel && n <= |flips|
      ensures forall k :: 0 <= k < n ==> flips[k]
      ensures n < maxLevel ==> n == |flips| || !flips[n]
    {
      n := 0;
      while n < |flips| && flips[n] && n < maxLevel
        invariant n <= maxLevel && n <= |flips|
        invariant forall k :: 0 <= k < n ==> flips[k]
      {
        n := n + 1;
      }
    }

    /** `append(data)`: a node with id `length + 1` on every level if it is
        the first node, otherwise on one more level than `get_level` draws, is
        linked in by `LinkNode`. */
    method Append(data: T, flips: seq<bool>)
      requires Valid()
      modifies this
      ensures Valid()
      ensures length == old(length) + 1
      ensures Contents() == old(Contents()) + [data]
      ensures nodes[old(length)].id == old(length) + 1
      ensures old(length) == 0 ==> |nodes[0].next| == maxLevel + 1 && head == Some(0)
      ensures old(length) > 0 ==>
                var n := |nodes[old(length)].next| - 1;
                head == old(head) && n <= maxLevel && n <= |flips| &&
                (forall k :: 0 <= k < n ==> flips[k]) &&
                (n < maxLevel ==> n == |flips| || !flips[n])
      ensures forall l :: 0 <= l < |nodes[old(length)].next| ==> tails[l] == Some(old(length))
      ensures forall l :: |nodes[old(length)].next| <= l <= maxLevel ==> tails[l] == old(tails)[l]
      ensures Relinked(old(nodes), old(tails), nodes, |nodes[old(length)].next|)
    {
      var level: nat;
      if head.None? {
        level := 1 + maxLevel;
      } else {
        var n := GetLevel(flips);
        level := 1 + n;
      }
      LinkNode(data, level);
    }

    /** The body of `append` once the level count is drawn: a node with id
        `length + 1` on `level` levels is linked after the tail of each of its
        levels and becomes their tail; tails and links on the other levels are
        left alone, and the first node becomes the head. */
    method LinkNode(data: T, level: nat)
      requires Valid() && 1 <= level <= maxLevel + 1
      requires head.None? ==> level == maxLevel + 1
      modifies this
      ensures Valid()
      ensures length == old(length) + 1
      ensures Contents() == old(Contents()) + [data]
      ensures nodes[old(length)].id == old(length) + 1
      ensures |nodes[old(length)].next| == level
      ensures head == if old(head).None? then Some(old(length)) else old(head)
      ensures forall l :: 0 <= l < level ==> tails[l] == Some(old(length))
      ensures forall l :: level <= l <= maxLevel ==> tails[l] == old(tails)[l]
      ensures Relinked(old(nodes), old(tails), nodes, level)
    {
      var idx := |nodes|;
      ghost var nodes0, tails0 := nodes, tails;
      var newNode := SkipNode(data, seq(level, _ => None), length + 1);
      assert AppendPre(nodes0, tails0, newNode);
      AppendLoopStart(nodes0, tails0, newNode);
      nodes := nodes + [newNode];
      for i := 0 to level
        invariant AppendLoopState(nodes0, tails0, newNode, i, nodes, tails)
        invariant length == old(length) && head == old(head)
      {
        AppendLoopStep(nodes0, tails0, newNode, i, nodes, tails);
        nodes := LinkTail(nodes, tails, idx, i);
        tails := tails[i := Some(idx)];
      }
      AppendWellformed(maxLevel, head, tails0, nodes0, newNode, nodes, tails);
      AppendLoopDone(nodes0, tails0, newNode, nodes, tails);
      if head.None? {
        head := Some(idx);
      }
      length := length + 1;
    }

    /** The descent of `search`: starting at the head on `startLevel`, on each
        level down to 0 follow forward links while the next node's id is at
        most `id`, and stop as soon as the cursor's id is `id`. */
    method Descend(startLevel: nat, id: nat) returns (r: Option<T>)
      requires Valid() && length > 0 && startLevel <= maxLevel
      ensures r == if 1 <= id <= length then Some(Contents()[id - 1]) else None
    {
      var n := 0;
      r := None;
      var level: nat := startLevel + 1;
      while level > 0 && r.None?
        invariant n < length && level <= |nodes[n].next|
        invariant n == 0 || n + 1 <= id
        invariant r.Some? ==> 1 <= id <= length && r == Some(Contents()[id - 1])
        invariant r.None? && level == 0 ==> !(1 <= id <= length)
      {
        level := level - 1;
        n := ScanLevel(n, level, id);
        if nodes[n].id == id {
          r := Some(nodes[n].data);
        } else if level == 0 {
          BottomLevelMiss(n, id);
        }
      }
    }

    /** The inner loop of the descent: move right on `level` while the next
        node's id is at most `id`. The cursor never passes `id`, and it stops
        where the next node on the level is missing or beyond `id`. */
    method ScanLevel(start: nat, level: nat, id: nat) returns (n: nat)
      requires Valid() && start < length && level < |nodes[start].next|
      requires start == 0 || start + 1 <= id
      ensures start <= n < length && level < |nodes[n].next|
      ensures n == 0 || n + 1 <= id
      ensures nodes[n].next[level].Some? ==>
                nodes[n].next[level].value < length && nodes[nodes[n].next[level].value].id > id
    {
      n := start;
      while true
        invariant start <= n < length && level < |nodes[n].next|
        invariant n == 0 || n + 1 <= id
        decreases length - n
      {
        assert LevelLinked(nodes, tails, level);
        match nodes[n].next[level] {
          case Some(j) =>
            if nodes[j].id <= id {
              n := j;
            } else {
              return;
            }
          case None =>
            return;
        }
      }
    }

    /** A level-0 scan that stops short of `id` proves `id` is not in the list. */
    lemma BottomLevelMiss(n: nat, id: nat)
      requires Valid() && n < length && (n == 0 || n + 1 <= id)
      requires nodes[n].id != id
      requires nodes[n].next[0].Some? ==>
                 nodes[n].next[0].value < length && nodes[nodes[n].next[0].value].id > id
      ensures !(1 <= id <= length)
    {
      BottomLevelStep(n);
    }

    /** On level 0 every node is linked to the next one in the arena. */
    lemma BottomLevelStep(n: nat)
      requires Valid() && n < length
      ensures nodes[n].next[0] == if n + 1 < length then Some(n + 1) else None
    {
      assert LevelLinked(nodes, tails, 0);
      if n + 1 < length {
        assert |nodes[n + 1].next| >= 1;
      }
    }

    /** `search(id)` as written: find the highest level on which the head has a
        successor, then descend. With a single node no such level exists and the
        level counter is decremented below 0, which panics; hence `length != 1`. */
    method Search(id: nat) returns (r: Option<T>)
      requires Valid()
      requires length != 1
      ensures r == if 1 <= id <= length then Some(Contents()[id - 1]) else None
    {
      match head {
        case None =>
          r := None;
        case Some(h) =>
          assert LevelLinked(nodes, tails, 0);
          assert h == 0 && |nodes[0].next| == maxLevel + 1;
          var startLevel: nat := maxLevel;
          while nodes[h].next[startLevel].None?
            invariant startLevel <= maxLevel
            decreases startLevel
          {
            startLevel := startLevel - 1;
          }
          r := Descend(startLevel, id);
      }
    }

    /** A single-node list is the input on which `search` fails: the head has
        no forward link on any level, so the start-level loop never stops. */
    lemma OneNodeHasNoSuccessor()
      requires Valid() && length == 1
      ensures head == Some(0)
      ensures forall l :: 0 <= l <= maxLevel ==> nodes[0].next[l] == None
    {
      forall l | 0 <= l <= maxLevel
        ensures nodes[0].next[l] == None
      {
        assert LevelLinked(nodes, tails, l);
      }
    }

    /** `search(id)` with the start-level loop stopped at level 0: defined on
        every list, including one with a single node. */
    method SearchFixed(id: nat) returns (r: Option<T>)
      requires Valid()
      ensures r == if 1 <= id <= length then Some(Contents()[id - 1]) else None
    {
      match head {
        case None =>
          r := None;
        case Some(h) =>
          assert h == 0 && |nodes[0].next| == maxLevel + 1;
          var startLevel: nat := maxLevel;
          while startLevel > 0 && nodes[h].next[startLevel].None?
            invariant startLevel <= maxLevel
          {
            startLevel := startLevel - 1;
          }
          r := Descend(startLevel, id);
      }
    }

    /** `iter_level(level)`: an iterator over one level, starting at the head. */
    method IterLevel(level: nat) returns (it: Iter<T>)
      requires Valid()
      ensures fresh(it) && it.list == this && it.level == level && it.current == head
      ensures level <= maxLevel ==> it.Valid() && it.Remaining() == LevelFrom(nodes, level, 0)
      ensures level > maxLevel && length > 0 ==> !it.Valid()
    {
      it := new Iter(this, head, level);
    }

    /** `into_iter`: an iterator over level 0, which holds every node. */
    method IntoIter() returns (it: Iter<T>)
      requires Valid()
      ensures fresh(it) && it.list == this && it.level == 0 && it.Valid()
      ensures |it.Remaining()| == length
      ensures forall k :: 0 <= k < length ==> it.Remaining()[k] == (k + 1, Contents()[k])
    {
      it := IterLevel(0);
      BottomLevelIsContents();
    }

    /** Level 0 lists `(k + 1, Contents()[k])` for every appended item. */
    lemma BottomLevelIsContents()
      requires Valid()
      ensures |LevelFrom(nodes, 0, 0)| == length
      ensures forall k :: 0 <= k < length ==> LevelFrom(nodes, 0, 0)[k] == (k + 1, Contents()[k])
    {
      BottomLevelIsEverything(nodes, 0);
    }

    /** Everything an iterator over one level yields, in order (what a `for`
        loop over `iter_level(level)` sees). */
    method LevelItems(level: nat) returns (items: seq<(nat, T)>)
      requires Valid() && level <= maxLevel
      ensures items == LevelFrom(nodes, level, 0)
    {
      var it := IterLevel(level);
      items := it.Drain();
    }
  }

  /** `Iter`: a cursor that walks one level's forward chain. It keeps the list
      it walks because a link is an index into the list's arena. */
  class Iter<T> {
    const list: SkipList<T>
    const level: nat
    var current: Link

    ghost predicate Valid()
      reads this, list
    {
      list.Valid() &&
      (current.Some? ==> current.value < list.length && level < |list.nodes[current.value].next|)
    }

    /** The `(id, data)` pairs still to come. */
    ghost function Remaining(): seq<(nat, T)>
      reads this, list
      requires Valid()
    {
      if current.None? then [] else LevelFrom(list.nodes, level, current.value)
    }

    /** `Iter::new(start, level)`. */
    constructor (list: SkipList<T>, start: Link, level: nat)
      ensures this.list == list && this.level == level && current == start
    {
      this.list := list;
      this.level := level;
      current := start;
    }

    /** Calls `next` until it yields `None`, collecting what it yields: exactly
        the pairs that remained, in order. */
    method Drain() returns (items: seq<(nat, T)>)
      requires Valid()
      modifies this
      ensures items == old(Remaining())
    {
      items := [];
      while true
        invariant Valid()
        invariant items + Remaining() == old(Remaining())
        decreases |Remaining()|
      {
        var x := Next();
        if x.None? {
          break;
        }
        ConsumeOne(items, x.value, Remaining());
        items := items + [x.value];
      }
    }

    /** `next`: yield the current node's `(id, data)` and move along its link
        on this level. */
    method Next() returns (r: Option<(nat, T)>)
      requires Valid()
      modifies this
      ensures Valid()
      ensures old(Remaining()) == [] ==> r == None && Remaining() == []
      ensures old(Remaining()) != [] ==> r == Some(old(Remaining())[0]) && Remaining() == old(Remaining())[1..]
    {
      match current {
        case Some(c) =>
          var node := list.nodes[c];
          r := Some((node.id, node.data));
          assert LevelLinked(list.nodes, list.tails, level);
          current := node.next[level];
          match current {
            case Some(j) =>
              LevelFromSkip(list.nodes, level, c + 1, j);
            case None =>
              LevelFromSkip(list.nodes, level, c + 1, |list.nodes|);
          }
        case None =>
          r := None;
      }
    }
  }
}
