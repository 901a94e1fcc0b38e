/** The list that owns every matrix the library creates. */
module Arena {

  /** A matrix on the heap. */
  class Block {
    const data: seq<real>
    constructor (d: seq<real>)
      ensures data == d
    {
      data := d;
    }
  }

  class Node {
    const matrix: Block
    var next: Node?
    constructor (m: Block, n: Node?)
      ensures matrix == m && next == n
    {
      matrix, next := m, n;
    }
  }

  /** The nodes are linked in this order, each of them once, and hold these matrices. */
  ghost predicate Chain(nodes: seq<Node>, live: seq<Block>, first: Node?)
    reads nodes
  {
    if nodes == [] then first == null && live == []
    else first == nodes[0] && live != [] && live[0] == nodes[0].matrix
         && first !in nodes[1..] && Chain(nodes[1..], live[1..], nodes[0].next)
  }

  ghost predicate Distinct<T>(s: seq<T>) {
    forall i, j :: 0 <= i < j < |s| ==> s[i] != s[j]
  }

  function At(nodes: seq<Node>, k: nat): (r: Node?) {
    if k < |nodes| then nodes[k] else null
  }

  /** The same, node by node. */
  ghost predicate Linked(nodes: seq<Node>, live: seq<Block>, first: Node?)
    reads nodes
  {
    && first == At(nodes, 0) && |live| == |nodes| && Distinct(nodes)
    && forall k :: 0 <= k < |nodes| ==> nodes[k].next == At(nodes, k + 1) && nodes[k].matrix == live[k]
  }

  lemma {:induction false} ChainIsLinked(nodes: seq<Node>, live: seq<Block>, first: Node?)
    ensures Chain(nodes, live, first) <==> Linked(nodes, live, first)
  {
    if nodes != [] && live != [] {
      var tail, rest := nodes[1..], live[1..];
      ChainIsLinked(tail, rest, nodes[0].next);
      assert forall k :: 0 <= k < |tail| ==> tail[k] == nodes[k + 1];
      assert forall k :: 0 < k < |nodes| ==> nodes[k] == tail[k - 1];
      if Chain(nodes, live, first) {
        forall k | 0 <= k < |nodes| ensures nodes[k].next == At(nodes, k + 1) && nodes[k].matrix == live[k] {
          if k > 0 { assert tail[k - 1].next == At(tail, k) && tail[k - 1].matrix == rest[k - 1]; }
        }
      }
      if Linked(nodes, live, first) {
        forall k | 0 <= k < |tail| ensures tail[k].next == At(tail, k + 1) && tail[k].matrix == rest[k] {
          assert nodes[k + 1].next == At(nodes, k + 2) && nodes[k + 1].matrix == live[k + 1];
        }
      }
    }
  }

  /** Keeping the newest of the matrices. */
  function Kept<T>(s: seq<T>, num: int): (r: seq<T>)
    ensures |r| <= |s|
  {
    if num <= 0 then [] else if num <= |s| then s[..num] else s
  }

  // ---------------------------------------------------------------- whole runs

  /** A run of calls: the allocations, with what they gave, and the releases. */
  datatype Run<T> = Started | Applied(before: Run<T>, m: T) | Released(before: Run<T>, num: int)

  /** What lives after the run, newest first. */
  ghost function Live<T>(run: Run<T>): (live: seq<T>) {
    match run
    case Started => []
    case Applied(before, m) => [m] + Live(before)
    case Released(before, num) => Kept(Live(before), num)
  }

  /** What the run has freed, in order. */
  ghost function Freed<T>(run: Run<T>): (freed: seq<T>) {
    match run
    case Started => []
    case Applied(before, _) => Freed(before)
    case Released(before, num) => Freed(before) + Live(before)[|Kept(Live(before), num)|..]
  }

  ghost function Allocated<T>(run: Run<T>): (all: multiset<T>) {
    match run
    case Started => multiset{}
    case Applied(before, m) => Allocated(before) + multiset{m}
    case Released(before, _) => Allocated(before)
  }

  /** No allocation gives a matrix that an earlier one gave. */
  ghost predicate Unrepeated<T>(run: Run<T>) {
    match run
    case Started => true
    case Applied(before, m) => Unrepeated(before) && m !in Allocated(before)
    case Released(before, _) => Unrepeated(before)
  }

  lemma Split<T>(s: seq<T>, n: nat)
    requires n <= |s|
    ensures multiset(s) == multiset(s[..n]) + multiset(s[n..])
  {
    assert s == s[..n] + s[n..];
  }

  /** Nothing is lost and nothing is freed twice: over every run, what has been freed and what lives are
      together what was allocated, each matrix as often as it was. */
  lemma {:induction false} Conservation<T>(run: Run<T>)
    ensures multiset(Freed(run)) + multiset(Live(run)) == Allocated(run)
  {
    match run
    case Started =>
    case Applied(before, m) => Conservation(before);
    case Released(before, num) =>
      Conservation(before);
      Split(Live(before), |Kept(Live(before), num)|);
  }

  lemma {:induction false} AllocatedOnce<T>(run: Run<T>, m: T)
    requires Unrepeated(run)
    ensures Allocated(run)[m] <= 1
  {
    match run
    case Started =>
    case Applied(before, _) => AllocatedOnce(before, m);
    case Released(before, _) => AllocatedOnce(before, m);
  }

  lemma RepeatCounts<T>(s: seq<T>, i: nat, j: nat)
    requires i < j < |s| && s[i] == s[j]
    ensures multiset(s)[s[i]] >= 2
  {
    Split(s, j);
    assert s[..j][i] == s[i] && s[j..][0] == s[j];
  }

  lemma NoRepeats<T>(s: seq<T>, all: multiset<T>)
    requires multiset(s) <= all && forall m :: m in s ==> all[m] <= 1
    ensures Distinct(s)
  {
    forall i, j | 0 <= i < j < |s| ensures s[i] != s[j] {
      if s[i] == s[j] {
        RepeatCounts(s, i, j);
      }
    }
  }

  /** So what lives is pairwise distinct and none of it has been freed. */
  lemma LiveIsNotFreed<T>(run: Run<T>)
    requires Unrepeated(run)
    ensures Distinct(Live(run)) && Distinct(Freed(run)) && forall m :: m in Live(run) ==> m !in Freed(run)
  {
    var live, freed := Live(run), Freed(run);
    Conservation(run);
    forall m | m in live + freed ensures Allocated(run)[m] <= 1 {
      AllocatedOnce(run, m);
    }
    assert forall m :: m in live ==> m in live + freed;
    assert forall m :: m in freed ==> m in live + freed;
    NoRepeats(live, Allocated(run));
    NoRepeats(freed, Allocated(run));
    forall m | m in live ensures m !in freed {
      assert m in multiset(live);
      assert m in freed ==> m in multiset(freed);
    }
  }

  lemma ConsChain(nodes: seq<Node>, live: seq<Block>, node: Node)
    requires Chain(nodes, live, node.next) && node !in nodes
    ensures Chain([node] + nodes, [node.matrix] + live, node)
  {
    assert ([node] + nodes)[1..] == nodes && ([node.matrix] + live)[1..] == live;
  }

  /** Where the n-th node's predecessor is cut off, the list ends. */
  lemma CutChain(all: seq<Node>, live: seq<Block>, n: nat)
    requires n <= |all| == |live| && Distinct(all)
    requires forall k :: 0 <= k < n ==>
      all[k].next == (if k + 1 == n then null else At(all, k + 1)) && all[k].matrix == live[k]
    ensures Chain(all[..n], live[..n], At(all[..n], 0))
  {
    ChainIsLinked(all[..n], live[..n], At(all[..n], 0));
  }

  class MemoryList {
    var head: Node?
    ghost var nodes: seq<Node>
    /** The live matrices, newest first. */
    ghost var live: seq<Block>
    /** Every matrix that has been freed, in order. */
    ghost var freed: seq<Block>
    /** The calls that have led here. */
    ghost var run: Run<Block>

    ghost predicate Valid()
      reads this, nodes
    {
      Chain(nodes, live, head) && Unrepeated(run) && Live(run) == live && Freed(run) == freed
    }

    constructor ()
      ensures Valid() && live == [] && freed == [] && nodes == [] && run == Started
    {
      head, nodes, live, freed, run := null, [], [], [], Started;
    }

    /** What lives is pairwise distinct and has not been freed. */
    lemma Separate()
      requires Valid()
      ensures Distinct(live) && Distinct(freed) && forall m :: m in live ==> m !in freed
    {
      LiveIsNotFreed(run);
    }

    /** A new matrix, put at the front. */
    method Apply(data: seq<real>) returns (m: Block)
      requires Valid()
      modifies this
      ensures Valid() && live == [m] + old(live) && freed == old(freed)
      ensures fresh(m) && m.data == data
      ensures |nodes| == |old(nodes)| + 1 && nodes[1..] == old(nodes) && fresh(nodes[0])
      ensures forall k :: 0 <= k < |nodes| ==> nodes[k] in old(nodes) || fresh(nodes[k])
      ensures run == Applied(old(run), m)
    {
      m := new Block(data);
      var node := new Node(m, head);
      ConsChain(nodes, live, node);
      Conservation(run);
      assert m !in multiset(freed) && m !in multiset(live);
      head := node;
      nodes, live, run := [node] + nodes, [m] + live, Applied(run, m);
    }

    method Length() returns (n: nat)
      requires Valid()
      ensures n == |live|
    {
      n := 0;
      ChainIsLinked(nodes, live, head);
      var node := head;
      while node != null
        invariant n <= |nodes| && node == At(nodes, n)
        decreases |nodes| - n
      {
        assert nodes[n].next == At(nodes, n + 1);
        node := node.next;
        n := n + 1;
      }
    }

    /** The walk over the nodes that stay: the last one of them and the one after it. */
    method Skip(num: int) returns (prior: Node?, posterior: Node?, ghost n: nat)
      requires Valid()
      ensures n <= |nodes| && posterior == At(nodes, n)
      ensures if n == 0 then prior == null else prior == nodes[n - 1]
      ensures n == if num <= 0 then 0 else if num <= |nodes| then num else |nodes|
    {
      posterior, prior, n := head, null, 0;
      ChainIsLinked(nodes, live, head);
      var i := 0;
      while i < num && posterior != null
        invariant 0 <= i == n <= |nodes| && (num <= 0 ==> i == 0) && (num > 0 ==> i <= num)
        invariant posterior == At(nodes, i) && if i > 0 then prior == nodes[i - 1] else prior == null
        decreases |nodes| - i
      {
        assert nodes[i].next == At(nodes, i + 1);
        prior := posterior;
        posterior := posterior.next;
        i, n := i + 1, n + 1;
      }
    }

    /** Frees the nodes from the n-th one on; gives what has been freed. */
    method FreeFrom(first: Node?, ghost all: seq<Node>, ghost matrices: seq<Block>, ghost n: nat)
        returns (ghost gone: seq<Block>)
      requires n <= |all| == |matrices| && first == At(all, n)
      requires forall k :: n <= k < |all| ==> all[k].next == At(all, k + 1) && all[k].matrix == matrices[k]
      ensures gone == matrices[n..]
    {
      gone := [];
      var posterior := first;
      ghost var j := n;
      while posterior != null
        invariant n <= j <= |all| && posterior == At(all, j) && |gone| == j - n
        invariant forall k :: 0 <= k < |gone| ==> gone[k] == matrices[n + k]
        decreases |all| - j
      {
        assert all[j].next == At(all, j + 1) && all[j].matrix == matrices[j];
        gone := gone + [posterior.matrix];
        posterior := posterior.next;
        j := j + 1;
      }
    }

    /** Ends the list before its n-th node. */
    method CutBefore(prior: Node?, ghost n: nat)
      requires Valid() && n <= |nodes| && if n == 0 then prior == null else prior == nodes[n - 1]
      modifies this`head, nodes
      ensures |live| == |nodes| && Chain(nodes[..n], live[..n], head)
      ensures forall k :: n <= k < |nodes| ==> nodes[k].next == At(nodes, k + 1) && nodes[k].matrix == live[k]
    {
      ChainIsLinked(nodes, live, head);
      assert forall k :: 0 <= k < |nodes| ==> nodes[k].next == At(nodes, k + 1);
      if prior == null { head := null; } else { prior.next := null; }
      assert forall k :: 0 <= k < |nodes| ==> nodes[k].next == if k + 1 == n then null else At(nodes, k + 1);
      CutChain(nodes, live, n);
    }

    /** Records the release of all nodes from the n-th one on. */
    ghost method Settle(num: int, n: nat, gone: seq<Block>)
      requires n <= |nodes| == |live| && Chain(nodes[..n], live[..n], head) && live[..n] == Kept(live, num)
      requires Unrepeated(run) && Live(run) == live && Freed(run) == freed && gone == live[n..]
      modifies this`nodes, this`live, this`freed, this`run
      ensures Valid() && live == old(live[..n]) && nodes == old(nodes[..n])
      ensures freed == old(freed) + gone && run == Released(old(run), num)
    {
      nodes, live, freed, run := nodes[..n], live[..n], freed + gone, Released(run, num);
    }

    /** Keeps the newest matrices and frees all the others, in the order of the list. */
    method Release(num: int)
      requires Valid()
      modifies this, nodes
      ensures Valid() && live == Kept(old(live), num) && |nodes| == |live|
      ensures live == old(live)[..if num <= 0 then 0 else if num <= |old(live)| then num else |old(live)|]
      ensures |nodes| <= |old(nodes)| && nodes == old(nodes)[..|nodes|]
      ensures freed == old(freed) + old(live)[|live|..] && run == Released(old(run), num)
    {
      ChainIsLinked(nodes, live, head);
      var prior, posterior, n := Skip(num);
      CutBefore(prior, n);
      var gone := FreeFrom(posterior, nodes, live, n);
      Settle(num, n, gone);
    }
  }
}
