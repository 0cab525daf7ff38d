/** Tree construction (`buildEncodingTree`): one leaf per table entry goes into
    a minimum priority queue keyed by weight; the two lightest entries are
    merged under a new node until one entry is left.

    The priority queue is a sequence kept sorted by weight. An entry joins
    behind every entry of equal or smaller weight, so equal weights leave in
    arrival order (first in, first out). The leaves arrive in the order in which
    the table lists its keys (`Rank`). */
module TreeBuilder {
  import opened HuffmanTypes

  predicate Sorted(q: seq<Tree>) {
    forall i, j :: 0 <= i < j < |q| ==> q[i].weight <= q[j].weight
  }

  /** Number of queue entries that stay ahead of `t` when it is enqueued. */
  function Position(q: seq<Tree>, t: Tree): (k: nat)
    ensures k <= |q|
  {
    if q == [] || t.weight < q[0].weight then 0 else 1 + Position(q[1..], t)
  }

  /** `pq.enqueue(t, t.weight)`. */
  function Enqueue(q: seq<Tree>, t: Tree): (r: seq<Tree>)
    ensures |r| == |q| + 1
  {
    if q == [] || t.weight < q[0].weight then [t] + q else [q[0]] + Enqueue(q[1..], t)
  }

  /** The new entry is spliced in at `Position`; nothing else moves. */
  lemma {:induction false} EnqueueSplices(q: seq<Tree>, t: Tree)
    ensures Enqueue(q, t) == q[..Position(q, t)] + [t] + q[Position(q, t)..]
    decreases |q|
  {
    if q != [] && t.weight >= q[0].weight {
      EnqueueSplices(q[1..], t);
      assert q[1..][..Position(q[1..], t)] == q[1..Position(q, t)];
      assert q[1..][Position(q[1..], t)..] == q[Position(q, t)..];
      assert q[..Position(q, t)] == [q[0]] + q[1..Position(q, t)];
    }
  }

  /** When the queue is sorted, everything ahead of the new entry weighs no
      more than it and everything behind it weighs more: ties are first in,
      first out. */
  lemma {:induction false} EnqueueIsFifo(q: seq<Tree>, t: Tree)
    requires Sorted(q)
    ensures Enqueue(q, t) == q[..Position(q, t)] + [t] + q[Position(q, t)..]
    ensures forall i :: 0 <= i < Position(q, t) ==> q[i].weight <= t.weight
    ensures forall i :: Position(q, t) <= i < |q| ==> t.weight < q[i].weight
    decreases |q|
  {
    EnqueueSplices(q, t);
    if q != [] && t.weight >= q[0].weight {
      EnqueueIsFifo(q[1..], t);
    }
  }

  /** Enqueuing an entry no lighter than `w` into a queue no lighter than `w`
      gives a queue no lighter than `w`. */
  lemma {:induction false} EnqueueAbove(q: seq<Tree>, t: Tree, w: int)
    requires forall i :: 0 <= i < |q| ==> w <= q[i].weight
    requires w <= t.weight
    ensures forall i :: 0 <= i < |Enqueue(q, t)| ==> w <= Enqueue(q, t)[i].weight
    decreases |q|
  {
    var r := Enqueue(q, t);
    if q == [] || t.weight < q[0].weight {
      assert forall i :: 1 <= i < |r| ==> r[i] == q[i - 1];
    } else {
      EnqueueAbove(q[1..], t, w);
      assert forall i :: 1 <= i < |r| ==> r[i] == Enqueue(q[1..], t)[i - 1];
    }
  }

  lemma {:induction false} EnqueueSorted(q: seq<Tree>, t: Tree)
    requires Sorted(q)
    ensures Sorted(Enqueue(q, t))
    decreases |q|
  {
    var r := Enqueue(q, t);
    if q == [] || t.weight < q[0].weight {
      assert forall i :: 1 <= i < |r| ==> r[i] == q[i - 1];
    } else {
      var tail := Enqueue(q[1..], t);
      EnqueueSorted(q[1..], t);
      EnqueueAbove(q[1..], t, q[0].weight);
      assert forall i :: 1 <= i < |r| ==> r[i] == tail[i - 1];
    }
  }

  /** The leaves of every tree in a queue. */
  function QueueEntries(q: seq<Tree>): multiset<(Symbol, nat)> {
    if q == [] then multiset{} else LeafEntries(q[0]) + QueueEntries(q[1..])
  }

  /** The summed weight of a queue. */
  function QueueWeight(q: seq<Tree>): nat {
    if q == [] then 0 else q[0].weight + QueueWeight(q[1..])
  }

  predicate AllWellWeighted(q: seq<Tree>) {
    forall i :: 0 <= i < |q| ==> WellWeighted(q[i])
  }

  lemma {:induction false} EnqueueKeeps(q: seq<Tree>, t: Tree)
    ensures QueueEntries(Enqueue(q, t)) == LeafEntries(t) + QueueEntries(q)
    ensures QueueWeight(Enqueue(q, t)) == t.weight + QueueWeight(q)
    ensures AllWellWeighted(q) && WellWeighted(t) ==> AllWellWeighted(Enqueue(q, t))
    decreases |q|
  {
    var r := Enqueue(q, t);
    if q == [] || t.weight < q[0].weight {
      assert r[1..] == q;
    } else {
      EnqueueKeeps(q[1..], t);
      assert r[1..] == Enqueue(q[1..], t);
    }
  }

  /** One pass of the loop: dequeue the lightest entry as the zero child, the
      next as the one child, and enqueue their parent with the summed weight. */
  function Merge(q: seq<Tree>): (r: seq<Tree>)
    requires |q| >= 2
    ensures |r| == |q| - 1
  {
    Enqueue(q[2..], Node(q[0], q[1], q[0].weight + q[1].weight))
  }

  /** The merge takes the two lightest entries, the first dequeued becoming
      the zero child, and splices their parent into the rest of the queue;
      nothing else moves. */
  lemma MergeTakesLightest(q: seq<Tree>)
    requires |q| >= 2 && Sorted(q)
    ensures var parent, k := Node(q[0], q[1], q[0].weight + q[1].weight), Position(q[2..], Node(q[0], q[1], q[0].weight + q[1].weight));
      Merge(q) == q[2..][..k] + [parent] + q[2..][k..]
    ensures Node(q[0], q[1], q[0].weight + q[1].weight) in Merge(q)
    ensures forall i :: 1 <= i < |q| ==> q[0].weight <= q[i].weight
    ensures forall i :: 2 <= i < |q| ==> q[1].weight <= q[i].weight
  {
    var parent := Node(q[0], q[1], q[0].weight + q[1].weight);
    var rest := q[2..];
    EnqueueSplices(rest, parent);
    assert Merge(q)[Position(rest, parent)] == parent;
  }

  /** The merge keeps the queue sorted, its leaves and its summed weight. */
  lemma MergeKeeps(q: seq<Tree>)
    requires |q| >= 2 && Sorted(q)
    ensures Sorted(Merge(q))
    ensures QueueEntries(Merge(q)) == QueueEntries(q)
    ensures QueueWeight(Merge(q)) == QueueWeight(q)
    ensures AllWellWeighted(q) ==> AllWellWeighted(Merge(q))
  {
    var parent := Node(q[0], q[1], q[0].weight + q[1].weight);
    var rest := q[2..];
    assert Sorted(rest);
    EnqueueSorted(rest, parent);
    EnqueueKeeps(rest, parent);
    QueueUnfoldTwo(q);
  }

  /** The first two entries of a queue and the rest. */
  lemma QueueUnfoldTwo(q: seq<Tree>)
    requires |q| >= 2
    ensures QueueEntries(q) == LeafEntries(q[0]) + LeafEntries(q[1]) + QueueEntries(q[2..])
    ensures QueueWeight(q) == q[0].weight + q[1].weight + QueueWeight(q[2..])
    ensures AllWellWeighted(q) ==> AllWellWeighted(q[2..]) && WellWeighted(q[0]) && WellWeighted(q[1])
  {
    assert q[1..][1..] == q[2..];
  }

  /** The loop `while (pq.size() != 1)` and the final dequeue. */
  function MergeAll(q: seq<Tree>): Tree
    requires |q| >= 1
    decreases |q|
  {
    if |q| == 1 then q[0] else MergeAll(Merge(q))
  }

  lemma {:induction false} MergeAllKeeps(q: seq<Tree>)
    requires |q| >= 1 && Sorted(q) && AllWellWeighted(q)
    ensures WellWeighted(MergeAll(q))
    ensures LeafEntries(MergeAll(q)) == QueueEntries(q)
    ensures MergeAll(q).weight == QueueWeight(q)
    decreases |q|
  {
    if |q| == 1 {
      assert q[1..] == [];
    } else {
      MergeKeeps(q);
      MergeAllKeeps(Merge(q));
    }
  }

  /** The queue after enqueuing a leaf for each table entry at position `i` or later. */
  function EnqueueFrom(table: FrequencyTable, i: nat, q: seq<Tree>): seq<Tree>
    requires i <= SymbolCount
    decreases SymbolCount - i
  {
    if i == SymbolCount then q
    else
      var s := SymbolAt(i);
      EnqueueFrom(table, i + 1, if s in table then Enqueue(q, Leaf(s, table[s])) else q)
  }

  /** The queue once every table entry has been added as a leaf. */
  function InitialQueue(table: FrequencyTable): seq<Tree> {
    EnqueueFrom(table, 0, [])
  }

  lemma {:induction false} EnqueueFromKeeps(table: FrequencyTable, i: nat, q: seq<Tree>)
    requires i <= SymbolCount
    requires Sorted(q) && AllWellWeighted(q)
    ensures Sorted(EnqueueFrom(table, i, q)) && AllWellWeighted(EnqueueFrom(table, i, q))
    ensures QueueEntries(EnqueueFrom(table, i, q)) == EntriesFrom(table, i) + QueueEntries(q)
    ensures QueueWeight(EnqueueFrom(table, i, q)) == TotalFrom(table, i) + QueueWeight(q)
    ensures |EnqueueFrom(table, i, q)| >= |q|
    decreases SymbolCount - i
  {
    if i < SymbolCount {
      var s := SymbolAt(i);
      if s in table {
        EnqueueKeeps(q, Leaf(s, table[s]));
        EnqueueSorted(q, Leaf(s, table[s]));
      }
      EnqueueFromKeeps(table, i + 1, if s in table then Enqueue(q, Leaf(s, table[s])) else q);
    }
  }

  /** The initial queue is sorted, holds exactly one leaf per table entry and
      weighs the sum of the table's counts. */
  lemma InitialQueueSpec(table: FrequencyTable)
    ensures Sorted(InitialQueue(table)) && AllWellWeighted(InitialQueue(table))
    ensures QueueEntries(InitialQueue(table)) == Entries(table)
    ensures QueueWeight(InitialQueue(table)) == Total(table)
  {
    EnqueueFromKeeps(table, 0, []);
  }

  /** The queue is empty exactly when the table is. */
  lemma InitialQueueEmpty(table: FrequencyTable)
    ensures InitialQueue(table) == [] <==> table == map[]
  {
    EnqueueFromKeeps(table, 0, []);
    var q := InitialQueue(table);
    if table != map[] {
      var s :| s in table;
      EntriesCount(table, s, table[s]);
      QueueEntriesNonEmpty(q);
    } else {
      EntriesEmpty(0);
      QueueEntriesNonEmpty(q);
    }
  }

  lemma QueueEntriesNonEmpty(q: seq<Tree>)
    ensures q == [] <==> QueueEntries(q) == multiset{}
  {
    if q != [] {
      LeafEntriesNonEmpty(q[0]);
    }
  }

  lemma {:induction false} EntriesEmpty(i: nat)
    requires i <= SymbolCount
    ensures EntriesFrom(map[], i) == multiset{}
    decreases SymbolCount - i
  {
    if i < SymbolCount {
      EntriesEmpty(i + 1);
    }
  }

  lemma {:induction false} LeafEntriesNonEmpty(t: Tree)
    ensures LeafEntries(t) != multiset{}
  {
    match t
    case Leaf(s, w) =>
      assert (s, w) in LeafEntries(t);
    case Node(z, o, _) =>
      LeafEntriesNonEmpty(z);
  }

  /** The tree `buildEncodingTree` returns for a table; an empty table leaves
      nothing to dequeue. */
  function BuildTree(table: FrequencyTable): (r: Result<Tree>)
    ensures r.Success? <==> table != map[]
  {
    InitialQueueEmpty(table);
    var q := InitialQueue(table);
    if q == [] then Failure(EmptyTable) else Success(MergeAll(q))
  }

  /** Every internal node of the built tree weighs the sum of its children, its
      leaves are exactly the table's entries, each once and with its count as
      weight, and the root weighs the sum of all counts. */
  lemma BuildTreeSpec(table: FrequencyTable)
    requires table != map[]
    ensures WellWeighted(BuildTree(table).value)
    ensures LeafEntries(BuildTree(table).value) == Entries(table)
    ensures BuildTree(table).value.weight == Total(table)
  {
    InitialQueueSpec(table);
    InitialQueueEmpty(table);
    MergeAllKeeps(InitialQueue(table));
  }

  /** The leaf symbols of the built tree are exactly the table's keys. */
  lemma BuildTreeSymbols(table: FrequencyTable)
    requires table != map[]
    ensures LeafSymbols(BuildTree(table).value) == table.Keys
  {
    var t := BuildTree(table).value;
    BuildTreeSpec(table);
    forall s
      ensures s in LeafSymbols(t) <==> s in table
    {
      LeafSymbolsOfEntries(t, s);
      if s in table {
        EntriesCount(table, s, table[s]);
      }
      if s in LeafSymbols(t) {
        var c :| (s, c) in LeafEntries(t);
        EntriesCount(table, s, c);
      }
    }
  }

  lemma {:induction false} EnqueueFromSingle(s: Symbol, c: nat, i: nat)
    requires i <= SymbolCount
    ensures EnqueueFrom(map[s := c], i, []) == if Rank(s) >= i then [Leaf(s, c)] else []
    ensures Rank(s) < i ==> EnqueueFrom(map[s := c], i, [Leaf(s, c)]) == [Leaf(s, c)]
    decreases SymbolCount - i
  {
    if i < SymbolCount {
      EnqueueFromSingle(s, c, i + 1);
      if Rank(s) == i {
        SymbolAtRank(s);
        assert Enqueue([], Leaf(s, c)) == [Leaf(s, c)];
      }
    }
  }

  /** A table with a single entry never enters the merge loop: the single leaf
      is the root (the empty input, whose table is {EOF: 1}). */
  lemma BuildTreeSingle(s: Symbol, c: nat)
    ensures BuildTree(map[s := c]) == Success(Leaf(s, c))
  {
    EnqueueFromSingle(s, c, 0);
  }

  /** Runs the source's two loops over a queue held in a local variable. */
  method BuildEncodingTree(table: FrequencyTable) returns (r: Result<Tree>)
    ensures r == BuildTree(table)
  {
    var pq: seq<Tree> := [];
    var i := 0;
    while i < SymbolCount
      invariant 0 <= i <= SymbolCount
      invariant EnqueueFrom(table, i, pq) == InitialQueue(table)
    {
      var s := SymbolAt(i);
      if s in table {
        pq := Enqueue(pq, Leaf(s, table[s]));
      }
      i := i + 1;
    }
    if pq == [] {
      return Failure(EmptyTable);
    }
    while |pq| != 1
      invariant |pq| >= 1
      invariant MergeAll(pq) == MergeAll(InitialQueue(table))
      decreases |pq|
    {
      var zero := pq[0];
      var one := pq[1];
      pq := Enqueue(pq[2..], Node(zero, one, zero.weight + one.weight));
    }
    return Success(pq[0]);
  }
}
