/** The sorted linked list that serves as the Huffman coder's priority queue. */
module HuffmanQueue {
  import opened Bytes
  import opened HuffmanOptimality

  /** A coding tree. Frequencies are 32-bit words, and an inner node holds their wrapped sum. */
  datatype Tree =
    | Leaf(symbol: byte, freq: u32)
    | Node(freq: u32, left: Tree, right: Tree)

  function Merge(l: Tree, r: Tree): Tree
  {
    Node((l.freq + r.freq) % 0x1_0000_0000, l, r)
  }

  function Weights(ts: seq<Tree>): (ws: seq<nat>)
    ensures |ws| == |ts| && forall i :: 0 <= i < |ts| ==> ws[i] == ts[i].freq
  {
    seq(|ts|, i requires 0 <= i < |ts| => ts[i].freq)
  }

  predicate SortedTrees(ts: seq<Tree>)
  {
    Sorted(Weights(ts))
  }

  function Enqueue(ts: seq<Tree>, t: Tree): (r: seq<Tree>)
    ensures |r| == |ts| + 1
  {
    InsertAt(ts, InsertPos(Weights(ts), t.freq), t)
  }

  lemma EnqueueKeepsSorted(ts: seq<Tree>, t: Tree)
    requires SortedTrees(ts)
    ensures SortedTrees(Enqueue(ts, t))
  {
    InsertKeepsSorted(Weights(ts), t.freq);
    assert Weights(Enqueue(ts, t)) == InsertAt(Weights(ts), InsertPos(Weights(ts), t.freq), t.freq);
  }

  /** Where a tree goes: in front of a heavier head; otherwise behind the head and all lighter trees that follow it
      without a gap, so in front of those of equal weight except the head. */
  lemma EnqueuePlace(ts: seq<Tree>, t: Tree) returns (k: nat)
    ensures k <= |ts| && Enqueue(ts, t) == ts[..k] + [t] + ts[k..]
    ensures k == 0 <==> ts == [] || ts[0].freq > t.freq
    ensures forall i :: 1 <= i < k ==> ts[i].freq < t.freq
    ensures 0 < k < |ts| ==> ts[k].freq >= t.freq
  {
    k := InsertPos(Weights(ts), t.freq);
  }

  /** There is only one such place. */
  lemma EnqueueAt(ts: seq<Tree>, t: Tree, k: nat)
    requires k <= |ts| && (k == 0 <==> ts == [] || ts[0].freq > t.freq)
    requires forall i :: 1 <= i < k ==> ts[i].freq < t.freq
    requires 0 < k < |ts| ==> ts[k].freq >= t.freq
    ensures Enqueue(ts, t) == ts[..k] + [t] + ts[k..]
  {
    hide Enqueue;
    var j := EnqueuePlace(ts, t);
    assert j == k;
  }

  lemma PassLighter(ws: seq<nat>, x: nat, k: nat)
    requires k <= |ws|
    ensures FirstNotLighter(ws, x, k)
         == if k < |ws| && ws[k] < x then FirstNotLighter(ws, x, k + 1) else k
  {
  }

  class QueueCell {
    const node: Tree
    var next: QueueCell?

    constructor (node: Tree)
      ensures this.node == node && next == null
    {
      this.node := node;
      next := null;
    }
  }

  ghost function CellAt(cells: seq<QueueCell>, i: nat): QueueCell?
  {
    if i < |cells| then cells[i] else null
  }

  ghost function TreesOf(cells: seq<QueueCell>): (ts: seq<Tree>)
    ensures |ts| == |cells| && forall i :: 0 <= i < |cells| ==> ts[i] == cells[i].node
  {
    seq(|cells|, i requires 0 <= i < |cells| => cells[i].node)
  }

  lemma TreesOfInsertAt(cells: seq<QueueCell>, k: nat, c: QueueCell)
    requires k <= |cells|
    ensures TreesOf(InsertAt(cells, k, c)) == InsertAt(TreesOf(cells), k, c.node)
    ensures forall x <- InsertAt(cells, k, c) :: x == c || x in cells
  {
  }

  class MinQueue {
    var head: QueueCell?
    ghost var cells: seq<QueueCell>

    ghost predicate Valid()
      reads this, cells
    {
      && (forall i, j :: 0 <= i < j < |cells| ==> cells[i] != cells[j])
      && head == CellAt(cells, 0)
      && forall i :: 0 <= i < |cells| ==> cells[i].next == CellAt(cells, i + 1)
    }

    ghost function Trees(): (ts: seq<Tree>)
      reads this
    {
      TreesOf(cells)
    }

    constructor ()
      ensures Valid() && Trees() == [] && fresh(cells)
    {
      head := null;
      cells := [];
    }

    method ExtractMin() returns (r: Option<Tree>)
      requires Valid()
      modifies this
      ensures Valid()
      ensures old(Trees()) == [] ==> r == None && Trees() == []
      ensures old(Trees()) != [] ==> r == Some(old(Trees())[0]) && Trees() == old(Trees())[1..]
      ensures old(cells) != [] ==> cells == old(cells)[1..]
      ensures old(cells) == [] ==> cells == []
    {
      if head == null {
        return None;
      }
      ghost var ts := Trees();
      ghost var old_cells := cells;
      r := Some(head.node);
      head := head.next;
      cells := cells[1..];
      assert forall i :: 0 <= i < |cells| ==> cells[i] == old_cells[i + 1];
      assert Trees() == ts[1..];
    }

    /** Links newCell behind cur, or in front of everything when cur is null. */
    method Splice(cur: QueueCell?, newCell: QueueCell, ghost k: nat)
      requires Valid() && k <= |cells| && newCell !in cells
      requires cur == (if k == 0 then null else cells[k - 1])
      modifies this, newCell, if cur == null then {} else {cur}
      ensures Valid() && cells == InsertAt(old(cells), k, newCell)
    {
      ghost var was := cells;
      if cur == null {
        newCell.next := head;
        head := newCell;
      } else {
        newCell.next := cur.next;
        cur.next := newCell;
      }
      cells := InsertAt(was, k, newCell);
      forall i | 0 <= i < |cells|
        ensures cells[i].next == CellAt(cells, i + 1)
      {
        assert i < k ==> cells[i] == was[i];
        assert i > k ==> cells[i] == was[i - 1];
      }
    }

    /** The cell after which a node of the given frequency belongs; null for the front. */
    method FindPlace(freq: u32) returns (cur: QueueCell?, ghost k: nat)
      requires Valid()
      ensures k == InsertPos(Weights(Trees()), freq)
      ensures cur == (if k == 0 then null else cells[k - 1])
    {
      hide FirstNotLighter;
      ghost var ws := Weights(Trees());
      if head == null || head.node.freq > freq {
        return null, 0;
      }
      cur := head;
      k := 1;
      while cur.next != null && cur.next.node.freq < freq
        invariant 1 <= k <= |cells| && cur == cells[k - 1]
        invariant FirstNotLighter(ws, freq, k) == FirstNotLighter(ws, freq, 1)
        decreases |cells| - k
      {
        PassLighter(ws, freq, k);
        cur := cur.next;
        k := k + 1;
      }
      PassLighter(ws, freq, k);
    }

    method Insert(node: Tree)
      requires Valid()
      modifies this, cells
      ensures Valid() && Trees() == Enqueue(old(Trees()), node)
      ensures fresh(set c <- cells | c !in old(cells))
    {
      var newCell := new QueueCell(node);
      var cur, k := FindPlace(node.freq);
      TreesOfInsertAt(cells, k, newCell);
      Splice(cur, newCell, k);
    }
  }
}
