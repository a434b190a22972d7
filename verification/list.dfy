/**
 * The ADT List: a singly linked list that starts with a dummy node, with a
 * pointer to the last node and a size counter.  The C list holds strings; the
 * model keeps the element type `T` as a parameter and is used with `string`.
 *
 * The abstract value of a list is the ghost sequence `Contents`.  The ghost
 * sequence `Nodes` is the chain of nodes from the dummy node (`Nodes[0]`) to
 * the last one, so the string at position `k` sits in `Nodes[k + 1]`;
 * `Valid()` ties both sequences to the `next` pointers, to `last` and to
 * `size`.  A NULL node (NIL_NODE) is `null`, a NULL string is `None`.
 */
module Lists {
  import opened Wrappers

  /** A list node: an element and the pointer to the next node. */
  class Node<T(0)> {
    var str: T
    var next: Node?<T>

    /** list_aux_new_node: a node holding `s` that points to `n`. */
    constructor (s: T, n: Node?<T>)
      ensures str == s && next == n
    {
      str, next := s, n;
    }

    /** list_aux_new_node(NULL, NIL_NODE): the dummy node, whose string is never read. */
    constructor Dummy()
      ensures next == null
    {
      next := null;
    }
  }

  /** No node occurs twice in a chain. */
  ghost predicate Distinct<T(0)>(nodes: seq<Node<T>>)
  {
    forall i, j :: 0 <= i < j < |nodes| ==> nodes[i] != nodes[j]
  }

  /** Index facts about a sequence with `x` spliced in at position `k`. */
  lemma SpliceIn<T>(before: seq<T>, k: nat, x: T, after: seq<T>)
    requires k <= |before| && after == before[..k] + [x] + before[k..]
    ensures |after| == |before| + 1 && after[k] == x
    ensures forall i :: 0 <= i < k ==> after[i] == before[i]
    ensures forall i :: k < i < |after| ==> after[i] == before[i - 1]
  {
  }

  /** Splicing a node that is not in a chain keeps it free of repetitions. */
  lemma SpliceInDistinct<T(0)>(before: seq<Node<T>>, k: nat, added: Node<T>, after: seq<Node<T>>)
    requires k <= |before| && after == before[..k] + [added] + before[k..]
    requires added !in before && Distinct(before)
    ensures Distinct(after)
  {
  }

  /** Index facts about a sequence with its element at position `k` removed. */
  lemma SpliceOut<T>(before: seq<T>, k: nat, after: seq<T>)
    requires k < |before| && after == before[..k] + before[k + 1..]
    ensures |after| == |before| - 1
    ensures forall i :: 0 <= i < k ==> after[i] == before[i]
    ensures forall i :: k <= i < |after| ==> after[i] == before[i + 1]
  {
  }

  /**
   * A chain with a node spliced in after position `k`: the strings line up,
   * and every link but the one out of position `k` is already in place.
   */
  lemma ChainIn<T(0)>(before: seq<Node<T>>, strs: seq<T>, k: nat, added: Node<T>, nodes: seq<Node<T>>, strs': seq<T>)
    requires |before| == |strs| + 1 && k < |before|
    requires forall i :: 0 <= i < |strs| ==> before[i + 1].str == strs[i]
    requires forall i :: 0 <= i < |before| - 1 ==> before[i].next == before[i + 1]
    requires added.next == (if k + 1 < |before| then before[k + 1] else null)
    requires nodes == before[..k + 1] + [added] + before[k + 1..]
    requires strs' == strs[..k] + [added.str] + strs[k..]
    ensures |nodes| == |strs'| + 1 && nodes[k] == before[k] && nodes[k + 1] == added
    ensures forall i :: 0 <= i < |strs'| ==> nodes[i + 1].str == strs'[i]
    ensures forall i :: 0 <= i < |nodes| - 1 && i != k ==> nodes[i].next == nodes[i + 1]
  {
    SpliceIn(before, k + 1, added, nodes);
    SpliceIn(strs, k, added.str, strs');
    forall i | 0 <= i < |strs'|
      ensures nodes[i + 1].str == strs'[i]
    {
      if i < k {
        assert nodes[i + 1] == before[i + 1];
      } else if i > k {
        assert nodes[i + 1] == before[i];
      }
    }
    forall i | 0 <= i < |nodes| - 1 && i != k
      ensures nodes[i].next == nodes[i + 1]
    {
      if i < k {
        assert before[i].next == before[i + 1];
      } else if i > k + 1 {
        assert before[i - 1].next == before[i];
      }
    }
  }

  /** Removing a node from a chain without repetitions leaves one without it. */
  lemma SpliceOutDistinct<T(0)>(before: seq<Node<T>>, k: nat, after: seq<Node<T>>)
    requires k < |before| && after == before[..k] + before[k + 1..] && Distinct(before)
    ensures Distinct(after) && before[k] !in after
  {
  }

  class List<T(0,==)> {
    var dummy: Node<T>
    var last: Node<T>
    var size: nat

    /** The strings held by the list, first to last. */
    ghost var Contents: seq<T>
    /** The dummy node followed by the nodes holding `Contents`. */
    ghost var Nodes: seq<Node<T>>
    ghost var Repr: set<object>

    ghost predicate Valid()
      reads this, Repr
      ensures Valid() ==> this in Repr
    {
      && this in Repr
      && (forall k :: 0 <= k < |Nodes| ==> Nodes[k] in Repr)
      && |Nodes| == |Contents| + 1 && size == |Contents|
      && Nodes[0] == dummy
      && Distinct(Nodes)
      && (forall k :: 0 <= k < |Contents| ==> Nodes[k + 1].str == Contents[k])
      && (forall i :: 0 <= i < |Nodes| - 1 ==> Nodes[i].next == Nodes[i + 1])
      && last == Nodes[|Nodes| - 1] && last.next == null
    }

    /** The position of the string held by a node of the list. */
    ghost function IndexOf(node: Node<T>): (k: nat)
      reads this, Repr
      requires Valid() && node in Nodes[1..]
      ensures k < |Contents| && Nodes[k + 1] == node
      ensures forall p :: 0 <= p < |Nodes| && Nodes[p] == node ==> p == k + 1
    {
      var p :| 1 <= p < |Nodes| && Nodes[p] == node; p - 1
    }

    /** The position a string inserted after `node` takes (NIL_NODE and the dummy mean the head). */
    ghost function InsertPos(node: Node?<T>): (k: nat)
      reads this, Repr
      requires Valid() && (node == null || node in Nodes)
      ensures k <= |Contents|
      ensures node == null ==> k == 0
      ensures node != null ==> Nodes[k] == node
    {
      if node == null || node == dummy then 0 else IndexOf(node) + 1
    }

    /** list_create: an empty list, made of its dummy node alone. */
    constructor ()
      ensures Valid() && fresh(Repr)
      ensures Contents == [] && Nodes == [dummy] && last == dummy
    {
      var d := new Node.Dummy();
      dummy, last := d, d;
      size := 0;
      Contents, Nodes := [], [d];
      new;
      Repr := {this, d};
    }

    /** list_size */
    function Size(): (r: nat)
      reads this, Repr
      requires Valid()
      ensures r == |Contents|
    {
      size
    }

    /** list_is_empty */
    function IsEmpty(): (r: bool)
      reads this, Repr
      requires Valid()
      ensures r <==> Contents == []
    {
      size == 0
    }

    /** list_begin: the first node, or NIL_NODE for an empty list. */
    function Begin(): (r: Node?<T>)
      reads this, Repr
      requires Valid()
      ensures Contents == [] ==> r == null
      ensures Contents != [] ==> r == Nodes[1]
    {
      if IsEmpty() then null else dummy.next
    }

    /** list_end: the end-signalling node, NIL_NODE. */
    function End(): (r: Node?<T>)
      ensures r == null
    {
      null
    }

    /** list_next: the node after `node`; after the last node this is End(). */
    function Next(node: Node?<T>): (r: Node?<T>)
      reads this, Repr
      requires Valid() && (node == null || node in Nodes[1..])
      ensures node == null ==> r == null
      ensures node != null ==>
        var k := IndexOf(node); r == if k + 1 < |Contents| then Nodes[k + 2] else null
    {
      if node == null then null else node.next
    }

    /** list_access: the string of a node, NULL for NIL_NODE. */
    function Access(node: Node?<T>): (r: Option<T>)
      reads this, Repr
      requires Valid() && (node == null || node in Nodes[1..])
      ensures node == null ==> r == None
      ensures node != null ==> r == Some(Contents[IndexOf(node)])
    {
      if node == null then None else Some(node.str)
    }

    /** list_get_node: the node at `index`, NIL_NODE when out of bounds. */
    method GetNode(index: int) returns (r: Node?<T>)
      requires Valid()
      ensures 0 <= index < |Contents| ==> r == Nodes[index + 1]
      ensures !(0 <= index < |Contents|) ==> r == null
    {
      if index < 0 || index >= size {
        return null;
      }
      var curr := dummy.next;
      for i := 0 to index
        invariant curr == Nodes[i + 1]
      {
        curr := curr.next;
      }
      return curr;
    }

    /** list_get: the string at `index`, NULL when out of bounds. */
    method Get(index: int) returns (r: Option<T>)
      requires Valid()
      ensures 0 <= index < |Contents| ==> r == Some(Contents[index])
      ensures !(0 <= index < |Contents|) ==> r == None
    {
      if index < 0 || index >= size {
        return None;
      }
      var curr := dummy.next;
      for i := 0 to index
        invariant curr == Nodes[i + 1]
      {
        curr := curr.next;
      }
      return Some(curr.str);
    }

    /** list_search: the first node holding `s`, NIL_NODE if none does or `s` is NULL. */
    method Search(s: Option<T>) returns (r: Node?<T>)
      requires Valid()
      ensures r == null <==> s == None || s.value !in Contents
      ensures r != null ==>
        r in Nodes[1..] && Contents[IndexOf(r)] == s.value && s.value !in Contents[..IndexOf(r)]
    {
      if s == None {
        return null;
      }
      var curr := dummy.next;
      ghost var k := 0;
      while curr != null
        invariant 0 <= k <= |Contents|
        invariant curr == if k < |Contents| then Nodes[k + 1] else null
        invariant s.value !in Contents[..k]
        decreases |Contents| - k
      {
        if curr.str == s.value {
          assert Nodes[1..][k] == curr && Contents[k] == curr.str;
          return curr;
        }
        curr := curr.next;
        k := k + 1;
      }
      return null;
    }

    /** list_replace: overwrite the string of one node; NIL_NODE or a NULL string change nothing. */
    method Replace(node: Node?<T>, s: Option<T>)
      requires Valid() && (node == null || node in Nodes[1..])
      modifies this, node
      ensures Valid() && Repr == old(Repr) && Nodes == old(Nodes)
      ensures dummy == old(dummy) && last == old(last) && size == old(size)
      ensures Contents ==
        if node == null || s == None then old(Contents)
        else old(Contents)[old(IndexOf(node)) := s.value]
    {
      if node != null && s != None {
        ghost var k := IndexOf(node);
        node.str := s.value;
        Contents := Contents[k := s.value];
      }
    }

    /**
     * list_insert_after: insert `s` right after `node`, or at the head when
     * `node` is NIL_NODE; a NULL string changes nothing.  `last` moves to the
     * new node exactly when it was inserted after the old last node.
     */
    method InsertAfter(s: Option<T>, node: Node?<T>)
      requires Valid() && (node == null || node in Nodes)
      modifies Repr
      ensures Valid() && fresh(Repr - old(Repr)) && dummy == old(dummy)
      ensures s == None ==>
        Contents == old(Contents) && Nodes == old(Nodes) && Repr == old(Repr) && last == old(last)
      ensures s != None ==>
        var k := old(InsertPos(node));
        && Contents == old(Contents)[..k] + [s.value] + old(Contents)[k..]
        && Nodes == old(Nodes)[..k + 1] + [Nodes[k + 1]] + old(Nodes)[k + 1..]
        && last == (if k == |old(Contents)| then Nodes[k + 1] else old(last))
    {
      if s == None {
        return;
      }
      var prev := if node == null then dummy else node;
      Link(prev, InsertPos(node), s.value);
    }

    /** Links a new node holding `str` after `prev`, the node before position `k`. */
    method Link(prev: Node<T>, ghost k: nat, str: T)
      requires Valid() && k <= |Contents| && prev == Nodes[k]
      modifies Repr
      ensures Valid() && fresh(Repr - old(Repr)) && dummy == old(dummy)
      ensures Contents == old(Contents)[..k] + [str] + old(Contents)[k..]
      ensures Nodes == old(Nodes)[..k + 1] + [Nodes[k + 1]] + old(Nodes)[k + 1..]
      ensures last == (if k == |old(Contents)| then Nodes[k + 1] else old(last))
    {
      ghost var before, strs := Nodes, Contents;
      assert prev.next == if k + 1 < |before| then before[k + 1] else null;
      assert prev == last <==> k + 1 == |before|;
      var added := new Node(str, prev.next);
      ghost var nodes := before[..k + 1] + [added] + before[k + 1..];
      ghost var strs' := strs[..k] + [str] + strs[k..];
      SpliceInDistinct(before, k + 1, added, nodes);
      ChainIn(before, strs, k, added, nodes, strs');
      prev.next := added;
      forall i | 0 <= i < |nodes| - 1
        ensures nodes[i].next == nodes[i + 1]
      {
        if i != k {
          assert nodes[i] != prev;
        }
      }
      if prev == last {
        last := added;
      }
      size, Nodes, Contents, Repr := size + 1, nodes, strs', Repr + {added};
    }

    /** list_insert_last: append `s` at the tail; a NULL string changes nothing. */
    method InsertLast(s: Option<T>)
      requires Valid()
      modifies Repr
      ensures Valid() && fresh(Repr - old(Repr)) && dummy == old(dummy)
      ensures Contents == if s == None then old(Contents) else old(Contents) + [s.value]
      ensures Nodes[..|old(Nodes)|] == old(Nodes)
    {
      InsertAfter(s, last);
    }

    /**
     * list_delete: unlink `node`; NIL_NODE changes nothing.  When `node` was
     * the last node, `last` moves to its predecessor.
     */
    method Delete(node: Node?<T>)
      requires Valid() && (node == null || node in Nodes[1..])
      modifies Repr
      ensures Valid() && dummy == old(dummy)
      ensures node == null ==>
        Contents == old(Contents) && Nodes == old(Nodes) && Repr == old(Repr) && last == old(last)
      ensures node != null ==>
        var k := old(IndexOf(node));
        && Contents == old(Contents)[..k] + old(Contents)[k + 1..]
        && Nodes == old(Nodes)[..k + 1] + old(Nodes)[k + 2..]
        && Repr == old(Repr) - {node}
        && last == (if node == old(last) then old(Nodes)[k] else old(last))
    {
      if node == null {
        return;
      }
      ghost var k := IndexOf(node);
      var curr := dummy;
      ghost var j := 0;
      // Find the node before the one to delete
      while curr.next != node
        invariant 0 <= j <= k && curr == Nodes[j]
        decreases k - j
      {
        curr := curr.next;
        j := j + 1;
      }
      assert curr.next == Nodes[j + 1];
      Unlink(curr, k);
    }

    /** Unlinks the node holding position `k`, whose predecessor is `prev`. */
    method Unlink(prev: Node<T>, ghost k: nat)
      requires Valid() && k < |Contents| && prev == Nodes[k]
      modifies Repr
      ensures Valid() && dummy == old(dummy)
      ensures Contents == old(Contents)[..k] + old(Contents)[k + 1..]
      ensures Nodes == old(Nodes)[..k + 1] + old(Nodes)[k + 2..]
      ensures Repr == old(Repr) - {old(Nodes)[k + 1]}
      ensures last == (if k + 1 == |old(Contents)| then prev else old(last))
    {
      ghost var before, strs := Nodes, Contents;
      var node := prev.next;
      assert node == before[k + 1];
      assert node.next == if k + 2 < |before| then before[k + 2] else null;
      assert node == last <==> k + 2 == |before|;
      if node == last {
        last := prev;
      }
      ghost var nodes := before[..k + 1] + before[k + 2..];
      ghost var strs' := strs[..k] + strs[k + 1..];
      SpliceOut(before, k + 1, nodes);
      SpliceOutDistinct(before, k + 1, nodes);
      SpliceOut(strs, k, strs');
      forall i | 0 <= i < |strs'|
        ensures nodes[i + 1].str == strs'[i]
      {
        if i >= k {
          assert nodes[i + 1] == before[i + 2];
        }
      }
      forall i | 0 <= i < |nodes| - 1 && i != k
        ensures nodes[i].next == nodes[i + 1]
      {
        if i < k {
          assert before[i].next == before[i + 1];
        } else {
          assert before[i + 1].next == before[i + 2];
        }
      }
      prev.next := node.next;
      forall i | 0 <= i < |nodes| - 1
        ensures nodes[i].next == nodes[i + 1]
      {
        if i != k {
          assert nodes[i] != prev;
        }
      }
      size, Nodes, Contents, Repr := size - 1, nodes, strs', Repr - {node};
    }

    /** list_delete_last: remove the last string of a non-empty list. */
    method DeleteLast()
      requires Valid() && Contents != []
      modifies Repr
      ensures Valid() && dummy == old(dummy)
      ensures Contents == old(Contents)[..|old(Contents)| - 1]
      ensures Nodes == old(Nodes)[..|old(Nodes)| - 1] && Repr == old(Repr) - {old(last)}
      ensures last == old(Nodes)[|old(Nodes)| - 2]
    {
      assert last == Nodes[1..][|Contents| - 1];
      Delete(last);
    }
  }
}
