/** The page presence tracker of the loader (skel-lin/loader/loader.c): every
    segment owns a singly linked list of the page numbers already
    materialised, headed by the segment's `data` pointer. */
module Presence {
  import opened Paging

  /** A node of a presence list (`struct pagina`). */
  class PageNode {
    var pgNum: nat
    var next: PageNode?

    /** `new_page`: a detached node holding one page number. */
    constructor (pgNum: nat)
      ensures this.pgNum == pgNum && next == null
    {
      this.pgNum := pgNum;
      next := null;
    }
  }

  /** The page numbers held by the list `nodes`, in list order. */
  ghost predicate IsList(head: PageNode?, nodes: seq<PageNode>, contents: seq<nat>)
    reads nodes
  {
    && |nodes| == |contents|
    && head == (if nodes == [] then null else nodes[0])
    && (forall i :: 0 <= i < |nodes| ==> nodes[i].pgNum == contents[i])
    && (forall i {:trigger nodes[i].next} :: 0 <= i < |nodes| - 1 ==> nodes[i].next == nodes[i + 1])
    && (nodes != [] ==> nodes[|nodes| - 1].next == null)
    && (forall i, j :: 0 <= i < j < |nodes| ==> nodes[i] != nodes[j])
  }

  /** A segment of the executable: the parser's descriptor, which never
      changes, and the head of its presence list, which the fault handler
      grows. */
  class Segment {
    const vaddr: nat
    const memSize: nat
    const fileSize: nat
    const offset: nat
    const perm: Perm
    var data: PageNode?

    /** The nodes of the presence list, from the head. */
    ghost var nodes: seq<PageNode>
    /** The page numbers of the presence list, from the head. */
    ghost var Contents: seq<nat>
    /** Every node this segment has ever owned. */
    ghost var Repr: set<PageNode>

    ghost predicate Valid()
      reads this, Repr
    {
      && (forall i :: 0 <= i < |nodes| ==> nodes[i] in Repr)
      && IsList(data, nodes, Contents)
    }

    function Desc(): SegDesc
    {
      SegDesc(vaddr, memSize, fileSize, offset, perm)
    }

    /** A segment as produced by the parser, with an empty presence list. */
    constructor (vaddr: nat, memSize: nat, fileSize: nat, offset: nat, perm: Perm)
      ensures Valid() && Contents == [] && Repr == {}
      ensures Desc() == SegDesc(vaddr, memSize, fileSize, offset, perm)
    {
      this.vaddr, this.memSize, this.fileSize, this.offset, this.perm := vaddr, memSize, fileSize, offset, perm;
      data := null;
      nodes, Contents, Repr := [], [], {};
    }

    /** `find_page` on the segment's list: the first node holding `pgNum`,
        or null when no node holds it. Nothing is changed. */
    method FindPage(pgNum: nat) returns (pg: PageNode?)
      requires Valid()
      ensures pg == null <==> pgNum !in Contents
      ensures pg != null ==> exists k :: 0 <= k < |nodes| && nodes[k] == pg && Contents[k] == pgNum && pgNum !in Contents[..k]
    {
      var linkedList := data;
      ghost var i := 0;
      while linkedList != null
        invariant 0 <= i <= |nodes|
        invariant linkedList == if i < |nodes| then nodes[i] else null
        invariant pgNum !in Contents[..i]
        decreases |nodes| - i
      {
        if linkedList.pgNum == pgNum {
          return linkedList;
        }
        linkedList := linkedList.next;
        i := i + 1;
      }
      return null;
    }

    /** `insert_page` as it is meant to work: the new node is appended after
        the last node, and an empty list gets it as its head, stored in the
        segment itself. Afterwards `pgNum` is found, every page found before
        is still found, and the list has grown by exactly that page. */
    method InsertPage(pgNum: nat)
      requires Valid()
      modifies this, Repr
      ensures Valid()
      ensures Contents == old(Contents) + [pgNum]
      ensures fresh(Repr - old(Repr))
    {
      var node;
      if data == null {
        node := new PageNode(pgNum);
        data := node;
      } else {
        var last := data;
        ghost var i := 0;
        while last.next != null
          invariant 0 <= i < |nodes| && last == nodes[i]
          decreases |nodes| - i
        {
          last := last.next;
          i := i + 1;
        }
        node := new PageNode(pgNum);
        last.next := node;
      }
      nodes := nodes + [node];
      Contents := Contents + [pgNum];
      Repr := Repr + {node};
    }

    /** `insert_page` as written: the head is passed by value, so a node
        made for an empty list is only stored in the local copy; and the walk
        runs while `next` IS null, so it steps off a one-node list onto NULL
        (`crashed`) and stops at once on a longer list, whose second node is
        then overwritten. The segment's `data` is never changed. */
    method InsertPageAsWritten(pgNum: nat) returns (crashed: bool)
      requires Valid()
      modifies this, Repr
      ensures Valid() && data == old(data)
      ensures crashed <==> InsertAsWritten(old(Contents), pgNum).None?
      ensures !crashed ==> Contents == InsertAsWritten(old(Contents), pgNum).value
      ensures crashed ==> Contents == old(Contents)
      ensures fresh(Repr - old(Repr))
    {
      var linkedList := data;
      if linkedList == null {
        linkedList := new PageNode(pgNum);
        return false;
      }
      if linkedList.next == null {
        // The walk's first step sets the local to NULL and its next test
        // reads NULL->next.
        return true;
      }
      var node := new PageNode(pgNum);
      linkedList.next := node;
      nodes := [linkedList, node];
      Contents := [Contents[0], pgNum];
      Repr := Repr + {node};
      return false;
    }
  }

  /** The list that `insert_page` as written leaves behind, or None when it
      dereferences a null pointer. Whatever the list, it is never the list
      the intended insert leaves. */
  function InsertAsWritten(list: seq<nat>, pgNum: nat): (r: Option<seq<nat>>)
    ensures r.None? <==> |list| == 1
    ensures r.Some? ==> |r.value| <= 2 && r.value != list + [pgNum]
  {
    if |list| == 0 then Some(list)
    else if |list| == 1 then None
    else Some([list[0], pgNum])
  }

  /** Inserting into an empty list leaves it empty: the page is never found. */
  lemma InsertAsWrittenLosesFirstPage(pgNum: nat)
    ensures InsertAsWritten([], pgNum) == Some([])
    ensures pgNum !in InsertAsWritten([], pgNum).value
  {
  }

  /** Inserting into a one-page list reads through a null pointer. */
  lemma InsertAsWrittenCrashesOnSingleton(p: nat, pgNum: nat)
    ensures InsertAsWritten([p], pgNum).None?
  {
  }

  /** Inserting into a longer list keeps only its head and the new page:
      every page from the second on is lost. */
  lemma InsertAsWrittenDropsTail(list: seq<nat>, pgNum: nat)
    requires |list| >= 2
    ensures InsertAsWritten(list, pgNum) == Some([list[0], pgNum])
    ensures forall k :: 1 <= k < |list| && list[k] != list[0] && list[k] != pgNum ==>
              list[k] !in InsertAsWritten(list, pgNum).value
  {
  }
}
