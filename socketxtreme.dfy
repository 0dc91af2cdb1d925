/**
 * The socketxtreme event-completion queue of a ring (`m_socketxtreme` in
 * ring_simple): an intrusive, circular, doubly linked `list_head` list whose
 * nodes are embedded in `ring_ec` elements owned by the sockets.
 *
 * The links are modelled as they are in memory: every element carries its
 * own `next`/`prev`, and the queue carries the links of the list head
 * `ec_list`. The ghost sequence `ecList` is the order of the elements from
 * head to tail, and `Valid()` ties the pointers to it. Each operation runs
 * under `lock_ec_list` in the source and is one atomic step here.
 */
module SocketXtreme {
  import opened EcOrder

  /** The part of an element's completion record that the model keeps: the
      event bitmap and the user data naming the socket. */
  datatype Completion = Completion(events: nat, userData: nat)

  /** The record as `ring_ec::clear` leaves it: every field zero. */
  const ZeroCompletion := Completion(0, 0)

  /** Where a link points: the list head `ec_list` or the node of an element. */
  datatype Node = Head | Elem(ec: RingEc)

  /** The node at position `i` of the circular list `s`; the head closes the circle. */
  function At(s: seq<RingEc>, i: int): (n: Node) {
    if 0 <= i < |s| then Elem(s[i]) else Head
  }

  /** Each element of `s` links forward to the one after it and back to the one
      before it, the head standing before the first and after the last. */
  ghost predicate Linked(s: seq<RingEc>)
    reads s
  {
    forall i {:trigger s[i].next} {:trigger s[i].prev} ::
      0 <= i < |s| ==> s[i].next == At(s, i + 1) && s[i].prev == At(s, i - 1)
  }

  /** After `list_del_init` on the element at position `i` (its neighbours
      now link to each other), the rest of the list is linked in order
      without it. */
  lemma LinkedAfterUnlink(s: seq<RingEc>, i: nat)
    requires Distinct(s) && i < |s|
    requires forall k {:trigger s[k].next} :: 0 <= k < |s| ==>
      s[k].next == if k == i then Elem(s[i]) else if k == i - 1 then At(s, i + 1) else At(s, k + 1)
    requires forall k {:trigger s[k].prev} :: 0 <= k < |s| ==>
      s[k].prev == if k == i then Elem(s[i]) else if k == i + 1 then At(s, i - 1) else At(s, k - 1)
    ensures Linked(s[..i] + s[i + 1..])
  {
    var r := s[..i] + s[i + 1..];
    forall j | 0 <= j < |r|
      ensures r[j].next == At(r, j + 1) && r[j].prev == At(r, j - 1)
    {
      AtAfterRemove(s, i, j + 1);
      AtAfterRemove(s, i, j - 1);
      if j < i {
        assert r[j] == s[j];
      } else {
        assert r[j] == s[j + 1];
      }
    }
  }

  /** Everything `Valid()` asks of the order without the element at position
      `i`, once `list_del_init` has run on it: the links (head included) follow
      that order, which is the old one with the element unlinked. */
  lemma RemovedInOrder(s: seq<RingEc>, i: nat, headNext: Node, headPrev: Node)
    requires Distinct(s) && i < |s|
    requires headNext == if i == 0 then At(s, 1) else At(s, 0)
    requires headPrev == if i == |s| - 1 then At(s, i - 1) else At(s, |s| - 1)
    requires forall k {:trigger s[k].next} :: 0 <= k < |s| ==>
      s[k].next == if k == i then Elem(s[i]) else if k == i - 1 then At(s, i + 1) else At(s, k + 1)
    requires forall k {:trigger s[k].prev} :: 0 <= k < |s| ==>
      s[k].prev == if k == i then Elem(s[i]) else if k == i + 1 then At(s, i - 1) else At(s, k - 1)
    ensures var r := s[..i] + s[i + 1..];
      && Linked(r) && Distinct(r) && r == Unlink(s, s[i])
      && headNext == At(r, 0) && headPrev == At(r, |r| - 1)
  {
    var r := s[..i] + s[i + 1..];
    LinkedAfterUnlink(s, i);
    AtAfterRemove(s, i, 0);
    AtAfterRemove(s, i, |r| - 1);
    UnlinkAt(s, i);
    UnlinkDistinct(s, s[i]);
  }

  /** The element a link points to, if it is not the head. */
  function Objects(n: Node): (objs: set<RingEc>) {
    if n.Elem? then {n.ec} else {}
  }

  /** Positions in `s` with the element at `i` taken out, read through `At`. */
  lemma AtAfterRemove(s: seq<RingEc>, i: nat, k: int)
    requires i < |s| && -1 <= k <= |s| - 1
    ensures At(s[..i] + s[i + 1..], k) == if k < i then At(s, k) else At(s, k + 1)
  {
    var r := s[..i] + s[i + 1..];
    if 0 <= k < i {
      assert r[k] == s[k];
    } else if i <= k < |r| {
      assert r[k] == s[k + 1];
    }
  }

  /** One event-completion element (`ring_ec`), embedded in its socket. */
  class RingEc {
    var next: Node
    var prev: Node
    var completion: Completion

    /** The node links to itself: the state `INIT_LIST_HEAD` and
        `list_del_init` leave it in, i.e. it is on no list. */
    predicate SelfLinked()
      reads this
    {
      next == Elem(this) && prev == Elem(this)
    }

    /** An element starts out cleared, as its socket creates it. */
    constructor ()
      ensures SelfLinked() && completion == ZeroCompletion
    {
      completion := ZeroCompletion;
      new;
      next, prev := Elem(this), Elem(this);
    }

    /** `ring_ec::clear`: self-link the node and zero the completion record. */
    method Clear()
      modifies this
      ensures SelfLinked() && completion == ZeroCompletion
    {
      next, prev := Elem(this), Elem(this);
      completion := ZeroCompletion;
    }
  }

  class EcQueue {
    /** The links of the list head `ec_list`. */
    var headNext: Node
    var headPrev: Node
    /** The queued elements, from head to tail. */
    ghost var ecList: seq<RingEc>

    /** The list is circular and doubly linked in the order of `ecList`, and
        no element is queued twice (one queued event per socket). */
    ghost predicate Valid()
      reads this, ecList
    {
      && Distinct(ecList)
      && headNext == At(ecList, 0)
      && headPrev == At(ecList, |ecList| - 1)
      && Linked(ecList)
    }

    /** `INIT_LIST_HEAD(&ec_list)`: an empty queue. */
    constructor ()
      ensures Valid() && ecList == []
    {
      ecList := [];
      new;
      headNext, headPrev := Head, Head;
    }

    /** A queued element never links to itself, so a self-linked element is not queued. */
    lemma QueuedIsNotSelfLinked(ec: RingEc)
      requires Valid() && ec in ecList
      ensures !ec.SelfLinked()
    {
      var i :| 0 <= i < |ecList| && ecList[i] == ec;
      if i + 1 < |ecList| {
        assert ecList[i] != ecList[i + 1];
      }
    }

    /** `put_ec`: `list_add_tail(&ec->list, &ec_list)`. The element goes to the
        tail; the elements already queued keep their order. The caller hands
        in an element that is not queued anywhere (one event per socket). */
    method PutEc(ec: RingEc)
      requires Valid() && ec.SelfLinked()
      modifies this, ec`next, ec`prev, ecList`next
      ensures Valid()
      ensures ecList == old(ecList) + [ec]
    {
      ghost var s := ecList;
      assert ec !in s by {
        if ec in s { QueuedIsNotSelfLinked(ec); }
      }
      var p := headPrev;
      headPrev := Elem(ec);
      ec.next := Head;
      ec.prev := p;
      match p {
        case Head => headNext := Elem(ec);
        case Elem(t) => t.next := Elem(ec);
      }
      ecList := s + [ec];
      assert Distinct(ecList) by { AppendDistinct(s, ec); }
      forall j | 0 <= j < |ecList|
        ensures ecList[j].next == At(ecList, j + 1) && ecList[j].prev == At(ecList, j - 1)
      {
        if j < |s| - 1 {
          assert s[j] != s[|s| - 1] && s[j] != ec;
          assert s[j].next == old(s[j].next) && s[j].prev == old(s[j].prev);
        } else if j == |s| - 1 {
          assert s[j].prev == old(s[j].prev);
        }
      }
    }

    /** `list_del_init(&x->list)`: the neighbours of the node link to each
        other and the node links to itself. `i` is the position of `x` in the
        queue, or -1 when `x` is self-linked, in which case nothing changes. */
    method ListDelInit(x: RingEc, ghost i: int)
      requires Valid()
      requires if i < 0 then i == -1 && x.SelfLinked() && x !in ecList else i < |ecList| && ecList[i] == x
      modifies this`headNext, this`headPrev, x`next, x`prev, ecList`next, ecList`prev
      ensures x.SelfLinked()
      ensures headNext == if i == 0 then At(ecList, 1) else old(headNext)
      ensures headPrev == if i >= 0 && i == |ecList| - 1 then At(ecList, i - 1) else old(headPrev)
      ensures forall k {:trigger ecList[k].next} :: 0 <= k < |ecList| ==>
        ecList[k].next == if k == i then Elem(x) else if i >= 0 && k == i - 1 then At(ecList, i + 1) else At(ecList, k + 1)
      ensures forall k {:trigger ecList[k].prev} :: 0 <= k < |ecList| ==>
        ecList[k].prev == if k == i then Elem(x) else if i >= 0 && k == i + 1 then At(ecList, i - 1) else At(ecList, k - 1)
    {
      ghost var s := ecList;
      var p, n := x.prev, x.next;
      SetPrevOf(n, p);
      SetNextOf(p, n);
      x.next, x.prev := Elem(x), Elem(x);
      forall k {:trigger s[k].next} | 0 <= k < |s|
        ensures s[k].next == if k == i then Elem(x) else if i >= 0 && k == i - 1 then At(s, i + 1) else At(s, k + 1)
      {
        assert old(s[k].next) == At(s, k + 1);
        if k != i { assert s[k] != x; }
        if i >= 0 && k != i - 1 && i > 0 { assert s[k] != s[i - 1]; }
      }
      forall k {:trigger s[k].prev} | 0 <= k < |s|
        ensures s[k].prev == if k == i then Elem(x) else if i >= 0 && k == i + 1 then At(s, i - 1) else At(s, k - 1)
      {
        assert old(s[k].prev) == At(s, k - 1);
        if k != i { assert s[k] != x; }
        if i >= 0 && k != i + 1 && i + 1 < |s| { assert s[k] != s[i + 1]; }
      }
    }

    /** Take `x` off the queue with `list_del_init`, wherever it stands. */
    method Detach(x: RingEc)
      requires Valid() && (x in ecList || x.SelfLinked())
      modifies this, x`next, x`prev, ecList`next, ecList`prev
      ensures Valid()
      ensures ecList == Unlink(old(ecList), x)
      ensures x.SelfLinked()
      ensures old(x.SelfLinked()) ==> ecList == old(ecList)
    {
      ghost var i: int := -1;
      if x in ecList {
        i :| 0 <= i < |ecList| && ecList[i] == x;
        QueuedIsNotSelfLinked(x);
      }
      ListDelInit(x, i);
      if i < 0 {
        KeepAbsent(x);
      } else {
        Relist(x, i);
      }
    }

    /** The ghost order after `list_del_init` on an element that was not queued:
        the links are as before, so the order is too. */
    lemma KeepAbsent(x: RingEc)
      requires Distinct(ecList) && x !in ecList
      requires headNext == At(ecList, 0) && headPrev == At(ecList, |ecList| - 1)
      requires forall k {:trigger ecList[k].next} :: 0 <= k < |ecList| ==> ecList[k].next == At(ecList, k + 1)
      requires forall k {:trigger ecList[k].prev} :: 0 <= k < |ecList| ==> ecList[k].prev == At(ecList, k - 1)
      ensures Valid() && ecList == Unlink(ecList, x)
    {
      UnlinkAbsent(ecList, x);
    }

    /** The ghost order after `list_del_init` on the element at position `i`:
        its neighbours now link to each other, so it drops out of the order. */
    ghost method Relist(x: RingEc, i: nat)
      requires Distinct(ecList) && i < |ecList| && ecList[i] == x && x.SelfLinked()
      requires headNext == if i == 0 then At(ecList, 1) else At(ecList, 0)
      requires headPrev == if i == |ecList| - 1 then At(ecList, i - 1) else At(ecList, |ecList| - 1)
      requires forall k {:trigger ecList[k].next} :: 0 <= k < |ecList| ==>
        ecList[k].next == if k == i then Elem(x) else if k == i - 1 then At(ecList, i + 1) else At(ecList, k + 1)
      requires forall k {:trigger ecList[k].prev} :: 0 <= k < |ecList| ==>
        ecList[k].prev == if k == i then Elem(x) else if k == i + 1 then At(ecList, i - 1) else At(ecList, k - 1)
      modifies this`ecList
      ensures Valid() && ecList == Unlink(old(ecList), x)
    {
      RemovedInOrder(ecList, i, headNext, headPrev);
      ecList := ecList[..i] + ecList[i + 1..];
    }

    /** `next->prev = prev`: set the `prev` link of the node `n`. */
    method SetPrevOf(n: Node, v: Node)
      modifies this`headPrev, Objects(n)`prev
      ensures headPrev == if n == Head then v else old(headPrev)
      ensures n.Elem? ==> n.ec.prev == v
    {
      match n {
        case Head => headPrev := v;
        case Elem(y) => y.prev := v;
      }
    }

    /** `prev->next = next`: set the `next` link of the node `n`. */
    method SetNextOf(n: Node, v: Node)
      modifies this`headNext, Objects(n)`next
      ensures headNext == if n == Head then v else old(headNext)
      ensures n.Elem? ==> n.ec.next == v
    {
      match n {
        case Head => headNext := v;
        case Elem(y) => y.next := v;
      }
    }

    /** `get_ec`: on an empty queue, NULL and nothing changes; otherwise the
        head element, taken off the queue (self-linked, its record intact). */
    method GetEc() returns (ec: RingEc?)
      requires Valid()
      modifies this, ecList`next, ecList`prev
      ensures Valid()
      ensures old(ecList) == [] ==> ec == null && ecList == []
      ensures old(ecList) != [] ==> ec == old(ecList[0]) && ecList == old(ecList[1..]) && ec.SelfLinked()
    {
      ec := null;
      if headNext != Head {
        ec := headNext.ec;
        UnlinkAt(ecList, 0);
        Detach(ec);
      }
    }

    /** `del_ec`: take the element off the queue wherever it stands and clear
        it. Deleting an element that is not queued (already self-linked) only
        clears it again. */
    method DelEc(ec: RingEc)
      requires Valid() && (ec in ecList || ec.SelfLinked())
      modifies this, ec, ecList`next, ecList`prev
      ensures Valid()
      ensures ecList == Unlink(old(ecList), ec)
      ensures ec.SelfLinked() && ec.completion == ZeroCompletion
      ensures old(ec.SelfLinked()) ==> ecList == old(ecList)
    {
      Detach(ec);
      ec.Clear();
    }
  }

  /** Two events put in order come out in the same order, and then the queue is empty. */
  method FifoOrder(a: RingEc, b: RingEc) returns (first: RingEc?, second: RingEc?, third: RingEc?)
    requires a != b && a.SelfLinked() && b.SelfLinked()
    modifies a`next, a`prev, b`next, b`prev
    ensures first == a && second == b && third == null
  {
    var q := new EcQueue();
    q.PutEc(a);
    q.PutEc(b);
    first := q.GetEc();
    second := q.GetEc();
    third := q.GetEc();
  }

  /** Two `del_ec` calls on the same element leave the queue as one does: the second changes nothing. */
  method DelEcTwice(q: EcQueue, ec: RingEc)
    requires q.Valid() && (ec in q.ecList || ec.SelfLinked())
    modifies q, ec, q.ecList`next, q.ecList`prev
    ensures q.Valid() && q.ecList == Unlink(old(q.ecList), ec)
    ensures ec.SelfLinked() && ec.completion == ZeroCompletion
  {
    q.DelEc(ec);
    ghost var once := q.ecList;
    q.DelEc(ec);
    assert q.ecList == once;
  }
}
