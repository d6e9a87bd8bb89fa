/**
 * The hand-off between the capture thread and its consumers: `LinkedBlockingQueue<Bitmap>(1)`, a queue with a
 * single slot, and a ledger of who is responsible for each published bitmap (the slot, the caller that took it,
 * or nobody because it was recycled).
 */
module FrameQueue {
  import opened Wrappers

  /** `LinkedBlockingQueue<T>(1)` as the capture code uses it: non-blocking offer and poll on one slot. */
  class SlotQueue<T> {
    var slot: Option<T>

    /** A new queue is empty. */
    constructor ()
      ensures slot == None
    {
      slot := None;
    }

    /** `offer(e)`: installs e and answers true when the slot is empty; answers false and changes nothing otherwise. */
    method Offer(e: T) returns (accepted: bool)
      modifies this
      ensures accepted == old(slot).None?
      ensures slot == if accepted then Some(e) else old(slot)
    {
      accepted := slot.None?;
      if accepted {
        slot := Some(e);
      }
    }

    /** `poll()`: removes and returns the resident element, or returns null when the slot is empty. */
    method Poll() returns (head: Option<T>)
      modifies this
      ensures head == old(slot) && slot == None
    {
      head := slot;
      slot := None;
    }
  }

  /**
   * The ledger of published bitmaps: the one resident in the slot (if any), every bitmap the listener has
   * published, those handed to a caller of captureOnce (who is then responsible for it), and those recycled.
   */
  datatype Ledger<B> = Ledger(resident: Option<B>, published: set<B>, delivered: set<B>, recycled: set<B>)

  function ResidentSet<B>(l: Ledger<B>): set<B> {
    if l.resident.Some? then {l.resident.value} else {}
  }

  /**
   * Every published bitmap has exactly one owner: the slot, the caller it was delivered to, or nobody because it
   * was recycled; and the resident bitmap is live.
   */
  predicate Accounted<B>(l: Ledger<B>) {
    && (l.resident.Some? ==> l.resident.value in l.published && l.resident.value !in l.delivered + l.recycled)
    && l.delivered <= l.published
    && l.delivered !! l.recycled
    && (forall b :: b in l.published ==> l.resident == Some(b) || b in l.delivered || b in l.recycled)
  }

  /** A bitmap the ledger has never seen: one just allocated. */
  predicate Unseen<B>(l: Ledger<B>, b: B) {
    b !in l.published && b !in l.delivered && b !in l.recycled
  }

  /** The ledger of a queue created empty. */
  function EmptyLedger<B>(): (l: Ledger<B>)
    ensures Accounted(l) && l.resident.None?
  {
    Ledger(None, {}, {}, {})
  }

  /**
   * The listener's `if (!bitmapQueue.offer(cropped)) cropped.recycle()`: an empty slot takes the incoming bitmap;
   * a full slot keeps its resident and the incoming bitmap is recycled.
   */
  function Publish<B>(l: Ledger<B>, b: B): (r: Ledger<B>)
    ensures Accounted(l) && Unseen(l, b) ==> Accounted(r)
  {
    if l.resident.None? then Enqueue(l, b) else Reject(l, b)
  }

  /** An accepted offer: the bitmap becomes resident. */
  function Enqueue<B>(l: Ledger<B>, b: B): (r: Ledger<B>)
    ensures Accounted(l) && l.resident.None? && Unseen(l, b) ==>
              Accounted(r) && r.resident == Some(b) && b !in r.delivered + r.recycled
  {
    Ledger(Some(b), l.published + {b}, l.delivered, l.recycled)
  }

  /** A refused offer followed by `recycle()`: the resident stays and the bitmap is recycled. */
  function Reject<B>(l: Ledger<B>, b: B): (r: Ledger<B>)
    ensures Accounted(l) && Unseen(l, b) ==>
              Accounted(r) && r.resident == l.resident && b in r.recycled && b !in r.delivered
  {
    Ledger(l.resident, l.published + {b}, l.delivered, l.recycled + {b})
  }

  /** `captureOnce()`: the resident bitmap, if any, leaves the slot and becomes its caller's to release. */
  function Take<B>(l: Ledger<B>): (r: (Option<B>, Ledger<B>))
    ensures Accounted(l) ==> Accounted(r.1)
  {
    (l.resident, Ledger(None, l.published, l.delivered + ResidentSet(l), l.recycled))
  }

  /** `recycle()` of a bitmap the queue never held, such as the listener's working bitmap. */
  function Recycle<B>(l: Ledger<B>, b: B): (r: Ledger<B>)
    ensures Accounted(l) && Unseen(l, b) ==> Accounted(r) && Unseen(r, b) == false
  {
    Ledger(l.resident, l.published, l.delivered, l.recycled + {b})
  }

  /** The drain of stopProjection: the resident bitmap, if any, is polled and recycled. */
  function Drain<B>(l: Ledger<B>): (r: Ledger<B>)
    ensures Accounted(l) ==> Accounted(r)
    ensures Accounted(l) ==> forall b :: b in r.published ==> b in r.delivered || b in r.recycled
  {
    Ledger(None, l.published, l.delivered, l.recycled + ResidentSet(l))
  }

  /** A publish into an empty slot makes the incoming bitmap resident and recycles nothing. */
  lemma PublishIntoEmptySlot<B>(l: Ledger<B>, b: B)
    requires Accounted(l) && Unseen(l, b) && l.resident.None?
    ensures Publish(l, b).resident == Some(b) && b !in Publish(l, b).recycled
    ensures Publish(l, b).recycled == l.recycled
  {
  }

  /** A publish into a full slot leaves the resident in place and recycles the incoming bitmap. */
  lemma PublishIntoFullSlot<B>(l: Ledger<B>, b: B)
    requires Accounted(l) && Unseen(l, b) && l.resident.Some?
    ensures Publish(l, b).resident == l.resident
    ensures Publish(l, b).recycled == l.recycled + {b} && b !in Publish(l, b).delivered
  {
  }

  /** A take returns a bitmap no earlier take returned, and a second take right after it finds the slot empty. */
  lemma TakeIsDestructive<B>(l: Ledger<B>)
    requires Accounted(l)
    ensures Take(l).0.Some? ==> Take(l).0.value !in l.delivered && Take(l).0.value in Take(l).1.delivered
    ensures Take(Take(l).1).0 == None
  {
  }

  /** One step on the queue, as the capture thread and a consumer interleave them. */
  datatype Op<B> = Published(b: B) | Taken

  /** The final ledger after `ops`, and the bitmaps the takes returned, in order. */
  function Run<B>(l: Ledger<B>, ops: seq<Op<B>>): (r: (Ledger<B>, seq<B>))
    decreases |ops|
  {
    if ops == [] then (l, [])
    else match ops[0]
      case Published(b) => Run(Publish(l, b), ops[1..])
      case Taken =>
        var (got, l') := Take(l);
        var (final, rest) := Run(l', ops[1..]);
        (final, (if got.Some? then [got.value] else []) + rest)
  }

  /** Every bitmap the listener publishes in `ops` is newly allocated: unseen by `l` and published only once. */
  predicate FreshPublishes<B>(l: Ledger<B>, ops: seq<Op<B>>) {
    && (forall i :: 0 <= i < |ops| && ops[i].Published? ==> Unseen(l, ops[i].b))
    && (forall i, j :: 0 <= i < j < |ops| && ops[i].Published? && ops[j].Published? ==> ops[i].b != ops[j].b)
  }

  predicate Distinct<B(==)>(s: seq<B>) {
    forall i, j :: 0 <= i < j < |s| ==> s[i] != s[j]
  }

  lemma FreshPublishesTail<B>(l: Ledger<B>, l': Ledger<B>, ops: seq<Op<B>>)
    requires |ops| > 0 && FreshPublishes(l, ops)
    requires l'.published + l'.delivered + l'.recycled <= l.published + l.delivered + l.recycled + (if ops[0].Published? then {ops[0].b} else {})
    ensures FreshPublishes(l', ops[1..])
  {
    forall i | 0 <= i < |ops| - 1 && ops[1..][i].Published? ensures Unseen(l', ops[1..][i].b) {
      assert ops[1..][i] == ops[i + 1];
    }
    forall i, j | 0 <= i < j < |ops| - 1 && ops[1..][i].Published? && ops[1..][j].Published?
      ensures ops[1..][i].b != ops[1..][j].b
    {
      assert ops[1..][i] == ops[i + 1] && ops[1..][j] == ops[j + 1];
    }
  }

  /**
   * No duplicate delivery: over any interleaving of fresh publishes and takes, the takes never return the same
   * bitmap twice, never return one delivered before, and every bitmap stays accounted for.
   */
  lemma {:induction false} NoDuplicateDelivery<B>(l: Ledger<B>, ops: seq<Op<B>>)
    requires Accounted(l) && FreshPublishes(l, ops)
    ensures Accounted(Run(l, ops).0)
    ensures Distinct(Run(l, ops).1)
    ensures forall b :: b in Run(l, ops).1 ==> b !in l.delivered && b in Run(l, ops).0.delivered
    ensures l.delivered <= Run(l, ops).0.delivered
    decreases |ops|
  {
    if ops != [] {
      match ops[0]
      case Published(b) =>
        FreshPublishesTail(l, Publish(l, b), ops);
        NoDuplicateDelivery(Publish(l, b), ops[1..]);
      case Taken =>
        var (got, l') := Take(l);
        FreshPublishesTail(l, l', ops);
        NoDuplicateDelivery(l', ops[1..]);
        var rest := Run(l', ops[1..]).1;
        assert Run(l, ops).1 == (if got.Some? then [got.value] else []) + rest;
    }
  }

  /** `n` publishes with no take in between. */
  function Publishes<B>(bs: seq<B>): (ops: seq<Op<B>>)
    ensures |ops| == |bs| && forall i :: 0 <= i < |bs| ==> ops[i] == Published(bs[i])
  {
    if bs == [] then [] else [Published(bs[0])] + Publishes(bs[1..])
  }

  /**
   * A burst of publishes into an empty slot: the first bitmap stays resident and every later one is recycled,
   * so of n bitmaps exactly one is resident and n - 1 are discarded.
   */
  lemma {:induction false} PublishBurst<B>(l: Ledger<B>, bs: seq<B>)
    requires Accounted(l) && l.resident.None? && |bs| > 0
    requires FreshPublishes(l, Publishes(bs))
    ensures Run(l, Publishes(bs)).0.resident == Some(bs[0])
    ensures Run(l, Publishes(bs)).0.recycled == l.recycled + set i | 1 <= i < |bs| :: bs[i]
    ensures Run(l, Publishes(bs)).1 == []
  {
    var l1 := Publish(l, bs[0]);
    assert Publishes(bs)[1..] == Publishes(bs[1..]);
    FullSlotBurst(l1, bs[1..]);
    assert (set i | 1 <= i < |bs| :: bs[i]) == set i | 0 <= i < |bs[1..]| :: bs[1..][i];
  }

  /** Publishes into a full slot all recycle their bitmap and leave the resident in place. */
  lemma {:induction false} FullSlotBurst<B>(l: Ledger<B>, bs: seq<B>)
    requires l.resident.Some?
    ensures Run(l, Publishes(bs)).0.resident == l.resident
    ensures Run(l, Publishes(bs)).0.recycled == l.recycled + set i | 0 <= i < |bs| :: bs[i]
    ensures Run(l, Publishes(bs)).1 == []
    decreases |bs|
  {
    if bs != [] {
      assert Publishes(bs)[1..] == Publishes(bs[1..]);
      FullSlotBurst(Publish(l, bs[0]), bs[1..]);
      assert (set i | 0 <= i < |bs| :: bs[i]) == {bs[0]} + set i | 0 <= i < |bs[1..]| :: bs[1..][i];
    }
  }
}
