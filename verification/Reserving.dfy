/** The search of `reserve` for pages: at first among the free ones, and then once more after garbage
    has been collected, unless that was of no use the last time. */
module Reserving {
  import opened CoffeeConfig
  import opened FlashBytes
  import opened FlashDevice
  import opened Extents
  import opened Collector
  import opened Sweeping
  import opened Allocation

  /** The pages, the place where allocation goes on, whether it waits for a removal before it
      collects garbage again, and whether collection has left the place off the header walk. */
  datatype Space = Space(extents: Extents, bytes: Bytes, next: nat, waiting: bool, lost: bool)

  /** Garbage has been collected greedily. */
  ghost predicate Recollected(s: Space, s': Space) {
    && Tiled(s'.extents, s'.bytes) && NoHeadless(s'.extents)
    && Collected(s.extents, s.bytes, s'.bytes, Greedy)
    && Lowered(s.extents, s'.extents, s.next, s'.next, Greedy)
    && (s'.lost <==> !KeepsWalk(s.extents, s.next, Greedy))
  }

  /** There is no room: nothing fits at first, and then nothing changes if a removal is waited for;
      otherwise nothing fits after collection either, and from now on a removal is waited for. */
  ghost predicate Refused(s: Space, s': Space, amount: nat) {
    && NoneFits(s.extents, s.next, amount)
    && if s.waiting then s' == s
       else
         && Recollected(s, s') && (s'.waiting <==> !s'.lost)
         && (s'.lost || NoneFits(s'.extents, s'.next, amount))
  }

  /** There is room, for which garbage has been collected only if nothing fits at first. */
  ghost predicate WithRoom(s: Space, s': Space, amount: nat) {
    if NoneFits(s.extents, s.next, amount) then !s.waiting && Recollected(s, s') && !s'.waiting && !s'.lost
    else s' == s
  }

  /** The first place that fits has been given out, and the rest is as before. */
  ghost predicate GivenOut(s: Space, s': Space, page: nat, amount: nat, h: Header) {
    && FirstFit(s.extents, s.next, page, amount) && HeaderWritten(s.bytes, s'.bytes, page, h)
    && s' == Space(Taken(s.extents, page, amount), s'.bytes, if page == s.next then page + amount else s.next,
                   s.waiting, s.lost)
  }

  /** An extent has been reserved. */
  ghost predicate Granted(s: Space, s': Space, page: nat, amount: nat, h: Header) {
    exists c: Space :: WithRoom(s, c, amount) && GivenOut(c, s', page, amount, h)
  }

  /** All but the headers of pages set aside is the same. */
  ghost predicate SamePlaces(s1: Space, s2: Space) {
    s1.extents == s2.extents && s1.next == s2.next && s1.waiting == s2.waiting && s1.lost == s2.lost
  }

  lemma OneRecollection(s: Space, s1: Space, s2: Space)
    requires Tiled(s.extents, s.bytes) && Recollected(s, s1) && Recollected(s, s2)
    ensures s1.extents == s2.extents && s1.next == s2.next && s1.lost == s2.lost
  {
    OneCollection(s.extents, s.bytes, s1.extents, s1.bytes, s2.extents, s2.bytes);
    if x: nat :| FirstErasable(s.extents, x, Greedy) {
      forall y: nat | FirstErasable(s.extents, y, Greedy) ensures y == x { OneFirst(s.extents, x, y, Greedy); }
    }
  }

  /** A search is never both refused and granted. */
  lemma RefusedOrGranted(s: Space, s1: Space, s2: Space, page: nat, amount: nat, h: Header)
    requires Tiled(s.extents, s.bytes) && Granted(s, s2, page, amount, h)
    ensures !Refused(s, s1, amount)
  {
    var c: Space :| WithRoom(s, c, amount) && GivenOut(c, s2, page, amount, h);
    if Recollected(s, s1) && Recollected(s, c) { OneRecollection(s, s1, c); }
  }

  /** And when it is granted, the place is determined, and the extents that are left. */
  lemma OneGrant(s: Space, s1: Space, page1: nat, s2: Space, page2: nat, amount: nat, h: Header)
    requires Tiled(s.extents, s.bytes)
    requires Granted(s, s1, page1, amount, h) && Granted(s, s2, page2, amount, h)
    ensures page1 == page2 && SamePlaces(s1, s2)
  {
    var c1: Space :| WithRoom(s, c1, amount) && GivenOut(c1, s1, page1, amount, h);
    var c2: Space :| WithRoom(s, c2, amount) && GivenOut(c2, s2, page2, amount, h);
    if NoneFits(s.extents, s.next, amount) { OneRecollection(s, c1, c2); }
    assert Fits(c1.extents, page1, amount) && Fits(c2.extents, page2, amount);
  }

  /** The last search has been refused the pages, and waited for a removal only if an earlier one did;
      since then only extents in use may have been written to. */
  ghost predicate RefusedBefore(t: Extents, next: nat, waiting: bool, lost: bool, waited: bool, amount: nat) {
    exists w: Space, b: Bytes :: Refused(w, Space(t, b, next, waiting, lost), amount) && (w.waiting ==> waited)
  }

  lemma Refusal(w: Space, s: Space, waited: bool, amount: nat)
    requires Refused(w, s, amount) && (w.waiting ==> waited)
    ensures RefusedBefore(s.extents, s.next, s.waiting, s.lost, waited, amount)
  {
    assert s == Space(s.extents, s.bytes, s.next, s.waiting, s.lost);
  }
}
