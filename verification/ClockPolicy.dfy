/** CLOCK replacement: the page table stays the inverse of the frames, and the sweep evicts the
    least used page, the first one from the hand among equals. */
module ClockPolicy {
  type Page = nat

  /** A page and its usage count. */
  type Frame = (Page, nat)

  const MAX_USAGE: nat := 5

  ghost predicate Inverse(frames: seq<Frame>, index: map<Page, nat>) {
    && (forall i :: 0 <= i < |frames| ==> frames[i].0 in index && index[frames[i].0] == i)
    && (forall p :: p in index ==> index[p] < |frames| && frames[index[p]].0 == p)
  }

  function Usages(frames: seq<Frame>): nat {
    if frames == [] then 0 else Usages(frames[..|frames| - 1]) + frames[|frames| - 1].1
  }

  lemma {:induction false} UsagesDrop(frames: seq<Frame>, i: nat)
    requires i < |frames| && frames[i].1 > 0
    ensures Usages(frames[i := (frames[i].0, frames[i].1 - 1)]) == Usages(frames) - 1
  {
    var m, f := |frames| - 1, frames[i := (frames[i].0, frames[i].1 - 1)];
    if i == m {
      assert f[..m] == frames[..m];
    } else {
      UsagesDrop(frames[..m], i);
      assert f[..m] == frames[..m][i := (frames[i].0, frames[i].1 - 1)];
    }
  }

  /** How many steps from the hand to frame i. */
  function Offset(hand: nat, i: nat, cap: nat): int {
    if i >= hand then i - hand else i - hand + cap
  }

  /** v has the least usage, and is the first such frame from the hand. */
  ghost predicate FirstLeast(frames: seq<Frame>, hand: nat, v: nat) {
    v < |frames| && forall i :: 0 <= i < |frames| ==>
      && frames[v].1 <= frames[i].1
      && (Offset(hand, i, |frames|) < Offset(hand, v, |frames|) ==> frames[v].1 < frames[i].1)
  }

  /** What the sweep to v leaves: every frame lowered by v's usage, the passed ones once more, and
      the page in v's place. */
  ghost predicate Swept(frames: seq<Frame>, hand: nat, v: nat, page: Page, frames': seq<Frame>) {
    && v < |frames| == |frames'| && frames'[v] == (page, 1)
    && forall i :: 0 <= i < |frames| && i != v ==>
         && frames'[i].0 == frames[i].0
         && frames'[i].1 + frames[v].1 + (if Offset(hand, i, |frames|) < Offset(hand, v, |frames|) then 1 else 0)
           == frames[i].1
  }

  /** f is g lowered r times, and once more if passed. */
  predicate Lowered(f: Frame, g: Frame, r: nat, passed: bool) {
    f.0 == g.0 && f.1 + r + (if passed then 1 else 0) == g.1
  }

  /** r rounds and o further steps into the sweep that started at h. */
  ghost predicate Sweeping(frames: seq<Frame>, h: nat, now: seq<Frame>, hand: nat, r: nat, o: nat) {
    && |now| == |frames| && h < |frames| && hand < |frames| && o < |frames| && Offset(h, hand, |frames|) == o
    && forall i :: 0 <= i < |frames| ==> Lowered(now[i], frames[i], r, Offset(h, i, |frames|) < o)
  }

  lemma Turn(h: nat, hand: nat, n: nat)
    requires h < n && hand < n
    ensures (hand + 1) % n == if hand + 1 == n then 0 else hand + 1
    ensures var o := Offset(h, hand, n);
            Offset(h, (hand + 1) % n, n) == if o + 1 == n then 0 else o + 1
  {
    if hand + 1 < n {
      SmallRemainder(hand + 1, n);
    }
  }

  lemma SmallRemainder(a: nat, n: nat)
    requires a < n
    ensures a % n == a
  {
  }

  lemma OffsetIs(h: nat, hand: nat, i: nat, n: nat)
    requires h < n && hand < n && i < n
    ensures 0 <= Offset(h, i, n) < n && (Offset(h, i, n) == Offset(h, hand, n) <==> i == hand)
  {
  }

  lemma SweepStep(frames: seq<Frame>, h: nat, now: seq<Frame>, hand: nat, r: nat, o: nat, now': seq<Frame>, hand': nat)
    requires Sweeping(frames, h, now, hand, r, o) && now[hand].1 > 0
    requires now' == now[hand := (now[hand].0, now[hand].1 - 1)] && hand' == (hand + 1) % |frames|
    ensures o + 1 < |frames| ==> Sweeping(frames, h, now', hand', r, o + 1)
    ensures o + 1 == |frames| ==> Sweeping(frames, h, now', hand', r + 1, 0)
  {
    var n := |frames|;
    Turn(h, hand, n);
    forall i | 0 <= i < n
      ensures o + 1 < n ==> Lowered(now'[i], frames[i], r, Offset(h, i, n) < o + 1)
      ensures o + 1 == n ==> Lowered(now'[i], frames[i], r + 1, false)
    {
      OffsetIs(h, hand, i, n);
      assert Lowered(now[i], frames[i], r, Offset(h, i, n) < o);
    }
    if o + 1 == n {
      forall i | 0 <= i < n ensures Lowered(now'[i], frames[i], r + 1, Offset(h, i, n) < 0) {
        OffsetIs(h, hand, i, n);
      }
    }
  }

  lemma SweepEnds(frames: seq<Frame>, h: nat, now: seq<Frame>, hand: nat, r: nat, o: nat, page: Page)
    requires Sweeping(frames, h, now, hand, r, o) && now[hand].1 == 0
    ensures frames[hand].1 == r && FirstLeast(frames, h, hand) && Swept(frames, h, hand, page, now[hand := (page, 1)])
  {
    assert Lowered(now[hand], frames[hand], r, false);
    forall i | 0 <= i < |frames| ensures Lowered(now[i], frames[i], r, Offset(h, i, |frames|) < o) {
    }
  }

  lemma Replace(frames: seq<Frame>, index: map<Page, nat>, now: seq<Frame>, v: nat, page: Page, x: Frame)
    requires Inverse(frames, index) && |now| == |frames| && v < |frames| && page !in index && x.0 == page
    requires forall i :: 0 <= i < |frames| ==> now[i].0 == frames[i].0
    ensures Inverse(now[v := x], (index - {frames[v].0})[page := v])
  {
    var f, m := now[v := x], (index - {frames[v].0})[page := v];
    forall i | 0 <= i < |f| ensures f[i].0 in m && m[f[i].0] == i {
      assert frames[i].0 in index && index[frames[i].0] == i && index[frames[v].0] == v;
    }
  }

  class Clock {
    var frames: seq<Frame>
    var index: map<Page, nat>
    var hand: nat
    const cap: nat

    ghost predicate Valid()
      reads this
    {
      && cap >= 1 && |frames| <= cap && hand < cap && (|frames| < cap ==> hand == 0)
      && Inverse(frames, index)
      && forall i :: 0 <= i < |frames| ==> frames[i].1 <= MAX_USAGE
    }

    constructor (cap: nat)
      requires cap >= 1
      ensures Valid() && this.cap == cap && frames == []
    {
      this.cap := cap;
      frames, index, hand := [], map[], 0;
    }

    /** True on a hit, which raises the page's usage; a miss takes a free frame or the swept one. */
    method Access(page: Page) returns (hit: bool, ghost steps: nat)
      requires Valid()
      modifies this
      ensures Valid() && hit == (page in old(index)) && page in index
      ensures hit ==> index == old(index) && hand == old(hand) && var i := index[page];
                frames == old(frames)[i := (page, if old(frames[index[page]].1) < MAX_USAGE then
                  old(frames[index[page]].1) + 1 else MAX_USAGE)]
      ensures !hit && |old(frames)| < cap ==> frames == old(frames) + [(page, 1)] && hand == old(hand)
      ensures !hit && |old(frames)| == cap ==> var v := index[page];
                && FirstLeast(old(frames), old(hand), v) && Swept(old(frames), old(hand), v, page, frames)
                && hand == (v + 1) % cap && steps <= Usages(old(frames)) + 1
    {
      steps := 0;
      hit := page in index;
      if hit {
        var i := index[page];
        var u := frames[i].1 + 1;
        frames := frames[i := (frames[i].0, if u <= MAX_USAGE then u else MAX_USAGE)];
        return;
      }
      if |frames| < cap {
        index := index[page := |frames|];
        frames := frames + [(page, 1)];
        return;
      }
      steps := Sweep(page);
    }

    /** Lowers usages from the hand on until one is zero. */
    method Advance() returns (ghost steps: nat, ghost r: nat, ghost o: nat)
      requires cap >= 1 && |frames| == cap && hand < cap
      modifies this`frames, this`hand
      ensures Sweeping(old(frames), old(hand), frames, hand, r, o) && frames[hand].1 == 0
      ensures steps <= Usages(old(frames))
    {
      ghost var frames0, h := frames, hand;
      steps, r, o := 0, 0, 0;
      while frames[hand].1 != 0
        invariant |frames| == cap && Sweeping(frames0, h, frames, hand, r, o)
        invariant steps + Usages(frames) == Usages(frames0)
        decreases Usages(frames)
      {
        ghost var now, at := frames, hand;
        UsagesDrop(frames, hand);
        frames := frames[hand := (frames[hand].0, frames[hand].1 - 1)];
        hand := (hand + 1) % cap;
        SweepStep(frames0, h, now, at, r, o, frames, hand);
        steps := steps + 1;
        r, o := if o + 1 < cap then r else r + 1, if o + 1 < cap then o + 1 else 0;
      }
    }

    /** Puts the page into frame v and moves the hand past it. */
    method TakeFrame(page: Page, v: nat)
      requires v < |frames| == cap
      modifies this
      ensures frames == old(frames)[v := (page, 1)] && hand == (v + 1) % cap
      ensures index == (old(index) - {old(frames)[v].0})[page := v]
    {
      index := index - {frames[v].0};
      frames := frames[v := (page, 1)];
      index := index[page := v];
      hand := (v + 1) % cap;
    }

    /** Finds a victim and puts the page in its frame. */
    method Sweep(page: Page) returns (ghost steps: nat)
      requires Valid() && page !in index && |frames| == cap
      modifies this
      ensures Valid() && page in index
      ensures var v := index[page];
                && FirstLeast(old(frames), old(hand), v) && Swept(old(frames), old(hand), v, page, frames)
                && hand == (v + 1) % cap && steps <= Usages(old(frames)) + 1
    {
      ghost var frames0, h := frames, hand;
      ghost var r, o;
      steps, r, o := Advance();
      SweepEnds(frames0, h, frames, hand, r, o, page);
      Kept(frames0, h, frames, hand, r, o);
      Replace(frames0, index, frames, hand, page, (page, 1));
      TakeFrame(page, hand);
      steps := steps + 1;
    }
  }

  lemma Kept(frames: seq<Frame>, h: nat, now: seq<Frame>, hand: nat, r: nat, o: nat)
    requires Sweeping(frames, h, now, hand, r, o)
    ensures |now| == |frames| && forall i :: 0 <= i < |frames| ==> now[i].0 == frames[i].0 && now[i].1 <= frames[i].1
  {
    forall i | 0 <= i < |frames| ensures Lowered(now[i], frames[i], r, Offset(h, i, |frames|) < o) {
    }
  }

  /** After a sweep no usage has grown, and the evicted page's was the least. */
  lemma SecondChance(frames: seq<Frame>, hand: nat, v: nat, page: Page, frames': seq<Frame>, i: nat)
    requires FirstLeast(frames, hand, v) && Swept(frames, hand, v, page, frames') && i < |frames| && i != v
    ensures frames'[i].0 == frames[i].0 && frames'[i].1 <= frames[i].1
    ensures frames[i].1 == 0 ==> frames[v].1 == 0 && Offset(hand, v, |frames|) < Offset(hand, i, |frames|)
  {
  }
}
