/** The lifetime bookkeeping of the animation loop in BouncingBalls/src/main.c.

    Only what the loop does with the ball list is modelled: spawning up to NUM_BALLS
    balls with a lifetime of BALL_TTL_FRAMES frames, the per-frame pass that ages every
    ball by one frame and unlinks it from the list as soon as its lifetime runs out, the
    stop condition, and the final release of the balls still listed. A ball is reduced
    to its `ttl` field; position, speed, scale, drawing and window events are not part
    of this model (allocation success and the quit signal come in as parameters). */
module BouncingBalls {
  import opened ListSpec
  import opened LinkedList

  /** Frames a ball lives before it disappears. */
  const BALL_TTL_FRAMES: nat := 300
  /** Balls the animation tries to create. */
  const NUM_BALLS: nat := 10

  /** A ball object, reduced to its remaining lifetime in frames. */
  class Ball {
    var ttl: nat

    /** create_object: a new object starts with a ttl of 0. */
    constructor ()
      ensures ttl == 0
    {
      ttl := 0;
    }
  }

  /** What one frame does to a lifetime: a positive ttl loses one, 0 stays 0. */
  function Tick(ttl: nat): nat {
    if ttl > 0 then ttl - 1 else 0
  }

  /** A ball that starts a frame with this ttl is still listed after the frame. */
  predicate Survives(ttl: nat) {
    Tick(ttl) != 0
  }

  /** The ttl of each ball of `bs`, in order. */
  ghost function TTLs(bs: seq<Ball>): (ts: seq<nat>)
    reads bs
    ensures |ts| == |bs|
    ensures forall i | 0 <= i < |bs| :: ts[i] == bs[i].ttl
  {
    if bs == [] then [] else [bs[0].ttl] + TTLs(bs[1..])
  }

  /** The balls among the first n of `bs` that live through a frame they start with
      lifetimes `ts`, in their list order. */
  ghost function Survivors(bs: seq<Ball>, ts: seq<nat>, n: nat): (r: seq<Ball>)
    requires |bs| == |ts| && n <= |bs|
    ensures |r| <= n
  {
    if n == 0 then []
    else Survivors(bs, ts, n - 1) + (if Survives(ts[n - 1]) then [bs[n - 1]] else [])
  }

  /** The balls among the first n of `bs` whose lifetime runs out in that frame, in
      their list order. */
  ghost function Expired(bs: seq<Ball>, ts: seq<nat>, n: nat): (r: seq<Ball>)
    requires |bs| == |ts| && n <= |bs|
    ensures |r| <= n
  {
    if n == 0 then []
    else Expired(bs, ts, n - 1) + (if Survives(ts[n - 1]) then [] else [bs[n - 1]])
  }

  /** Pruning only keeps balls that were there, and only reports those as expired. */
  lemma {:induction false} SurvivorsWithin(bs: seq<Ball>, ts: seq<nat>, n: nat)
    requires |bs| == |ts| && n <= |bs|
    ensures forall b | b in Survivors(bs, ts, n) :: b in bs[..n]
    ensures forall b | b in Expired(bs, ts, n) :: b in bs[..n]
  {
    if n > 0 {
      SurvivorsWithin(bs, ts, n - 1);
      assert bs[..n] == bs[..n - 1] + [bs[n - 1]];
    }
  }

  /** A ball is among the survivors exactly when it sits at one of the first n
      positions with a lifetime that lasts the frame, and among the expired balls
      exactly when it sits at one of them with a lifetime that runs out. */
  lemma {:induction false} SurvivorsMembers(bs: seq<Ball>, ts: seq<nat>, n: nat, b: Ball)
    requires |bs| == |ts| && n <= |bs|
    ensures b in Survivors(bs, ts, n) <==> exists i | 0 <= i < n :: bs[i] == b && Survives(ts[i])
    ensures b in Expired(bs, ts, n) <==> exists i | 0 <= i < n :: bs[i] == b && !Survives(ts[i])
  {
    if n > 0 {
      var m := n - 1;
      SurvivorsMembers(bs, ts, m, b);
      WalkStep(bs, ts, m);
      if bs[m] == b {
        assert Survives(ts[m]) ==> b in Survivors(bs, ts, n);
        assert !Survives(ts[m]) ==> b in Expired(bs, ts, n);
      }
    }
  }

  /** Every ball either survives the frame or expires in it, and not both. */
  lemma {:induction false} SurvivorsPartition(bs: seq<Ball>, ts: seq<nat>, n: nat)
    requires |bs| == |ts| && n <= |bs|
    ensures multiset(Survivors(bs, ts, n)) + multiset(Expired(bs, ts, n)) == multiset(bs[..n])
    decreases n, 1
  {
    if n == 0 {
      assert bs[..n] == [];
    } else {
      PartitionStep(bs, ts, n);
    }
  }

  /** The induction step of SurvivorsPartition: the first n - 1 balls are split, and
      ball n - 1 goes to exactly one side. */
  lemma PartitionStep(bs: seq<Ball>, ts: seq<nat>, n: nat)
    requires |bs| == |ts| && 0 < n <= |bs|
    ensures multiset(Survivors(bs, ts, n)) + multiset(Expired(bs, ts, n)) == multiset(bs[..n])
    decreases n, 0
  {
    SurvivorsPartition(bs, ts, n - 1);
    assert bs[..n] == bs[..n - 1] + [bs[n - 1]];
    SplitSnoc(Survivors(bs, ts, n - 1), Expired(bs, ts, n - 1), bs[..n - 1], bs[n - 1],
              Survives(ts[n - 1]), Survivors(bs, ts, n), Expired(bs, ts, n));
  }

  /** When `a` and `b` together hold the values of `s`, appending one more value `x` to
      `s` and to exactly one of them (to `a` when `left` holds) keeps it so. */
  lemma SplitSnoc<T>(a: seq<T>, b: seq<T>, s: seq<T>, x: T, left: bool, a': seq<T>, b': seq<T>)
    requires multiset(a) + multiset(b) == multiset(s)
    requires a' == a + (if left then [x] else []) && b' == b + (if left then [] else [x])
    ensures multiset(a') + multiset(b') == multiset(s + [x])
  {
  }

  /** Pruning keeps distinct balls distinct. */
  lemma {:induction false} SurvivorsDistinct(bs: seq<Ball>, ts: seq<nat>, n: nat)
    requires |bs| == |ts| && n <= |bs| && Distinct(bs)
    ensures Distinct(Survivors(bs, ts, n)) && Distinct(Expired(bs, ts, n))
  {
    if n > 0 {
      var m := n - 1;
      DistinctPrefix(bs, m);
      SurvivorsDistinct(bs, ts, m);
      SurvivorsWithin(bs, ts, m);
      var sv, ex := Survivors(bs, ts, m), Expired(bs, ts, m);
      if Survives(ts[m]) {
        DistinctSnoc(sv, bs[m]);
        assert Expired(bs, ts, n) == ex + [] == ex;
      } else {
        DistinctSnoc(ex, bs[m]);
        assert Survivors(bs, ts, n) == sv + [] == sv;
      }
    }
  }

  /** When every lifetime exceeds one frame, nobody is pruned. */
  lemma {:induction false} AllSurvive(bs: seq<Ball>, ts: seq<nat>, n: nat)
    requires |bs| == |ts| && n <= |bs| && forall i | 0 <= i < |ts| :: ts[i] > 1
    ensures Survivors(bs, ts, n) == bs[..n] && Expired(bs, ts, n) == []
  {
    if n > 0 {
      AllSurvive(bs, ts, n - 1);
      assert bs[..n] == bs[..n - 1] + [bs[n - 1]];
    }
  }

  /** When no lifetime exceeds one frame, everybody is pruned. */
  lemma {:induction false} NoneSurvive(bs: seq<Ball>, ts: seq<nat>, n: nat)
    requires |bs| == |ts| && n <= |bs| && forall i | 0 <= i < |ts| :: ts[i] <= 1
    ensures Survivors(bs, ts, n) == [] && Expired(bs, ts, n) == bs[..n]
  {
    if n > 0 {
      NoneSurvive(bs, ts, n - 1);
      assert bs[..n] == bs[..n - 1] + [bs[n - 1]];
    }
  }

  /** The number of successful creations among the first n attempts. */
  function SpawnCount(allocOk: nat -> bool, n: nat): (r: nat)
    ensures r <= n
  {
    if n == 0 then 0 else SpawnCount(allocOk, n - 1) + (if allocOk(n - 1) then 1 else 0)
  }

  /** The set-up of the animation: create the list, then try NUM_BALLS creations; each
      ball that could be created gets a lifetime of BALL_TTL_FRAMES and is appended, so
      the list holds the created balls in creation order. */
  method SpawnBalls(allocOk: nat -> bool) returns (balls: List<Ball>)
    ensures balls.Valid() && fresh(balls) && fresh(balls.Repr)
    ensures |balls.Items| == SpawnCount(allocOk, NUM_BALLS)
    ensures Distinct(balls.Items)
    ensures forall i | 0 <= i < |balls.Items| ::
      fresh(balls.Items[i]) && balls.Items[i].ttl == BALL_TTL_FRAMES
  {
    balls := new List();
    for i := 0 to NUM_BALLS
      invariant balls.Valid() && fresh(balls) && fresh(balls.Repr)
      invariant |balls.Items| == SpawnCount(allocOk, i)
      invariant Distinct(balls.Items)
      invariant forall j | 0 <= j < |balls.Items| ::
        fresh(balls.Items[j]) && balls.Items[j].ttl == BALL_TTL_FRAMES
    {
      if !allocOk(i) {
        continue;
      }
      var ball := new Ball();
      ball.ttl := BALL_TTL_FRAMES;
      DistinctSnoc(balls.Items, ball);
      balls.AddLast(ball);
    }
  }

  /** One step of the walk on values, and of every induction over Survivors and
      Expired: the list "survivors so far, then the balls from position k on" is those
      survivors, the k-th ball and the balls after it, and dealing with the k-th ball
      adds it at the end of exactly one of the survivors and the expired balls. */
  lemma WalkStep(bs: seq<Ball>, ts: seq<nat>, k: nat)
    requires |bs| == |ts| && k < |bs|
    ensures bs[k..] == [bs[k]] + bs[k + 1..]
    ensures Survivors(bs, ts, k) + bs[k..] == Survivors(bs, ts, k) + [bs[k]] + bs[k + 1..]
    ensures Survives(ts[k]) ==>
      Survivors(bs, ts, k + 1) == Survivors(bs, ts, k) + [bs[k]] &&
      Expired(bs, ts, k + 1) == Expired(bs, ts, k)
    ensures !Survives(ts[k]) ==>
      Survivors(bs, ts, k + 1) == Survivors(bs, ts, k) &&
      Expired(bs, ts, k + 1) == Expired(bs, ts, k) + [bs[k]]
  {
    assert bs[k..] == [bs[k]] + bs[k + 1..];
    assert Survivors(bs, ts, k) + [] == Survivors(bs, ts, k);
    assert Expired(bs, ts, k) + [] == Expired(bs, ts, k);
  }

  /** In a list of distinct balls the k-th ball differs from every other one, so in
      particular it is not among the survivors of the balls before it. */
  lemma PruneStep(bs: seq<Ball>, ts: seq<nat>, k: nat)
    requires |bs| == |ts| && Distinct(bs) && k < |bs|
    ensures bs[k] !in Survivors(bs, ts, k)
    ensures forall i | 0 <= i < |bs| && i != k :: bs[i] != bs[k]
  {
    SurvivorsWithin(bs, ts, k);
    DistinctPrefix(bs, k);
    forall i | 0 <= i < |bs| && i != k
      ensures bs[i] != bs[k]
    {
      if i < k {
        DistinctAt(bs, i, k);
      } else {
        DistinctAt(bs, k, i);
      }
    }
  }

  /** The expiry branch of the per-ball walk: the k-th ball of the frame's starting
      list `bs`, which the iterator has just handed out and whose lifetime runs out in
      this frame, is unlinked from the list; the cursor still points at the ball after
      it, and no ball's ttl changes. */
  method Expire(balls: List<Ball>, it: ListIterator<Ball>, ball: Ball,
                ghost bs: seq<Ball>, ghost ts: seq<nat>, ghost k: nat)
    requires balls.Valid() && it.list == balls && it.Valid()
    requires |bs| == |ts| && Distinct(bs) && k < |bs| && bs[k] == ball && !Survives(ts[k])
    requires balls.Items == Survivors(bs, ts, k) + bs[k..]
    requires it.Cursor() == |Survivors(bs, ts, k)| + 1
    requires Aged(bs, ts, k + 1)
    modifies balls, balls.Repr
    ensures balls.Valid() && it.Valid() && balls.Repr == old(balls.Repr)
    ensures balls.Items == Survivors(bs, ts, k + 1) + bs[k + 1..]
    ensures it.Cursor() == |Survivors(bs, ts, k + 1)|
    ensures Aged(bs, ts, k + 1)
  {
    WalkStep(bs, ts, k);
    PruneStep(bs, ts, k);
    RemoveFirstSplit(Survivors(bs, ts, k), ball, bs[k + 1..]);
    ghost var items, ns, c := balls.Items, balls.nodes, it.Cursor();
    balls.Remove(ball);
    RemoveJustReturned(it, ball, items, ns, c);
  }

  /** Where the walk over the frame's starting list `bs` (starting lifetimes `ts`)
      stands once its first k balls have been dealt with: those have aged by a frame,
      the others not yet. */
  ghost predicate Aged(bs: seq<Ball>, ts: seq<nat>, k: nat)
    reads bs
    requires |bs| == |ts| && k <= |bs|
  {
    (forall i | 0 <= i < k :: bs[i].ttl == Tick(ts[i])) &&
    (forall i | k <= i < |bs| :: bs[i].ttl == ts[i])
  }

  /** The ttl update of the per-ball walk: the ttl of `ball`, the k-th ball of the
      frame's starting list `bs` (starting lifetimes `ts`), loses a frame unless it is
      already 0, so that exactly the first k + 1 balls have aged. */
  method TickBall(ball: Ball, ghost bs: seq<Ball>, ghost ts: seq<nat>, ghost k: nat)
    requires |bs| == |ts| && Distinct(bs) && k < |bs| && bs[k] == ball
    requires Aged(bs, ts, k)
    modifies ball
    ensures ball.ttl == Tick(ts[k])
    ensures Aged(bs, ts, k + 1)
  {
    PruneStep(bs, ts, k);
    if ball.ttl > 0 {
      ball.ttl := ball.ttl - 1;
    }
  }

  /** The body of the per-ball walk for `ball`, the k-th ball of the frame's starting
      list `bs` (starting lifetimes `ts`), which the iterator has just handed out: its
      ttl loses a frame unless it is already 0, and a ball whose ttl is then 0 is
      unlinked from the list. The list was the survivors among the first k balls
      followed by the balls from position k on; afterwards it is the survivors among
      the first k + 1 followed by the balls from position k + 1 on, the cursor still
      points at the first of those, and exactly the first k + 1 balls have aged. */
  method AgeBall(balls: List<Ball>, it: ListIterator<Ball>, ball: Ball,
                 ghost bs: seq<Ball>, ghost ts: seq<nat>, ghost k: nat)
    returns (gone: bool)
    requires balls.Valid() && it.list == balls && it.Valid()
    requires |bs| == |ts| && Distinct(bs) && k < |bs| && bs[k] == ball
    requires balls.Items == Survivors(bs, ts, k) + bs[k..]
    requires it.Cursor() == |Survivors(bs, ts, k)| + 1
    requires Aged(bs, ts, k)
    modifies balls, balls.Repr, ball
    ensures balls.Valid() && it.Valid() && balls.Repr == old(balls.Repr)
    ensures gone <==> !Survives(ts[k])
    ensures balls.Items == Survivors(bs, ts, k + 1) + bs[k + 1..]
    ensures Expired(bs, ts, k + 1) == Expired(bs, ts, k) + (if gone then [ball] else [])
    ensures it.Cursor() == |Survivors(bs, ts, k + 1)|
    ensures Aged(bs, ts, k + 1)
  {
    WalkStep(bs, ts, k);
    TickBall(ball, bs, ts, k);
    gone := ball.ttl == 0;
    if gone {
      Expire(balls, it, ball, bs, ts, k);
    }
  }

  /** One turn of the per-ball walk: take the next ball from the iterator; at the end
      of the list nothing changes, otherwise the ball is aged and, when its lifetime
      is over, unlinked and added to the balls destroyed so far (`expired`, which
      becomes `expired'`). Whatever happens, the list is the survivors so far followed
      by the balls still to visit, and the iterator is at the first of those. */
  method Visit(balls: List<Ball>, it: ListIterator<Ball>, expired: seq<Ball>,
               ghost bs: seq<Ball>, ghost ts: seq<nat>, ghost k: nat)
    returns (next: Option<Ball>, expired': seq<Ball>)
    requires balls.Valid() && it.list == balls && it.Valid()
    requires |bs| == |ts| && Distinct(bs) && k <= |bs|
    requires balls.Items == Survivors(bs, ts, k) + bs[k..]
    requires it.Cursor() == |Survivors(bs, ts, k)|
    requires expired == Expired(bs, ts, k)
    requires Aged(bs, ts, k)
    modifies balls, balls.Repr, it, bs
    ensures balls.Valid() && it.Valid() && balls.Repr == old(balls.Repr)
    ensures next.None? <==> k == |bs|
    ensures next.None? ==> balls.Items == old(balls.Items) && expired' == expired && Aged(bs, ts, k)
    ensures next.Some? ==>
      k < |bs| && next.value == bs[k] &&
      it.Cursor() == |Survivors(bs, ts, k + 1)| &&
      balls.Items == Survivors(bs, ts, k + 1) + bs[k + 1..] &&
      expired' == Expired(bs, ts, k + 1) &&
      Aged(bs, ts, k + 1)
  {
    assert it.Remaining() == bs[k..];
    next := it.Next();
    expired' := expired;
    if next.None? {
      return;
    }
    var gone := AgeBall(balls, it, next.value, bs, ts, k);
    if gone {
      expired' := expired + [next.value];
    }
  }

  /** The per-ball walk of one frame: starting at the head, age each ball by one frame
      and unlink it from the list the moment its ttl reaches 0, while the walk goes on.
      Afterwards the list holds, in their old order, the balls that live through the
      frame, every ball that was listed has aged by one frame, and `expired` lists the
      unlinked balls in the order the walk met them. */
  method Prune(balls: List<Ball>, it: ListIterator<Ball>, ghost bs: seq<Ball>, ghost ts: seq<nat>)
    returns (expired: seq<Ball>)
    requires balls.Valid() && it.list == balls && it.Valid() && it.Cursor() == 0
    requires bs == balls.Items && ts == TTLs(bs) && Distinct(bs)
    modifies balls, balls.Repr, it, bs
    ensures balls.Valid() && it.Valid() && balls.Repr == old(balls.Repr)
    ensures balls.Items == Survivors(bs, ts, |bs|)
    ensures expired == Expired(bs, ts, |bs|)
    ensures Aged(bs, ts, |bs|)
  {
    ghost var k := 0;
    expired := [];
    while true
      invariant balls.Valid() && it.Valid() && balls.Repr == old(balls.Repr)
      invariant 0 <= k <= |bs|
      invariant it.Cursor() == |Survivors(bs, ts, k)|
      invariant balls.Items == Survivors(bs, ts, k) + bs[k..]
      invariant expired == Expired(bs, ts, k)
      invariant Aged(bs, ts, k)
      decreases |bs| - k
    {
      var next;
      next, expired := Visit(balls, it, expired, bs, ts, k);
      if next.None? {
        break;
      }
      k := k + 1;
    }
    assert bs[k..] == [];
  }

  /** One frame of the animation loop: the per-ball walk, then the stop check (the
      list is empty, or a quit signal was polled this frame) and the rewind of the
      iterator to the list's head. */
  method Frame(balls: List<Ball>, it: ListIterator<Ball>, quit: bool,
               ghost bs: seq<Ball>, ghost ts: seq<nat>)
    returns (running: bool, expired: seq<Ball>)
    requires balls.Valid() && it.list == balls && it.Valid() && it.Cursor() == 0
    requires bs == balls.Items && ts == TTLs(bs) && Distinct(bs)
    modifies balls, balls.Repr, it, bs
    ensures balls.Valid() && it.Valid() && it.Cursor() == 0
    ensures balls.Repr == old(balls.Repr)
    ensures balls.Items == Survivors(bs, ts, |bs|)
    ensures expired == Expired(bs, ts, |bs|)
    ensures Aged(bs, ts, |bs|)
    ensures Distinct(balls.Items)
    ensures running <==> !quit && balls.Items != []
  {
    expired := Prune(balls, it, bs, ts);
    SurvivorsDistinct(bs, ts, |bs|);
    var n := balls.Size();
    running := !quit && n != 0;
    it.Reset();
  }

  /** A frame that starts with every lifetime equal to t: when t exceeds one frame
      every ball survives it, otherwise every ball expires in it. */
  lemma UniformFrame(bs: seq<Ball>, ts: seq<nat>, t: nat)
    requires |bs| == |ts| && forall i | 0 <= i < |ts| :: ts[i] == t
    ensures t > 1 ==> Survivors(bs, ts, |bs|) == bs && Expired(bs, ts, |bs|) == []
    ensures t <= 1 ==> Survivors(bs, ts, |bs|) == [] && Expired(bs, ts, |bs|) == bs
  {
    assert bs[..|bs|] == bs;
    if t > 1 {
      AllSurvive(bs, ts, |bs|);
    } else {
      NoneSurvive(bs, ts, |bs|);
    }
  }

  /** One frame of the animation loop while every listed ball has the same lifetime
      t: when t exceeds one frame the list stays as it is, otherwise all of its balls
      expire in this frame; either way each of them has aged by one frame. */
  method AnimateFrame(balls: List<Ball>, it: ListIterator<Ball>, quit: bool,
                      ghost bs: seq<Ball>, ghost t: nat)
    returns (running: bool, expired: seq<Ball>)
    requires balls.Valid() && it.list == balls && it.Valid() && it.Cursor() == 0
    requires balls.Items == bs && Distinct(bs)
    requires forall i | 0 <= i < |bs| :: bs[i].ttl == t
    modifies balls, balls.Repr, it, bs
    ensures balls.Valid() && it.Valid() && it.Cursor() == 0 && balls.Repr == old(balls.Repr)
    ensures forall i | 0 <= i < |bs| :: bs[i].ttl == Tick(t)
    ensures t > 1 ==> balls.Items == bs && expired == []
    ensures t <= 1 ==> balls.Items == [] && expired == bs
    ensures running <==> !quit && balls.Items != []
  {
    ghost var ts := TTLs(bs);
    UniformFrame(bs, ts, t);
    running, expired := Frame(balls, it, quit, bs, ts);
  }

  /** The animation loop: frame after frame until a frame ends with the list empty or
      with a quit signal polled during it (quit(f) is what polling yields in frame f).
      Every ball starts with BALL_TTL_FRAMES frames to live, so all of them expire
      together in frame BALL_TTL_FRAMES - 1 (counting from 0) unless a quit signal
      stops the loop first; with no balls the loop stops after one frame. */
  method Animate(balls: List<Ball>, it: ListIterator<Ball>, quit: nat -> bool)
    returns (frames: nat, expired: seq<Ball>)
    requires balls.Valid() && it.list == balls && it.Valid() && it.Cursor() == 0
    requires Distinct(balls.Items)
    requires forall i | 0 <= i < |balls.Items| :: balls.Items[i].ttl == BALL_TTL_FRAMES
    modifies balls, balls.Repr, it, balls.Items
    ensures balls.Valid() && it.Valid() && it.Cursor() == 0
    ensures 1 <= frames <= BALL_TTL_FRAMES
    ensures forall f | 0 <= f < frames - 1 :: !quit(f)
    ensures quit(frames - 1) || old(balls.Items) == [] || frames == BALL_TTL_FRAMES
    ensures old(balls.Items) == [] ==> frames == 1
    ensures balls.Items == [] <==> old(balls.Items) == [] || frames == BALL_TTL_FRAMES
    ensures balls.Items == [] ==> expired == old(balls.Items)
    ensures balls.Items != [] ==> balls.Items == old(balls.Items) && expired == []
    ensures forall i | 0 <= i < |old(balls.Items)| ::
      old(balls.Items)[i].ttl == BALL_TTL_FRAMES - frames
  {
    ghost var bs := balls.Items;
    frames := 0;
    expired := [];
    var running := true;
    while running
      invariant balls.Valid() && it.list == balls && it.Valid() && it.Cursor() == 0
      invariant balls.Repr == old(balls.Repr) && Distinct(bs)
      invariant frames <= BALL_TTL_FRAMES && (frames == 0 ==> running)
      invariant running ==>
        frames < BALL_TTL_FRAMES && balls.Items == bs && (bs != [] || frames == 0) &&
        forall f | 0 <= f < frames :: !quit(f)
      invariant !running ==>
        (forall f | 0 <= f < frames - 1 :: !quit(f)) &&
        (quit(frames - 1) || bs == [] || frames == BALL_TTL_FRAMES)
      invariant bs == [] ==> frames <= 1
      invariant balls.Items == [] <==> bs == [] || frames == BALL_TTL_FRAMES
      invariant balls.Items == [] ==> expired == bs
      invariant balls.Items != [] ==> balls.Items == bs && expired == []
      invariant forall i | 0 <= i < |bs| :: bs[i].ttl == BALL_TTL_FRAMES - frames
      decreases BALL_TTL_FRAMES - frames
    {
      var ex;
      running, ex := AnimateFrame(balls, it, quit(frames), bs, BALL_TTL_FRAMES - frames);
      expired := expired + ex;
      frames := frames + 1;
    }
  }

  /** One call of list_next during the clean-up, on a list whose items are `items`:
      at position k it hands out the k-th item and moves on to position k + 1; at the
      end it hands out nothing. */
  method NextAt(it: ListIterator<Ball>, ghost items: seq<Ball>, ghost k: nat)
    returns (b: Option<Ball>)
    requires it.Valid() && it.list.Items == items && it.Cursor() == k
    modifies it
    ensures it.Valid()
    ensures b.None? <==> k == |items|
    ensures b.Some? ==> k < |items| && b.value == items[k] && it.Cursor() == k + 1
  {
    b := it.Next();
  }

  /** The walk of the clean-up: from the head to the end of the list, every item the
      iterator hands out is destroyed, so the destroyed balls are the listed ones, in
      list order. */
  method DestroyAll(it: ListIterator<Ball>, ghost items: seq<Ball>)
    returns (destroyed: seq<Ball>)
    requires it.Valid() && it.list.Items == items && it.Cursor() == 0
    modifies it
    ensures destroyed == items
  {
    destroyed := [];
    ghost var k := 0;
    while true
      invariant it.Valid() && it.list.Items == items
      invariant it.Cursor() == k && destroyed == items[..k]
      decreases |items| - k
    {
      var b := NextAt(it, items, k);
      if b.None? {
        break;
      }
      assert items[..k + 1] == items[..k] + [items[k]];
      destroyed := destroyed + [b.value];
      k := k + 1;
    }
    assert items[..k] == items;
  }

  /** The clean-up after the animation loop: a fresh iterator walks the list and every
      ball still listed is destroyed, in list order; the list itself is left as it is
      (its release is not modelled). */
  method Cleanup(balls: List<Ball>) returns (destroyed: seq<Ball>)
    requires balls.Valid()
    ensures destroyed == balls.Items
  {
    var it2 := new ListIterator(balls);
    destroyed := DestroyAll(it2, balls.Items);
  }

  /** The whole run of the bouncing-balls animation, as far as the ball list goes:
      spawn, animate, clean up. `spawned` names the balls that were created. Every one
      of them is destroyed exactly once, and no other ball is destroyed: either when
      its lifetime runs out or in the clean-up, and which one depends only on whether
      a quit signal came before the lifetime was over. */
  method RunBouncingBalls(allocOk: nat -> bool, quit: nat -> bool)
    returns (frames: nat, expired: seq<Ball>, destroyed: seq<Ball>, ghost spawned: seq<Ball>)
    ensures |spawned| == SpawnCount(allocOk, NUM_BALLS) && Distinct(spawned)
    ensures forall i | 0 <= i < |spawned| :: fresh(spawned[i])
    ensures expired + destroyed == spawned
    ensures expired == [] || destroyed == []
    ensures expired != [] ==> frames == BALL_TTL_FRAMES
    ensures forall i | 0 <= i < |spawned| :: spawned[i].ttl == BALL_TTL_FRAMES - frames
    ensures 1 <= frames <= BALL_TTL_FRAMES
    ensures quit(frames - 1) || SpawnCount(allocOk, NUM_BALLS) == 0 || frames == BALL_TTL_FRAMES
    ensures forall f | 0 <= f < frames - 1 :: !quit(f)
    ensures SpawnCount(allocOk, NUM_BALLS) == 0 ==> frames == 1
    ensures destroyed != [] ==> frames < BALL_TTL_FRAMES && quit(frames - 1)
    ensures SpawnCount(allocOk, NUM_BALLS) != 0 && (forall f | 0 <= f < BALL_TTL_FRAMES :: !quit(f)) ==>
      frames == BALL_TTL_FRAMES && destroyed == []
  {
    var balls := SpawnBalls(allocOk);
    spawned := balls.Items;
    var it := new ListIterator(balls);
    frames, expired := Animate(balls, it, quit);
    destroyed := Cleanup(balls);
    if destroyed == [] {
      assert expired + destroyed == expired == spawned;
    } else {
      assert expired + destroyed == destroyed == spawned;
    }
  }
}
