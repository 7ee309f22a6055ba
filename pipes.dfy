/** The obstacles of main.py: the `Pipe` sprite, its spawning ranges and
    its leftward scroll, and the score band the player's centre is compared
    against. */
module Pipes {
  import opened Playfield

  /** A new pipe appears at the playfield's right edge (`valid.right`). */
  const SpawnX := Width
  /** `offset_V = (-3, 0)`: the pipe's leftward step per update. */
  const Scroll := 3
  /** The horizontal centre of the player's rect, which never moves. */
  const PlayerCentreX := CenterX

  /** The sizes of the two pipe segment images: `img_up` (read from
      pipe_down.bmp) gives the composite's width. */
  datatype PipeImages = PipeImages(upWidth: nat, upHeight: nat, dnHeight: nat)

  /** `combine_imgs`: top segment, the hole of `gap` pixels, bottom segment. */
  function CombinedHeight(img: PipeImages, gap: nat): nat
  {
    img.upHeight + gap + img.dnHeight
  }

  /** The values of `randrange(200, 500, 50)`. */
  predicate IsPipeY(y: int)
  {
    200 <= y < 500 && (y - 200) % 50 == 0
  }

  /** The values of `randrange(240, 320, 20)`. */
  predicate IsGap(g: int)
  {
    240 <= g < 320 && (g - 240) % 20 == 0
  }

  /** `randrange(200, 500, 50)` has 6 values and `randrange(240, 320, 20)`
      has 4, so a draw `d` selects `200 + 50 * (d % 6)` and
      `240 + 20 * (d % 4)`. */
  lemma PipeDrawsSelect(d: nat)
    ensures RandRange(200, 500, 50, d) == 200 + 50 * (d % 6)
    ensures RandRange(240, 320, 20, d) == 240 + 20 * (d % 4)
  {
    assert RangeCount(200, 500, 50) == 6 && RangeCount(240, 320, 20) == 4;
  }

  /** `update_score`'s test: the centre lies within one unit of the pipe's x. */
  predicate InBand(pipeX: int, centreX: int)
  {
    pipeX - 1 <= centreX <= pipeX + 1
  }

  /** How many of the pipe positions `xs` put `centreX` in the band. */
  function CountInBand(xs: seq<int>, centreX: int): (n: nat)
    ensures n <= |xs|
  {
    if xs == [] then 0
    else
      CountInBand(xs[..|xs| - 1], centreX)
        + (if InBand(xs[|xs| - 1], centreX) then 1 else 0)
  }

  /** No point is scored exactly when no position is in the band, and one
      point per position exactly when every position is. */
  lemma {:induction false} CountInBandExtremes(xs: seq<int>, centreX: int)
    ensures CountInBand(xs, centreX) == 0 <==> forall i :: 0 <= i < |xs| ==> !InBand(xs[i], centreX)
    ensures CountInBand(xs, centreX) == |xs| <==> forall i :: 0 <= i < |xs| ==> InBand(xs[i], centreX)
  {
    if xs != [] {
      var front := xs[..|xs| - 1];
      CountInBandExtremes(front, centreX);
      assert forall i :: 0 <= i < |front| ==> xs[i] == front[i];
    }
  }

  /** The number of score events of a pipe first seen at `x0` over `n`
      updates: the score test samples it at `x0, x0 - 3, ..., x0 - 3(n-1)`. */
  function PassCrossings(x0: int, n: nat): nat
  {
    if n == 0 then 0
    else
      PassCrossings(x0, n - 1)
        + (if InBand(x0 - Scroll * (n - 1), PlayerCentreX) then 1 else 0)
  }

  /** No score event while every sample lies to the right of the band. */
  lemma {:induction false} NoCrossingRightOfBand(x0: int, n: nat)
    requires n == 0 || x0 - Scroll * (n - 1) > PlayerCentreX + 1
    ensures PassCrossings(x0, n) == 0
  {
    if n > 0 {
      NoCrossingRightOfBand(x0, n - 1);
    }
  }

  /** The band is three units wide and the step is three: a pipe is scored
      at most once during its pass. */
  lemma {:induction false} CrossingsAtMostOne(x0: int, n: nat)
    ensures PassCrossings(x0, n) <= 1
  {
    if n > 0 {
      if InBand(x0 - Scroll * (n - 1), PlayerCentreX) {
        NoCrossingRightOfBand(x0, n - 1);
      } else {
        CrossingsAtMostOne(x0, n - 1);
      }
    }
  }

  /** A pass that starts at or right of the band and whose last sample is at
      or left of it is scored exactly once: the step never skips the band. */
  lemma {:induction false} CrossingExactlyOnce(x0: int, n: nat)
    requires x0 >= PlayerCentreX - 1
    requires 0 < n && x0 - Scroll * (n - 1) <= PlayerCentreX + 1
    ensures PassCrossings(x0, n) == 1
  {
    if n > 1 && x0 - Scroll * (n - 2) <= PlayerCentreX + 1 {
      CrossingExactlyOnce(x0, n - 1);
    } else {
      NoCrossingRightOfBand(x0, n - 1);
    }
  }

  /** A pipe: the `pos` vector (whose y never changes), the hole height
      `hW`, the composite image's size, the `rect` (whose top never changes)
      and the `destroy` flag. The ghost fields record where it was placed,
      how many updates it took, how many of the player's score tests
      found it in the band, and the two random draws its y and hole came
      from. */
  class Pipe {
    var posX: int
    const posY: int
    const gap: int
    const width: nat
    const height: nat
    var rectLeft: int
    const rectTop: int
    var destroy: bool
    ghost var startX: int
    ghost var updates: nat
    ghost var crossings: nat
    ghost const yDraw: nat
    ghost const gapDraw: nat

    ghost predicate Valid()
      reads this
    {
      IsPipeY(posY) && IsGap(gap) && rectTop == posY - height / 2
      && SpawnX <= startX && posX == startX - Scroll * updates
      // the rect is built at `valid.right` and only follows `pos` from the first update on
      && rectLeft == (if updates == 0 then SpawnX else posX)
      && (destroy <==> 0 < updates && posX + width < 0)
      && crossings == PassCrossings(startX, updates)
    }

    /** `Pipe()`: `yDraw` and `gapDraw` are the two random draws. */
    constructor (img: PipeImages, yDraw: nat, gapDraw: nat)
      ensures Valid()
      ensures posX == SpawnX && rectLeft == SpawnX && !destroy
      ensures startX == SpawnX && updates == 0 && crossings == 0
      ensures this.yDraw == yDraw && this.gapDraw == gapDraw
      ensures posY == RandRange(200, 500, 50, yDraw)
      ensures gap == RandRange(240, 320, 20, gapDraw)
      ensures width == img.upWidth && height == CombinedHeight(img, gap)
    {
      var y := RandRange(200, 500, 50, yDraw);
      var g := RandRange(240, 320, 20, gapDraw);
      var h := CombinedHeight(img, g);
      posX, posY, gap := SpawnX, y, g;
      destroy := false;
      width, height := img.upWidth, h;
      rectTop := y - h / 2;
      rectLeft := SpawnX;
      startX, updates, crossings := SpawnX, 0, 0;
      this.yDraw, this.gapDraw := yDraw, gapDraw;
    }

    /** `reset_pipes` pushes a freshly built pipe right by `dx` (its `pos`
        only; the rect stays where the constructor put it). */
    method Offset(dx: nat)
      requires Valid() && updates == 0
      modifies this`posX, this`startX
      ensures Valid()
      ensures posX == old(posX) + dx && startX == old(startX) + dx
    {
      posX := posX + dx;
      startX := startX + dx;
    }

    /** `Pipe.update`: scroll by -3 and sync the rect until the right edge
        passes the playfield's left edge; afterwards, nothing changes. The
        ghost update records the score test the player ran against this
        pipe's position earlier in the same frame. */
    method Update()
      requires Valid()
      modifies this`posX, this`rectLeft, this`destroy, this`updates, this`crossings
      ensures Valid()
      ensures old(destroy) ==> destroy && posX == old(posX) && rectLeft == old(rectLeft)
                               && updates == old(updates) && crossings == old(crossings)
      ensures !old(destroy) ==> posX == old(posX) - Scroll && rectLeft == posX
                                && (destroy <==> posX + width < 0)
                                && updates == old(updates) + 1
      ensures !old(destroy) ==>
                crossings == old(crossings) + (if InBand(old(posX), PlayerCentreX) then 1 else 0)
    {
      if !destroy {
        crossings := crossings + (if InBand(posX, PlayerCentreX) then 1 else 0);
        posX := posX - Scroll;
        rectLeft := posX;
        updates := updates + 1;
        if rectLeft + width < 0 {
          destroy := true;
        }
      }
    }

    /** A pipe is never scored twice. */
    lemma CrossedAtMostOnce()
      requires Valid()
      ensures crossings <= 1
    {
      CrossingsAtMostOne(startX, updates);
    }

    /** A pipe flagged `destroy` crossed the band, and was scored, exactly once. */
    lemma CrossedOnceWhenDestroyed()
      requires Valid() && destroy
      ensures crossings == 1
    {
      CrossingExactlyOnce(startX, updates);
    }
  }

  /** The x positions of a list of pipes, in order. */
  function Xs(ps: seq<Pipe>): (xs: seq<int>)
    reads ps
    ensures |xs| == |ps|
    ensures forall i :: 0 <= i < |ps| ==> xs[i] == ps[i].posX
  {
    if ps == [] then [] else Xs(ps[..|ps| - 1]) + [ps[|ps| - 1].posX]
  }

  /** A pipe as `Pipe()` leaves it: valid, at the spawn point, never moved
      and never scored. */
  ghost predicate Spawned(q: Pipe)
    reads q
  {
    q.Valid() && !q.destroy && q.posX == SpawnX && q.updates == 0 && q.crossings == 0
  }

  /** The pipes one recycling pass has added: each as `Pipe()` left it,
      one of the pipes `born` during the pass, none repeated and none taken
      from `pool`. */
  ghost predicate Replacements(added: seq<Pipe>, pool: seq<Pipe>, born: set<Pipe>)
    reads added
  {
    added == []
    || (var front, q := added[..|added| - 1], added[|added| - 1];
        Spawned(q) && q in born && q !in pool && q !in front && Replacements(front, pool, born))
  }

  lemma {:induction false} ReplacementsAt(added: seq<Pipe>, pool: seq<Pipe>, born: set<Pipe>)
    requires Replacements(added, pool, born)
    ensures Distinct(added)
    ensures forall j :: 0 <= j < |added| ==>
              Spawned(added[j]) && added[j] in born && added[j] !in pool
  {
    if added != [] {
      var front, q := added[..|added| - 1], added[|added| - 1];
      ReplacementsAt(front, pool, born);
      assert forall j :: 0 <= j < |front| ==> added[j] == front[j];
    }
  }

  /** More pipes born during the pass keep the earlier replacements valid. */
  lemma {:induction false} ReplacementsGrow(added: seq<Pipe>, pool: seq<Pipe>, born: set<Pipe>,
                                            more: set<Pipe>)
    requires Replacements(added, pool, born) && born <= more
    ensures Replacements(added, pool, more)
  {
    if added != [] {
      ReplacementsGrow(added[..|added| - 1], pool, born, more);
    }
  }

  /** The score events recorded on a list of pipes. */
  ghost function Scored(ps: seq<Pipe>): nat
    reads ps
  {
    if ps == [] then 0 else Scored(ps[..|ps| - 1]) + ps[|ps| - 1].crossings
  }

  /** 1 when a score test at `x` finds the pipe in the band, 0 otherwise. */
  function Hit(x: int): nat
  {
    if InBand(x, PlayerCentreX) then 1 else 0
  }

  /** The sum of a list of counts. */
  function Total(cs: seq<nat>): nat
  {
    if cs == [] then 0 else Total(cs[..|cs| - 1]) + cs[|cs| - 1]
  }

  /** The score events recorded on a list of pipes, when each pipe holds
      its entry of `c0` (`counted` false) or that entry plus the score test
      at its entry of `xs` (`counted` true): the latter adds the number of
      entries of `xs` in the band. */
  lemma {:induction false} ScoredShift(ps: seq<Pipe>, c0: seq<nat>, xs: seq<int>, counted: bool)
    requires |c0| == |ps| && |xs| == |ps|
    requires forall j :: 0 <= j < |ps| ==>
               ps[j].crossings == c0[j] + (if counted then Hit(xs[j]) else 0)
    ensures Scored(ps) == Total(c0) + (if counted then CountInBand(xs, PlayerCentreX) else 0)
  {
    if ps != [] {
      var n := |ps| - 1;
      assert forall j :: 0 <= j < n ==> ps[..n][j] == ps[j] && c0[..n][j] == c0[j] && xs[..n][j] == xs[j];
      ScoredShift(ps[..n], c0[..n], xs[..n], counted);
    }
  }

  /** No two entries of a pool are the same sprite (a pygame Group is a
      set): each entry is absent from the entries before it. */
  predicate Distinct(ps: seq<Pipe>)
  {
    ps == [] || (ps[|ps| - 1] !in ps[..|ps| - 1] && Distinct(ps[..|ps| - 1]))
  }

  /** The same, position by position. */
  lemma {:induction false} DistinctIndex(ps: seq<Pipe>)
    requires Distinct(ps)
    ensures forall i, j :: 0 <= i < j < |ps| ==> ps[i] != ps[j]
  {
    if ps != [] {
      var front := ps[..|ps| - 1];
      DistinctIndex(front);
      forall i, j | 0 <= i < j < |ps|
        ensures ps[i] != ps[j]
      {
        assert ps[i] == front[i];
        if j < |front| {
          assert ps[j] == front[j];
        } else {
          assert front[i] in front;
        }
      }
    }
  }

  /** In a pool without repeats, an entry occurs neither before nor after
      its own position. */
  lemma DistinctAt(ps: seq<Pipe>, i: nat)
    requires Distinct(ps) && i < |ps|
    ensures ps[i] !in ps[..i] && ps[i] !in ps[i + 1..]
  {
    DistinctIndex(ps);
    assert forall j :: 0 <= j < i ==> ps[..i][j] == ps[j] != ps[i];
    var rest := ps[i + 1..];
    forall j | 0 <= j < |rest|
      ensures rest[j] != ps[i]
    {
      assert rest[j] == ps[i + 1 + j];
    }
  }

  /** Two pools without repeats and without common entries join into one. */
  lemma {:induction false} DistinctConcat(a: seq<Pipe>, b: seq<Pipe>)
    requires Distinct(a) && Distinct(b)
    requires forall q :: q in b ==> q !in a
    ensures Distinct(a + b)
  {
    if b == [] {
      assert a + b == a;
    } else {
      var front, last := b[..|b| - 1], b[|b| - 1];
      assert forall q :: q in front ==> q in b;
      DistinctConcat(a, front);
      assert (a + b)[..|a + b| - 1] == a + front;
      assert (a + b)[|a + b| - 1] == last;
      assert last !in a && last !in front;
    }
  }

  /** The pipes not flagged `destroy`, in order. */
  ghost function Survivors(ps: seq<Pipe>): (r: seq<Pipe>)
    reads ps
    ensures |r| <= |ps|
  {
    if ps == [] then []
    else Survivors(ps[..|ps| - 1]) + (if ps[|ps| - 1].destroy then [] else [ps[|ps| - 1]])
  }

  /** The survivors are exactly the pool's entries not flagged `destroy`,
      and a pool without repeats yields survivors without repeats. */
  lemma {:induction false} SurvivorsMembers(ps: seq<Pipe>)
    ensures forall q :: q in Survivors(ps) ==> q in ps && !q.destroy
    ensures forall q :: q in ps && !q.destroy ==> q in Survivors(ps)
    ensures Distinct(ps) ==> Distinct(Survivors(ps))
  {
    if ps != [] {
      var front, last := ps[..|ps| - 1], ps[|ps| - 1];
      assert ps == front + [last];
      SurvivorsMembers(front);
      if Distinct(ps) {
        var r, rf := Survivors(ps), Survivors(front);
        assert Distinct(front) && last !in front;
        if last.destroy {
          assert r == rf;
        } else {
          assert r == rf + [last];
          assert r[|r| - 1] == last && r[..|r| - 1] == rf;
          assert last !in rf;
        }
      }
    }
  }

  /** The entries of `ps` outside `dead`, in order: the survivors of a
      pool whose destroyed entries are exactly `dead`. */
  function Keep(ps: seq<Pipe>, dead: set<Pipe>): (r: seq<Pipe>)
    ensures |r| <= |ps|
  {
    if ps == [] then []
    else Keep(ps[..|ps| - 1], dead) + (if ps[|ps| - 1] in dead then [] else [ps[|ps| - 1]])
  }

  lemma {:induction false} SurvivorsAsKeep(ps: seq<Pipe>, dead: set<Pipe>)
    requires forall q :: q in ps ==> (q.destroy <==> q in dead)
    ensures Survivors(ps) == Keep(ps, dead)
  {
    if ps != [] {
      var front := ps[..|ps| - 1];
      assert forall q :: q in front ==> q in ps;
      SurvivorsAsKeep(front, dead);
    }
  }

  /** Extending a prefix by one entry extends what it keeps by that entry
      when it is not dead. */
  lemma KeepStep(ps: seq<Pipe>, dead: set<Pipe>, i: nat)
    requires i < |ps|
    ensures Keep(ps[..i + 1], dead) == Keep(ps[..i], dead) + (if ps[i] in dead then [] else [ps[i]])
  {
    assert ps[..i + 1][..i] == ps[..i];
  }

  lemma {:induction false} KeepMembers(ps: seq<Pipe>, dead: set<Pipe>)
    ensures forall q :: q in Keep(ps, dead) ==> q in ps && q !in dead
  {
    if ps != [] {
      var front := ps[..|ps| - 1];
      KeepMembers(front, dead);
      assert forall q :: q in front ==> q in ps;
    }
  }

  lemma {:induction false} ScoredAppend(a: seq<Pipe>, b: seq<Pipe>)
    ensures Scored(a + b) == Scored(a) + Scored(b)
  {
    if b != [] {
      assert (a + b)[..|a + b| - 1] == a + b[..|b| - 1];
      assert (a + b)[|a + b| - 1] == b[|b| - 1];
      ScoredAppend(a, b[..|b| - 1]);
    } else {
      assert a + b == a;
    }
  }

  lemma {:induction false} ScoredUnscored(ps: seq<Pipe>)
    requires forall i :: 0 <= i < |ps| ==> ps[i].crossings == 0
    ensures Scored(ps) == 0
  {
    if ps != [] {
      ScoredUnscored(ps[..|ps| - 1]);
    }
  }

  /** Every destroyed pipe of a valid list was scored once, so the list's
      score events are those of its survivors plus one per destroyed pipe. */
  lemma {:induction false} ScoredSurvivors(ps: seq<Pipe>)
    requires forall i :: 0 <= i < |ps| ==> ps[i].Valid()
    ensures Scored(ps) == Scored(Survivors(ps)) + (|ps| - |Survivors(ps)|)
  {
    if ps != [] {
      var front := ps[..|ps| - 1];
      var last := ps[|ps| - 1];
      assert forall i :: 0 <= i < |front| ==> front[i] == ps[i];
      ScoredSurvivors(front);
      assert Scored(ps) == Scored(front) + last.crossings;
      if last.destroy {
        last.CrossedOnceWhenDestroyed();
        assert Survivors(ps) == Survivors(front);
      } else {
        assert Survivors(ps) == Survivors(front) + [last];
        ScoredAppend(Survivors(front), [last]);
        assert [last][..0] == [];
        assert Scored([last]) == last.crossings;
      }
    }
  }

  /** Each pipe of a valid list was scored at most once. */
  lemma {:induction false} ScoredAtMostSize(ps: seq<Pipe>)
    requires forall i :: 0 <= i < |ps| ==> ps[i].Valid()
    ensures Scored(ps) <= |ps|
  {
    if ps != [] {
      ScoredAtMostSize(ps[..|ps| - 1]);
      ps[|ps| - 1].CrossedAtMostOnce();
    }
  }

  /** The pool after recycling, the survivors followed by the replacements,
      is again a set of valid pipes, and only the destroyed pipes' score
      events have left it. */
  lemma RecycledPool(before: seq<Pipe>, added: seq<Pipe>, born: set<Pipe>)
    requires Distinct(before) && (forall i :: 0 <= i < |before| ==> before[i].Valid())
    requires Replacements(added, before, born)
    ensures var after := Survivors(before) + added;
            Distinct(after)
            && (forall i :: 0 <= i < |after| ==> after[i].Valid() && !after[i].destroy)
            && Scored(after) + (|before| - |Survivors(before)|) == Scored(before)
  {
    var kept := Survivors(before);
    var after := kept + added;
    SurvivorsMembers(before);
    ReplacementsAt(added, before, born);
    forall i | 0 <= i < |after|
      ensures after[i].Valid() && !after[i].destroy
    {
      if i < |kept| {
        assert kept[i] in kept;
        assert exists j :: 0 <= j < |before| && before[j] == kept[i];
      } else {
        assert after[i] == added[i - |kept|];
      }
    }
    DistinctConcat(kept, added);
    ScoredSurvivors(before);
    ScoredAppend(kept, added);
    ScoredUnscored(added);
  }

  /** In the pool after recycling, the survivors' entries come from the old
      pool and the entries after them are the spawned replacements. */
  lemma RecycledOrder(before: seq<Pipe>, added: seq<Pipe>, born: set<Pipe>)
    requires Replacements(added, before, born)
    ensures var kept, after := Survivors(before), Survivors(before) + added;
            (forall i :: 0 <= i < |kept| ==> after[i] in before)
            && (forall i :: |kept| <= i < |after| ==> Spawned(after[i]) && after[i] in born)
  {
    var kept := Survivors(before);
    SurvivorsMembers(before);
    ReplacementsAt(added, before, born);
    assert forall i :: 0 <= i < |kept| ==> kept[i] in kept;
    assert forall i :: |kept| <= i < |kept| + |added| ==> (kept + added)[i] == added[i - |kept|];
  }
}
