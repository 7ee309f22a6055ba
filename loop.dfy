/** The round control of main.py's `main`: event handling (R resets,
    SPACE starts a round from idle, the window's close event ends the
    loop), recycling of destroyed pipes, and the player and pipe updates
    that run only while a round is being played. */
module Loop {
  import opened Playfield
  import opened Pipes
  import opened Bird

  /** `reset_pipes` builds three pipes, the first pushed 100 to the right
      of the spawn point and each next one its predecessor's width plus
      200 further. */
  const PoolSize := 3
  const FirstOffset := 100
  const PipeBuffer := 200

  datatype Key = R | Space | OtherKey
  datatype Event = KeyDown(key: Key) | Quit | OtherEvent

  /** The round state that the flags `play` and `died` encode. */
  datatype Phase = Idle | Playing | Dead

  function PhaseOf(play: bool, died: bool): Phase
  {
    if died then Dead else if play then Playing else Idle
  }

  /** What one event does to the round state. */
  function AfterEvent(ph: Phase, e: Event): Phase
  {
    match e
    case KeyDown(R) => Idle
    case KeyDown(Space) => if ph == Idle then Playing else ph
    case _ => ph
  }

  /** What a frame's events, handled in order, do to the round state. */
  function AfterEvents(ph: Phase, es: seq<Event>): Phase
  {
    if es == [] then ph else AfterEvent(AfterEvents(ph, es[..|es| - 1]), es[|es| - 1])
  }

  lemma {:induction false} AfterEventsSplit(ph: Phase, a: seq<Event>, b: seq<Event>)
    ensures AfterEvents(ph, a + b) == AfterEvents(AfterEvents(ph, a), b)
  {
    if b == [] {
      assert a + b == a;
    } else {
      assert (a + b)[..|a + b| - 1] == a + b[..|b| - 1];
      assert (a + b)[|a + b| - 1] == b[|b| - 1];
      AfterEventsSplit(ph, a, b[..|b| - 1]);
    }
  }

  /** Without R, SPACE moves Idle to Playing and nothing else changes:
      a round cannot be restarted from Dead, nor stopped by a key. */
  lemma {:induction false} WithoutReset(ph: Phase, es: seq<Event>)
    requires KeyDown(R) !in es
    ensures AfterEvents(ph, es) == if ph == Idle && KeyDown(Space) in es then Playing else ph
  {
    if es != [] {
      var front := es[..|es| - 1];
      assert forall e :: e in front ==> e in es;
      WithoutReset(ph, front);
      assert es == front + [es[|es| - 1]];
    }
  }

  /** After the last R of a frame, the round is idle again unless a later
      SPACE starts it. */
  lemma AfterLastReset(ph: Phase, es: seq<Event>, k: nat)
    requires k < |es| && es[k] == KeyDown(R) && KeyDown(R) !in es[k + 1..]
    ensures AfterEvents(ph, es) == if KeyDown(Space) in es[k + 1..] then Playing else Idle
  {
    assert es == es[..k + 1] + es[k + 1..];
    AfterEventsSplit(ph, es[..k + 1], es[k + 1..]);
    assert es[..k + 1][..k] == es[..k];
    WithoutReset(Idle, es[k + 1..]);
  }

  /** R in a frame always leaves the round alive. */
  lemma {:induction false} ResetRevives(ph: Phase, es: seq<Event>)
    requires KeyDown(R) in es
    ensures AfterEvents(ph, es) != Dead
  {
    var front := es[..|es| - 1];
    if es[|es| - 1] != KeyDown(R) {
      assert es == front + [es[|es| - 1]];
      ResetRevives(ph, front);
    }
  }

  /** pygame's `Group.remove`: the group without one sprite, order kept. */
  function Without(ps: seq<Pipe>, p: Pipe): seq<Pipe>
  {
    if ps == [] then [] else (if ps[0] == p then [] else [ps[0]]) + Without(ps[1..], p)
  }

  lemma {:induction false} WithoutAppend(a: seq<Pipe>, b: seq<Pipe>, p: Pipe)
    ensures Without(a + b, p) == Without(a, p) + Without(b, p)
  {
    if a == [] {
      assert a + b == b;
    } else {
      assert (a + b)[1..] == a[1..] + b;
      WithoutAppend(a[1..], b, p);
    }
  }

  lemma {:induction false} WithoutAbsent(a: seq<Pipe>, p: Pipe)
    requires p !in a
    ensures Without(a, p) == a
  {
    if a != [] {
      WithoutAbsent(a[1..], p);
    }
  }

  /** Removing a sprite that occurs once removes exactly that entry. */
  lemma WithoutOnce(a: seq<Pipe>, p: Pipe, b: seq<Pipe>)
    requires p !in a && p !in b
    ensures Without(a + [p] + b, p) == a + b
  {
    calc {
      Without(a + [p] + b, p);
    == { WithoutAppend(a + [p], b, p); }
      Without(a + [p], p) + Without(b, p);
    == { WithoutAppend(a, [p], p); }
      Without(a, p) + Without([p], p) + Without(b, p);
    == { WithoutAbsent(a, p); WithoutAbsent(b, p); assert Without([p], p) == []; }
      a + [] + b;
    == { assert a + [] == a; }
      a + b;
    }
  }

  /** Splitting the group around the snapshot's `i`-th entry. */
  lemma SplitAt(kept: seq<Pipe>, s: seq<Pipe>, i: nat, added: seq<Pipe>)
    requires i < |s|
    ensures kept + s[i..] + added == kept + [s[i]] + (s[i + 1..] + added)
    ensures kept + s[i..] + added == (kept + [s[i]]) + s[i + 1..] + added
  {
    assert s[i..] == [s[i]] + s[i + 1..];
  }

  /** The state `main` keeps across frames: the player, the pipe group,
      the `done` flag, the pipe images' sizes and the random generator's
      output stream `rng` with the count of draws taken. The ghost field
      `passed` counts the pipes recycled since the pool was last built. */
  class Game {
    var player: Player
    var pipes: seq<Pipe>
    var done: bool
    const images: PipeImages
    const rng: nat -> nat
    var rolls: nat
    ghost var passed: nat

    /** Three distinct valid pipes; a living player is inside the
        playfield; the score is one point per recycled pipe plus the
        score events recorded on the live ones. */
    ghost predicate Valid()
      reads this, player, pipes
    {
      player.Valid() && (!player.died ==> player.Inside())
      && |pipes| == PoolSize && Distinct(pipes)
      && (forall i :: 0 <= i < |pipes| ==> pipes[i].Valid())
      && player.score == passed + Scored(pipes)
    }

    function Phase(): Phase
      reads this, player
    {
      PhaseOf(player.play, player.died)
    }

    /** The state `reset_player` and `reset_pipes` leave, up to a SPACE that
        starts the round: a living player at the centre, at rest or just
        launched, never jumped, animated once and without points, and the
        freshly spaced pool. */
    ghost predicate Restarted()
      reads this, player, pipes
    {
      player.score == 0 && passed == 0 && !player.died
      && player.vy2 == (if player.play then Jump2 else 0)
      && player.top + SpriteH / 2 == CenterY && player.lastJumped == 0 && player.fc == 1
      && forall i :: 0 <= i < |pipes| ==>
           pipes[i].updates == 0
           && pipes[i].posX == SpawnX + FirstOffset + i * (images.upWidth + PipeBuffer)
    }

    /** The start of `main`: `reset_player`, then `reset_pipes`. */
    constructor (images: PipeImages, rng: nat -> nat)
      ensures Valid() && Phase() == Idle && !done && fresh(player)
      ensures Restarted() && rolls == 2 * PoolSize
      ensures forall i :: 0 <= i < |pipes| ==> fresh(pipes[i])
    {
      this.images, this.rng, rolls := images, rng, 0;
      done := false;
      player := new Player();
      pipes, passed := [], 0;
      new;
      ResetPipes();
    }

    /** One call of the random generator. */
    method Roll() returns (d: nat)
      modifies this`rolls
      ensures d == rng(old(rolls)) && rolls == old(rolls) + 1
    {
      d := rng(rolls);
      rolls := rolls + 1;
    }

    /** `Pipe()`: the y draw comes first, then the hole height. */
    method NewPipe() returns (p: Pipe)
      modifies this`rolls
      ensures fresh(p) && p.Valid() && !p.destroy && p.width == images.upWidth
      ensures p.posX == SpawnX && p.startX == SpawnX && p.updates == 0 && p.crossings == 0
      ensures rolls == old(rolls) + 2
      // the y comes from the first draw and the hole from the second (see the
      // Pipe constructor for how a draw selects the value)
      ensures p.yDraw == rng(old(rolls)) && p.gapDraw == rng(old(rolls) + 1)
      ensures p.posY == 200 + 50 * (p.yDraw % 6) && p.gap == 240 + 20 * (p.gapDraw % 4)
      ensures p.height == CombinedHeight(images, p.gap)
    {
      var yDraw := Roll();
      var gapDraw := Roll();
      p := new Pipe(images, yDraw, gapDraw);
      PipeDrawsSelect(yDraw);
      PipeDrawsSelect(gapDraw);
    }

    /** `reset_pipes`: empty the group and add three new pipes, the i-th
        at 800 + 100 + i * (width + 200) (all pipes share one image). */
    method ResetPipes()
      modifies this`pipes, this`rolls, this`passed
      ensures |pipes| == PoolSize && Distinct(pipes) && passed == 0 && Scored(pipes) == 0
      ensures rolls == old(rolls) + 2 * PoolSize
      ensures forall i :: 0 <= i < |pipes| ==>
                fresh(pipes[i]) && pipes[i].Valid() && pipes[i].updates == 0
                && pipes[i].posX == SpawnX + FirstOffset + i * (images.upWidth + PipeBuffer)
    {
      pipes := [];
      var offset := FirstOffset;
      for i := 0 to PoolSize
        invariant |pipes| == i && Distinct(pipes) && rolls == old(rolls) + 2 * i
        invariant offset == FirstOffset + i * (images.upWidth + PipeBuffer)
        invariant forall j :: 0 <= j < i ==>
                    fresh(pipes[j]) && pipes[j].Valid() && pipes[j].updates == 0
                    && pipes[j].crossings == 0
                    && pipes[j].posX == SpawnX + FirstOffset + j * (images.upWidth + PipeBuffer)
      {
        ghost var prev := pipes;
        var p := NewPipe();
        p.Offset(offset);
        pipes := pipes + [p];
        assert pipes[..i] == prev && pipes[i] == p && p !in prev;
        assert forall j :: 0 <= j < i ==> pipes[j] == prev[j];
        offset := offset + p.width + PipeBuffer;
      }
      passed := 0;
      ScoredUnscored(pipes);
    }

    /** One event of the frame's event queue. */
    method HandleEvent(e: Event)
      requires Valid()
      modifies this, player
      ensures Valid()
      ensures Phase() == AfterEvent(old(Phase()), e)
      ensures done == (old(done) || e == Quit)
      ensures e == KeyDown(R) ==>
                fresh(player) && Restarted() && forall i :: 0 <= i < |pipes| ==> fresh(pipes[i])
      ensures e != KeyDown(R) ==>
                player == old(player) && pipes == old(pipes) && passed == old(passed)
                && rolls == old(rolls)
                && player.score == old(player.score) && player.died == old(player.died)
                && player.top == old(player.top) && player.lastJumped == old(player.lastJumped)
                && player.fc == old(player.fc)
                && player.vy2 == (if e == KeyDown(Space) && old(Phase()) == Idle then Jump2
                                  else old(player.vy2))
    {
      if e == KeyDown(R) {
        player := new Player();
        ResetPipes();
      }
      if e == KeyDown(Space) {
        if !player.play && !player.died {
          player.play := true;
          player.vy2 := Jump2;
        }
      }
      if e == Quit {
        done := true;
      }
    }

    /** The event loop of one frame. */
    method HandleEvents(events: seq<Event>)
      requires Valid()
      modifies this, player
      ensures Valid()
      ensures Phase() == AfterEvents(old(Phase()), events)
      ensures done == (old(done) || Quit in events)
      // only R creates a player, and it starts afresh with a freshly built pool
      ensures KeyDown(R) in events ==>
                fresh(player) && Restarted() && forall i :: 0 <= i < |pipes| ==> fresh(pipes[i])
      // otherwise only a SPACE that starts the round changes anything: it launches the player
      ensures KeyDown(R) !in events ==>
                player == old(player) && pipes == old(pipes) && passed == old(passed)
                && rolls == old(rolls)
                && player.score == old(player.score) && player.died == old(player.died)
                && player.top == old(player.top) && player.lastJumped == old(player.lastJumped)
                && player.fc == old(player.fc)
                && player.vy2 == (if old(Phase()) == Idle && KeyDown(Space) in events then Jump2
                                  else old(player.vy2))
    {
      var i := 0;
      while i < |events|
        invariant 0 <= i <= |events|
        invariant Valid()
        invariant Phase() == AfterEvents(old(Phase()), events[..i])
        invariant done == (old(done) || Quit in events[..i])
        invariant KeyDown(R) in events[..i] ==>
                    fresh(player) && Restarted() && forall j :: 0 <= j < |pipes| ==> fresh(pipes[j])
        invariant KeyDown(R) !in events[..i] ==>
                    player == old(player) && pipes == old(pipes) && passed == old(passed)
                    && rolls == old(rolls)
                    && player.score == old(player.score) && player.died == old(player.died)
                    && player.top == old(player.top) && player.lastJumped == old(player.lastJumped)
                    && player.fc == old(player.fc)
                    && (Phase() == old(Phase()) || (old(Phase()) == Idle && Phase() == Playing))
                    && player.vy2 == (if old(Phase()) == Idle && Phase() == Playing then Jump2
                                      else old(player.vy2))
      {
        assert events[..i + 1] == events[..i] + [events[i]];
        HandleEvent(events[i]);
        i := i + 1;
      }
      assert events[..i] == events;
      if KeyDown(R) !in events {
        WithoutReset(old(Phase()), events);
      }
    }

    /** `pipes_group.remove(pipe)` of a sprite that occurs once, then
        `pipes_group.add(Pipe())`: the group is `kept + [p] + rest` followed
        by the replacements `added` made so far, and the new pipe joins
        them at the end. */
    method Replace(p: Pipe, ghost kept: seq<Pipe>, ghost rest: seq<Pipe>, ghost added: seq<Pipe>,
                   ghost pool: seq<Pipe>, ghost born: set<Pipe>)
      returns (ghost added': seq<Pipe>, ghost born': set<Pipe>)
      requires pipes == kept + [p] + rest + added
      requires p !in kept && p !in rest && p !in added
      requires Replacements(added, pool, born)
      modifies this`pipes, this`rolls, this`passed
      ensures pipes == kept + rest + added' && passed == old(passed) + 1
      ensures |added'| == |added| + 1 && added'[..|added|] == added
      ensures fresh(added'[|added|]) && born' == born + {added'[|added|]}
      ensures Replacements(added', pool, born')
    {
      WithoutOnce(kept, p, rest + added);
      assert pipes == kept + [p] + (rest + added);
      pipes := Without(pipes, p);
      var q := NewPipe();
      pipes := pipes + [q];
      passed := passed + 1;
      added', born' := added + [q], born + {q};
      assert added'[..|added|] == added;
      ReplacementsGrow(added, pool, born, born');
    }

    /** One iteration of the recycle loop of `main`, at the `i`-th entry of
        the snapshot: a destroyed pipe is replaced, a live one stays. The
        group is the pipes kept so far, the rest of the snapshot and the
        replacements so far; `dead` holds the snapshot's destroyed pipes. */
    method RecycleAt(snapshot: seq<Pipe>, i: nat, ghost dead: set<Pipe>, ghost kept: seq<Pipe>,
                     ghost added: seq<Pipe>, ghost born: set<Pipe>)
      returns (ghost kept': seq<Pipe>, ghost added': seq<Pipe>, ghost news: set<Pipe>)
      requires i < |snapshot| && Distinct(snapshot)
      requires snapshot[i] in dead <==> snapshot[i].destroy
      requires pipes == kept + snapshot[i..] + added
      requires kept == Keep(snapshot[..i], dead)
      requires Replacements(added, snapshot, born)
      modifies this`pipes, this`rolls, this`passed
      ensures pipes == kept' + snapshot[i + 1..] + added'
      ensures kept' == Keep(snapshot[..i + 1], dead)
      ensures |kept'| + |added'| == |kept| + |added| + 1
      ensures passed + |added| == old(passed) + |added'|
      ensures Replacements(added', snapshot, born + news) && fresh(news)
    {
      var p := snapshot[i];
      SplitAt(kept, snapshot, i, added);
      KeepStep(snapshot, dead, i);
      if p.destroy {
        assert p !in kept && p !in snapshot[i + 1..] && p !in added by {
          KeepMembers(snapshot[..i], dead);
          DistinctAt(snapshot, i);
          ReplacementsAt(added, snapshot, born);
        }
        kept' := kept;
        ghost var born';
        added', born' := Replace(p, kept, snapshot[i + 1..], added, snapshot, born);
        news := {added'[|added|]};
      } else {
        kept', added', news := kept + [p], added, {};
        assert born + news == born;
      }
    }

    /** The recycle loop of `main`: every destroyed pipe of the group is
        removed and a new one added at the end. Iterating a Group walks a
        copy of its members, so the loop runs over a snapshot while the
        group itself changes. */
    method RecycleLoop() returns (ghost added: seq<Pipe>, ghost born: set<Pipe>)
      requires Distinct(pipes)
      modifies this`pipes, this`rolls, this`passed
      ensures pipes == old(Survivors(pipes)) + added
      ensures |old(Survivors(pipes))| + |added| == |old(pipes)|
      ensures passed == old(passed) + |added|
      ensures Replacements(added, old(pipes), born) && fresh(born)
    {
      var snapshot := pipes;
      // which pipes are destroyed does not change while the group does
      ghost var dead := set q | q in snapshot && q.destroy;
      SurvivorsAsKeep(snapshot, dead);
      ghost var kept: seq<Pipe> := [];
      added, born := [], {};
      var i := 0;
      while i < |snapshot|
        invariant 0 <= i <= |snapshot|
        invariant pipes == kept + snapshot[i..] + added
        invariant kept == Keep(snapshot[..i], dead)
        invariant |kept| + |added| == i
        invariant passed == old(passed) + |added|
        invariant Replacements(added, snapshot, born)
        invariant fresh(born)
      {
        ghost var news;
        label L:
        kept, added, news := RecycleAt(snapshot, i, dead, kept, added, born);
        assert fresh@L(news);
        assert fresh(news) && fresh(born);
        assert fresh(born + news);
        born := born + news;
        i := i + 1;
      }
      assert snapshot[..i] == snapshot && snapshot[i..] == [];
      assert pipes == Keep(snapshot, dead) + added;
    }

    /** The recycle loop of `main` as a whole: every destroyed pipe is replaced by a new one at the
        spawn point; the pool keeps its size, the score relation survives
        and every replacement counts as one passed pipe. */
    method Recycle()
      requires Valid()
      modifies this`pipes, this`rolls, this`passed
      ensures Valid()
      ensures forall i :: 0 <= i < |pipes| ==> !pipes[i].destroy
      ensures var kept := old(Survivors(pipes));
              |kept| <= |pipes| && pipes[..|kept|] == kept
              && (forall i :: 0 <= i < |kept| ==> pipes[i] in old(pipes))
              && (forall i :: |kept| <= i < |pipes| ==> fresh(pipes[i]) && Spawned(pipes[i]))
              && passed == old(passed) + (PoolSize - |kept|)
    {
      ghost var before := pipes;
      ghost var kept := Survivors(before);
      ghost var added, born := RecycleLoop();
      assert Survivors(before) == kept;
      RecycledPool(before, added, born);
      RecycledOrder(before, added, born);
      assert pipes[..|kept|] == kept;
    }

    /** `pipes_group.update()`: every pipe takes one update, and the score
        tests that preceded it in the frame are recorded on it. */
    method UpdatePipes()
      requires |pipes| == PoolSize && Distinct(pipes)
      requires forall i :: 0 <= i < |pipes| ==> pipes[i].Valid() && !pipes[i].destroy
      modifies pipes
      ensures forall i :: 0 <= i < |pipes| ==>
                pipes[i].Valid() && pipes[i].posX == old(pipes[i].posX) - Scroll
                && pipes[i].updates == old(pipes[i].updates) + 1
      ensures Scored(pipes) == old(Scored(pipes)) + CountInBand(old(Xs(pipes)), PlayerCentreX)
    {
      var ps := pipes;
      ghost var xs := Xs(ps);
      ghost var c0 := seq(|ps|, j requires 0 <= j < |ps| reads ps => ps[j].crossings);
      ScoredShift(ps, c0, xs, false);
      DistinctIndex(ps);
      for i := 0 to |ps|
        invariant forall j :: 0 <= j < i ==>
                    ps[j].Valid() && ps[j].posX == old(ps[j].posX) - Scroll
                    && ps[j].updates == old(ps[j].updates) + 1
                    && ps[j].crossings == c0[j] + Hit(xs[j])
        invariant forall j :: i <= j < |ps| ==>
                    ps[j].Valid() && !ps[j].destroy && ps[j].posX == old(ps[j].posX)
                    && ps[j].updates == old(ps[j].updates) && ps[j].crossings == c0[j]
      {
        ps[i].Update();
      }
      ScoredShift(ps, c0, xs, true);
    }

    /** One played frame: the player moves, dies on contact and scores
        against the pool, then every pipe updates. */
    method Play(hits: seq<bool>, spaceHeld: bool, now: int, later: int, toInt: int -> int)
      requires Valid() && IsRounding(toInt) && |hits| == PoolSize && Phase() == Playing
      requires forall i :: 0 <= i < |pipes| ==> !pipes[i].destroy
      modifies player, pipes
      ensures Valid()
      ensures Phase() == Dead <==> true in hits || Height <= player.top + SpriteH
      ensures Phase() != Idle
      ensures player.score == old(player.score) + CountInBand(old(Xs(pipes)), PlayerCentreX)
      ensures (player.vy2, player.top, player.lastJumped)
              == Motion(old(player.vy2), old(player.top), old(player.lastJumped),
                        spaceHeld, now, later, toInt)
      ensures forall i :: 0 <= i < |pipes| ==> pipes[i].posX == old(pipes[i].posX) - Scroll
    {
      ghost var xs, scored := Xs(pipes), Scored(pipes);
      player.Update(pipes, hits, spaceHeld, now, later, toInt);
      // the player's update leaves the pool alone
      assert Xs(pipes) == xs && Scored(pipes) == scored;
      assert forall i :: 0 <= i < |pipes| ==> pipes[i].Valid() && !pipes[i].destroy;
      ghost var score := player.score;
      UpdatePipes();
      assert player.score == score && Scored(pipes) == scored + CountInBand(xs, PlayerCentreX);
    }

    /** The gated part of the frame: the player and every pipe update only
        while a round is played and the player is alive. */
    method Advance(hits: seq<bool>, spaceHeld: bool, now: int, later: int, toInt: int -> int)
      requires Valid() && IsRounding(toInt) && |hits| == PoolSize
      requires forall i :: 0 <= i < |pipes| ==> !pipes[i].destroy
      modifies player, pipes
      ensures Valid()
      ensures old(Phase()) != Playing ==> unchanged(player) && unchanged(pipes)
      ensures old(Phase()) == Playing ==>
                (Phase() == Dead <==> true in hits || Height <= player.top + SpriteH)
                && Phase() != Idle
                && player.score == old(player.score) + CountInBand(old(Xs(pipes)), PlayerCentreX)
                && (player.vy2, player.top, player.lastJumped)
                   == Motion(old(player.vy2), old(player.top), old(player.lastJumped),
                             spaceHeld, now, later, toInt)
                && forall i :: 0 <= i < |pipes| ==> pipes[i].posX == old(pipes[i].posX) - Scroll
    {
      if !player.died && player.play {
        Play(hits, spaceHeld, now, later, toInt);
      }
    }

    /** The rest of a frame after the events: recycling, the gated updates,
        then the animation while alive. The player stays the same object and
        a dead player stays dead. */
    method Tick(spaceHeld: bool, now: int, later: int, hits: seq<bool>, toInt: int -> int)
      requires Valid() && IsRounding(toInt) && |hits| == PoolSize
      modifies this, player, pipes
      ensures Valid() && player == old(player) && done == old(done)
      ensures old(Phase()) == Playing ==> Phase() == Playing || Phase() == Dead
      ensures old(Phase()) != Playing ==> Phase() == old(Phase())
      ensures old(player.died) ==> player.died
    {
      ghost var p, d := player, done;
      Recycle();
      Advance(hits, spaceHeld, now, later, toInt);
      assert player == p && done == d;
      if !player.died {
        AnimatePlayer();
      }
    }

    /** `player.animate()`, which touches neither the round state, the
        score nor the pool. */
    method AnimatePlayer()
      requires Valid()
      modifies player`fc, player`ix, player`shown
      ensures Valid()
      ensures player.fc == old(player.fc) + 1
      ensures player.shown != old(player.shown) <==> player.fc % FramePeriod == 0
    {
      ghost var scored := Scored(pipes);
      player.Animate();
      assert Scored(pipes) == scored;
    }

    /** One iteration of `main`'s loop, without the drawing: the events of
        the frame, then the rest of the frame. */
    method Step(events: seq<Event>, spaceHeld: bool, now: int, later: int, hits: seq<bool>,
                toInt: int -> int)
      requires Valid() && IsRounding(toInt) && |hits| == PoolSize
      modifies this, player, pipes
      ensures Valid()
      ensures var mid := AfterEvents(old(Phase()), events);
              if mid == Playing then Phase() == Playing || Phase() == Dead else Phase() == mid
      ensures done == (old(done) || Quit in events)
      ensures fresh(player) <==> KeyDown(R) in events
      ensures KeyDown(R) !in events && old(player.died) ==> player.died
    {
      HandleEvents(events);
      Tick(spaceHeld, now, later, hits, toInt);
    }

    /** A played round's player is alive and so inside the playfield: the
        floor clamp of `update_pos`, which needs the rect at or below the
        floor, never fires while a round is played, and only the floor test
        of `test_collision` ends a round at the floor. */
    lemma PlayingAboveFloor(spaceHeld: bool, now: int, later: int, toInt: int -> int)
      requires Valid() && Phase() == Playing
      ensures player.top + SpriteH < Height
      ensures var jump := JumpAccepted(spaceHeld, now, player.lastJumped);
              var v := if jump then Jump2 else Gravity(player.vy2);
              Moved(player.vy2, player.top, player.lastJumped, spaceHeld, now, later, toInt).0 == v
    {
    }

    /** The score counts the recycled pipes, plus at most one point per
        live pipe. */
    lemma ScoreCountsPasses()
      requires Valid()
      ensures passed <= player.score <= passed + PoolSize
    {
      ScoredAtMostSize(pipes);
    }
  }
}
