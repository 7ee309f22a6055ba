/** The player sprite of main.py ("the bird"): gravity and jumping, the
    floor and ceiling rules, death on contact, scoring and the sprite-strip
    animation cursor. Vertical velocity is kept in half-units, so every
    constant of the source is an integer here. */
module Bird {
  import opened Playfield
  import opened Pipes

  /** The image is a 16x15 cell of the strip scaled by 4. */
  const SpriteW := 16 * 4
  const SpriteH := 15 * 4

  /** `a.y = 0.5`, `maxV.y = 50`, the jump velocity -9, in half-units. */
  const Gravity2 := 1
  const MaxFall2 := 100
  const Jump2 := -18
  /** `jumptimeout`, in milliseconds. */
  const JumpTimeout := 400

  /** The strip holds 16-pixel cells across 128 pixels; the cursor moves
      one cell every 10 frames. */
  const CellW := 16
  const LastCell := 112
  const StripW := 128
  const FramePeriod := 10

  /** The cell currently shown: none before the first extraction. */
  datatype Frame = Blank | Cutout(offset: int)

  /** `if v.y < maxV.y: v += a`: never slows the fall, adds at most one
      step, never lifts a velocity at or below the cap above it, and
      changes nothing exactly when the cap is reached. */
  function Gravity(vy2: int): (r: int)
    ensures vy2 <= r <= vy2 + Gravity2
    ensures vy2 <= MaxFall2 ==> r <= MaxFall2
    ensures r == vy2 <==> MaxFall2 <= vy2
  {
    if vy2 < MaxFall2 then vy2 + Gravity2 else vy2
  }

  /** The velocity after `n` updates of gravity alone. */
  function Fall(vy2: int, n: nat): int
  {
    if n == 0 then vy2 else Gravity(Fall(vy2, n - 1))
  }

  /** In free fall from at most 50, the velocity grows by 0.5 per update
      until it is exactly 50, and then stays there. */
  lemma {:induction false} FallToCap(vy2: int, n: nat)
    requires vy2 <= MaxFall2
    ensures Fall(vy2, n) == if vy2 + n < MaxFall2 then vy2 + n else MaxFall2
  {
    if n > 0 {
      FallToCap(vy2, n - 1);
    }
  }

  /** A velocity already above the cap is never corrected downwards. */
  lemma {:induction false} FallAboveCap(vy2: int, n: nat)
    requires MaxFall2 <= vy2
    ensures Fall(vy2, n) == vy2
  {
    if n > 0 {
      FallAboveCap(vy2, n - 1);
    }
  }

  /** The jump test of `update_pos`. */
  predicate JumpAccepted(spaceHeld: bool, now: int, lastJumped: int)
  {
    spaceHeld && now - lastJumped > JumpTimeout
  }

  /** A jump accepted at `now`, which stamps the later clock reading
      `stamped`, blocks every jump attempt within 400 ms of `now`. */
  lemma CooldownBlocks(now: int, stamped: int, next: int)
    requires now <= stamped && next - now <= JumpTimeout
    ensures !JumpAccepted(true, next, stamped)
  {
  }

  /** Where the strip cursor `i_x` stands after `fc` calls of `animate`. */
  function CursorAt(fc: nat): (ix: int)
    ensures ix % CellW == 0 && 0 <= ix <= StripW
    ensures fc < FramePeriod <==> ix == 0
  {
    if fc < FramePeriod then 0 else CellW * ((fc / FramePeriod - 1) % 8 + 1)
  }

  /** The cell shown after `fc` calls of `animate`: the cut-out offset is
      always a whole cell inside the 128-wide strip. */
  function FrameAt(fc: nat): (f: Frame)
    ensures f.Blank? <==> fc < FramePeriod
    ensures f.Cutout? ==> f.offset % CellW == 0 && 0 <= f.offset <= LastCell
  {
    if fc < FramePeriod then Blank else Cutout(CellW * ((fc / FramePeriod - 1) % 8))
  }

  /** One call of `animate` from `fc`: on every 10th count the cursor
      (wrapped to 0 once it passed 112) becomes the shown cell and moves on
      by one cell; otherwise neither changes. */
  lemma AnimateStep(fc: nat)
    ensures var c := CursorAt(fc);
            (fc + 1) % FramePeriod == 0 ==>
              var cut := if c > LastCell then 0 else c;
              FrameAt(fc + 1) == Cutout(cut) && CursorAt(fc + 1) == cut + CellW
              && FrameAt(fc + 1) != FrameAt(fc)
    ensures (fc + 1) % FramePeriod != 0 ==>
              CursorAt(fc + 1) == CursorAt(fc) && FrameAt(fc + 1) == FrameAt(fc)
  {
    var m := (fc + 1) / FramePeriod;
    if (fc + 1) % FramePeriod == 0 {
      assert fc + 1 == FramePeriod * m;
      if m >= 2 {
        assert fc / FramePeriod == m - 1;
        var k := (m - 2) % 8;
        assert (m - 1) % 8 == if k == 7 then 0 else k + 1;
      }
    } else {
      assert fc / FramePeriod == m;
    }
  }

  /** The velocity, top edge and jump stamp after `update_pos`: capped
      gravity, the jump when SPACE is held past the cooldown, the floor
      clamp (with the velocity zeroed) when it is not, and the move of the
      centre by `v.y` through `toInt`. */
  function Moved(vy2: int, top: int, lastJumped: int, spaceHeld: bool, now: int, later: int,
                 toInt: int -> int): (int, int, int)
  {
    var jump := JumpAccepted(spaceHeld, now, lastJumped);
    var floor := !spaceHeld && Height <= top + SpriteH;
    var t := if floor then Clamp(top, SpriteH, Height) else top;
    var v := if floor then 0 else if jump then Jump2 else Gravity(vy2);
    (v, toInt(2 * (t + SpriteH / 2) + v) - SpriteH / 2, if jump then later else lastJumped)
  }

  /** `update_pos` followed by the ceiling rule of `test_collision`: a top
      above the ceiling is clamped to 0 with the velocity zeroed. */
  function Motion(vy2: int, top: int, lastJumped: int, spaceHeld: bool, now: int, later: int,
                  toInt: int -> int): (int, int, int)
  {
    var (v, t, lj) := Moved(vy2, top, lastJumped, spaceHeld, now, later, toInt);
    if t < 0 then (0, 0, lj) else (v, t, lj)
  }

  /** A player: the y velocity `v.y` (x velocity stays 0), the rect's
      top-left corner, the last accepted jump time, the `died`/`play`
      flags, the score and the animation state. */
  class Player {
    var vy2: int
    var left: int
    var top: int
    var lastJumped: int
    var died: bool
    var play: bool
    var score: nat
    var fc: nat
    var ix: int
    var shown: Frame

    ghost predicate Valid()
      reads this
    {
      Jump2 <= vy2 <= MaxFall2
      && left + SpriteW / 2 == PlayerCentreX
      && !(died && play)
      // `animate` has run at least once, so the `fc == 0` test never fires
      && 1 <= fc && ix == CursorAt(fc) && shown == FrameAt(fc)
    }

    /** The rect lies inside the playfield, not touching the floor. */
    ghost predicate Inside()
      reads this
    {
      0 <= top && top + SpriteH < Height
    }

    /** `Player(pos=(400, 300), ...)`, the only construction main.py makes
        (`reset_player`); the constructor runs `animate` once. */
    constructor ()
      ensures Valid() && Inside()
      ensures vy2 == 0 && lastJumped == 0 && !died && !play && score == 0
      ensures left + SpriteW / 2 == CenterX && top + SpriteH / 2 == CenterY
      ensures fc == 1 && ix == 0 && shown == Blank
    {
      vy2, lastJumped := 0, 0;
      died, play, score := false, false, 0;
      fc, ix, shown := 0, 0, Blank;
      left, top := CenterX - SpriteW / 2, CenterY - SpriteH / 2;
      new;
      Animate();
    }

    /** `update_pos`: gravity, the jump with its cooldown (`later` is the
        second clock reading), the floor clamp, then `rect.center += v`
        through the integer conversion `toInt` of half-unit values. */
    method UpdatePos(spaceHeld: bool, now: int, later: int, toInt: int -> int)
      requires Valid() && IsRounding(toInt)
      modifies this`vy2, this`left, this`top, this`lastJumped
      ensures Valid()
      ensures (vy2, top, lastJumped)
              == Moved(old(vy2), old(top), old(lastJumped), spaceHeld, now, later, toInt)
      ensures var floor := !spaceHeld && Height <= old(top) + SpriteH;
              var t := if floor then Clamp(old(top), SpriteH, Height) else old(top);
              // the centre moves by `v.y`, up to the conversion, from the clamped top
              && -1 <= 2 * (top - t) - vy2 <= 1
              && (floor ==> t == Height - SpriteH && vy2 == 0)
      ensures left == old(left)
    {
      ghost var mv := Moved(vy2, top, lastJumped, spaceHeld, now, later, toInt);
      ghost var floor := !spaceHeld && Height <= top + SpriteH;
      ghost var t0 := if floor then Clamp(top, SpriteH, Height) else top;
      if vy2 < MaxFall2 {
        vy2 := vy2 + Gravity2;
      }
      if spaceHeld && now - lastJumped > JumpTimeout {
        lastJumped := later;
        vy2 := Jump2;
      }
      if !spaceHeld && top + SpriteH >= Height {
        vy2 := 0;
        left, top := Clamp(left, SpriteW, Width), Clamp(top, SpriteH, Height);
      }
      ghost var t := top;
      assert t == t0 && vy2 == mv.0 && lastJumped == mv.2;
      // v.x is 0 throughout, so only the y coordinate moves
      var cx := toInt(2 * (left + SpriteW / 2));
      var cy := toInt(2 * (top + SpriteH / 2) + vy2);
      RoundingExact(toInt, left + SpriteW / 2);
      assert -1 <= 2 * cy - (2 * (t + SpriteH / 2) + vy2) <= 1;
      left, top := cx - SpriteW / 2, cy - SpriteH / 2;
      assert top == mv.1;
    }

    /** `test_collision`: the floor kills, the ceiling clamps without
        killing, and any pipe the mask test `hits` reports kills. */
    method TestCollision(hits: seq<bool>)
      requires Valid()
      modifies this`died, this`play, this`left, this`top, this`vy2
      ensures Valid()
      ensures var killed := Height <= old(top) + SpriteH || true in hits;
              died == (old(died) || killed) && play == (old(play) && !killed)
      ensures old(top) < 0 ==> top == 0 && vy2 == 0
      ensures 0 <= old(top) ==> top == old(top) && vy2 == old(vy2)
      ensures left == old(left)
      ensures !died ==> Inside()
    {
      ghost var floor := top + SpriteH >= Height;
      if top + SpriteH >= Height {
        died := true;
        play := false;
      }
      if top < 0 {
        left, top := Clamp(left, SpriteW, Width), Clamp(top, SpriteH, Height);
        vy2 := 0;
      }
      var i := 0;
      while i < |hits|
        modifies this`died, this`play
        invariant 0 <= i <= |hits|
        invariant died == (old(died) || floor || true in hits[..i])
        invariant play == (old(play) && !(floor || true in hits[..i]))
      {
        if hits[i] {
          died := true;
          play := false;
        }
        assert hits[..i + 1] == hits[..i] + [hits[i]];
        i := i + 1;
      }
      assert hits[..i] == hits;
    }

    /** `update_score`: one point for every pipe whose x lies within one
        unit of the rect's centre x. */
    method UpdateScore(pipes: seq<Pipe>)
      requires Valid()
      modifies this`score
      ensures Valid()
      ensures score == old(score) + CountInBand(Xs(pipes), PlayerCentreX)
    {
      var i := 0;
      while i < |pipes|
        invariant 0 <= i <= |pipes|
        invariant score == old(score) + CountInBand(Xs(pipes)[..i], PlayerCentreX)
      {
        if pipes[i].posX - 1 <= left + SpriteW / 2 <= pipes[i].posX + 1 {
          score := score + 1;
        }
        assert Xs(pipes)[..i + 1][..i] == Xs(pipes)[..i];
        i := i + 1;
      }
      assert Xs(pipes)[..i] == Xs(pipes);
    }

    /** `animate`: count the frame; on every 10th count extract the next
        cell of the strip, wrapping after the last one. */
    method Animate()
      requires ix == CursorAt(fc) && shown == FrameAt(fc)
      modifies this`fc, this`ix, this`shown
      ensures fc == old(fc) + 1 && ix == CursorAt(fc) && shown == FrameAt(fc)
      ensures shown != old(shown) <==> fc % FramePeriod == 0
    {
      AnimateStep(fc);
      fc := fc + 1;
      if fc % FramePeriod == 0 || fc == 0 {
        if ix > LastCell {
          ix := 0;
        }
        shown := Cutout(ix);
        ix := ix + CellW;
      }
    }

    /** `Player.update`: move, test collisions against the pool, score. */
    method Update(pipes: seq<Pipe>, hits: seq<bool>, spaceHeld: bool, now: int, later: int,
                  toInt: int -> int)
      requires Valid() && IsRounding(toInt) && |hits| == |pipes|
      modifies this
      ensures Valid() && (!died ==> Inside())
      ensures died == (old(died) || true in hits || Height <= top + SpriteH)
      ensures play == (old(play) && !died)
      ensures score == old(score) + CountInBand(Xs(pipes), PlayerCentreX)
      ensures (vy2, top, lastJumped)
              == Motion(old(vy2), old(top), old(lastJumped), spaceHeld, now, later, toInt)
      ensures left == old(left) && fc == old(fc) && ix == old(ix) && shown == old(shown)
    {
      ghost var m := Motion(vy2, top, lastJumped, spaceHeld, now, later, toInt);
      ghost var mv := Moved(vy2, top, lastJumped, spaceHeld, now, later, toInt);
      assert m == if mv.1 < 0 then (0, 0, mv.2) else mv;
      UpdatePos(spaceHeld, now, later, toInt);
      assert (vy2, top, lastJumped) == mv;
      TestCollision(hits);
      assert (vy2, top, lastJumped) == m;
      UpdateScore(pipes);
    }
  }
}
