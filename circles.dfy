/** One target circle: its state, its hit test and its per-frame lifecycle
    (integrate, bounce off the side walls, fade, die). Opacity is kept as an
    integer in thousandths, so 1.0 is 1000 and the fade rate 0.035 is 35.
    Positions and velocities are reals. */
module Circles {
  import opened Waves

  /** Full opacity, in thousandths. */
  const ALPHA_FULL: int := 1000
  /** Opacity lost per update while fading, in thousandths. */
  const FADE_RATE: int := 35
  const MAX_SPEED: real := 7.0

  /** What one update reports: still alive, killed by fading out, or escaped
      through the top of the canvas. */
  datatype Fate = Alive | Killed | Escaped

  /** A snapshot of a circle's fields. */
  datatype CircleView = CircleView(
    id: int, radius: real, mass: real,
    posX: real, posY: real, dx: real, dy: real,
    colliding: bool, alpha: int, fading: bool)

  datatype Stepped = Stepped(view: CircleView, fate: Fate)

  /** One call of the circle's update: move by the velocity, reflect off the
      right and then the left wall, lose opacity while fading, and report the
      kill before the top exit. */
  function Advance(v: CircleView, width: real): (r: Stepped)
    ensures r.fate == Killed <==> v.fading && v.alpha <= FADE_RATE
    ensures r.fate == Escaped <==>
              !(v.fading && v.alpha <= FADE_RATE) && v.posY + v.dy + v.radius < 0.0
    ensures r.view.alpha == (if !v.fading then v.alpha
                             else if v.alpha <= FADE_RATE then 0 else v.alpha - FADE_RATE)
    ensures 0 <= v.alpha ==> 0 <= r.view.alpha <= v.alpha
    ensures r.view.alpha < v.alpha ==> v.fading
    ensures r.view.id == v.id && r.view.radius == v.radius && r.view.mass == v.mass
    ensures r.view.fading == v.fading && r.view.colliding == v.colliding
    ensures r.view.posY == v.posY + v.dy && r.view.dy == v.dy
    ensures r.view.dx == v.dx || r.view.dx == -v.dx
  {
    var x1 := v.posX + v.dx;
    var y1 := v.posY + v.dy;
    var (x2, dx2) := if x1 + v.radius > width then (width - v.radius, -v.dx) else (x1, v.dx);
    var (x3, dx3) := if x2 - v.radius < 0.0 then (v.radius, -dx2) else (x2, dx2);
    var moved := v.(posX := x3, posY := y1, dx := dx3);
    if v.fading && v.alpha - FADE_RATE <= 0 then
      Stepped(moved.(alpha := 0), Killed)
    else
      var faded := if v.fading then moved.(alpha := v.alpha - FADE_RATE) else moved;
      if y1 + v.radius < 0.0 then Stepped(faded, Escaped) else Stepped(faded, Alive)
  }

  /** Where the right-wall check leaves a circle: never past the right edge
      and, when it was reflected, moving left. The left-wall check runs after
      it and wins when the canvas is narrower than the circle. */
  lemma BounceKeepsInside(v: CircleView, width: real)
    requires v.radius >= 0.0 && width >= 2.0 * v.radius
    ensures var w := Advance(v, width).view;
            v.radius <= w.posX <= width - v.radius
  {
  }

  /** Updates a fading circle of opacity `alpha` needs until it is killed. */
  function UpdatesUntilKilled(alpha: int): nat
    requires alpha > 0
    decreases alpha
  {
    if alpha <= FADE_RATE then 1 else 1 + UpdatesUntilKilled(alpha - FADE_RATE)
  }

  /** Each update of a fading circle counts down UpdatesUntilKilled by one and
      the kill comes exactly when it reaches one, wherever the circle is. */
  lemma FadeCountdown(v: CircleView, width: real)
    requires v.fading && v.alpha > 0
    ensures var r := Advance(v, width);
            && (r.fate == Killed <==> UpdatesUntilKilled(v.alpha) == 1)
            && (r.fate != Killed ==>
                  r.view.fading && r.view.alpha > 0 &&
                  UpdatesUntilKilled(r.view.alpha) == UpdatesUntilKilled(v.alpha) - 1)
  {
  }

  /** The number of updates is the opacity divided by the fade rate, rounded
      up. */
  lemma {:induction false} UpdatesUntilKilledIsCeiling(alpha: int)
    requires alpha > 0
    ensures UpdatesUntilKilled(alpha) == CeilDiv(alpha, FADE_RATE)
    decreases alpha
  {
    if alpha <= FADE_RATE {
      CeilDivUnique(alpha, FADE_RATE, 1);
    } else {
      UpdatesUntilKilledIsCeiling(alpha - FADE_RATE);
      var q := UpdatesUntilKilled(alpha - FADE_RATE);
      CeilDivBounds(alpha - FADE_RATE, FADE_RATE);
      assert (q + 1) * FADE_RATE == q * FADE_RATE + FADE_RATE;
      CeilDivUnique(alpha, FADE_RATE, q + 1);
    }
  }

  /** The fates reported by n updates in a row, starting from state v. */
  function Run(v: CircleView, width: real, n: nat): (fs: seq<Fate>)
    ensures |fs| == n
    ensures n > 0 ==> fs[0] == Advance(v, width).fate
    decreases n
  {
    if n == 0 then [] else [Advance(v, width).fate] + Run(Advance(v, width).view, width, n - 1)
  }

  /** A fading circle of opacity a, updated UpdatesUntilKilled(a) times, is
      not killed by any update but the last, and is killed by the last. */
  lemma {:induction false} FadeRun(v: CircleView, width: real, n: nat)
    requires v.fading && v.alpha > 0 && n == UpdatesUntilKilled(v.alpha)
    decreases n
    ensures n >= 1 && Run(v, width, n)[n - 1] == Killed
    ensures forall t :: 0 <= t < n - 1 ==> Run(v, width, n)[t] != Killed
  {
    FadeCountdown(v, width);
    var r := Advance(v, width);
    if n > 1 {
      FadeRun(r.view, width, n - 1);
      var rest := Run(r.view, width, n - 1);
      assert Run(v, width, n) == [r.fate] + rest;
      forall t | 0 <= t < n - 1
        ensures Run(v, width, n)[t] != Killed
      {
        if t > 0 {
          assert Run(v, width, n)[t] == rest[t - 1];
        }
      }
    }
  }

  /** A circle clicked at full opacity is killed by the 29th update after the
      click, and not before. */
  lemma KilledOnTwentyNinthUpdate(v: CircleView, width: real)
    requires v.fading && v.alpha == ALPHA_FULL
    ensures UpdatesUntilKilled(ALPHA_FULL) == 29
    ensures Run(v, width, 29)[28] == Killed
    ensures forall t :: 0 <= t < 28 ==> Run(v, width, 29)[t] != Killed
  {
    UpdatesUntilKilledIsCeiling(ALPHA_FULL);
    CeilDivUnique(ALPHA_FULL, FADE_RATE, 29);
    FadeRun(v, width, 29);
  }

  /** Squared-distance point-in-circle test, with no square root. */
  predicate InDisk(cx: real, cy: real, radius: real, px: real, py: real)
  {
    (px - cx) * (px - cx) + (py - cy) * (py - cy) <= radius * radius
  }

  /** A point inside the disk lies within one radius of the centre along each
      axis; any point within half a radius along both axes is inside. */
  lemma InDiskBounds(cx: real, cy: real, radius: real, px: real, py: real)
    requires radius >= 0.0
    ensures InDisk(cx, cy, radius, cx, cy)
    ensures InDisk(cx, cy, radius, px, py) ==>
              -radius <= px - cx <= radius && -radius <= py - cy <= radius
    ensures (-radius / 2.0 <= px - cx <= radius / 2.0 && -radius / 2.0 <= py - cy <= radius / 2.0)
              ==> InDisk(cx, cy, radius, px, py)
  {
    var ex, ey := px - cx, py - cy;
    var exx, eyy, rr := ex * ex, ey * ey, radius * radius;
    NonNegProduct(radius, radius);
    Square(ex);
    Square(ey);
    if InDisk(cx, cy, radius, px, py) {
      assert exx + eyy <= rr;
      WithinSquare(ex, radius);
      WithinSquare(ey, radius);
    }
    if -radius / 2.0 <= ex <= radius / 2.0 && -radius / 2.0 <= ey <= radius / 2.0 {
      var h := radius / 2.0;
      var hh := h * h;
      SquareLe(ex, h);
      SquareLe(ey, h);
      assert rr == 4.0 * hh;
      assert exx + eyy <= rr;
    }
  }

  lemma NonNegProduct(a: real, b: real)
    requires 0.0 <= a && 0.0 <= b
    ensures 0.0 <= a * b
  {
  }

  lemma PosProduct(a: real, b: real)
    requires 0.0 < a && 0.0 < b
    ensures 0.0 < a * b
  {
  }

  lemma Square(e: real)
    ensures 0.0 <= e * e
  {
    if e < 0.0 {
      assert e * e == (-e) * (-e);
      NonNegProduct(-e, -e);
    } else {
      NonNegProduct(e, e);
    }
  }

  lemma SquareLe(e: real, m: real)
    requires -m <= e <= m
    ensures e * e <= m * m
  {
    var ee, mm := e * e, m * m;
    NonNegProduct(m - e, m + e);
    assert mm - ee == (m - e) * (m + e);
  }

  /** The square of a number beyond m in size exceeds m squared. */
  lemma SquareGrows(e: real, m: real)
    requires 0.0 <= m < e
    ensures e * e > m * m
  {
    var ee, mm := e * e, m * m;
    PosProduct(e - m, e + m);
    assert ee - mm == (e - m) * (e + m);
  }

  lemma WithinSquare(e: real, m: real)
    requires 0.0 <= m && e * e <= m * m
    ensures -m <= e <= m
  {
    if e > m {
      SquareGrows(e, m);
    } else if e < -m {
      assert (-e) * (-e) == e * e;
      SquareGrows(-e, m);
    }
  }

  lemma ScaleLe(a: real, amax: real, b: real, bmax: real)
    requires 0.0 <= a <= amax && 0.0 <= b <= bmax
    ensures a * b <= amax * bmax
  {
    var ab, mb, mm := a * b, amax * b, amax * bmax;
    NonNegProduct(amax - a, b);
    assert mb - ab == (amax - a) * b;
    NonNegProduct(amax, bmax - b);
    assert mm - mb == amax * (bmax - b);
  }

  /** The random draws behind one spawned circle: its radius, its x position,
      how far below the bottom edge it starts and the two unit factors of its
      velocity. The ranges are those the game draws from. */
  datatype Draw = Draw(radius: real, x: real, yOffset: real, ux: real, uy: real)

  type SpawnDraw = d: Draw |
      && 20.0 <= d.radius <= 45.0
      && 0.0 <= d.yOffset <= 18.0
      && -1.15 <= d.ux <= 1.15
      && 0.70 <= d.uy <= 1.05
    witness Draw(20.0, 20.0, 0.0, 0.0, 0.70)

  /** The speed clamp of the game never bites at spawn: with the draw ranges
      and a level no higher than the last, the spawn velocity is within the
      maximum speed. */
  lemma SpawnVelocityWithinMax(ux: real, uy: real, speed: real)
    requires -1.15 <= ux <= 1.15 && 0.70 <= uy <= 1.05
    requires 0.0 <= speed <= LevelSpeed(TOTAL_LEVELS)
    ensures (ux * speed) * (ux * speed) + (uy * speed) * (uy * speed) <= MAX_SPEED * MAX_SPEED
  {
    assert TOTAL_LEVELS == 15;
    var xx, yy, ss := ux * ux, uy * uy, speed * speed;
    SquareLe(ux, 1.15);
    SquareLe(uy, 1.05);
    SquareLe(speed, 3.68);
    var vx, vy := (ux * speed) * (ux * speed), (uy * speed) * (uy * speed);
    assert vx == xx * ss;
    assert vy == yy * ss;
    Square(ux);
    Square(uy);
    Square(speed);
    ScaleLe(xx, 1.3225, ss, 13.5424);
    ScaleLe(yy, 1.1025, ss, 13.5424);
    assert vx + vy <= 49.0;
  }

  /** Opacity stays in [0, 1000]. */
  ghost predicate ValidView(v: CircleView)
  {
    0 <= v.alpha <= ALPHA_FULL
  }

  /** Validity survives a drop in opacity down to zero. */
  lemma ValidViewKeeps(v: CircleView, w: CircleView)
    requires ValidView(v)
    requires 0 <= w.alpha <= v.alpha
    ensures ValidView(w)
  {
  }

  /** A circle just spawned at (x, y): fully opaque, not fading, not flagged,
      moving with the level's speed scaled by the drawn unit factors, upwards. */
  function SpawnView(id: int, x: real, y: real, radius: real, speed: real, ux: real, uy: real): CircleView
  {
    CircleView(id, radius, radius * radius, x, y, ux * speed, -(uy * speed), false, ALPHA_FULL, false)
  }

  class Circle {
    const id: int
    const radius: real
    const mass: real
    var posX: real
    var posY: real
    var dx: real
    var dy: real
    var isColliding: bool
    /** Opacity in thousandths. */
    var alpha: int
    var fading: bool

    /** The circle's state satisfies ValidView. */
    ghost predicate Valid()
      reads this
    {
      ValidView(View())
    }

    function View(): CircleView
      reads this
    {
      CircleView(id, radius, mass, posX, posY, dx, dy, isColliding, alpha, fading)
    }

    /** A new circle at (x, y), fully opaque and not fading, moving with the
        level's speed scaled by the drawn unit factors (upwards). */
    constructor (id: int, x: real, y: real, radius: real, speed: real, ux: real, uy: real)
      requires -1.15 <= ux <= 1.15 && 0.70 <= uy <= 1.05
      requires 0.0 <= speed <= LevelSpeed(TOTAL_LEVELS)
      ensures Valid()
      ensures View() == SpawnView(id, x, y, radius, speed, ux, uy)
      ensures dx * dx + dy * dy <= MAX_SPEED * MAX_SPEED
    {
      this.id := id;
      posX := x;
      posY := y;
      this.radius := radius;
      mass := radius * radius;
      dx := ux * speed;
      dy := -(uy * speed);
      isColliding := false;
      alpha := ALPHA_FULL;
      fading := false;
      SpawnVelocityWithinMax(ux, uy, speed);
    }

    function Contains(px: real, py: real): bool
      reads this
    {
      InDisk(posX, posY, radius, px, py)
    }

    /** Clicked: start fading. Nothing else changes, and a second call changes
        nothing. */
    method StartFade()
      modifies this
      ensures View() == old(View()).(fading := true)
    {
      fading := true;
    }

    method Update(width: real) returns (fate: Fate)
      requires Valid()
      modifies this
      ensures Valid()
      ensures Stepped(View(), fate) == Advance(old(View()), width)
    {
      posX := posX + dx;
      posY := posY + dy;
      if posX + radius > width {
        posX := width - radius;
        dx := -dx;
      }
      if posX - radius < 0.0 {
        posX := radius;
        dx := -dx;
      }
      if fading {
        alpha := alpha - FADE_RATE;
        if alpha <= 0 {
          alpha := 0;
          return Killed;
        }
      }
      if posY + radius < 0.0 {
        return Escaped;
      }
      return Alive;
    }
  }
}
