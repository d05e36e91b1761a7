/** The player's pose and the six-flag movement state machine (`Moves`, `Player`). */
module Movement {
  import opened Vectors
  import opened Optional

  /** The keys the source dispatches on; every other virtual key code is `Other`. */
  datatype Key = W | A | S | D | ArrowRight | ArrowLeft | Other(code: nat)

  datatype ElementState = Pressed | Released

  /** winit's keyboard event reduced to what `update_moves` reads:
      the key code, which may be missing, and whether it was pressed or released. */
  datatype KeyboardInput = KeyboardInput(virtualKeycode: Option<Key>, state: ElementState)

  /** The six movement intents, one per flag of `Moves`. */
  datatype Intent = Up | Down | Left | Right | Clock | AntiClock

  datatype Moves = Moves(up: bool, down: bool, left: bool, right: bool, clock: bool, antiClock: bool)

  datatype Player = Player(pos: Point2, lookDir: Vec2)

  /** Translation per tick along an active direction. */
  const Step: real := 2.5

  /** Rotation per tick, in radians, for an active turn. */
  const TurnStep: real := 0.05

  /** The flag of `m` that records intent `a`. */
  function Flag(m: Moves, a: Intent): bool {
    match a
    case Up => m.up
    case Down => m.down
    case Left => m.left
    case Right => m.right
    case Clock => m.clock
    case AntiClock => m.antiClock
  }

  /** The key binding: which intent, if any, a key controls. */
  function Binding(k: Key): Option<Intent> {
    match k
    case W => Some(Up)
    case A => Some(Left)
    case S => Some(Down)
    case D => Some(Right)
    case ArrowRight => Some(Clock)
    case ArrowLeft => Some(AntiClock)
    case Other(_) => None
  }

  /** The intent an input event addresses, if it carries a bound key code. */
  function Target(input: KeyboardInput): Option<Intent> {
    match input.virtualKeycode
    case None => None
    case Some(k) => Binding(k)
  }

  /** Two flag records are the same value when they agree on every intent. */
  lemma FlagsDetermineMoves(m: Moves, n: Moves)
    requires forall a :: Flag(m, a) == Flag(n, a)
    ensures m == n
  {
    assert Flag(m, Up) == Flag(n, Up);
    assert Flag(m, Down) == Flag(n, Down);
    assert Flag(m, Left) == Flag(n, Left);
    assert Flag(m, Right) == Flag(n, Right);
    assert Flag(m, Clock) == Flag(n, Clock);
    assert Flag(m, AntiClock) == Flag(n, AntiClock);
  }

  /** `Moves::new`: no intent is active. */
  function NewMoves(): (m: Moves)
    ensures forall a :: !Flag(m, a)
  {
    Moves(false, false, false, false, false, false)
  }

  /** `Moves::update_moves`: a bound key sets its flag to whether it was pressed;
      the other five flags keep their values, and an unbound or missing key code
      changes nothing. */
  function UpdateMoves(m: Moves, input: KeyboardInput): (r: Moves)
    ensures forall a :: Flag(r, a) == if Target(input) == Some(a) then input.state == Pressed else Flag(m, a)
    ensures Target(input).None? ==> r == m
  {
    match input.virtualKeycode
    case None => m
    case Some(k) =>
      var state := match input.state { case Pressed => true case Released => false };
      match k
      case W => m.(up := state)
      case A => m.(left := state)
      case S => m.(down := state)
      case D => m.(right := state)
      case ArrowRight => m.(clock := state)
      case ArrowLeft => m.(antiClock := state)
      case Other(_) => m
  }

  /** Delivering the same event twice has the effect of delivering it once
      (key repeat cannot toggle a flag). */
  lemma UpdateMovesIdempotent(m: Moves, input: KeyboardInput)
    ensures UpdateMoves(UpdateMoves(m, input), input) == UpdateMoves(m, input)
  {
    var once := UpdateMoves(m, input);
    var twice := UpdateMoves(once, input);
    forall a ensures Flag(twice, a) == Flag(once, a) {
    }
    FlagsDetermineMoves(twice, once);
  }

  /** Pressing a bound key and then releasing it restores a state in which that intent was off. */
  lemma PressThenReleaseRestores(m: Moves, k: Key)
    requires Binding(k).Some? && !Flag(m, Binding(k).value)
    ensures UpdateMoves(UpdateMoves(m, KeyboardInput(Some(k), Pressed)), KeyboardInput(Some(k), Released)) == m
  {
    var r := UpdateMoves(UpdateMoves(m, KeyboardInput(Some(k), Pressed)), KeyboardInput(Some(k), Released));
    forall a ensures Flag(r, a) == Flag(m, a) {
    }
    FlagsDetermineMoves(r, m);
  }

  /** The flags are independent: events addressing different intents commute. */
  lemma UpdateMovesCommute(m: Moves, e1: KeyboardInput, e2: KeyboardInput)
    requires Target(e1) != Target(e2) || Target(e1).None?
    ensures UpdateMoves(UpdateMoves(m, e1), e2) == UpdateMoves(UpdateMoves(m, e2), e1)
  {
    var r1 := UpdateMoves(UpdateMoves(m, e1), e2);
    var r2 := UpdateMoves(UpdateMoves(m, e2), e1);
    forall a ensures Flag(r1, a) == Flag(r2, a) {
    }
    FlagsDetermineMoves(r1, r2);
  }

  /** 1 for an active flag, 0 otherwise. */
  function Indicator(b: bool): real {
    if b then 1.0 else 0.0
  }

  /** The net count of two opposing intents: +1, 0 or -1. */
  function Net(plus: bool, minus: bool): real {
    Indicator(plus) - Indicator(minus)
  }

  /** `update_vec += d` under a flag. */
  function Gain(v: Vec2, active: bool, d: Vec2): Vec2 {
    if active then Add(v, d) else v
  }

  /** `update_vec -= d` under a flag. */
  function Lose(v: Vec2, active: bool, d: Vec2): Vec2 {
    if active then Sub(v, d) else v
  }

  /** Adding `d` for one flag and subtracting it for the opposing flag, in either
      order, adds `d` scaled by the net count. */
  lemma OpposedFlags(v: Vec2, plus: bool, minus: bool, d: Vec2)
    ensures Lose(Gain(v, plus, d), minus, d) == Add(v, Scale(Net(plus, minus), d))
    ensures Gain(Lose(v, minus, d), plus, d) == Add(v, Scale(Net(plus, minus), d))
  {
    if plus && minus {
      assert Net(plus, minus) == 0.0;
    } else if plus {
      assert Net(plus, minus) == 1.0;
    } else if minus {
      assert Net(plus, minus) == -1.0;
    } else {
      assert Net(plus, minus) == 0.0;
    }
  }

  /** The accumulation in `update_player` for a forward step `forward` and a sideways
      step `side`: up adds `forward`, down subtracts it, left subtracts `side`, right
      adds it, in that order. The result is the net count of each opposing pair
      times its step. */
  function Accumulate(m: Moves, forward: Vec2, side: Vec2): (v: Vec2)
    ensures v == Add(Scale(Net(m.up, m.down), forward), Scale(Net(m.right, m.left), side))
  {
    var straight := Lose(Gain(Zero, m.up, forward), m.down, forward);
    OpposedFlags(Zero, m.up, m.down, forward);
    AddZero(Scale(Net(m.up, m.down), forward));
    OpposedFlags(straight, m.right, m.left, side);
    Gain(Lose(straight, m.left, side), m.right, side)
  }

  /** The translation of one tick: 2.5 * ((up - down) * lookDir + (right - left) * perp(lookDir)). */
  function Velocity(m: Moves, lookDir: Vec2): (v: Vec2)
    ensures v == Add(Scale(Net(m.up, m.down), Scale(Step, lookDir)), Scale(Net(m.right, m.left), Scale(Step, Perp(lookDir))))
  {
    Accumulate(m, Scale(Step, lookDir), Scale(Step, Perp(lookDir)))
  }

  lemma NetZeroIff(plus: bool, minus: bool)
    ensures Net(plus, minus) == 0.0 <==> plus == minus
  {
  }

  /** A combination a * (x, y) + b * (-y, x) of a non-zero vector and its quarter turn,
      both scaled by the step, vanishes only when both coefficients do. */
  lemma QuarterTurnIndependent(a: real, b: real, x: real, y: real)
    requires x != 0.0 || y != 0.0
    requires a * (Step * x) + b * (Step * -y) == 0.0
    requires a * (Step * y) + b * (Step * x) == 0.0
    ensures a == 0.0 && b == 0.0
  {
    var p, q := a * x - b * y, a * y + b * x;
    assert Step * p == a * (Step * x) + b * (Step * -y);
    assert Step * q == a * (Step * y) + b * (Step * x);
    assert p == 0.0 && q == 0.0;
    assert a * (x * x + y * y) == x * p + y * q;
    assert x * x + y * y > 0.0 by {
      if x != 0.0 { assert x * x > 0.0; } else { assert y * y > 0.0; }
    }
    assert a == 0.0;
    assert b * (x * x + y * y) == x * q - y * p;
  }

  /** For a non-zero `d`, the step a * (2.5 * d) + b * (2.5 * perp(d)) is zero only for a = b = 0. */
  lemma StepCombination(a: real, b: real, d: Vec2)
    requires d != Zero
    ensures Add(Scale(a, Scale(Step, d)), Scale(b, Scale(Step, Perp(d)))) == Zero <==> a == 0.0 && b == 0.0
  {
    var v := Add(Scale(a, Scale(Step, d)), Scale(b, Scale(Step, Perp(d))));
    assert v.x == a * (Step * d.x) + b * (Step * -d.y);
    assert v.y == a * (Step * d.y) + b * (Step * d.x);
    if v == Zero {
      QuarterTurnIndependent(a, b, d.x, d.y);
    }
  }

  /** Opposing intents cancel: the translation is zero exactly when up/down agree
      and left/right agree, for any non-zero look direction. */
  lemma {:induction false} VelocityZeroIff(m: Moves, lookDir: Vec2)
    requires lookDir != Zero
    ensures Velocity(m, lookDir) == Zero <==> (m.up == m.down && m.left == m.right)
  {
    var a, b := Net(m.up, m.down), Net(m.right, m.left);
    NetZeroIff(m.up, m.down);
    NetZeroIff(m.right, m.left);
    assert Velocity(m, lookDir) == Add(Scale(a, Scale(Step, lookDir)), Scale(b, Scale(Step, Perp(lookDir))));
    StepCombination(a, b, lookDir);
  }

  /** The angle accumulated by `update_player`: +0.05 for clockwise, -0.05 for
      anti-clockwise, so it is one of -0.05, 0 and 0.05, and 0 exactly when both
      or neither rotation flag is set. */
  function AngleDelta(m: Moves): (t: real)
    ensures t == TurnStep <==> m.clock && !m.antiClock
    ensures t == -TurnStep <==> !m.clock && m.antiClock
    ensures t == 0.0 <==> m.clock == m.antiClock
  {
    var t0 := 0.0;
    var t1 := if m.clock then t0 + TurnStep else t0;
    var t2 := if m.antiClock then t1 - TurnStep else t1;
    t2
  }

  /** `Player::update_player_pos`: the position moves by exactly `vel`; the look direction is kept. */
  function UpdatePlayerPos(p: Player, vel: Vec2): (r: Player)
    ensures Sub(r.pos, p.pos) == vel
    ensures r.lookDir == p.lookDir
  {
    p.(pos := Add(p.pos, vel))
  }

  /** Position updates compose additively. */
  lemma UpdatePlayerPosComposes(p: Player, u: Vec2, v: Vec2)
    ensures UpdatePlayerPos(UpdatePlayerPos(p, u), v) == UpdatePlayerPos(p, Add(u, v))
  {
  }

  /** `Player::update_player_look_dir`: `turn` stands for nannou's `rotate` followed by
      `normalize`, which the model does not interpret. The position is kept. */
  function UpdatePlayerLookDir(p: Player, dTheta: real, turn: (Vec2, real) -> Vec2): (r: Player)
    ensures r.pos == p.pos
    ensures r.lookDir == turn(p.lookDir, dTheta)
  {
    p.(lookDir := turn(p.lookDir, dTheta))
  }

  /** `Moves::update_player`: the position moves by
      2.5 * ((up - down) * lookDir + (right - left) * perp(lookDir)), using the look
      direction from before the tick, and the look direction is then turned by
      0.05 * (clock - antiClock). */
  function UpdatePlayer(m: Moves, p: Player, turn: (Vec2, real) -> Vec2): (r: Player)
    ensures var ld := p.lookDir;
            Sub(r.pos, p.pos) == Add(Scale(Net(m.up, m.down), Scale(Step, ld)), Scale(Net(m.right, m.left), Scale(Step, Perp(ld))))
    ensures r.lookDir == turn(p.lookDir, AngleDelta(m))
  {
    var moved := UpdatePlayerPos(p, Velocity(m, p.lookDir));
    UpdatePlayerLookDir(moved, AngleDelta(m), turn)
  }

  /** With every intent off, or every opposing pair on, a tick does not move the player
      and turns it by angle 0. */
  lemma BalancedMovesStayPut(m: Moves, p: Player, turn: (Vec2, real) -> Vec2)
    requires m.up == m.down && m.left == m.right && m.clock == m.antiClock
    ensures UpdatePlayer(m, p, turn).pos == p.pos
    ensures UpdatePlayer(m, p, turn).lookDir == turn(p.lookDir, 0.0)
  {
  }

  /** `Player::new`: the player starts at the origin looking along +x, a unit direction. */
  function NewPlayer(): (p: Player)
    ensures p.pos == Zero && p.lookDir == Vec2(1.0, 0.0)
    ensures NormSq(p.lookDir) == 1.0
  {
    Player(Vec2(0.0, 0.0), Vec2(1.0, 0.0))
  }
}
