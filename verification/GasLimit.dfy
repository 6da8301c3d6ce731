/** The gas limit a miner proposes for a child block against the window that
    verification enforces (libethashseal/Ethash.cpp:121-127, 182-191; Yellow
    Paper, section 4.3.4). */
module GasLimit {
  const WORD_LIMIT := 0x1_0000000000000000_0000000000000000_0000000000000000_0000000000000000
  const INVALID_256 := 0xffffffffffffffff_ffffffffffffffff_ffffffffffffffff_ffffffffffffffff
  const DEFAULT_TARGET := 3141562

  /** Arithmetic on u256. */
  function Wrap(n: int): nat { n % WORD_LIMIT }

  function Min(a: nat, b: nat): nat { if b < a then b else a }
  function Max(a: nat, b: nat): nat { if a < b then b else a }

  /** Division of u256 values. */
  function Div(a: nat, d: nat): (q: nat)
    requires d > 0
  {
    a / d
  }

  /** childGasLimit, from the parent's limit and gas used, the bound divisor and
      the floor target. */
  function ChildGasLimit(limit: nat, used: nat, divisor: nat, target: nat): nat
    requires divisor > 0
  {
    var floor := if target == INVALID_256 then DEFAULT_TARGET else target;
    if limit < floor then Min(floor, Wrap(Wrap(limit + Div(limit, divisor)) - 1))
    else Max(floor, Wrap(Wrap(Wrap(limit - Div(limit, divisor)) + 1) + Div(Div(Wrap(used * 6), 5), divisor)))
  }

  /** The two bounds verify puts on a block's gas limit given its parent's. */
  predicate InWindow(gasLimit: nat, parent: nat, divisor: nat)
    requires divisor > 0
  {
    Wrap(parent - Div(parent, divisor)) < gasLimit < Wrap(parent + Div(parent, divisor))
  }

  lemma TimesAtLeast(x: nat, d: nat)
    requires d > 0
    ensures x * d >= x
  {
    assert x * d == x * (d - 1) + x;
  }

  lemma MulMonotone(a: nat, b: nat, d: nat)
    requires a <= b
    ensures a * d <= b * d
  {
    assert b * d == a * d + (b - a) * d;
  }

  lemma DivBelow(a: nat, d: nat, c: nat)
    requires d > 0
    ensures Div(a, d) < c <==> a < c * d
  {
    var q := Div(a, d);
    assert q * d <= a < q * d + d;
    if q < c {
      MulMonotone(q + 1, c, d);
      assert (q + 1) * d == q * d + d;
    } else {
      MulMonotone(c, q, d);
    }
  }

  lemma DivMonotone(a: nat, b: nat, d: nat)
    requires a <= b && d > 0
    ensures Div(a, d) <= Div(b, d)
  {
    DivBelow(a, d, Div(b, d) + 1);
    DivBelow(b, d, Div(b, d) + 1);
  }

  lemma DivAtMost(a: nat, d: nat)
    requires d > 0
    ensures Div(a, d) <= a
  {
    DivBelow(a, d, a + 1);
    TimesAtLeast(a + 1, d);
  }

  lemma NoWrap(n: nat)
    ensures n < WORD_LIMIT ==> Wrap(n) == n
  {
  }

  /** The parent limits considered: far from wrapping around. */
  const LIMIT_BOUND := 0x400000000000000_0000000000000000_0000000000000000_0000000000000000

  lemma QuotientInRange(limit: nat, divisor: nat)
    requires 0 < divisor <= limit
    ensures 1 <= Div(limit, divisor) <= limit
  {
    DivBelow(limit, divisor, 1);
    DivAtMost(limit, divisor);
  }

  /** What the proposal adds for gas used. */
  function Extra(used: nat, divisor: nat): nat
    requires divisor > 0
  {
    Div(Div(used * 6, 5), divisor)
  }

  lemma ExtraSmall(used: nat, divisor: nat)
    requires divisor > 0
    ensures Extra(used, divisor) <= used * 6
  {
    DivAtMost(used * 6, 5);
    DivAtMost(Div(used * 6, 5), divisor);
  }

  /** Without wrap-around the proposal is this, below the floor target. */
  lemma ProposalUp(limit: nat, divisor: nat)
    requires 0 < divisor <= limit < LIMIT_BOUND
    ensures var q := Div(limit, divisor);
      1 <= q <= limit && Wrap(Wrap(limit + q) - 1) == limit + q - 1
  {
    var q := Div(limit, divisor);
    QuotientInRange(limit, divisor);
    NoWrap(limit + q);
    NoWrap(limit + q - 1);
    hide Wrap, Div;
  }

  /** And this at or above it. */
  lemma ProposalDown(limit: nat, used: nat, divisor: nat)
    requires 0 < divisor <= limit < LIMIT_BOUND && used <= limit
    ensures var q := Div(limit, divisor);
      1 <= q <= limit
      && Wrap(Wrap(Wrap(limit - q) + 1) + Div(Div(Wrap(used * 6), 5), divisor)) == limit - q + 1 + Extra(used, divisor)
  {
    var q := Div(limit, divisor);
    QuotientInRange(limit, divisor);
    ExtraSmall(used, divisor);
    NoWrap(limit - q);
    NoWrap(limit - q + 1);
    NoWrap(used * 6);
    hide Wrap, Div;
    NoWrap(limit - q + 1 + Extra(used, divisor));
  }

  lemma Window(limit: nat, divisor: nat, g: nat)
    requires 0 < divisor <= limit < LIMIT_BOUND
    ensures var q := Div(limit, divisor);
      1 <= q <= limit && (InWindow(g, limit, divisor) <==> limit - q < g < limit + q)
  {
    var q := Div(limit, divisor);
    QuotientInRange(limit, divisor);
    NoWrap(limit - q);
    NoWrap(limit + q);
    hide Wrap, Div;
  }

  /** The proposal for the worst case, a full parent block, stays inside. */
  predicate Roomy(limit: nat, divisor: nat)
    requires divisor > 0
  {
    Extra(limit, divisor) + 2 <= 2 * Div(limit, divisor)
  }

  lemma Inside(limit: nat, used: nat, divisor: nat, target: nat)
    requires 0 < divisor <= limit < LIMIT_BOUND && used <= limit
    ensures var floor := if target == INVALID_256 then DEFAULT_TARGET else target;
      InWindow(ChildGasLimit(limit, used, divisor, target), limit, divisor) <==>
      (limit < floor || Extra(used, divisor) + 2 <= 2 * Div(limit, divisor))
  {
    ProposalUp(limit, divisor);
    ProposalDown(limit, used, divisor);
    Window(limit, divisor, ChildGasLimit(limit, used, divisor, target));
    hide Wrap, Div, Extra, InWindow;
  }

  /** Whatever the block used and whatever the miner aims at, verify takes the
      proposal. */
  ghost predicate AlwaysInside(limit: nat, divisor: nat)
    requires divisor > 0
  {
    forall used: nat, target: nat | used <= limit ::
      InWindow(ChildGasLimit(limit, used, divisor, target), limit, divisor)
  }

  /** For a given parent limit and divisor: the proposal is strictly inside the
      window for every gas usage and every floor target exactly when a full
      parent block leaves room. */
  lemma ProposalInWindow(limit: nat, divisor: nat)
    requires divisor > 0 && limit < LIMIT_BOUND
    ensures AlwaysInside(limit, divisor) <==> Roomy(limit, divisor)
  {
    if limit < divisor { EmptyWindow(limit, divisor, ChildGasLimit(limit, 0, divisor, 0)); }
    DivBelow(limit, divisor, 1);
    hide ChildGasLimit, InWindow, Div;
    if Roomy(limit, divisor) {
      forall used: nat, target: nat | used <= limit
        ensures InWindow(ChildGasLimit(limit, used, divisor, target), limit, divisor)
      {
        Inside(limit, used, divisor, target);
        ExtraMonotone(used, limit, divisor);
      }
    } else if divisor <= limit {
      Inside(limit, limit, divisor, 0);
    }
  }

  /** A parent below the divisor leaves no window at all. */
  lemma EmptyWindow(limit: nat, divisor: nat, g: nat)
    requires limit < divisor
    ensures !InWindow(g, limit, divisor) && !Roomy(limit, divisor)
  {
    DivBelow(limit, divisor, 1);
  }

  lemma ExtraMonotone(a: nat, b: nat, divisor: nat)
    requires a <= b && divisor > 0
    ensures Extra(a, divisor) <= Extra(b, divisor)
  {
    DivMonotone(a * 6, b * 6, 5);
    DivMonotone(Div(a * 6, 5), Div(b * 6, 5), divisor);
  }

  /** Three divisors' worth of gas are always enough. */
  lemma ThreeIsRoomy(limit: nat, divisor: nat)
    requires divisor > 0 && Div(limit, divisor) >= 3
    ensures Roomy(limit, divisor)
  {
    var q := Div(limit, divisor);
    var room := 2 * q - 1;
    DivBelow(limit, divisor, q + 1);
    Worst(limit, (q + 1) * divisor, q, divisor);
    DivBelow(Div(limit * 6, 5), divisor, room);
    DivBelow(limit * 6, 5, room * divisor);
    hide Div;
  }

  lemma Worst(limit: nat, top: nat, q: nat, divisor: nat)
    requires limit < top == (q + 1) * divisor && q >= 3
    ensures limit * 6 < (2 * q - 1) * divisor * 5
  {
    assert top * 6 == (6 * (q + 1)) * divisor;
    MulMonotone(6 * (q + 1), 5 * (2 * q - 1), divisor);
    assert (5 * (2 * q - 1)) * divisor == (2 * q - 1) * divisor * 5;
  }

  /** For a parent limit below the floor target, whatever gas was used: of the
      limits that verify takes and that do not pass the floor, the largest. */
  lemma AimsUp(limit: nat, used: nat, divisor: nat, target: nat, floor: nat)
    requires 0 < divisor <= limit < LIMIT_BOUND && limit < floor
    requires floor == if target == WORD_LIMIT - 1 then 3141562 else target
    ensures var g := ChildGasLimit(limit, used, divisor, target);
      && g <= floor && InWindow(g, limit, divisor)
      && forall h: nat :: InWindow(h, limit, divisor) && h <= floor ==> h <= g
  {
    var g := ChildGasLimit(limit, used, divisor, target);
    ProposalUp(limit, divisor);
    Window(limit, divisor, g);
    forall h: nat | InWindow(h, limit, divisor) && h <= floor
      ensures h <= g
    {
      Window(limit, divisor, h);
    }
    hide Wrap, Div, InWindow;
  }

  /** For a parent limit at the floor target or above it: with nothing used, of
      the limits that verify takes and that keep the floor, the smallest; and
      six fifths of the gas used, over the divisor, are added to the smallest
      limit that verify takes, as far as that is more than the floor. */
  lemma AimsDown(limit: nat, used: nat, divisor: nat, target: nat, floor: nat, least: nat)
    requires 0 < divisor <= limit < LIMIT_BOUND && used <= limit && floor <= limit
    requires floor == if target == WORD_LIMIT - 1 then 3141562 else target
    requires InWindow(least, limit, divisor) && !InWindow(least - 1, limit, divisor)
    ensures var g := ChildGasLimit(limit, used, divisor, target);
      && g >= floor && (used == 0 ==> InWindow(g, limit, divisor))
      && (used == 0 ==> forall h: nat :: InWindow(h, limit, divisor) && h >= floor ==> h >= g)
      && (g > floor ==> g >= least && (g - least) * divisor * 5 <= used * 6 < (g - least + 1) * divisor * 5)
  {
    hide Wrap, Div, InWindow, Extra;
    var g, q := ChildGasLimit(limit, used, divisor, target), Div(limit, divisor);
    ProposalDown(limit, used, divisor);
    Window(limit, divisor, g);
    Window(limit, divisor, least);
    Window(limit, divisor, least - 1);
    ExtraSpan(used, divisor);
    assert g == Max(floor, least + Extra(used, divisor));
    forall h: nat | used == 0 && InWindow(h, limit, divisor) && h >= floor
      ensures h >= g
    {
      Window(limit, divisor, h);
    }
  }

  /** What the gas used adds, times the divisor, is six fifths of it, rounded
      down to a multiple of the divisor. */
  lemma ExtraSpan(used: nat, divisor: nat)
    requires divisor > 0
    ensures var x := Extra(used, divisor); x * divisor * 5 <= used * 6 < (x + 1) * divisor * 5
    ensures used == 0 ==> Extra(used, divisor) == 0
  {
    hide Div;
    var x := Extra(used, divisor);
    DivBelow(Div(used * 6, 5), divisor, x);
    DivBelow(Div(used * 6, 5), divisor, x + 1);
    DivBelow(used * 6, 5, x * divisor);
    DivBelow(used * 6, 5, (x + 1) * divisor);
    ExtraSmall(used, divisor);
  }

  /** The more gas was used, the higher the proposal. */
  lemma AimsHigher(limit: nat, used: nat, more: nat, divisor: nat, target: nat)
    requires 0 < divisor <= limit < LIMIT_BOUND && used <= more <= limit
    ensures ChildGasLimit(limit, used, divisor, target) <= ChildGasLimit(limit, more, divisor, target)
  {
    hide Wrap, Div, Extra;
    ProposalDown(limit, used, divisor);
    ProposalDown(limit, more, divisor);
    ExtraMonotone(used, more, divisor);
  }

  /** A failure: a full parent block of exactly one divisor's worth of gas makes
      the proposal leave the window. */
  lemma SmallParentFails()
    ensures !InWindow(ChildGasLimit(1024, 1024, 1024, 0), 1024, 1024)
  {
    Inside(1024, 1024, 1024, 0);
  }
}
