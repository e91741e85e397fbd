/**
 * Time spans measured in ticks of the kernel's tick clock
 * (`os_time/duration.rs`).  The tick rate `TICK_HZ` is fixed at build time by a
 * configuration module; here it is the parameter `hz` of every conversion.
 * Conversions from milliseconds and microseconds first reduce the fraction
 * hz / 1000 (or hz / 1_000_000) by the gcd of its two terms, then round up
 * (`from_*`) or down (`from_*_floor`).
 */
module Duration {
  import opened Config
  import opened Wrappers
  import opened Arith

  datatype Duration = Duration(ticks: u64)

  /** `gcd`: Euclid's algorithm. */
  function Gcd(a: nat, b: nat): nat
    decreases b
  {
    if b == 0 then a else Gcd(b, a % b)
  }

  predicate Divides(d: nat, n: nat)
  {
    d > 0 && n % d == 0
  }

  /** The gcd divides both arguments and every common divisor divides it. */
  lemma {:induction false} GcdSpec(a: nat, b: nat)
    requires a > 0 || b > 0
    ensures Divides(Gcd(a, b), a) && Divides(Gcd(a, b), b)
    ensures forall d :: Divides(d, a) && Divides(d, b) ==> Divides(d, Gcd(a, b))
    decreases b
  {
    if b != 0 {
      GcdSpec(b, a % b);
      var g := Gcd(b, a % b);
      var q := a / b;
      assert a == q * b + a % b;
      MulMod(q, b, g);
      AddMod(q * b, a % b, g);
      forall d | Divides(d, a) && Divides(d, b) ensures Divides(d, Gcd(a, b)) {
        MulMod(q, b, d);
        SubMod(a, q * b, d);
      }
    }
  }

  lemma MulMod(q: nat, b: nat, d: nat)
    requires Divides(d, b)
    ensures (q * b) % d == 0
  {
    var k := b / d;
    assert b == k * d;
    assert q * b == (q * k) * d;
    MulDiv(q * k, d);
  }

  lemma AddMod(x: nat, y: nat, d: nat)
    requires d > 0 && x % d == 0 && y % d == 0
    ensures (x + y) % d == 0
  {
    var a, b := x / d, y / d;
    assert x == a * d && y == b * d;
    assert x + y == (a + b) * d;
    MulDiv(a + b, d);
  }

  lemma SubMod(x: nat, y: nat, d: nat)
    requires d > 0 && x % d == 0 && y % d == 0 && y <= x
    ensures (x - y) % d == 0
  {
    var a, b := x / d, y / d;
    assert x == a * d && y == b * d;
    if a < b {
      MulStrict(a, b, d);
    }
    assert x - y == (a - b) * d;
    MulDiv(a - b, d);
  }

  /** `GCD_1K` / `GCD_1M`: the gcd of the tick rate and the unit's scale. */
  function ScaleGcd(hz: nat, scale: nat): (g: nat)
    requires scale > 0
    ensures Divides(g, hz) && Divides(g, scale)
    ensures scale / g > 0
  {
    GcdSpec(hz, scale);
    DivisorQuotient(Gcd(hz, scale), scale);
    Gcd(hz, scale)
  }

  /** A divisor of a positive number leaves a positive quotient. */
  lemma DivisorQuotient(d: nat, n: nat)
    requires Divides(d, n) && n > 0
    ensures n / d > 0
  {
    assert n == d * (n / d);
  }

  /** `div_ceil(num, den) = (num + den - 1) / den`. */
  function DivCeil(num: nat, den: nat): (r: nat)
    requires den > 0
    ensures r * den >= num && (r == 0 || (r - 1) * den < num)
  {
    var r := (num + den - 1) / den;
    assert (num + den - 1) == r * den + (num + den - 1) % den;
    r
  }

  /** Scaling numerator and denominator by the same factor keeps the quotient. */
  lemma DivCancel(a: nat, b: nat, g: nat)
    requires b > 0 && g > 0
    ensures (a * g) / (b * g) == a / b
  {
    var q, r := a / b, a % b;
    assert a == q * b + r;
    assert a * g == q * (b * g) + r * g;
    assert 0 <= r * g < b * g;
    DivUnique(a * g, b * g, q, r * g);
  }

  /** Ticks of a reduced fraction `m * (hz/g) / (scale/g)`, rounded down. */
  function ScaleFloor(hz: nat, scale: nat, m: nat): nat
    requires scale > 0
  {
    var g := ScaleGcd(hz, scale);
    var num: nat := m * (hz / g);
    var den: nat := scale / g;
    num / den
  }

  /** Ticks of the reduced fraction, rounded up with `div_ceil`. */
  function ScaleCeil(hz: nat, scale: nat, m: nat): nat
    requires scale > 0
  {
    var g := ScaleGcd(hz, scale);
    var num: nat := m * (hz / g);
    var den: nat := scale / g;
    DivCeil(num, den)
  }

  /** The gcd reduction does not change the value: floor(m * hz / scale). */
  lemma ScaleFloorIsFloor(hz: nat, scale: nat, m: nat)
    requires scale > 0
    ensures ScaleFloor(hz, scale, m) == m * hz / scale
    ensures ScaleFloor(hz, scale, m) * scale <= m * hz < (ScaleFloor(hz, scale, m) + 1) * scale
  {
    var g := ScaleGcd(hz, scale);
    var h, s := hz / g, scale / g;
    assert hz == h * g && scale == s * g;
    assert m * hz == (m * h) * g;
    DivCancel(m * h, s, g);
    var f := m * hz / scale;
    assert m * hz == f * scale + (m * hz) % scale;
  }

  /** The rounded-up conversion is ceil(m * hz / scale). */
  lemma ScaleCeilIsCeil(hz: nat, scale: nat, m: nat)
    requires scale > 0
    ensures ScaleCeil(hz, scale, m) * scale >= m * hz
    ensures ScaleCeil(hz, scale, m) == 0 || (ScaleCeil(hz, scale, m) - 1) * scale < m * hz
  {
    var g := ScaleGcd(hz, scale);
    var h, s := hz / g, scale / g;
    var c := DivCeil(m * h, s);
    CeilScale(c, s, m * h, g);
    Reduce(hz, g, m);
    Reduce(scale, g, 1);
  }

  /** A multiple of g is its quotient times g, also under a factor m. */
  lemma Reduce(x: nat, g: nat, m: nat)
    requires Divides(g, x)
    ensures x == (x / g) * g && m * x == (m * (x / g)) * g
  {
    assert x == (x / g) * g + x % g;
  }

  lemma CeilScale(c: nat, s: nat, n: nat, g: nat)
    requires g > 0 && c * s >= n && (c == 0 || (c - 1) * s < n)
    ensures c * (s * g) >= n * g
    ensures c == 0 || (c - 1) * (s * g) < n * g
  {
    MulMono(n, c * s, g);
    assert (c * s) * g == c * (s * g);
    if c > 0 {
      MulStrict((c - 1) * s, n, g);
      assert ((c - 1) * s) * g == (c - 1) * (s * g);
    }
  }

  /** The rounded-down value never exceeds the rounded-up one by more than a tick. */
  lemma FloorCeilGap(hz: nat, scale: nat, m: nat)
    requires scale > 0
    ensures ScaleFloor(hz, scale, m) <= ScaleCeil(hz, scale, m) <= ScaleFloor(hz, scale, m) + 1
  {
    ScaleFloorIsFloor(hz, scale, m);
    ScaleCeilIsCeil(hz, scale, m);
    var f, c := ScaleFloor(hz, scale, m), ScaleCeil(hz, scale, m);
    if c < f {
      MulStrict(c, f, scale);
    }
    if c > f + 1 {
      MulStrict(f + 1, c - 1, scale);
    }
  }

  /** No u64 overflow in `m * (hz/g) + (scale/g) - 1`, the largest intermediate. */
  predicate ScaleFits(hz: nat, scale: nat, m: nat)
    requires scale > 0
  {
    var g := ScaleGcd(hz, scale);
    m * (hz / g) + scale / g - 1 <= U64_MAX
  }

  /** No u64 overflow in `m * (hz/g)`, the only intermediate of the rounded-down conversion. */
  predicate ScaleFloorFits(hz: nat, scale: nat, m: nat)
    requires scale > 0
  {
    m * (hz / ScaleGcd(hz, scale)) <= U64_MAX
  }

  lemma ScaleFloorBounded(hz: nat, scale: nat, m: nat)
    requires scale > 0 && ScaleFloorFits(hz, scale, m)
    ensures ScaleFloor(hz, scale, m) <= U64_MAX
  {
    var g := ScaleGcd(hz, scale);
    DivLe(m * (hz / g), scale / g);
  }

  lemma ScaleBounded(hz: nat, scale: nat, m: nat)
    requires scale > 0 && ScaleFits(hz, scale, m)
    ensures ScaleFloor(hz, scale, m) <= U64_MAX && ScaleCeil(hz, scale, m) <= U64_MAX
  {
    var g := ScaleGcd(hz, scale);
    var n, s := m * (hz / g), scale / g;
    DivLe(n, s);
    DivLe(n + s - 1, s);
  }

  /** `from_ticks`. */
  function FromTicks(ticks: u64): (d: Duration)
    ensures d.ticks == ticks
  {
    Duration(ticks)
  }

  /** `from_secs` and `from_secs_floor` (the same expression). */
  function FromSecs(hz: nat, secs: u64): (d: Duration)
    requires secs * hz <= U64_MAX
    ensures d.ticks == secs * hz
  {
    Duration(secs * hz)
  }

  /** `from_millis`: rounded up. */
  function FromMillis(hz: nat, millis: u64): (d: Duration)
    requires ScaleFits(hz, 1000, millis)
  {
    ScaleBounded(hz, 1000, millis);
    Duration(ScaleCeil(hz, 1000, millis))
  }

  /** `from_millis_floor`: rounded down. */
  function FromMillisFloor(hz: nat, millis: u64): (d: Duration)
    requires ScaleFloorFits(hz, 1000, millis)
  {
    ScaleFloorBounded(hz, 1000, millis);
    Duration(ScaleFloor(hz, 1000, millis))
  }

  /** `from_micros`: rounded up. */
  function FromMicros(hz: nat, micros: u64): (d: Duration)
    requires ScaleFits(hz, 1_000_000, micros)
  {
    ScaleBounded(hz, 1_000_000, micros);
    Duration(ScaleCeil(hz, 1_000_000, micros))
  }

  /** `from_micros_floor`: rounded down. */
  function FromMicrosFloor(hz: nat, micros: u64): (d: Duration)
    requires ScaleFloorFits(hz, 1_000_000, micros)
  {
    ScaleFloorBounded(hz, 1_000_000, micros);
    Duration(ScaleFloor(hz, 1_000_000, micros))
  }

  /** from_millis is ceil(millis * hz / 1000) and from_millis_floor the floor. */
  lemma MillisRounding(hz: nat, millis: u64)
    requires ScaleFits(hz, 1000, millis)
    ensures FromMillisFloor(hz, millis).ticks * 1000 <= millis * hz < (FromMillisFloor(hz, millis).ticks + 1) * 1000
    ensures FromMillis(hz, millis).ticks * 1000 >= millis * hz
    ensures FromMillis(hz, millis).ticks == 0 || (FromMillis(hz, millis).ticks - 1) * 1000 < millis * hz
    ensures FromMillisFloor(hz, millis).ticks <= FromMillis(hz, millis).ticks <= FromMillisFloor(hz, millis).ticks + 1
  {
    ScaleFloorIsFloor(hz, 1000, millis);
    ScaleCeilIsCeil(hz, 1000, millis);
    FloorCeilGap(hz, 1000, millis);
  }

  /** from_micros is ceil(micros * hz / 10^6) and from_micros_floor the floor. */
  lemma MicrosRounding(hz: nat, micros: u64)
    requires ScaleFits(hz, 1_000_000, micros)
    ensures FromMicrosFloor(hz, micros).ticks * 1_000_000 <= micros * hz < (FromMicrosFloor(hz, micros).ticks + 1) * 1_000_000
    ensures FromMicros(hz, micros).ticks * 1_000_000 >= micros * hz
    ensures FromMicros(hz, micros).ticks == 0 || (FromMicros(hz, micros).ticks - 1) * 1_000_000 < micros * hz
    ensures FromMicrosFloor(hz, micros).ticks <= FromMicros(hz, micros).ticks <= FromMicrosFloor(hz, micros).ticks + 1
  {
    ScaleFloorIsFloor(hz, 1_000_000, micros);
    ScaleCeilIsCeil(hz, 1_000_000, micros);
    FloorCeilGap(hz, 1_000_000, micros);
  }

  /** `checked_add`: None exactly when the tick sum overflows u64. */
  function CheckedAdd(a: Duration, b: Duration): (r: Option<Duration>)
    ensures r.None? <==> a.ticks + b.ticks > U64_MAX
    ensures r.Some? ==> r.value.ticks == a.ticks + b.ticks
  {
    if a.ticks + b.ticks > U64_MAX then None else Some(Duration(a.ticks + b.ticks))
  }

  /** `Duration + Duration`: panics on overflow. */
  function Add(a: Duration, b: Duration): (r: Outcome<Duration>)
    ensures r.Panic? <==> CheckedAdd(a, b).None?
    ensures r.Done? ==> r.value.ticks == a.ticks + b.ticks
  {
    match CheckedAdd(a, b)
    case Some(d) => Done(d)
    case None => Panic("overflow when adding durations")
  }
}
