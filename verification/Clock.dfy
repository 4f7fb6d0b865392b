/** Instants and their fixed-width decimal keys (backend/storage/db.go). */
module Clock {
  import opened ByteOrder

  const MAX_TIMESTAMP: int := 0x7fff_ffff_ffff_ffff

  /** time.Time as UnixNano sees it: a signed 64-bit count of nanoseconds. */
  type Instant = t: int | -MAX_TIMESTAMP - 1 <= t <= MAX_TIMESTAMP

  /** UnixNano with negative values clamped to zero. */
  function Clamped(t: Instant): (n: nat)
    ensures n <= MAX_TIMESTAMP
  {
    if t < 0 then 0 else t
  }

  function Digit(n: nat): char
    requires n < 10
  {
    '0' + n as char
  }

  function Power10(w: nat): (p: nat)
    ensures p > 0
  {
    if w == 0 then 1 else 10 * Power10(w - 1)
  }

  /** fmt.Sprintf("%0*d", w, n) for a number that fits. */
  function Digits(n: nat, w: nat): (s: string)
    ensures |s| == w && !HasNul(s)
  {
    if w == 0 then "" else Digits(n / 10, w - 1) + [Digit(n % 10)]
  }

  function Digits19(n: nat): string {
    Digits(n, 19)
  }

  lemma {:induction false} BeforeSnoc(a: string, x: char, b: string, y: char)
    requires |a| == |b|
    ensures Before(a + [x], b + [y]) <==> (Before(a, b) || (a == b && x < y))
  {
    if a != [] {
      assert (a + [x])[1..] == a[1..] + [x] && (b + [y])[1..] == b[1..] + [y];
      BeforeSnoc(a[1..], x, b[1..], y);
      assert a == [a[0]] + a[1..] && b == [b[0]] + b[1..];
    }
  }

  /** Zero-padded decimals of one width sort as numbers. */
  lemma {:induction false} DigitsOrder(m: nat, n: nat, w: nat)
    requires m < Power10(w) && n < Power10(w)
    ensures Before(Digits(m, w), Digits(n, w)) <==> m < n
    ensures Digits(m, w) == Digits(n, w) <==> m == n
  {
    if w > 0 {
      assert m / 10 < Power10(w - 1) && n / 10 < Power10(w - 1);
      DigitsOrder(m / 10, n / 10, w - 1);
      BeforeSnoc(Digits(m / 10, w - 1), Digit(m % 10), Digits(n / 10, w - 1), Digit(n % 10));
      var a, b := Digits(m, w), Digits(n, w);
      assert a[..w - 1] == Digits(m / 10, w - 1) && b[..w - 1] == Digits(n / 10, w - 1);
      assert a[w - 1] == Digit(m % 10) && b[w - 1] == Digit(n % 10);
    }
  }

  lemma Power10At19()
    ensures Power10(19) > MAX_TIMESTAMP
  {
    assert Power10(4) == 10_000;
    assert Power10(8) == 10_000 * Power10(4) == 100_000_000;
    assert Power10(12) == 10_000 * Power10(8);
    assert Power10(16) == 10_000 * Power10(12);
    assert Power10(19) == 1_000 * Power10(16);
  }

  lemma TimeKeyOrder(m: nat, n: nat)
    requires m <= MAX_TIMESTAMP && n <= MAX_TIMESTAMP
    ensures Before(Digits19(m), Digits19(n)) <==> m < n
    ensures Digits19(m) == Digits19(n) <==> m == n
  {
    Power10At19();
    DigitsOrder(m, n, 19);
  }

  /** The number that decimal digits write. */
  function Written(s: string): int {
    if s == "" then 0 else 10 * Written(s[..|s| - 1]) + (s[|s| - 1] as int - '0' as int)
  }

  lemma {:induction false} DigitsWrite(n: nat, w: nat)
    requires n < Power10(w)
    ensures Written(Digits(n, w)) == n && forall c <- Digits(n, w) :: '0' <= c <= '9'
  {
    if w > 0 {
      var s := Digits(n, w);
      DigitsWrite(n / 10, w - 1);
      assert s[..w - 1] == Digits(n / 10, w - 1) && s[w - 1] == Digit(n % 10);
    }
  }

  /** Nineteen decimal digits of how far the time is from the end of the range, where a time before 1970
      counts as 1970. */
  lemma InvertedTimestampIs(t: Instant)
    ensures var s := InvertedTimestamp(t);
            && |s| == 19 && (forall c <- s :: '0' <= c <= '9')
            && Written(s) == 0x7fff_ffff_ffff_ffff - (if t > 0 then t else 0)
  {
    Power10At19();
    DigitsWrite(MAX_TIMESTAMP - Clamped(t), 19);
  }

  function InvertedTimestamp(t: Instant): (s: string)
    ensures !HasNul(s)
  {
    Digits19(MAX_TIMESTAMP - Clamped(t))
  }

  /** The inverted timestamp reverses time order: newest first. */
  lemma InvertedOrder(s: Instant, t: Instant)
    ensures Before(InvertedTimestamp(s), InvertedTimestamp(t)) <==> Clamped(s) > Clamped(t)
    ensures InvertedTimestamp(s) == InvertedTimestamp(t) <==> Clamped(s) == Clamped(t)
  {
    hide Digits19, Before, Clamped;
    TimeKeyOrder(MAX_TIMESTAMP - Clamped(s), MAX_TIMESTAMP - Clamped(t));
  }
}
