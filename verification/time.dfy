/** The signed-duration codec of `src/config/updater/time.rs` and the three
    cells built on it (`SignedAtomicDuration`, `AtomicDuration`, `AtomicInstant`).

    A `SignedDuration` is a `(secs: u64, nanos: i32)` pair whose sign is carried
    by the sign of `nanos`; it is packed into one `u128` so that a single atomic
    word can hold it. The cells are modelled as sequential values: a store
    returns the new cell, a load reads it. */
module Time {
  import opened Wrappers
  import opened Machine

  const NANOS_PER_SEC: int := 1_000_000_000
  /** One past the largest nanosecond count a `Duration` can hold. */
  const TICKS_LIMIT: int := U64_LIMIT * NANOS_PER_SEC

  type SubsecNanos = x: int | 0 <= x < NANOS_PER_SEC
  type Ticks = x: int | 0 <= x < TICKS_LIMIT

  /** `std::time::Duration`: whole seconds and a sub-second nanosecond part. */
  datatype Duration = Duration(secs: U64, nanos: SubsecNanos)

  /** `std::time::Instant`. On Windows the standard library stores an instant
      as a `Duration` since the performance counter's origin, so an instant is
      a nanosecond count in the same range as a duration. */
  datatype Instant = Instant(ticks: Ticks)

  datatype Sign = Neg | Pos

  /** A duration whose sign is the sign of `nanos`; `secs` is a magnitude. */
  datatype SignedDuration = SignedDuration(secs: U64, nanos: I32)

  /* ----- Duration and Instant arithmetic of the standard library ----- */

  /** The length of `d` in nanoseconds. */
  function AsNanos(d: Duration): Ticks {
    d.secs * NANOS_PER_SEC + d.nanos
  }

  /** The duration of `n` nanoseconds. */
  function FromNanos(n: Ticks): (d: Duration)
    ensures AsNanos(d) == n
  {
    Duration(n / NANOS_PER_SEC, n % NANOS_PER_SEC)
  }

  /** `Instant::checked_duration_since`. */
  function CheckedDurationSince(later: Instant, earlier: Instant): (o: Option<Duration>)
    ensures o.Some? <==> earlier.ticks <= later.ticks
    ensures o.Some? ==> AsNanos(o.value) == later.ticks - earlier.ticks
  {
    if earlier.ticks <= later.ticks then Some(FromNanos(later.ticks - earlier.ticks)) else None
  }

  /** `Instant::checked_add`: `None` when the sum leaves the representable range. */
  function CheckedAdd(i: Instant, d: Duration): (o: Option<Instant>)
    ensures o.Some? <==> i.ticks + AsNanos(d) < TICKS_LIMIT
    ensures o.Some? ==> o.value.ticks == i.ticks + AsNanos(d)
  {
    if i.ticks + AsNanos(d) < TICKS_LIMIT then Some(Instant(i.ticks + AsNanos(d))) else None
  }

  /** `Instant::checked_sub`: `None` when the difference would be negative. */
  function CheckedSub(i: Instant, d: Duration): (o: Option<Instant>)
    ensures o.Some? <==> AsNanos(d) <= i.ticks
    ensures o.Some? ==> o.value.ticks == i.ticks - AsNanos(d)
  {
    if AsNanos(d) <= i.ticks then Some(Instant(i.ticks - AsNanos(d))) else None
  }

  /* ----- SignedDuration ----- */

  /** The sub-second magnitude is a valid `Duration` nanosecond count: the
      fact `into_duration_and_sign` asserts without checking. */
  predicate Valid(s: SignedDuration) {
    -NANOS_PER_SEC < s.nanos < NANOS_PER_SEC
  }

  /** The signed nanosecond count `s` stands for when its sign is read off `nanos`. */
  function SignedNanos(s: SignedDuration): int {
    if s.nanos < 0 then -(s.secs * NANOS_PER_SEC) + s.nanos else s.secs * NANOS_PER_SEC + s.nanos
  }

  function Abs(x: int): nat {
    if x < 0 then -x else x
  }

  /** `SignedDuration::from_duration_and_sign`: the sign is applied to the
      nanosecond part only, so a negative duration with no sub-second part
      comes out indistinguishable from the positive one. */
  function FromDurationAndSign(dur: Duration, sign: Sign): (s: SignedDuration)
    ensures Valid(s) && s.secs == dur.secs && Abs(s.nanos) == dur.nanos
    ensures sign == Pos ==> SignedNanos(s) == AsNanos(dur)
    ensures sign == Neg && dur.nanos != 0 ==> SignedNanos(s) == -(AsNanos(dur) as int)
    ensures sign == Neg && dur.nanos == 0 ==> SignedNanos(s) == AsNanos(dur)
  {
    match sign
    case Pos => SignedDuration(dur.secs, dur.nanos)
    case Neg => SignedDuration(dur.secs, -(dur.nanos as int))
  }

  /** `impl From<Duration> for SignedDuration`. */
  function FromDuration(dur: Duration): (s: SignedDuration)
    ensures Valid(s) && 0 <= s.nanos < NANOS_PER_SEC && s.nanos == dur.nanos
    ensures IntoDurationAndSign(s) == (dur, Pos)
  {
    FromDurationAndSign(dur, Pos)
  }

  /** `SignedDuration::into_duration_and_sign`: the magnitude
      `Duration::new(secs, |nanos|)` and the sign of `nanos`. */
  function IntoDurationAndSign(s: SignedDuration): (r: (Duration, Sign))
    requires Valid(s)
    ensures r.0.secs == s.secs && r.0.nanos == Abs(s.nanos)
    ensures r.1 == Neg <==> s.nanos < 0
    ensures r.1 == Pos ==> SignedNanos(s) == AsNanos(r.0)
    ensures r.1 == Neg ==> SignedNanos(s) == -(AsNanos(r.0) as int)
  {
    var dur := Duration(s.secs, Abs(s.nanos));
    var sign := if s.nanos < 0 then Neg else Pos;
    (dur, sign)
  }

  /** Building a signed duration and taking it apart again gives back the
      duration and the sign, except that a negative whole-second duration
      comes back positive. */
  lemma DurationAndSignRoundTrip(dur: Duration, sign: Sign)
    ensures IntoDurationAndSign(FromDurationAndSign(dur, sign)) == (dur, sign)
      <==> (sign == Pos || dur.nanos != 0)
    ensures sign == Neg && dur.nanos == 0 ==>
      IntoDurationAndSign(FromDurationAndSign(dur, sign)) == (dur, Pos)
  {
  }

  /** Every valid signed duration is rebuilt exactly from its parts. */
  lemma DurationAndSignSplitJoin(s: SignedDuration)
    requires Valid(s)
    ensures FromDurationAndSign(IntoDurationAndSign(s).0, IntoDurationAndSign(s).1) == s
  {
  }

  /** `SignedDuration::from_instant_difference`: `lhs - rhs` as a magnitude
      and the sign of the difference. */
  function FromInstantDifference(lhs: Instant, rhs: Instant): (s: SignedDuration)
    ensures Valid(s)
    ensures s.secs * NANOS_PER_SEC + Abs(s.nanos) == Abs(lhs.ticks - rhs.ticks)
    ensures lhs.ticks < rhs.ticks ==> s.nanos <= 0
    ensures rhs.ticks <= lhs.ticks ==> s.nanos >= 0
    ensures SignedNanos(s) == lhs.ticks - rhs.ticks
      <==> (rhs.ticks <= lhs.ticks || (rhs.ticks - lhs.ticks) % NANOS_PER_SEC != 0)
  {
    if lhs.ticks < rhs.ticks then
      var dur := CheckedDurationSince(rhs, lhs).value;
      FromDurationAndSign(dur, Neg)
    else
      var dur := CheckedDurationSince(lhs, rhs).value;
      FromDurationAndSign(dur, Pos)
  }

  /** Swapping the two instants keeps the seconds and negates the nanoseconds. */
  lemma DifferenceAntisymmetric(a: Instant, b: Instant)
    ensures FromInstantDifference(a, b).secs == FromInstantDifference(b, a).secs
    ensures FromInstantDifference(a, b).nanos == -FromInstantDifference(b, a).nanos
  {
  }

  /** The sum of an instant and a signed offset lies in the instant range, the
      condition under which `add_to_instant_unchecked` is defined. */
  predicate AddInRange(s: SignedDuration, lhs: Instant) {
    0 <= lhs.ticks + SignedNanos(s) < TICKS_LIMIT
  }

  /** `SignedDuration::add_to_instant_unchecked`: moves `lhs` back by the
      magnitude when the sign is negative, forward otherwise. Overflow is
      undefined behaviour in the source, hence the requirement. */
  function AddToInstantUnchecked(s: SignedDuration, lhs: Instant): (i: Instant)
    requires Valid(s) && AddInRange(s, lhs)
    ensures i.ticks == lhs.ticks + SignedNanos(s)
  {
    match IntoDurationAndSign(s)
    case (dur, Neg) => CheckedSub(lhs, dur).value
    case (dur, Pos) => CheckedAdd(lhs, dur).value
  }

  /* ----- the u128 packing ----- */

  /** `i32::cast_unsigned`: the two's-complement bit pattern of `n`. */
  function NanosBits(n: I32): (b: U32)
    ensures n < 0 <==> b >= 0x8000_0000
    ensures b % U32_LIMIT == n % U32_LIMIT
  {
    if n < 0 then n + U32_LIMIT else n
  }

  /** `u32::cast_signed`: the `i32` whose bit pattern is `b`. */
  function NanosFromBits(b: U32): (n: I32)
    ensures NanosBits(n) == b
  {
    if b < 0x8000_0000 then b else b - U32_LIMIT
  }

  /** The bit-pattern reinterpretation of `nanos` is lossless. */
  lemma NanosBitsRoundTrip(n: I32)
    ensures NanosFromBits(NanosBits(n)) == n
  {
  }

  /** `SignedDuration::into_u128`: `secs` in bits 0..63, the bits of `nanos`
      in bits 64..95, nothing above. Since `secs < 2^64`, `secs | bits << 64`
      is `secs + bits * 2^64`. */
  function IntoU128(s: SignedDuration): (v: U128)
    ensures v % U64_LIMIT == s.secs
    ensures (v / U64_LIMIT) % U32_LIMIT == NanosBits(s.nanos)
    ensures v / (U64_LIMIT * U32_LIMIT) == 0
  {
    s.secs + NanosBits(s.nanos) * U64_LIMIT
  }

  /** `SignedDuration::from_u128`: the low 64 bits as `secs` and bits 64..95
      reinterpreted as `nanos`; the bits above 95 are ignored. */
  function FromU128(v: U128): (s: SignedDuration)
    ensures s.secs == v % U64_LIMIT
    ensures NanosBits(s.nanos) == (v / U64_LIMIT) % U32_LIMIT
  {
    SignedDuration(v % U64_LIMIT, NanosFromBits((v / U64_LIMIT) % U32_LIMIT))
  }

  /** The codec is lossless on every `SignedDuration`. */
  lemma CodecRoundTrip(s: SignedDuration)
    ensures FromU128(IntoU128(s)) == s
  {
  }

  /** Encoding what was decoded gives back every word whose bits above 95 are clear. */
  lemma CodecRoundTripBits(v: U128)
    requires v < U64_LIMIT * U32_LIMIT
    ensures IntoU128(FromU128(v)) == v
  {
  }

  /* ----- the cells ----- */

  /** `SignedAtomicDuration`: one 128-bit word holding an encoded signed duration. */
  datatype SignedAtomicDuration = SignedAtomicDuration(bits: U128)

  /** `SignedAtomicDuration::load`: the word is decoded; bits above 95 are
      never written by a store and are ignored by the load. */
  function LoadSigned(c: SignedAtomicDuration): (s: SignedDuration)
    ensures s.secs == c.bits % U64_LIMIT
    ensures NanosBits(s.nanos) == (c.bits / U64_LIMIT) % U32_LIMIT
    ensures c.bits < U64_LIMIT * U32_LIMIT ==> IntoU128(s) == c.bits
  {
    FromU128(c.bits)
  }

  /** `SignedAtomicDuration::new`. */
  function NewSignedCell(s: SignedDuration): (c: SignedAtomicDuration)
    ensures LoadSigned(c) == s
  {
    CodecRoundTrip(s);
    SignedAtomicDuration(IntoU128(s))
  }

  /** `SignedAtomicDuration::store`: the previous word is overwritten. */
  function StoreSigned(c: SignedAtomicDuration, s: SignedDuration): (c': SignedAtomicDuration)
    ensures LoadSigned(c') == s
    ensures c'.bits < U64_LIMIT * U32_LIMIT
  {
    CodecRoundTrip(s);
    SignedAtomicDuration(IntoU128(s))
  }

  /** `AtomicDuration`: a non-negative duration in a signed cell. */
  datatype AtomicDuration = AtomicDuration(cell: SignedAtomicDuration)

  /** The cell holds what the encoder wrote, so loading it is defined. */
  predicate DurationCellValid(a: AtomicDuration) {
    Valid(LoadSigned(a.cell))
  }

  /** `AtomicDuration::load`: the magnitude of the stored signed duration;
      the sign is dropped. */
  function LoadDuration(a: AtomicDuration): (d: Duration)
    requires DurationCellValid(a)
    ensures d.secs == LoadSigned(a.cell).secs
    ensures AsNanos(d) == Abs(SignedNanos(LoadSigned(a.cell)))
  {
    IntoDurationAndSign(LoadSigned(a.cell)).0
  }

  /** `AtomicDuration::new`: loading the new cell gives `d` back. */
  function NewDurationCell(d: Duration): (a: AtomicDuration)
    ensures DurationCellValid(a) && LoadDuration(a) == d
  {
    AtomicDuration(NewSignedCell(FromDuration(d)))
  }

  /** `AtomicDuration::store`: a load after the store returns exactly `d`. */
  function StoreDuration(a: AtomicDuration, d: Duration): (a': AtomicDuration)
    ensures DurationCellValid(a') && LoadDuration(a') == d
  {
    AtomicDuration(StoreSigned(a.cell, FromDuration(d)))
  }

  /** `AtomicInstant`: an instant stored as a signed offset from `reference`,
      which is fixed when the cell is made. */
  datatype AtomicInstant = AtomicInstant(cell: SignedAtomicDuration, reference: Instant)

  /** Loading is defined: the cell holds a valid offset and adding it to the
      reference stays in the instant range. */
  predicate InstantCellLoadable(a: AtomicInstant) {
    Valid(LoadSigned(a.cell)) && AddInRange(LoadSigned(a.cell), a.reference)
  }

  /** `AtomicInstant::load`: the reference moved by the stored offset. */
  function LoadInstant(a: AtomicInstant): (i: Instant)
    requires InstantCellLoadable(a)
    ensures i.ticks == a.reference.ticks + SignedNanos(LoadSigned(a.cell))
  {
    AddToInstantUnchecked(LoadSigned(a.cell), a.reference)
  }

  /** `AtomicInstant::new`: the cell starts at the zero offset, so it loads
      as its reference instant. */
  function NewInstantCell(reference: Instant): (a: AtomicInstant)
    ensures a.reference == reference
    ensures InstantCellLoadable(a) && LoadInstant(a) == reference
  {
    AtomicInstant(NewSignedCell(SignedDuration(0, 0)), reference)
  }

  /** `AtomicInstant::store`: the instant is read back exactly, unless it lies
      a whole number of seconds before the reference. */
  function StoreInstant(a: AtomicInstant, i: Instant): (a': AtomicInstant)
    ensures a'.reference == a.reference
    ensures Valid(LoadSigned(a'.cell))
    ensures (InstantCellLoadable(a') && LoadInstant(a') == i)
      <==> (a.reference.ticks <= i.ticks || (a.reference.ticks - i.ticks) % NANOS_PER_SEC != 0)
  {
    a.(cell := StoreSigned(a.cell, FromInstantDifference(i, a.reference)))
  }

  /** What the store does to an instant a whole number of seconds before the
      reference: the load mirrors it to the other side of the reference. */
  lemma StoreInstantMirrorsWholeSeconds(a: AtomicInstant, i: Instant)
    requires i.ticks < a.reference.ticks
    requires (a.reference.ticks - i.ticks) % NANOS_PER_SEC == 0
    requires 2 * a.reference.ticks - i.ticks < TICKS_LIMIT
    ensures InstantCellLoadable(StoreInstant(a, i))
    ensures LoadInstant(StoreInstant(a, i)).ticks == 2 * a.reference.ticks - i.ticks
  {
  }

  /** A concrete case: with the reference at 2 s, storing the instant at 1 s
      loads back the instant at 3 s. */
  lemma StoreInstantOneSecondBehind()
    ensures var a := StoreInstant(NewInstantCell(Instant(2 * NANOS_PER_SEC)), Instant(NANOS_PER_SEC));
      InstantCellLoadable(a) && LoadInstant(a) == Instant(3 * NANOS_PER_SEC)
  {
  }

  /* ----- a sign-preserving encoding ----- */

  /** The range of `nanos` the complement encoding produces. */
  predicate ValidFixed(s: SignedDuration) {
    -NANOS_PER_SEC <= s.nanos < NANOS_PER_SEC
  }

  /** `from_duration_and_sign` with the sign kept for whole seconds: a negative
      duration stores the bitwise complement `!n == -n - 1` of its nanoseconds,
      which is negative even when `n` is zero. */
  function FromDurationAndSignFixed(dur: Duration, sign: Sign): (s: SignedDuration)
    ensures ValidFixed(s) && s.secs == dur.secs
    ensures s.nanos < 0 <==> sign == Neg
  {
    match sign
    case Pos => SignedDuration(dur.secs, dur.nanos)
    case Neg => SignedDuration(dur.secs, -(dur.nanos as int) - 1)
  }

  /** The inverse of `FromDurationAndSignFixed`. */
  function IntoDurationAndSignFixed(s: SignedDuration): (r: (Duration, Sign))
    requires ValidFixed(s)
    ensures r.0.secs == s.secs
    ensures r.1 == Neg <==> s.nanos < 0
  {
    if s.nanos < 0 then (Duration(s.secs, -s.nanos - 1), Neg) else (Duration(s.secs, s.nanos), Pos)
  }

  /** The complement encoding loses nothing, whole seconds included. */
  lemma FixedDurationAndSignRoundTrip(dur: Duration, sign: Sign)
    ensures IntoDurationAndSignFixed(FromDurationAndSignFixed(dur, sign)) == (dur, sign)
  {
  }

  /** The signed nanosecond count of a complement-encoded duration. */
  function SignedNanosFixed(s: SignedDuration): int
    requires ValidFixed(s)
  {
    var (dur, sign) := IntoDurationAndSignFixed(s);
    if sign == Neg then -(AsNanos(dur) as int) else AsNanos(dur)
  }

  /** `from_instant_difference` over the complement encoding. */
  function FromInstantDifferenceFixed(lhs: Instant, rhs: Instant): (s: SignedDuration)
    ensures ValidFixed(s)
    ensures SignedNanosFixed(s) == lhs.ticks - rhs.ticks
  {
    if lhs.ticks < rhs.ticks then
      var dur := CheckedDurationSince(rhs, lhs).value;
      FixedDurationAndSignRoundTrip(dur, Neg);
      FromDurationAndSignFixed(dur, Neg)
    else
      var dur := CheckedDurationSince(lhs, rhs).value;
      FixedDurationAndSignRoundTrip(dur, Pos);
      FromDurationAndSignFixed(dur, Pos)
  }

  /** Loading is defined for a complement-encoded offset. */
  predicate InstantCellLoadableFixed(a: AtomicInstant) {
    var s := LoadSigned(a.cell);
    ValidFixed(s) && 0 <= a.reference.ticks + SignedNanosFixed(s) < TICKS_LIMIT
  }

  /** `AtomicInstant::load` over the complement encoding. */
  function LoadInstantFixed(a: AtomicInstant): (i: Instant)
    requires InstantCellLoadableFixed(a)
    ensures i.ticks == a.reference.ticks + SignedNanosFixed(LoadSigned(a.cell))
  {
    match IntoDurationAndSignFixed(LoadSigned(a.cell))
    case (dur, Neg) => CheckedSub(a.reference, dur).value
    case (dur, Pos) => CheckedAdd(a.reference, dur).value
  }

  /** `AtomicInstant::store` over the complement encoding: every instant is
      read back exactly. */
  function StoreInstantFixed(a: AtomicInstant, i: Instant): (a': AtomicInstant)
    ensures a'.reference == a.reference
    ensures InstantCellLoadableFixed(a') && LoadInstantFixed(a') == i
  {
    a.(cell := StoreSigned(a.cell, FromInstantDifferenceFixed(i, a.reference)))
  }
}
