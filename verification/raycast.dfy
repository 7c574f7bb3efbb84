/** The sequential logic of `src/raycast.rs`: decoding an `hknpBodyId`, the
    custom hit collector that puts a user predicate in front of the engine's
    closest-hit filter, the choice of the cast result, and the cast parameter
    record.

    The Havok engine is not modelled: a cast is represented by the sequence of
    hits the engine hands to the collector's `filter` entry, and the engine's
    own closest-hit filter is a function parameter acting on the collector
    state. Floating-point values are `f32` bit patterns. */
module Raycast {

  import opened Wrappers
  import opened Machine

  /* ----- hknpBodyId ----- */

  /** The low 24 bits of a body id hold the body's index. */
  const INDEX_LIMIT: int := 0x100_0000

  /** The index value that means "no body". */
  const NO_INDEX: int := 0xff_ffff

  /** `hknpBodyId(u32)`. */
  datatype BodyId = BodyId(raw: U32)

  /** `hknpBodyId::index`: the low 24 bits (`raw & 0xffffff`), unless they
      are all ones. */
  function Index(id: BodyId): (r: Option<nat>)
    ensures r.None? <==> id.raw % INDEX_LIMIT == NO_INDEX
    ensures r.Some? ==> r.value == id.raw % INDEX_LIMIT && r.value < NO_INDEX
  {
    var low := id.raw % INDEX_LIMIT;
    if low != NO_INDEX then Some(low) else None
  }

  /** The top 8 bits of a body id never affect its index, and a body id
      built from an index below 0xffffff and any top byte decodes to that
      index. */
  lemma IndexIgnoresTopByte(index: nat, top: nat, id: BodyId)
    requires index < INDEX_LIMIT && top < 0x100
    ensures Index(BodyId(top * INDEX_LIMIT + index)) == Index(BodyId(index))
    ensures index < NO_INDEX ==> Index(BodyId(top * INDEX_LIMIT + index)) == Some(index)
    ensures Index(id) == Index(BodyId(id.raw % INDEX_LIMIT))
  {
  }

  /* ----- the hit collectors ----- */

  /** A `ClosestHitCollector` as its filter sees it: `is_hit`, the hit kept
      so far, and the remaining fields (`unk08`, `segment`, `unk20`), which
      the engine's filter may read. `H` stands for `hknpHit`. */
  datatype Collector<H, S> = Collector(isHit: U32, hit: H, rest: S)

  /** `CustomHitCollector::filter`: a hit the user predicate rejects is
      dropped and the collector is left as it is; an accepted hit is passed
      on to the original `filter` entry of the `ClosestHitCollector` vtable. */
  function CustomFilter<H, S>(accept: H -> bool, original: (Collector<H, S>, H) -> Collector<H, S>,
                           c: Collector<H, S>, hit: H): (r: Collector<H, S>)
    ensures accept(hit) ==> r == original(c, hit)
    ensures !accept(hit) ==> r == c
  {
    if !accept(hit) then c else original(c, hit)
  }

  /** The collector after the engine has reported `hits` in order to `filter`. */
  function FilterAll<H, S>(filter: (Collector<H, S>, H) -> Collector<H, S>, c: Collector<H, S>, hits: seq<H>)
    : Collector<H, S>
    decreases |hits|
  {
    if |hits| == 0 then c else FilterAll(filter, filter(c, hits[0]), hits[1..])
  }

  /** The hits a predicate accepts, in order. */
  function Accepted<H>(accept: H -> bool, hits: seq<H>): (r: seq<H>)
    ensures |r| <= |hits|
    ensures forall h :: h in r ==> h in hits && accept(h)
    decreases |hits|
  {
    if |hits| == 0 then []
    else if accept(hits[0]) then [hits[0]] + Accepted(accept, hits[1..])
    else Accepted(accept, hits[1..])
  }

  /** The custom collector behaves exactly like the closest-hit collector that
      is shown only the hits the predicate accepts: rejected hits never reach
      the original filter. */
  lemma {:induction false} CustomFilterSeesOnlyAccepted<H, S>(accept: H -> bool,
      original: (Collector<H, S>, H) -> Collector<H, S>, c: Collector<H, S>, hits: seq<H>)
    ensures FilterAll((d, h) => CustomFilter(accept, original, d, h), c, hits)
         == FilterAll(original, c, Accepted(accept, hits))
    decreases |hits|
  {
    if |hits| > 0 {
      var custom := (d, h) => CustomFilter(accept, original, d, h);
      var next := custom(c, hits[0]);
      CustomFilterSeesOnlyAccepted(accept, original, next, hits[1..]);
      if accept(hits[0]) {
        assert ([hits[0]] + Accepted(accept, hits[1..]))[1..] == Accepted(accept, hits[1..]);
      }
    }
  }

  /** A predicate that accepts every hit leaves the closest-hit collector's
      behaviour unchanged. */
  lemma {:induction false} AcceptAllIsTransparent<H, S>(original: (Collector<H, S>, H) -> Collector<H, S>,
      c: Collector<H, S>, hits: seq<H>)
    ensures FilterAll((d, h) => CustomFilter(_ => true, original, d, h), c, hits)
         == FilterAll(original, c, hits)
  {
    CustomFilterSeesOnlyAccepted(_ => true, original, c, hits);
    AcceptedAll(hits);
  }

  /** Accepting everything keeps every hit. */
  lemma {:induction false} AcceptedAll<H>(hits: seq<H>)
    ensures Accepted(_ => true, hits) == hits
    decreases |hits|
  {
    if |hits| > 0 {
      AcceptedAll(hits[1..]);
      assert [hits[0]] + hits[1..] == hits;
    }
  }

  /** The result of a cast: `(is_hit != 0).then(|| hit)`. */
  function CastResult<H, S>(c: Collector<H, S>): (r: Option<H>)
    ensures r.Some? <==> c.isHit != 0
    ensures r.Some? ==> r.value == c.hit
  {
    if c.isHit != 0 then Some(c.hit) else None
  }

  /** `cast_shape`: no cast when the `CSHavokMan` singleton is unavailable;
      otherwise the custom collector starts as a copy of the freshly
      constructed closest-hit collector `initial`, receives the engine's
      `hits`, and its `is_hit`/`hit` make the result. */
  function CastShape<H, S>(havokAvailable: bool, initial: Collector<H, S>, hits: seq<H>,
                        accept: H -> bool, original: (Collector<H, S>, H) -> Collector<H, S>)
    : (r: Option<H>)
    ensures !havokAvailable ==> r.None?
    ensures havokAvailable ==> r == CastResult(FilterAll(original, initial, Accepted(accept, hits)))
  {
    if !havokAvailable then None
    else
      CustomFilterSeesOnlyAccepted(accept, original, initial, hits);
      CastResult(FilterAll((d, h) => CustomFilter(accept, original, d, h), initial, hits))
  }

  /** A cast in which the predicate rejects every hit reports no hit when the
      collector starts empty. */
  lemma RejectAllMisses<H, S>(initial: Collector<H, S>, hits: seq<H>, original: (Collector<H, S>, H) -> Collector<H, S>)
    requires initial.isHit == 0
    ensures CastShape(true, initial, hits, _ => false, original) == None
  {
    AcceptedNone(hits);
  }

  /** Accepting nothing keeps no hit. */
  lemma {:induction false} AcceptedNone<H>(hits: seq<H>)
    ensures Accepted(_ => false, hits) == []
    decreases |hits|
  {
    if |hits| > 0 {
      AcceptedNone(hits[1..]);
    }
  }

  /* ----- CastParams ----- */

  datatype Vec3 = Vec3(x: F32, y: F32, z: F32)
  datatype Vec4 = Vec4(x: F32, y: F32, z: F32, w: F32)

  const VEC4_ZERO: Vec4 := Vec4(F32_ZERO, F32_ZERO, F32_ZERO, F32_ZERO)

  /** `Vec3::extend(1.0)`. */
  function ExtendOne(v: Vec3): (r: Vec4)
    ensures r.w == F32_ONE
    ensures Vec3(r.x, r.y, r.z) == v
  {
    Vec4(v.x, v.y, v.z, F32_ONE)
  }

  /** The float literal pattern `0.0` matches both zeros. */
  predicate IsZero(e: F32) {
    e == F32_ZERO || e == F32_NEG_ZERO
  }

  /** One component of `direction_rcp`: `f32::MAX` for a zero component,
      its reciprocal otherwise (`recip` stands for `f32::recip`). */
  function RcpComponent(recip: F32 -> F32, e: F32): (r: F32)
    ensures IsZero(e) ==> r == F32_MAX
    ensures !IsZero(e) ==> r == recip(e)
  {
    if IsZero(e) then F32_MAX else recip(e)
  }

  /** The pointers `cast_ray` takes from the `CSHavokMan` singleton. */
  datatype HavokMan = HavokMan(shapeTagFilter: nat, collisionFilter: nat)

  /** `CastParams`; the shape reference is the shape's address. */
  datatype CastParams = CastParams(
    shapeTagFilter: nat, collisionFilter: nat, unk10: nat, filter: U32, userData: nat,
    unk20: nat, unk24: nat, shape: Option<nat>,
    origin: Vec4, direction: Vec4, directionRcp: Vec4,
    unk60: F32, unk64: nat, unk68: nat, unk6c: nat, unk70: nat, unk78: F32,
    unk80: Vec4, unk90: Vec4)

  /** `CastParams::cast_ray`: a shapeless cast. The engine pointers and the
      collision filter are passed through, origin and direction are extended
      with w = 1, each reciprocal component is `f32::MAX` for a zero
      direction component, and the remaining fields are fixed. */
  function CastRay(man: HavokMan, origin: Vec3, direction: Vec3, filter: U32, recip: F32 -> F32)
    : (r: CastParams)
    ensures r.shape.None?
    ensures r.shapeTagFilter == man.shapeTagFilter && r.collisionFilter == man.collisionFilter
    ensures r.filter == filter && r.userData == 0 && r.unk70 == 0
    ensures r.origin == ExtendOne(origin) && r.direction == ExtendOne(direction)
    ensures r.directionRcp.w == F32_ONE
    ensures r.directionRcp.x == RcpComponent(recip, direction.x)
    ensures r.directionRcp.y == RcpComponent(recip, direction.y)
    ensures r.directionRcp.z == RcpComponent(recip, direction.z)
  {
    var rcp := Vec3(RcpComponent(recip, direction.x), RcpComponent(recip, direction.y),
                    RcpComponent(recip, direction.z));
    CastParams(
      man.shapeTagFilter, man.collisionFilter, 0xffff, filter, 0,
      2, 0xfb, None,
      ExtendOne(origin), ExtendOne(direction), ExtendOne(rcp),
      F32_0_001, 0, 0, 0x100, 0, F32_MAX,
      VEC4_ZERO, VEC4_ZERO)
  }

  /** `CastParams::cast_shape`: the ray parameters with the shape attached. */
  function CastShapeParams(man: HavokMan, origin: Vec3, direction: Vec3, filter: U32,
                           recip: F32 -> F32, shape: nat)
    : (r: CastParams)
    ensures r.shape == Some(shape)
    ensures r.(shape := None) == CastRay(man, origin, direction, filter, recip)
  {
    CastRay(man, origin, direction, filter, recip).(shape := Some(shape))
  }
}
