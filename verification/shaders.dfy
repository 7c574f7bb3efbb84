/** The shader switches of `src/shaders.rs`: the `SHADER_FLAGS` word read by
    the tone-map shader, the `SHADER_PARAMS` word packing two `f32` bit
    patterns, the `ENABLE_DITHERING` switch, the two function hooks, and the
    21-byte trampoline written over the fisheye constant-buffer code.

    The `u32` and `u64` words are sequences of bits, least significant bit
    first, so `1 << pos` is the word whose only set bit is `pos`. Floating-point
    values are represented by their bit patterns; the results of
    `strength > 0.05` and of `f32::tan(vfov * 0.5).to_bits()` are inputs. */
module Shaders {

  import opened Wrappers

  /** A `u32` as its 32 bits, bit 0 first. */
  type Word32 = s: seq<bool> | |s| == 32 witness seq(32, _ => false)

  /** A `u64` as its 64 bits, bit 0 first. */
  type Word64 = s: seq<bool> | |s| == 64 witness seq(64, _ => false)

  /** A bit position of a `u32`. */
  type BitPos = p: nat | p < 32

  const ZERO32: Word32 := seq(32, _ => false)
  const ZERO64: Word64 := seq(64, _ => false)

  /** The three globals: `SHADER_FLAGS`, `SHADER_PARAMS`, `ENABLE_DITHERING`. */
  datatype ShaderGlobals = ShaderGlobals(flags: Word32, params: Word64, dithering: bool)

  /** The globals at load time: no flag set, no parameters, dithering on. */
  const INITIAL_GLOBALS: ShaderGlobals := ShaderGlobals(ZERO32, ZERO64, true)

  /** Flag bit positions used by the callers of `set_shader_flag`. */
  const FOV_CORRECTION_BIT: BitPos := 0
  const CROSSHAIR_BIT: BitPos := 1
  const BARREL_BIT: BitPos := 2

  /* ----- the flag word ----- */

  /** `1 << pos`. */
  function Shl1(pos: BitPos): Word32 {
    seq(32, i => i == pos)
  }

  /** `a | b`. */
  function Or(a: Word32, b: Word32): Word32 {
    seq(32, i requires 0 <= i < 32 => a[i] || b[i])
  }

  /** `a & b`. */
  function And(a: Word32, b: Word32): Word32 {
    seq(32, i requires 0 <= i < 32 => a[i] && b[i])
  }

  /** `!a`. */
  function Not(a: Word32): Word32 {
    seq(32, i requires 0 <= i < 32 => !a[i])
  }

  /** The new flag word and the word `fetch_or`/`fetch_and` hand back. */
  datatype FlagUpdate = FlagUpdate(flags: Word32, previous: Word32)

  /** `fetch_or(flag)` when `state` holds, `fetch_and(!flag)` otherwise. */
  function FetchSetOrClear(flags: Word32, state: bool, flag: Word32): FlagUpdate {
    if state then FlagUpdate(Or(flags, flag), flags) else FlagUpdate(And(flags, Not(flag)), flags)
  }

  /** `set_shader_flag`: bit `pos` becomes `state`, every other bit keeps its
      value, and the word before the update is handed back. */
  function SetShaderFlag(flags: Word32, state: bool, pos: BitPos): (r: FlagUpdate)
    ensures r.previous == flags
    ensures r.flags[pos] == state
    ensures forall i :: 0 <= i < 32 && i != pos ==> r.flags[i] == flags[i]
  {
    FetchSetOrClear(flags, state, Shl1(pos))
  }

  /** Setting a bit to the value it already has leaves the word as it is, so
      repeating a call changes nothing. */
  lemma SetShaderFlagIdempotent(flags: Word32, state: bool, pos: BitPos)
    ensures flags[pos] == state ==> SetShaderFlag(flags, state, pos).flags == flags
    ensures var once := SetShaderFlag(flags, state, pos).flags;
      SetShaderFlag(once, state, pos).flags == once
  {
  }

  /** Updates of two different bits can be made in either order. */
  lemma SetShaderFlagCommutes(flags: Word32, a: bool, p: BitPos, b: bool, q: BitPos)
    requires p != q
    ensures SetShaderFlag(SetShaderFlag(flags, a, p).flags, b, q).flags
         == SetShaderFlag(SetShaderFlag(flags, b, q).flags, a, p).flags
  {
  }

  /* ----- SHADER_PARAMS ----- */

  /** `strength | (width_ratio << 32)` over the two `f32` bit patterns, each
      widened to `u64`. */
  function PackParams(strength: Word32, widthRatio: Word32): Word64 {
    strength + widthRatio
  }

  /** The low half of the parameter word, read by the shader as the strength. */
  function ParamsStrength(params: Word64): Word32 {
    params[..32]
  }

  /** The high half of the parameter word, read by the shader as the width ratio. */
  function ParamsWidthRatio(params: Word64): Word32 {
    params[32..]
  }

  /** Packing is a bijection: each half is read back as written, and every
      parameter word is the packing of its two halves. */
  lemma PackParamsRoundTrip(strength: Word32, widthRatio: Word32, params: Word64)
    ensures ParamsStrength(PackParams(strength, widthRatio)) == strength
    ensures ParamsWidthRatio(PackParams(strength, widthRatio)) == widthRatio
    ensures PackParams(ParamsStrength(params), ParamsWidthRatio(params)) == params
  {
  }

  /** `enable_fov_correction`: the correction is on only when requested and
      the strength exceeds 0.05; the barrel bit follows `useBarrel` whatever
      the correction does; the parameters are written only when the correction
      is on; nothing else changes. */
  function EnableFovCorrection(g: ShaderGlobals, state: bool, strengthAboveThreshold: bool,
                               strengthBits: Word32, useBarrel: bool, widthRatioBits: Word32)
    : (r: ShaderGlobals)
    ensures r.flags[FOV_CORRECTION_BIT] == (state && strengthAboveThreshold)
    ensures r.flags[BARREL_BIT] == useBarrel
    ensures forall i :: 0 <= i < 32 && i != FOV_CORRECTION_BIT && i != BARREL_BIT ==> r.flags[i] == g.flags[i]
    ensures state && strengthAboveThreshold ==>
      ParamsStrength(r.params) == strengthBits && ParamsWidthRatio(r.params) == widthRatioBits
    ensures !(state && strengthAboveThreshold) ==> r.params == g.params
    ensures r.dithering == g.dithering
  {
    var effective := state && strengthAboveThreshold;
    var f1 := SetShaderFlag(g.flags, effective, FOV_CORRECTION_BIT).flags;
    var f2 := SetShaderFlag(f1, useBarrel, BARREL_BIT).flags;
    PackParamsRoundTrip(strengthBits, widthRatioBits, g.params);
    var params := if effective then PackParams(strengthBits, widthRatioBits) else g.params;
    g.(flags := f2, params := params)
  }

  /** `enable_crosshair`: only bit 1 changes. */
  function EnableCrosshair(g: ShaderGlobals, state: bool): (r: ShaderGlobals)
    ensures r.flags[CROSSHAIR_BIT] == state
    ensures forall i :: 0 <= i < 32 && i != CROSSHAIR_BIT ==> r.flags[i] == g.flags[i]
    ensures r.params == g.params && r.dithering == g.dithering
  {
    g.(flags := SetShaderFlag(g.flags, state, CROSSHAIR_BIT).flags)
  }

  /** `enable_dithering`: only the dithering switch changes. */
  function EnableDithering(g: ShaderGlobals, state: bool): (r: ShaderGlobals)
    ensures r.dithering == state && r.flags == g.flags && r.params == g.params
  {
    g.(dithering := state)
  }

  /** The crosshair and field-of-view settings do not disturb each other: they
      can be applied in either order. */
  lemma CrosshairAndFovCommute(g: ShaderGlobals, crosshair: bool, state: bool, strengthAboveThreshold: bool,
                               strengthBits: Word32, useBarrel: bool, widthRatioBits: Word32)
    ensures EnableCrosshair(EnableFovCorrection(g, state, strengthAboveThreshold, strengthBits, useBarrel, widthRatioBits), crosshair)
         == EnableFovCorrection(EnableCrosshair(g, crosshair), state, strengthAboveThreshold, strengthBits, useBarrel, widthRatioBits)
  {
  }

  /** Applying the same field-of-view settings twice is the same as once. */
  lemma EnableFovCorrectionIdempotent(g: ShaderGlobals, state: bool, strengthAboveThreshold: bool,
                                      strengthBits: Word32, useBarrel: bool, widthRatioBits: Word32)
    ensures var once := EnableFovCorrection(g, state, strengthAboveThreshold, strengthBits, useBarrel, widthRatioBits);
      EnableFovCorrection(once, state, strengthAboveThreshold, strengthBits, useBarrel, widthRatioBits) == once
  {
  }

  /* ----- the hooks ----- */

  /** What a hook returns and whether it called the original function. */
  datatype HookOutcome = HookOutcome(result: bool, calledOriginal: bool)

  /** The `uses_dithering` hook: `ENABLE_DITHERING && original(..)`, which
      short-circuits, so the original is called only when dithering is on. */
  function UsesDitheringHook(g: ShaderGlobals, original: bool): (r: HookOutcome)
    ensures r.calledOriginal <==> g.dithering
    ensures r.result <==> g.dithering && original
  {
    if g.dithering then HookOutcome(original, true) else HookOutcome(false, false)
  }

  /** Switching dithering off makes the hook answer false without calling the
      original; switching it on passes the original's answer through; at load
      time it is on. */
  lemma DitheringSwitchControlsHook(g: ShaderGlobals, state: bool, original: bool)
    ensures UsesDitheringHook(EnableDithering(g, state), original)
         == (if state then HookOutcome(original, true) else HookOutcome(false, false))
    ensures UsesDitheringHook(INITIAL_GLOBALS, original) == HookOutcome(original, true)
  {
  }

  /** The arguments of `add_pixel_shader` after the repository pointer and name. */
  datatype ShaderBlob = ShaderBlob(blob: nat, len: nat)

  /** The shader whose bytecode is replaced. */
  const TONE_MAP_NAME: string := "ToneMap_PostOETFPS"

  /** The `add_pixel_shader` hook: when the name decodes (`decodedName` is
      `None` for invalid UTF-16) to "ToneMap_PostOETFPS", the blob and its
      length are replaced by the embedded `ToneMap_PostHook` blob; any other
      call is passed through unchanged. */
  function AddPixelShaderHook(decodedName: Option<string>, args: ShaderBlob, toneMapHook: ShaderBlob)
    : (r: ShaderBlob)
    ensures decodedName == Some(TONE_MAP_NAME) ==> r == toneMapHook
    ensures decodedName != Some(TONE_MAP_NAME) ==> r == args
  {
    match decodedName
    case Some(name) => if name == TONE_MAP_NAME then toneMapHook else args
    case None => args
  }

  /* ----- the constant-buffer trampoline ----- */

  /** The eight little-endian bytes of `x` (`u64::to_le_bytes`). */
  function LeBytes(x: bv64): seq<bv8> {
    [ (x & 0xff) as bv8, ((x >> 8) & 0xff) as bv8, ((x >> 16) & 0xff) as bv8, ((x >> 24) & 0xff) as bv8,
      ((x >> 32) & 0xff) as bv8, ((x >> 40) & 0xff) as bv8, ((x >> 48) & 0xff) as bv8, ((x >> 56) & 0xff) as bv8 ]
  }

  /** The `u64` whose little-endian bytes are `b`. */
  function FromLeBytes(b: seq<bv8>): bv64
    requires |b| == 8
  {
    (b[0] as bv64) | ((b[1] as bv64) << 8) | ((b[2] as bv64) << 16) | ((b[3] as bv64) << 24)
    | ((b[4] as bv64) << 32) | ((b[5] as bv64) << 40) | ((b[6] as bv64) << 48) | ((b[7] as bv64) << 56)
  }

  /** `to_le_bytes` loses nothing: the address is read back from its bytes. */
  lemma LeBytesRoundTrip(x: bv64)
    ensures |LeBytes(x)| == 8 && FromLeBytes(LeBytes(x)) == x
  {
  }

  /** The instruction bytes before the hook address. */
  const TRAMPOLINE_PREFIX: seq<bv8> := [0xff, 0x15, 0x04, 0x00, 0x00, 0x00, 0xeb, 0x0d, 0xeb, 0xf6]

  /** `cb_hook_buf`: `call [rip+4]`, `jmp +0x0d`, `jmp -0x0a`, the hook's
      address as a little-endian quadword, three `int3`. */
  function CbHookBuf(hook: bv64): (buf: seq<bv8>)
    ensures |buf| == 21
    ensures buf[..10] == TRAMPOLINE_PREFIX
    ensures FromLeBytes(buf[10..18]) == hook
    ensures buf[18..] == [0xcc, 0xcc, 0xcc]
  {
    var buf := TRAMPOLINE_PREFIX + LeBytes(hook) + [0xcc, 0xcc, 0xcc];
    assert buf[10..18] == LeBytes(hook);
    LeBytesRoundTrip(hook);
    buf
  }

  /** A signed 8-bit displacement. */
  function Rel8(b: bv8): int {
    if b < 0x80 then b as int else b as int - 0x100
  }

  /** A signed little-endian 32-bit displacement made of four bytes. */
  function Rel32(b0: bv8, b1: bv8, b2: bv8, b3: bv8): int {
    var u := b0 as int + 0x100 * b1 as int + 0x1_0000 * b2 as int + 0x100_0000 * b3 as int;
    if u < 0x8000_0000 then u else u - 0x1_0000_0000
  }

  /** The instructions of the trampoline reach where its layout says: the
      six-byte `call [rip+disp32]` at 0 reads its target from offset 10, the
      short jump at 6 (taken on return) leaves the 21 bytes, and the short
      jump at 8 goes back to the call. */
  lemma TrampolineTargets(hook: bv64)
    ensures var buf := CbHookBuf(hook);
      && buf[0] == 0xff && buf[1] == 0x15 && 6 + Rel32(buf[2], buf[3], buf[4], buf[5]) == 10
      && buf[6] == 0xeb && 8 + Rel8(buf[7]) == 21
      && buf[8] == 0xeb && 10 + Rel8(buf[9]) == 0
      && FromLeBytes(buf[10..18]) == hook
  {
  }
}
