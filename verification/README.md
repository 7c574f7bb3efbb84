# erfps2 core logic in Dafny

erfps2 is a first-person camera mod for Elden Ring, shipped as a Windows DLL. Most of it is hooking and FFI glue. This project models the five pieces of sequential logic inside it and proves properties about each one:

- **Time** (`time.dfy`): the signed-duration codec of `src/config/updater/time.rs`.
  - A `SignedDuration` is a `(secs: u64, nanos: i32)` pair, and the sign of `nanos` carries the sign of the value.
  - The pair is packed into a `u128`.
  - Three cells are built on the codec: `SignedAtomicDuration`, `AtomicDuration`, and `AtomicInstant`. An `AtomicInstant` stores an instant as an offset from a reference instant.
- **Updater** (`updater.dfy`): the `ConfigUpdater` of `src/config/updater.rs`.
  - It locates `erfps2.toml` next to the module.
  - It reads and parses the file.
  - It re-reads the file when its modification time changes. As written, it queries the file's metadata on every call made more than 100 ms after construction (see Findings).
- **Shaders** (`shaders.dfy`): the shader switches of `src/shaders.rs`.
  - The `SHADER_FLAGS` bit word.
  - The packed `SHADER_PARAMS` word.
  - The dithering switch and its hook.
  - The pixel-shader substitution.
  - The 21-byte constant-buffer trampoline.
- **Raycast** (`raycast.dfy`): parts of `src/raycast.rs`.
  - Body-id decoding.
  - The custom hit collector, which puts a user predicate in front of the engine's closest-hit filter.
  - The choice of the cast result.
  - The cast parameter record.
- **Tae** (`tae.dfy`): the animation-event hook of `src/hooks/tae.rs`.
  - For the main player in first person, the hook zeroes the angle limits of two event kinds.
  - It redirects the argument pointer for the original call and restores the pointer afterwards.

`wrappers.dfy` holds Rust's `Option` and `Result`. `machine.dfy` holds the fixed-width integer types and the `f32` bit-pattern constants that the other modules share.

Modelling conventions:

- Atomics are plain sequential values: a store returns the new cell.
- On Windows the standard library's `Instant` wraps a `Duration`, so an `Instant` is a nanosecond count below 2^64 · 10^9.
- The `u128` codec works on integers. `secs | bits << 64` is written as `secs + bits * 2^64`; the two are equal because `secs < 2^64`.
- The shader's `u32` and `u64` words are sequences of bits, least significant first.
- The trampoline's bytes and address are `bv8` and `bv64`.
- Floating-point values are `f32` bit patterns. Results of float operations, such as `strength > 0.05`, `tan` and `recip`, are inputs.
- The file system, the TOML parser, the Windows module queries and the clock are parameters.

Three facts about the updater code that the model keeps:

- `get_or_update` returns a metadata error to its caller (`?`, `src/config/updater.rs:60`).
- A failed re-read replaces the configuration with the error (`src/config/updater.rs:63`).
- `last_update` is a plain `Instant`, set only in `new` (`src/config/updater.rs:44`).

## Model

| member | source | states |
|---|---|---|
| Time.FromDurationAndSign | src/config/updater/time.rs:76-86 | The result is valid, keeps `secs`, and has `\|nanos\|` equal to the sub-second part. Its value is +d for `Pos`, and −d for `Neg` with a non-zero sub-second part. A whole-second `Neg` value comes out as +d. |
| Time.FromDuration | src/config/updater/time.rs:141-145 | A `Duration` converts with `nanos` in [0, 10^9), and taking it apart gives back the duration with sign `Pos`. |
| Time.IntoDurationAndSign | src/config/updater/time.rs:100-115 | The magnitude is `Duration(secs, \|nanos\|)`. The sign is `Neg` iff `nanos < 0`, and the signed value equals ± the magnitude. Requires `\|nanos\| < 10^9`, the fact the source asserts without checking. |
| Time.DurationAndSignRoundTrip | src/config/updater/time.rs:76-115 | Splitting after building gives back `(dur, sign)` iff the sign is `Pos` or the sub-second part is non-zero; a whole-second `Neg` comes back `Pos`. |
| Time.DurationAndSignSplitJoin | src/config/updater/time.rs:76-115 | Every valid signed duration is rebuilt exactly from its magnitude and sign. |
| Time.FromInstantDifference | src/config/updater/time.rs:88-98 | The magnitude is `\|lhs − rhs\|` and the sign of `nanos` follows the order of the instants. The value equals `lhs − rhs` iff `rhs ≤ lhs` or the difference is not a whole number of seconds. |
| Time.DifferenceAntisymmetric | src/config/updater/time.rs:88-98 | Swapping the instants keeps `secs` and negates `nanos`. |
| Time.AddToInstantUnchecked | src/config/updater/time.rs:133-138 | The result is `lhs` moved by the signed value. It is defined when the sum stays in range, as the source's safety contract demands. |
| Time.NanosFromBits | src/config/updater/time.rs:126 | `u32::cast_signed` inverts `i32::cast_unsigned`. |
| Time.NanosBitsRoundTrip | src/config/updater/time.rs:117-128 | Reinterpreting `nanos` as `u32` and back is lossless. |
| Time.IntoU128 | src/config/updater/time.rs:117-119 | `secs` occupies bits 0..63, the two's-complement bits of `nanos` occupy bits 64..95, and bits 96..127 are zero. |
| Time.FromU128 | src/config/updater/time.rs:124-128 | `secs` comes from the low 64 bits; `nanos` comes from bits 64..95, reinterpreted as signed. |
| Time.CodecRoundTrip | src/config/updater/time.rs:117-128 | `from_u128(into_u128(x)) == x` for every `SignedDuration`. |
| Time.CodecRoundTripBits | src/config/updater/time.rs:117-128 | Re-encoding a decoded word gives back every word whose bits 96..127 are clear. |
| Time.NewSignedCell | src/config/updater/time.rs:59-68 | A new cell loads the signed duration it was made with. |
| Time.LoadSigned | src/config/updater/time.rs:64-68 | A load decodes the word: `secs` is its low 64 bits and `nanos` the signed reading of bits 64..95. Every word whose bits 96..127 are clear is exactly the encoding of what the load returns. |
| Time.StoreSigned | src/config/updater/time.rs:64-72 | After a store, a load returns the stored value, and bits 96..127 of the word are clear. |
| Time.LoadDuration | src/config/updater/time.rs:32-34 | `AtomicDuration::load` returns the magnitude of the stored signed duration: the same whole seconds, and a length in nanoseconds equal to the absolute value of the signed count. |
| Time.NewDurationCell | src/config/updater/time.rs:27-34 | A new `AtomicDuration` loads the duration it was made with. |
| Time.StoreDuration | src/config/updater/time.rs:32-38 | Store then load on an `AtomicDuration` returns the stored duration exactly. |
| Time.LoadInstant | src/config/updater/time.rs:46-51 | The load is the reference instant moved by the stored signed offset. |
| Time.NewInstantCell | src/config/updater/time.rs:41-44 | A new `AtomicInstant` starts at the zero offset and loads as its reference instant. |
| Time.StoreInstant | src/config/updater/time.rs:46-56 | Store then load returns the stored instant iff it is not before the reference, or lies a non-whole number of seconds before it. The reference is kept. |
| Time.StoreInstantMirrorsWholeSeconds | src/config/updater/time.rs:81-83 | Storing an instant a whole number of seconds before the reference loads its mirror image `2·ref − i`. |
| Time.StoreInstantOneSecondBehind | src/config/updater/time.rs:81-83 | With the reference at 2 s, storing 1 s loads 3 s. |
| Time.FixedDurationAndSignRoundTrip | src/config/updater/time.rs:76-115 | With `Neg` stored as the complement `−n − 1`, splitting after building always gives back `(dur, sign)`. |
| Time.FromInstantDifferenceFixed | src/config/updater/time.rs:88-98 | The complement-encoded difference denotes exactly `lhs − rhs`. |
| Time.LoadInstantFixed | src/config/updater/time.rs:46-51 | Under the complement encoding, the load is the reference moved by the stored offset. |
| Time.StoreInstantFixed | src/config/updater/time.rs:46-56 | Under the complement encoding, store then load returns every stored instant exactly. |
| Updater.CurrentModulePath | src/config/updater.rs:86-114 | A failing module-handle query is passed on. A reported length of 0 or 32767 is an error carrying the thread's last error. Any other length truncates the buffer to exactly `len` units. |
| Updater.DirLength | src/config/updater.rs:36-40 | The directory part ends at the path's last separator and contains no later separator. |
| Updater.SetFileNameKeepsDirectory | src/config/updater.rs:36-40 | Replacing the file name keeps the directory prefix, and the new last component is exactly the given name. |
| Updater.ReadConfig | src/config/updater.rs:71-79 | The result is `Ok` iff both the read and the parse succeed. A read error is returned as is. A parse error becomes `io::Error::other`, never a partial config. |
| Updater.NewUpdater | src/config/updater.rs:35-56 | Construction fails iff the module path fails. On success, the path is `erfps2.toml` in the module's directory. The config is that file's read result, `last_update` is now, and `last_timestamp` is the modification time if a later metadata query could read it. The read and the query see separate file-system states. |
| Updater.EditDuringConstructionIsNeverRead | src/config/updater.rs:42-65 | An edit landing between the read in `new` and its metadata query is never read. The updater keeps the old contents with the new time, and a later call that sees that time returns the old contents. |
| Updater.ElapsedMillis | src/config/updater.rs:59 | The elapsed whole milliseconds are `(now − since) / 10^6`, and zero when `now` is earlier. |
| Updater.PollDueAfter101Millis | src/config/updater.rs:59 | A poll is due exactly when at least 101 ms have passed since `last_update`. |
| Updater.GetOrUpdate | src/config/updater.rs:58-69 | `config_path` and `last_update` never change. Before the interval: no change, and the cached config is returned. A metadata error: that error is returned and the state is unchanged. An unchanged time: no re-read. Otherwise the config becomes the re-read result, errors included, and `last_timestamp` becomes the new time. Otherwise the result is the stored config. |
| Updater.FastPathIgnoresFileSystem | src/config/updater.rs:59 | Within 100 ms the outcome does not depend on the file system. |
| Updater.UnchangedFileIsNotReread | src/config/updater.rs:60-65 | A poll that sees the modification time of the previous poll leaves the state as it was, whatever the file now holds. |
| Updater.RunAsWritten | src/config/updater.rs:58-69 | Over a series of calls, the path and `last_update` stay fixed, and at most one query is made per call. |
| Updater.AsWrittenPollsEveryCall | src/config/updater.rs:58-69 | Every call made more than 100 ms after construction queries the metadata. |
| Updater.AsWrittenPollsTwiceInOneMillisecond | src/config/updater.rs:58-69 | Calls at 200 ms and 201 ms both query. |
| Updater.GetOrUpdateThrottled | src/config/updater.rs:58-69 | Like `get_or_update`, except that a due poll also records `now` as `last_update`. |
| Updater.RunThrottled | src/config/updater.rs:58-69 | With the poll time recorded, the path stays fixed over a series of calls, and at most one query is made per call. |
| Updater.ThrottledQuietWithinInterval | src/config/updater.rs:59 | Calls that are not due query nothing and change nothing. |
| Updater.ThrottledPollsAtMostOncePerInterval | src/config/updater.rs:58-69 | With the poll time recorded, ordered calls within one 100 ms window query the metadata at most once. |
| Shaders.SetShaderFlag | src/shaders.rs:149-155 | Bit `pos` becomes `state`, every other bit keeps its value, and the previous word is returned. |
| Shaders.SetShaderFlagIdempotent | src/shaders.rs:149-155 | Setting a bit to the value it has changes nothing, and a repeated call is a no-op. |
| Shaders.SetShaderFlagCommutes | src/shaders.rs:149-155 | Updates of two different bits commute. |
| Shaders.PackParamsRoundTrip | src/shaders.rs:76-81 | The strength bits sit in the low 32 bits and the width-ratio bits in the high 32 bits. Each half reads back as written, and every word is the packing of its halves. |
| Shaders.EnableFovCorrection | src/shaders.rs:70-82 | Bit 0 becomes `state && strength > 0.05` and bit 2 becomes `use_barrel`; other bits are kept. The parameter word is written with both halves iff the effective state holds. Dithering is untouched. |
| Shaders.EnableFovCorrectionIdempotent | src/shaders.rs:70-82 | Applying the same field-of-view settings twice is the same as once. |
| Shaders.EnableCrosshair | src/shaders.rs:84-86 | Only bit 1 changes, and it becomes `state`. |
| Shaders.EnableDithering | src/shaders.rs:145-147 | Only the dithering switch changes. |
| Shaders.CrosshairAndFovCommute | src/shaders.rs:70-86 | The crosshair and field-of-view settings commute. |
| Shaders.UsesDitheringHook | src/shaders.rs:57 | The original is called iff dithering is on, and the answer is `dithering && original`. |
| Shaders.DitheringSwitchControlsHook | src/shaders.rs:143-147 | After `enable_dithering(false)` the hook answers false without calling the original. After `enable_dithering(true)` it passes the original's answer through. At load time dithering is on. |
| Shaders.AddPixelShaderHook | src/shaders.rs:33-43 | The blob and length are replaced by the embedded shader iff the name decodes to `ToneMap_PostOETFPS`; otherwise they pass through unchanged. |
| Shaders.LeBytesRoundTrip | src/shaders.rs:119-120 | The eight little-endian bytes give the address back. |
| Shaders.CbHookBuf | src/shaders.rs:118-125 | The buffer is 21 bytes: the fixed instruction prefix at 0..9, the little-endian hook address at 10..17, and `int3` at 18..20. |
| Shaders.TrampolineTargets | src/shaders.rs:112-125 | The `call [rip+4]` at 0 reads its target at offset 10, the jump at 6 lands at 0x15, and the jump at 8 lands at 0. |
| Raycast.Index | src/raycast.rs:282-285 | `None` iff the low 24 bits are `0xffffff`; otherwise the index is those bits, which are below `0xffffff`. |
| Raycast.IndexIgnoresTopByte | src/raycast.rs:283-284 | The top byte never affects the index, and an id built from an index below `0xffffff` and any top byte decodes to that index. |
| Raycast.CustomFilter | src/raycast.rs:246-258 | An accepted hit goes to the original filter. A rejected hit leaves the collector untouched. |
| Raycast.CustomFilterSeesOnlyAccepted | src/raycast.rs:246-258 | Over any series of hits, the custom collector ends in the state the original collector reaches from the accepted hits alone. |
| Raycast.AcceptAllIsTransparent | src/raycast.rs:246-258 | A predicate that accepts everything leaves the collector's behaviour unchanged. |
| Raycast.CastResult | src/raycast.rs:67 | The result is `Some(hit)` iff `is_hit != 0`. |
| Raycast.CastShape | src/raycast.rs:42-67 | No Havok manager gives `None`. Otherwise the result is the closest-hit collector's result over the accepted hits. |
| Raycast.RejectAllMisses | src/raycast.rs:42-67 | When the predicate rejects every hit and the collector starts empty, the cast reports no hit. |
| Raycast.RcpComponent | src/raycast.rs:175-178 | A zero direction component (either sign of zero) has reciprocal `f32::MAX`; any other component has its `recip`. |
| Raycast.CastRay | src/raycast.rs:174-201 | No shape. The engine pointers and the filter are passed through. Origin and direction are extended with w = 1. The reciprocals follow the zero rule. |
| Raycast.CastShapeParams | src/raycast.rs:203-214 | The shape is `Some(shape)`, and forgetting it gives exactly the `cast_ray` parameters. |
| Tae.OverrideTaeArgs | src/hooks/tae.rs:44-76 | No override unless the main player exists, owns the event, the camera is in first person, and the argument pointer is non-null. Under those conditions, an override exists iff the event is `SetBulletAimAngle` or `EnableTwistModifier`. The override has the two dead-zone angles or the two minimum angles set to 0 and the rest copied. |
| Tae.OverrideChangesOnlyAngles | src/hooks/tae.rs:54-72 | Putting the original angles back into an override gives the original arguments. |
| Tae.OverrideIdempotent | src/hooks/tae.rs:54-72 | Overriding arguments that are already overridden gives the same override. |
| Tae.HookTae | src/hooks/tae.rs:22-37 | The original sees the override's address iff there is an override, and the event's own pointer otherwise. The argument pointer is always restored afterwards. |
| Tae.HookTransparentWithoutOverride | src/hooks/tae.rs:26-35 | Without an override, the hook is an unhooked call for any original that leaves the pointer alone. |
| Tae.OtherOwnersUntouched | src/hooks/tae.rs:48-53 | Events of other actors, and all events outside first person, reach the original unchanged. |

## Left out

- The results of `GetModuleHandleExW` and `GetModuleFileNameW` are parameters of `Updater.CurrentModulePath`.
- `hook_shader_cb` is left out, because it patches game memory: its `VirtualProtect` call, the `?` on that call's error (`src/shaders.rs:135`) and the write of the trampoline (`src/shaders.rs:137`). Only the buffer it writes is modelled (`Shaders.CbHookBuf`).
- File-system metadata, file reads and TOML deserialisation are outside the model; they are parameters. `report_toml_error` only logs, so it is left out.
- Hook installation (`HookInstaller`, `hook`) and `derva`/`derva_ptr` address resolution are binary patching.
- The naked-asm callback `fisheye_distortion_cb_hook` is left out: it is machine code that the game's code reaches through the trampoline.
- Memory orderings and cross-thread behaviour of the atomics are left out: each cell is a sequential value.
- Float math is left out: `tan`, `to_bits`, `recip` and the 0.05 comparison are inputs.
- `cast_sphere` and `hknpSphereShape::new` call into the Havok engine. `hknpHit::field_ins` dereferences engine pointers.
- `src/core/world.rs`, `src/lib.rs` and `src/game.rs` are not part of this model. They hold singleton plumbing, `DllMain` and thread spawning, and a single enum comparison.
- Raycast.CastShape: the Havok cast is represented by the series of hits the engine reports to `filter`, and the engine's closest-hit filter is a function parameter. What that filter keeps is not modelled.
- Raycast.CustomFilter: the construction of the replacement vtable in `CustomHitCollector::new` is represented by passing the original filter to `CustomFilter`.
- Shaders.SetShaderFlag: `pos` is restricted to bit positions below 32. A larger `pos` is a shift overflow in Rust: a panic in debug builds, `pos % 32` in release builds. The callers pass only 0, 1 and 2.
- Updater.SetFileNameKeepsDirectory: `PathBuf::set_file_name` is modelled for a path that names a file. Root paths, prefixes and `..` are not distinguished. The standard library pops the last component and pushes the new one, which normalises the join: trailing separators and `.` components are dropped and one `\` is inserted. The model keeps the directory prefix unit for unit, so the separator before the name and any repeated separators or `.` components stay as found. Both spellings name the same file on Windows.
- Updater.GetOrUpdate: one file-system state answers both the metadata query and the re-read of a call. The query comes first, so an edit between the two is seen by the next due poll.
- Updater.GetOrUpdate: the configuration is returned by value. The source returns a reference or a cloned `Arc<io::Error>`, which is the same value.
- Tae.HookTae: what the original `exec_one` does is represented only by the argument record it leaves behind.

## Findings

| source | as written | input that shows it | evidently intended | confidence | as-written member | corrected member |
|---|---|---|---|---|---|---|
| src/config/updater/time.rs:81-83 | `Neg` stores `nanos: -nanos`, and `-0 == 0` reads back as `Pos` (line 112). | In an `AtomicInstant` with reference 2 s, store the instant 1 s; the load gives 3 s. | Every stored instant loads back, including whole seconds before the reference. | high, not executed | Time.StoreInstantMirrorsWholeSeconds | Time.StoreInstantFixed |
| src/config/updater.rs:58-69 | `last_update` is set in `new` and never refreshed. | A construction at 0 ms followed by calls at 200 ms and 201 ms; both calls query the file's metadata. | At most one metadata query per 100 ms interval. | medium, not executed | Updater.AsWrittenPollsTwiceInOneMillisecond | Updater.ThrottledPollsAtMostOncePerInterval |
