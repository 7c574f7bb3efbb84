/** The animation-event hook of `src/hooks/tae.rs`: for the main player in
    first-person mode, the arguments of two event kinds are replaced by a
    copy with some angle limits set to zero, and the hooked `exec_one` sees
    the copy while the event's own argument pointer is put back afterwards.

    Pointers are addresses (`0` is null); memory is represented by the typed
    reads the hook performs; angles are integers or `f32` bit patterns. */
module Tae {

  import opened Wrappers
  import opened Machine

  /** An address; `NULL` is the null pointer. */
  type Addr = nat

  const NULL: Addr := 0

  /** `CSTaeAnimEventId`, with the two kinds the hook treats specially. */
  datatype EventId = SetBulletAimAngle | EnableTwistModifier | OtherEvent(id: int)

  /** `SetBulletAimAngleArgs`: the two dead-zone angles and the other fields. */
  datatype BulletAimArgs<R> = BulletAimArgs(upDeadzoneAngle: int, downDeadzoneAngle: int, rest: R)

  /** `EnableTwistModifierArgs`: the two minimum angles (as `f32` bits) and
      the other fields. */
  datatype TwistArgs<R> = TwistArgs(upMinimumAngle: F32, downMinimumAngle: F32, rest: R)

  /** `CSTaeAnimEventArgs`: the event id and the pointer to its arguments. */
  datatype EventArgs = EventArgs(eventId: EventId, args: Addr)

  /** `CSChrTaeAnimEvent`: only its owner is read. */
  datatype AnimEvent = AnimEvent(owner: Addr)

  /** The two typed reads through the argument pointer. */
  datatype Memory<R> = Memory(bulletAt: Addr -> BulletAimArgs<R>, twistAt: Addr -> TwistArgs<R>)

  /** `TaeArgsOverride`. */
  datatype ArgsOverride<R> = BulletAim(bullet: BulletAimArgs<R>) | Twist(twist: TwistArgs<R>)

  /** `override_tae_args`. There is no override unless the main player
      exists, owns the event, and the camera is in first person; nor when the
      argument pointer is null. For `SetBulletAimAngle` the override is the
      arguments with both dead-zone angles set to 0, for `EnableTwistModifier`
      the arguments with both minimum angles set to 0.0, and every other event
      has none. */
  function OverrideTaeArgs<R>(event: AnimEvent, args: EventArgs, mainPlayer: Option<Addr>,
                              firstPerson: bool, mem: Memory<R>)
    : (r: Option<ArgsOverride<R>>)
    ensures r.Some? ==> mainPlayer == Some(event.owner) && firstPerson && args.args != NULL
    ensures r.Some? ==> args.eventId in {SetBulletAimAngle, EnableTwistModifier}
    ensures mainPlayer == Some(event.owner) && firstPerson && args.args != NULL ==>
      (r.Some? <==> args.eventId in {SetBulletAimAngle, EnableTwistModifier})
    ensures r.Some? && args.eventId == SetBulletAimAngle ==>
      && r.value.BulletAim?
      && r.value.bullet.upDeadzoneAngle == 0 && r.value.bullet.downDeadzoneAngle == 0
      && r.value.bullet.rest == mem.bulletAt(args.args).rest
    ensures r.Some? && args.eventId == EnableTwistModifier ==>
      && r.value.Twist?
      && r.value.twist.upMinimumAngle == F32_ZERO && r.value.twist.downMinimumAngle == F32_ZERO
      && r.value.twist.rest == mem.twistAt(args.args).rest
  {
    match mainPlayer
    case None => None
    case Some(player) =>
      if event.owner != player || !firstPerson then None
      else if args.eventId == SetBulletAimAngle then
        if args.args == NULL then None
        else
          var a := mem.bulletAt(args.args);
          Some(BulletAim(a.(upDeadzoneAngle := 0, downDeadzoneAngle := 0)))
      else if args.eventId == EnableTwistModifier then
        if args.args == NULL then None
        else
          var a := mem.twistAt(args.args);
          Some(Twist(a.(upMinimumAngle := F32_ZERO, downMinimumAngle := F32_ZERO)))
      else None
  }

  /** An override differs from the arguments it was copied from in the two
      angles only: putting the original angles back gives the original. */
  lemma OverrideChangesOnlyAngles<R>(event: AnimEvent, args: EventArgs, mainPlayer: Option<Addr>,
                                     firstPerson: bool, mem: Memory<R>)
    ensures var r := OverrideTaeArgs(event, args, mainPlayer, firstPerson, mem);
      r.Some? ==> match r.value
        case BulletAim(b) =>
          var orig := mem.bulletAt(args.args);
          b.(upDeadzoneAngle := orig.upDeadzoneAngle, downDeadzoneAngle := orig.downDeadzoneAngle) == orig
        case Twist(t) =>
          var orig := mem.twistAt(args.args);
          t.(upMinimumAngle := orig.upMinimumAngle, downMinimumAngle := orig.downMinimumAngle) == orig
  {
  }

  /** Overriding is idempotent: the override of arguments that are already
      overridden is the same value. */
  lemma OverrideIdempotent<R>(event: AnimEvent, args: EventArgs, mainPlayer: Option<Addr>,
                              firstPerson: bool, mem: Memory<R>, at: Addr)
    requires at != NULL
    ensures var r := OverrideTaeArgs(event, args, mainPlayer, firstPerson, mem);
      r.Some? ==>
        var mem2 := match r.value
          case BulletAim(b) => mem.(bulletAt := _ => b)
          case Twist(t) => mem.(twistAt := _ => t);
        OverrideTaeArgs(event, args.(args := at), mainPlayer, firstPerson, mem2) == r
  {
  }

  /** What the hook does around the original `exec_one`: the arguments the
      original was called with, what the override (if any) holds, and the
      argument record after the hook returns. */
  datatype HookCall<R> = HookCall(seen: EventArgs, overrideSeen: Option<ArgsOverride<R>>, after: EventArgs)

  /** The `exec_one` hook. The override, if there is one, lives at
      `overrideAddr` (the hook's stack slot) and the original is called with
      the argument pointer redirected there; `original` gives the argument
      record as the original leaves it. Whatever the original does to it,
      the argument pointer is restored on return. */
  function HookTae<R>(event: AnimEvent, args: EventArgs, mainPlayer: Option<Addr>, firstPerson: bool,
                      mem: Memory<R>, overrideAddr: Addr, original: EventArgs -> EventArgs)
    : (r: HookCall<R>)
    ensures r.overrideSeen == OverrideTaeArgs(event, args, mainPlayer, firstPerson, mem)
    ensures r.seen.eventId == args.eventId
    ensures r.seen.args == (if r.overrideSeen.Some? then overrideAddr else args.args)
    ensures r.after.args == args.args
    ensures r.after.eventId == original(r.seen).eventId
  {
    var argsOriginal := args.args;
    var argsOverride := OverrideTaeArgs(event, args, mainPlayer, firstPerson, mem);
    var seen := if argsOverride.Some? then args.(args := overrideAddr) else args;
    var afterOriginal := original(seen);
    HookCall(seen, argsOverride, afterOriginal.(args := argsOriginal))
  }

  /** Without an override the hook is transparent: the original sees the
      event's own arguments, and an original that leaves the argument pointer
      alone gives the same record as an unhooked call. */
  lemma HookTransparentWithoutOverride<R>(event: AnimEvent, args: EventArgs, mainPlayer: Option<Addr>,
                                          firstPerson: bool, mem: Memory<R>, overrideAddr: Addr,
                                          original: EventArgs -> EventArgs)
    requires OverrideTaeArgs(event, args, mainPlayer, firstPerson, mem).None?
    requires original(args).args == args.args
    ensures HookTae(event, args, mainPlayer, firstPerson, mem, overrideAddr, original).seen == args
    ensures HookTae(event, args, mainPlayer, firstPerson, mem, overrideAddr, original).after == original(args)
  {
  }

  /** Events of other actors, and every event outside first person, reach
      the original unchanged. */
  lemma OtherOwnersUntouched<R>(event: AnimEvent, args: EventArgs, mainPlayer: Option<Addr>,
                                firstPerson: bool, mem: Memory<R>, overrideAddr: Addr,
                                original: EventArgs -> EventArgs)
    requires mainPlayer != Some(event.owner) || !firstPerson
    ensures HookTae(event, args, mainPlayer, firstPerson, mem, overrideAddr, original).seen == args
    ensures HookTae(event, args, mainPlayer, firstPerson, mem, overrideAddr, original).overrideSeen == None
  {
  }
}
