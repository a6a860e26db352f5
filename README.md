# Aura player controller: cursor-hover highlighting

This project models the hover-highlight state machine of `AAuraPlayerController`, the
player controller of the Aura action-RPG. Every frame the engine calls `PlayerTick`,
which calls `CursorTrace`. `CursorTrace` line-traces under the mouse cursor. If the
trace has a blocking hit, it shifts `CurrentHoveredActor` into `LastHoveredActor`,
stores the newly hovered enemy, and calls `HighlightActor` / `UnHighlightActor` on the
enemies involved, following a five-case table (A to E).

- `Wrappers.dfy`: `Option`, which stands for the nullable enemy handles.
- `CursorHover.dfy`: the behaviour on values. `Notifications` gives the calls for a move
  of the hover target. `Tick` is one `CursorTrace`. `Trace` is a run of frames. `Replay`
  checks a list of calls against the set of highlighted enemies, and it fails on a
  redundant call.
- `AuraPlayerController.dfy`: the class `PlayerController`. It has the two hover fields
  and a ghost log of the highlight calls. `CursorTrace` follows the source's nested
  `if`s. `PlayerTicks` runs one `CursorTrace` per frame. Its invariant `Valid()` says
  that the calls made so far were never redundant and that they leave exactly the
  hovered enemy highlighted. `ExampleSession` is a client run: floor, enemy 1,
  enemy 1, enemy 2, and two misses.

Enemy handles are compared by identity only (`ActorId`, a natural number standing for
the enemy's identity). The source compares the two handles by identity (`==`, `!=`
and against `nullptr`) and never checks that an enemy is still alive. A weak
reference with a liveness check would be safer, but the source has none, so the
model has none either.

The comment in the source labels the fifth case "C". It is case E. The code itself
handles all five cases as the table describes.

## Model

| member | source | states |
|---|---|---|
| AuraPlayerController.PlayerController.CursorTrace | Source/Aura/Private/Player/AuraPlayerController.cpp:63-111 | Without a blocking hit, the fields and the calls stay the same. With one, last becomes the old current, current becomes the resolved target, and the calls made are `Notifications(old current, target)`. The invariant "exactly the hovered enemy is highlighted, no redundant call" is kept. |
| AuraPlayerController.PlayerController.PlayerTicks | Source/Aura/Private/Player/AuraPlayerController.cpp:40-45 | Running one CursorTrace per frame leaves the state and the calls of `Trace` over the frames' trace results, and it keeps the invariant. |
| CursorHover.Notifications | Source/Aura/Private/Player/AuraPlayerController.cpp:86-110 | At most two calls. No call exactly when last equals current. A highlight happens exactly for the new current, when it is non-null and differs from last. An unhighlight happens exactly for last, when it is non-null and differs from current. With two calls, the unhighlight comes first. |
| CursorHover.CaseTable | Source/Aura/Private/Player/AuraPlayerController.cpp:72-84 | Cases A to E: both null gives nothing; B gives highlight(current); C gives unhighlight(last); D gives unhighlight(last) then highlight(current); E (same enemy) gives nothing. |
| CursorHover.TickKeepsHighlightInStep | Source/Aura/Private/Player/AuraPlayerController.cpp:69-110 | If exactly the current enemy was highlighted, one tick makes no redundant call and leaves exactly the new current enemy highlighted. |
| CursorHover.TraceKeepsHighlightInStep | Source/Aura/Private/Player/AuraPlayerController.cpp:63-111 | Over any run of ticks, the calls are never redundant, and afterwards exactly the hovered enemy is highlighted. |
| CursorHover.MissesChangeNothing | Source/Aura/Private/Player/AuraPlayerController.cpp:67 | Traces without a blocking hit leave the hover state unchanged and make no call. |
| CursorHover.OnlyBlockingHitsMatter | Source/Aura/Private/Player/AuraPlayerController.cpp:67-70 | A run gives the same state and calls as the same run with its missed traces dropped. |
| CursorHover.BlockingAllBlocking | Source/Aura/Private/Player/AuraPlayerController.cpp:67-70 | Turning a list of hover targets into blocking hits and then keeping only the blocking hits gives the same targets back, so the run that `OnlyBlockingHitsMatter` compares against has exactly the blocking hits of the original run, in order. |
| CursorHover.SameTargetAgainIsSilent | Source/Aura/Private/Player/AuraPlayerController.cpp:69-110 | A blocking hit on t, then any misses, then another hit on t: the second hit makes no call and leaves t both last and current. |

## Left out

- The constructor's replication flag (`AuraPlayerController.cpp:10`). It is an engine networking setting. The model's constructor only sets up the two handles as null, which is the engine's default for the fields.
- `BeginPlay` and `SetupInputComponent`. They register the input mapping context, configure the mouse cursor and input mode, and bind the move action. This is all engine glue.
- `Move`. It does floating-point rotation math and calls the pawn's `AddMovementInput`.
- The engine's line trace under the cursor (`GetHitResultUnderCursor`) and the conversion of the hit actor to an enemy handle. Their outcome is the `hit` argument: `None` means no blocking hit, and `Some(t)` means a hit whose enemy handle is `t`, which may be null.
- The effect of `HighlightActor` / `UnHighlightActor` on the enemy. These are defined outside this file. The calls are only recorded, in order, in a ghost log.
- `PlayerTick`'s call to the parent class's tick, and its `DeltaTime` argument. The frame loop itself is run by the engine. `PlayerTicks` stands for a sequence of frames.
