# EchoFix self-echo suppression, modelled in Dafny

EchoFix is a Minestom library that stops a server from echoing a player's
own predicted state back to that player (crouching, sprinting, pose, elytra
start, attribute updates). The echo would make the client stutter for one
tick. Two classes make up its core, and this project models both:

- `SelfMetaFilter` (module `MetaFilter`, file `meta_filter.dfy`) is the
  redaction policy. It holds four things:
  - a set of metadata indices to drop entirely;
  - a map from index to a bit mask, where only the server-owned bits of the
    flag byte survive;
  - two switches, for attribute packets and for the elytra-stop transition.

  Its `filter` returns null ("send the original") or a redacted copy. The
  class keeps its fields and builder methods. `Filter` is a loop over the
  key set, proved equal to the pure function `Filtered`, and the filter's
  properties are lemmas about `Filtered`.
- `EchoFixPlayer` (module `EchoFix`, file `echo_fix_player.dfy`) is the
  player object.
  - It holds the two scope flags `echoingSelfInput` and `serverForced`, a
    nullable filter, and the wrappers around the framework setters.
  - Its splitter `sendPacketToViewersAndSelf` sends the original to the
    viewers and, in echo scope, a filtered copy (or nothing) to the player.
  - The framework's sends are appends to two logs: `selfLog` for packets to
    the player and `viewerLog` for packets to the viewers.
  - A framework setter (`super.setSneaking` and the like) is the sequence of
    packets it broadcasts through `SendPacketToViewersAndSelf`.
  - The `Runnable` given to `forceMetadata` is a sequence of calls on the
    player, plus whether it ends by throwing.

A Java null is `None` of `Option`. A metadata value is a flag byte (`bv8`)
or an opaque value. Java's `(byte)(flags & ~mask)` is `flags & !mask` on `bv8`.

Points where the model follows behaviour of the code that is easy to miss:
- **Bit rule first.** For a byte value the bit rule is tried before the
  full-drop rule, so bit-drop wins when an index is configured both ways.
- **A matched bit rule always gives a copy**, even when no bit is cleared.
- **The setters reset, not restore.** `setSneaking`, `setSprinting`,
  `setFlyingWithElytra` and `refreshActiveHand` set `echoingSelfInput` back
  to `false` when the delegate returns, not to its earlier value, and they
  have no `finally`.
- **The splitter ignores `serverForced`.** Forcing only keeps the setters
  from opening a scope. `forceMetadata` is documented as executing "a
  metadata change that bypasses the filter" (EchoFixPlayer.java:94). That
  holds for an action that starts outside an echo scope
  (`EchoFix.ForcedFromIdleUnfiltered`). An action that starts with
  `echoingSelfInput` already set is still filtered
  (`EchoFix.ForcedInsideScopeStillFiltered`).

## Model

| member | source | states |
|---|---|---|
| MetaFilter.SelfMetaFilter.constructor | src/main/java/io/github/term4/echofix/SelfMetaFilter.java:35-46 | a new filter has no suppressed index, no mask, and both switches false |
| MetaFilter.SelfMetaFilter.SuppressIndex | src/main/java/io/github/term4/echofix/SelfMetaFilter.java:59-62 | adds the index to the suppressed set, changes nothing else, returns the same object |
| MetaFilter.SelfMetaFilter.SuppressBit | src/main/java/io/github/term4/echofix/SelfMetaFilter.java:75-80 | ORs the mask into the mask already registered at the index (0 when none), leaves every other index and field alone, returns the same object |
| MetaFilter.SelfMetaFilter.SuppressAttributes | src/main/java/io/github/term4/echofix/SelfMetaFilter.java:93-96 | sets the attribute switch, which its getter then returns; nothing else changes; returns the same object |
| MetaFilter.SelfMetaFilter.FilterElytraStop | src/main/java/io/github/term4/echofix/SelfMetaFilter.java:104-107 | sets the elytra-stop switch, which its getter then returns; nothing else changes; returns the same object |
| MetaFilter.WithIndex | src/main/java/io/github/term4/echofix/SelfMetaFilter.java:59-62 | the configuration after suppressIndex: the set grows by the index, masks and switches are unchanged |
| MetaFilter.WithBit | src/main/java/io/github/term4/echofix/SelfMetaFilter.java:75-80 | the configuration after suppressBit: the key set grows by the index, the index's mask is the old mask OR the new one, other masks, indices and switches are unchanged |
| MetaFilter.MasksAccumulate | src/main/java/io/github/term4/echofix/SelfMetaFilter.java:75-80 | two masks registered at one index give the same configuration in either order, with the mask equal to the old one OR both |
| MetaFilter.SelfMetaFilter.Filter | src/main/java/io/github/term4/echofix/SelfMetaFilter.java:136-168 | the loop with its lazy copy and put/remove returns exactly the specification `Filtered` of the current configuration |
| MetaFilter.NullIffNoMatch | src/main/java/io/github/term4/echofix/SelfMetaFilter.java:136-167 | the result is null if and only if no entry has a masked index with a byte value and no entry has a fully suppressed index |
| MetaFilter.MaskedByte | src/main/java/io/github/term4/echofix/SelfMetaFilter.java:144-155 | a byte at a masked index gives a copy in which the index maps to `flags & ~mask` when that is non-zero and is absent otherwise; it is never present with value 0 |
| MetaFilter.SuppressedIndexDropped | src/main/java/io/github/term4/echofix/SelfMetaFilter.java:158-164 | a fully suppressed index gives a copy without that index, unless the bit rule applies to it |
| MetaFilter.BitRuleFirst | src/main/java/io/github/term4/echofix/SelfMetaFilter.java:144-164 | at a masked index, a byte is decided by its mask alone even when the index is also fully suppressed; a non-byte falls through to the index rule and passes unchanged when that rule does not fire |
| MetaFilter.MatchedMaskAlwaysCopies | src/main/java/io/github/term4/echofix/SelfMetaFilter.java:145-150 | with the default filter, {0: 0x10} gives a non-null copy {0: 0x10} even though no bit was cleared |
| MetaFilter.UntouchedEntries | src/main/java/io/github/term4/echofix/SelfMetaFilter.java:140-165 | entries matching no rule are in the effective output with identical values, and the output has no key the input lacks |
| MetaFilter.EffectiveIsClean | src/main/java/io/github/term4/echofix/SelfMetaFilter.java:146-164 | every entry of the effective output survives the rules and is left unchanged by them |
| MetaFilter.CleanIsFixed | src/main/java/io/github/term4/echofix/SelfMetaFilter.java:136-167 | an entry map that no rule would change is its own effective output |
| MetaFilter.FilterIdempotent | src/main/java/io/github/term4/echofix/SelfMetaFilter.java:146-164 | filtering the effective output again yields the same map |
| MetaFilter.DefaultPlayerFilter | src/main/java/io/github/term4/echofix/SelfMetaFilter.java:186-193 | builds a fresh filter with mask 0x02 \| 0x08 at index 0, POSE and LIVING_ENTITY_FLAGS fully dropped, attribute echoes suppressed, elytra stop not filtered |
| MetaFilter.DefaultKeepsServerBits | src/main/java/io/github/term4/echofix/SelfMetaFilter.java:186-193 | the default filter turns {0: 0x12} into {0: 0x10}, so the on-fire bit survives |
| MetaFilter.DefaultCrouchOnlyIsEmpty | src/main/java/io/github/term4/echofix/SelfMetaFilter.java:186-193 | the default filter turns {0: 0x02} into an empty, non-null map |
| EchoFix.EchoFixPlayer.constructor | src/main/java/io/github/term4/echofix/EchoFixPlayer.java:59-62 | a new player has a fresh default filter attached, both flags false and nothing sent |
| EchoFix.EchoFixPlayer.SetSelfMetadataFilter | src/main/java/io/github/term4/echofix/EchoFixPlayer.java:80-91 | the getter returns the filter just set, null included |
| EchoFix.EchoFixPlayer.ForceMetadata | src/main/java/io/github/term4/echofix/EchoFixPlayer.java:107-114 | the action runs with serverForced set; afterwards serverForced is false whether or not the action throws, and the exception is passed on; the echo flag is unchanged, so a player idle before is idle after; the viewers get every packet the action broadcasts, and the player gets them routed under the echo flag the action started with |
| EchoFix.EchoFixPlayer.RunForced | src/main/java/io/github/term4/echofix/EchoFixPlayer.java:108-113 | the action's calls, run one after another while serverForced is set, leave the echo flag alone and append their broadcasts to the viewer log and their routed stream to the player's log |
| EchoFix.EchoFixPlayer.Perform | src/main/java/io/github/term4/echofix/EchoFixPlayer.java:110 | one call of the action opens an echo scope exactly when that entry point would; the echo flag is reset afterwards when a scope was opened and is otherwise unchanged |
| EchoFix.ForcedCallUnscoped | src/main/java/io/github/term4/echofix/EchoFixPlayer.java:118-166 | while serverForced is set, no wrapper opens an echo scope |
| EchoFix.ForcedFromIdleUnfiltered | src/main/java/io/github/term4/echofix/EchoFixPlayer.java:107-114 | an action forced from outside any echo scope delivers every broadcast to the player unchanged |
| EchoFix.ForcedInsideScopeStillFiltered | src/main/java/io/github/term4/echofix/EchoFixPlayer.java:170-171 | a crouch-only update from a forced action that starts in echo scope still never reaches the player under the default filter, because the splitter does not look at serverForced |
| EchoFix.EchoFixPlayer.SetSneaking | src/main/java/io/github/term4/echofix/EchoFixPlayer.java:118-126 | when not forced, the delegate's packets are routed in echo scope and the flag ends false (reset, not restored); when forced, they are routed under the unchanged flag; the viewers get every packet; a player idle before is idle after |
| EchoFix.EchoFixPlayer.SetSprinting | src/main/java/io/github/term4/echofix/EchoFixPlayer.java:129-137 | as for setSneaking |
| EchoFix.EchoFixPlayer.SetFlyingWithElytra | src/main/java/io/github/term4/echofix/EchoFixPlayer.java:140-155 | the delegate runs in echo scope exactly when not forced and either flying starts or the attached filter filters the elytra stop; the flag is reset after a scoped run and unchanged otherwise; a player idle before is idle after |
| EchoFix.DefaultElytraStopUnscoped | src/main/java/io/github/term4/echofix/EchoFixPlayer.java:146-147 | with the default filter, stopping elytra flight is never scoped |
| EchoFix.EchoFixPlayer.RefreshActiveHand | src/main/java/io/github/term4/echofix/EchoFixPlayer.java:158-166 | as for setSneaking |
| EchoFix.EchoFixPlayer.RunDelegate | src/main/java/io/github/term4/echofix/EchoFixPlayer.java:121 | a framework setter broadcasts its packets in order: the viewers get each one, the player gets each one routed under the current flag and filter |
| EchoFix.EchoFixPlayer.SendPacketToViewersAndSelf | src/main/java/io/github/term4/echofix/EchoFixPlayer.java:170-195 | the viewers get the original exactly once; the player gets what the route gives it, at most one packet |
| EchoFix.SelfDelivery | src/main/java/io/github/term4/echofix/EchoFixPlayer.java:177-194 | the player receives at most one packet per broadcast, and the original one when the framework's broadcast runs |
| EchoFix.OutOfScopeBroadcasts | src/main/java/io/github/term4/echofix/EchoFixPlayer.java:171-194 | with the echo flag false or no filter, the framework's own broadcast runs and the player gets the original |
| EchoFix.OwnMetadataSplit | src/main/java/io/github/term4/echofix/EchoFixPlayer.java:172-183 | in scope, the player's own metadata with a non-null filter result is split: the player gets the filtered packet only when the map is non-empty, with no framework broadcast |
| EchoFix.OwnMetadataUnfiltered | src/main/java/io/github/term4/echofix/EchoFixPlayer.java:175-194 | in scope, the player's own metadata with a null filter result falls through to the framework's broadcast |
| EchoFix.OwnAttributes | src/main/java/io/github/term4/echofix/EchoFixPlayer.java:186-194 | in scope, the player's own attribute packet goes to the viewers only exactly when attributes are suppressed, and is broadcast otherwise |
| EchoFix.OthersPassThrough | src/main/java/io/github/term4/echofix/EchoFixPlayer.java:172-194 | packets about another entity, and other packet kinds, take the framework's broadcast |
| EchoFix.SelfMetadataIsClean | src/main/java/io/github/term4/echofix/EchoFixPlayer.java:175-179 | in scope, whatever the player receives of its own metadata is the filter's effective output, with nothing left that the filter strips |
| EchoFix.SelfStreamAppend | src/main/java/io/github/term4/echofix/EchoFixPlayer.java:170-195 | what the player receives from two runs of broadcasts is what it receives from each, in order |
| EchoFix.SelfStreamUnfiltered | src/main/java/io/github/term4/echofix/EchoFixPlayer.java:171-194 | outside echo scope, or with no filter, the player receives every broadcast of a run unchanged |
| EchoFix.CrouchToggleScenario | src/main/java/io/github/term4/echofix/EchoFixPlayer.java:172-183 | in scope with the default filter, the player's own {0: 0x02} reaches the viewers only |
| EchoFix.MixedFlagsScenario | src/main/java/io/github/term4/echofix/EchoFixPlayer.java:172-183 | in scope with the default filter, the player gets {0: 0x10} for its own {0: 0x12} |
| EchoFix.PoseScenario | src/main/java/io/github/term4/echofix/EchoFixPlayer.java:172-183 | in scope with the default filter, the player receives nothing of its own pose update |

## Left out

- `EchoFix.java`, the listener registration, is not part of this model. It
  registers against Minestom's packet listener and connection managers,
  which are library code. Its once-only guard is an atomic
  compare-and-set. Its wrappers call a player method that the modelled
  `EchoFixPlayer` does not have.
- The two `ExampleServer.java` files are not part of this model. They are
  server bootstrap: properties, world generation, commands, scheduling and
  socket binding.
- Minestom internals are abstracted:
  - `super.setSneaking` and the other framework setters are replaced by the
    packet sequence they broadcast;
  - the real `sendPacket`, `sendPacketToViewers` and
    `super.sendPacketToViewersAndSelf` are appends to the two logs;
  - `Metadata.Entry` typing is the `Value` variants;
  - `getEntityId()` is the constant `entityId`;
  - `MetadataDef` indices are given constants: index 0 and the bits 0x02
    and 0x08 come from the source's own comments, while POSE = 6 and
    LIVING_ENTITY_FLAGS = 8 are the framework's values.
- The builder methods take the framework's `MetadataDef` entries. Here they
  take the index and the mask that those entries carry.
- The setter wrappers' own arguments (`sneaking`, `sprinting`, `flying`,
  the three hand flags) reach the framework only through the delegate, whose
  packets stand for their effect. Only `flying` also decides the scope.
- A framework setter that reads the player's state while it runs (other
  than through the splitter) is not modelled.
- The model does not interleave the two logs. It does not record whether a
  player's copy was sent before or after the viewers' original.
- `RunDelegate`: exceptions thrown by a framework setter are not modelled.
  The wrappers have no `finally`, so a throw would leave `echoingSelfInput`
  set. The model covers only normal returns.
- `ForceMetadata`: the action cannot change the attached filter. A call
  to `setSelfMetadataFilter`, or to a builder method of the attached
  filter, is not among the calls an action can make. The postcondition
  routes every broadcast of the action under the one filter configuration
  in force when the action starts, and holds only with that restriction.
- `ForceMetadata`: the action's throw is modelled as happening after its
  calls. A throw part-way through a setter is not modelled.
- `ForceMetadata`: a `forceMetadata` call nested inside an action is not
  modelled. The inner `finally` would clear `serverForced` before the outer
  action finishes.
- Java `HashMap` iteration order is not modelled. `Filter` takes its
  indices from the key set in an arbitrary order, so its proof holds for
  every order.
- The filter's input map is a Dafny value. That it is never mutated holds
  by construction and is not a separate lemma.
- Concurrency is not modelled. The flags are plain per-connection fields.
