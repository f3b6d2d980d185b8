# THREE.InteractionManager in Dafny

THREE.InteractionManager adds DOM-style events to a three.js scene graph. User code binds callbacks to scene objects for event names such as "click", "mouseover" and "touchstart". The manager keeps three things:

- each object's `events` table, mapping an event name to an ordered list of `{callback, useCapture, namespace}` entries;
- an `interactiveItems` index from event name to the objects bound for it;
- an optional registered `scene`.

On each mouse or touch event the manager ray-casts against the indexed objects. It updates its pointer state:

- the hover target `selected`;
- the per-object `__isDown`, `__isRightDown` and `__touchData` fields;
- the touch table `touches` and the record `pool`.

It then `dispatch`es to the hit objects. Dispatch calls the object's handlers from the last registered to the first. After each handler it bubbles to the parent, unless the handler stopped propagation or was registered for capture.

The model has two layers.

- **Values** (`Base`, `Text`, `Registry`, `Dispatch`, `Pointer`):
  - the registry, the pointer state and the dispatch trace are datatypes;
  - `bind`, `unbind`, `removeEvents`, `bound`, `dispatch`, `worldVisible` and every input handler is a function over them;
  - the properties are lemmas in `RegistryFacts`, `DispatchFacts` and `PointerFacts`.
- **Object** (`Manager.InteractionManager`): a class whose fields are the manager's state. Its methods update those fields in place, with the source's loops, and each is proved to end in the state the matching function describes. Callback invocations are appended to a `trace` field.

Behaviour kept exactly as the code has it:

- `unbind` on "mouseover"/"mouseout" reads the "mouseout" list twice (line 379), so remaining "mouseover" handlers do not keep the hover tracking alive.
- A dispatch passing through an object with no handlers drops its record (line 575).
- A dispatch bubbles to the parent once per non-capture handler that did not stop propagation (line 601).
- A space-separated name list is walked from the end and stops at the first empty part (lines 239 and 310).
- `onTouchEnd` returns only the last changed touch's record to the pool and clears only its slot (lines 1016-1017).

## Model

| member | source | states |
|---|---|---|
| Base.WorldVisible | three.interactionmanager.js:457-470 | an object is world-visible exactly when no node on the chain from it to the root is hidden |
| Base.IsWorldVisible | three.interactionmanager.js:458-469 | the getter's `do ... while (item)` loop returns exactly `WorldVisible` |
| Base.Chain | three.interactionmanager.js:461-466 | the parent walk starts at the node, follows `parent` links and ends at a root |
| Base.Intersect | three.interactionmanager.js:552-559 | the hit list is the ray caster's list unchanged, followed by one `{object: scene}` hit exactly when a scene is registered |
| Text.Split | three.interactionmanager.js:238 | `split` yields at least one part, no part holds the separator, and there are several parts exactly when the separator occurs |
| Text.JoinSplit | three.interactionmanager.js:238 | joining the parts of a split gives back the string |
| Text.SplitJoin | three.interactionmanager.js:491 | splitting the join of separator-free parts gives back the parts |
| Text.PopTokens | three.interactionmanager.js:239-242 | the names visited are the parts taken from the end, all non-empty, stopping exactly at the first empty part |
| Text.ParseNameNamespaced | three.interactionmanager.js:247-256 | "root.ns" and "root.ns.more" both resolve to the aliased root with namespace `ns` |
| Text.MousemovePlain | three.interactionmanager.js:299 | the hover-tracking name "mousemove" parses to itself with no namespace |
| Text.Resolve | three.interactionmanager.js:261 | the alias table maps "tap" to "click" and "dbltap" to "dblclick" and leaves every other name as it is; `EventNamesPlain` proves no known name is an alias |
| Text.ParseName | three.interactionmanager.js:246-261 | the name before the first dot, resolved through the alias table, with the part after that dot as namespace and no namespace without a dot; `ParseNameNamespaced` and `MousemovePlain` state its cases |
| Text.IndexOf | three.interactionmanager.js:288 | `indexOf` returns -1 exactly when the element is absent, and otherwise its first position |
| Text.RemoveAt | three.interactionmanager.js:371 | `splice(i, 1)` keeps the elements before `i` and shifts those after it down by one |
| Text.RemoveFirstNoDup | three.interactionmanager.js:368-372 | removing the first occurrence from a duplicate-free list removes the element entirely and keeps every other element |
| Registry.Register | three.interactionmanager.js:261-291 | appends the entry to the node's list, indexes the node once and registers a scene node when none is registered; `RegisterEffect` and `BindOneScene` state this |
| Registry.BindOne | three.interactionmanager.js:246-301 | `bind` for one name; `BindAppendsOnce`, `ImplicitMousemove`, `BindOneScene` and `BoundAfterBindAndRemove` state its effect |
| Registry.Bind | three.interactionmanager.js:233-302 | `bind` for a name or a space-separated list; `BindIndexed` and `BindScene` state its effect |
| Registry.SceneCleanup | three.interactionmanager.js:386-397 | forgets the scene when a scene node is unbound and the scene's lists are all empty; `SceneCleanupKeepsLists` and `UnbindResolvedScene` state its effect |
| Registry.UnbindResolved | three.interactionmanager.js:332-397 | `unbind` for a resolved name; `UnbindEffect`, `HoverTrackingRemoval`, `UnbindResolvedIndexed` and `UnbindResolvedScene` state its effect |
| Registry.Unbind | three.interactionmanager.js:304-398 | `unbind` for a name or a space-separated list; `UnbindIndexed` and `UnbindScene` state its effect |
| Registry.RemoveEvents | three.interactionmanager.js:403-410 | `removeEvents`; `RemoveEventsClears`, `RemoveEventsIndexed`, `RemoveEventsScene` and `BoundAfterBindAndRemove` state its effect |
| RegistryFacts.BoundAfterBindAndRemove | three.interactionmanager.js:563-566 | after `bind`, `bound` reads the node's earlier list with the new entry at its end; after `removeEvents` it reads nothing for any name |
| RegistryFacts.RegisterEffect | three.interactionmanager.js:261-291 | registering appends the entry to the end of the node's list, leaves every other list alone and indexes the node under the name once |
| RegistryFacts.BindAppendsOnce | three.interactionmanager.js:246-291 | after alias and namespace resolution, `bind` appends exactly `{cb, !!capture, ns}`, changes no other node and indexes the node once |
| RegistryFacts.ImplicitMousemove | three.interactionmanager.js:293-301 | binding "mouseover"/"mouseout" on a node without "mousemove" handlers adds exactly one no-op "mousemove" entry; otherwise that list is untouched |
| RegistryFacts.BindOneScene | three.interactionmanager.js:277-281 | binding one name on a scene node registers it when no scene is registered; a registered scene is never replaced; other nodes leave the scene alone |
| RegistryFacts.BindScene | three.interactionmanager.js:233-302 | `bind` registers a scene node exactly when no scene is registered and at least one name is bound, and otherwise leaves the scene alone; the scene stays a scene node |
| RegistryFacts.BindIndexed | three.interactionmanager.js:233-302 | `bind` keeps the index exact: each name lists each node at most once, and exactly the nodes with handlers for it |
| RegistryFacts.SurvivorsMembers | three.interactionmanager.js:340-364 | the entries `unbind` keeps are exactly those matching none of its three rules |
| RegistryFacts.SurvivorsConcat | three.interactionmanager.js:340-364 | the surviving entries keep their relative order |
| RegistryFacts.SurvivorsOfUnqualified | three.interactionmanager.js:343-348 | `unbind` with neither callback nor namespace empties the list |
| RegistryFacts.DropMatchingEffect | three.interactionmanager.js:337-373 | the list becomes the non-matching entries in order; other nodes and names are untouched; an emptied list unindexes the node |
| RegistryFacts.UnbindEffect | three.interactionmanager.js:332-397 | unbinding a resolved name changes only that node's list for that name (and its "mousemove" list), to the survivors, and unindexes the node when none survive |
| RegistryFacts.HoverTrackingRemoval | three.interactionmanager.js:375-384 | the no-op "mousemove" entries go exactly when no "mouseout" handler is left; "mouseover" handlers are not consulted |
| RegistryFacts.SceneCleanupKeepsLists | three.interactionmanager.js:386-397 | the scene cleanup leaves every list and the index as they were |
| RegistryFacts.UnbindResolvedScene | three.interactionmanager.js:332-397 | unbinding a name the node has a list for, on a scene node, forgets the scene exactly when the registered scene is left with an `events` table of empty lists; in every other case the scene is unchanged |
| RegistryFacts.UnbindScene | three.interactionmanager.js:304-398 | `unbind` never sets a scene, forgets it only when a scene node is unbound, and for one name forgets it exactly as `UnbindResolvedScene` says; the scene stays a scene node |
| RegistryFacts.UnbindIndexed | three.interactionmanager.js:304-398 | `unbind` keeps the index exact |
| RegistryFacts.UnbindResolvedKeepsCleared | three.interactionmanager.js:332-397 | unbinding never gives a node a handler it did not have |
| RegistryFacts.UnbindAllClears | three.interactionmanager.js:307-315 | unbinding a list of plain names with no callback clears each of them |
| RegistryFacts.EventNamesPlain | three.interactionmanager.js:472-490 | every known event name is a non-empty word with no space, no dot and no alias |
| RegistryFacts.PopTokensOfJoin | three.interactionmanager.js:491 | splitting the joined names and popping the parts visits every known name |
| RegistryFacts.EventNamesVisited | three.interactionmanager.js:405 | the tokens `unbind(node, eventNamesString)` walks include every known name, and each is plain and no alias |
| RegistryFacts.UnbindEventNames | three.interactionmanager.js:405 | `unbind(node, eventNamesString)` clears every known name's list on the node and keeps the index exact for each |
| RegistryFacts.RemoveEventsClears | three.interactionmanager.js:403-410 | after `removeEvents` the node has no `events` table and, when the index was exact, is listed under no known name |
| RegistryFacts.RemoveEventsScene | three.interactionmanager.js:403-410 | `removeEvents` forgets the scene at most, and only for a scene node; the scene stays a scene node |
| RegistryFacts.RemoveEventsIndexed | three.interactionmanager.js:403-410 | `removeEvents` keeps the index exact |
| Dispatch.DispatchTrace | three.interactionmanager.js:569-604 | the invocations of one `dispatch`: with no handlers the event passes to the parent without its record; `DispatchSound`, `DispatchOrder`, `PassThrough` and `DispatchRecords` state its properties |
| Dispatch.HandlersTrace | three.interactionmanager.js:583-603 | the handler loop from the last entry, each invocation followed by the bubble to the parent it triggers; `HandlersOrder` and `StoppedAtNode` state its properties |
| DispatchFacts.NearestListener | three.interactionmanager.js:573-577 | the node found is on the chain from `n` to the root and has handlers, and no node before it on the chain has any; with none found, no node on the chain has handlers |
| DispatchFacts.DispatchSound | three.interactionmanager.js:569-604 | every invocation carries the dispatched name and hit and calls a handler registered for it on the target or an ancestor |
| DispatchFacts.HandlersOrder | three.interactionmanager.js:583-603 | a node's own handlers each run exactly once, last registered first, whatever the callbacks do about propagation |
| DispatchFacts.DispatchOrder | three.interactionmanager.js:569-604 | on a node with handlers, the invocations at that node are its handlers from last to first |
| DispatchFacts.PassThrough | three.interactionmanager.js:573-577 | a dispatch reaches the nearest ancestor with handlers, losing its record when that is not the node itself; with none, nothing is invoked |
| DispatchFacts.StoppedAtNode | three.interactionmanager.js:594-602 | when every handler stops propagation or captures, nothing reaches the parent |
| DispatchFacts.DispatchRecords | three.interactionmanager.js:575-579 | every invocation sees either the given record or the mouse record, and the given record only while every node crossed has handlers |
| DispatchFacts.PassThroughLosesRecord | three.interactionmanager.js:575 | a touch record dispatched to a node with no handlers reaches the parent as the mouse record |
| DispatchFacts.ParentRunsOncePerBubblingHandler | three.interactionmanager.js:598-601 | two bubbling handlers on a child make the parent's handler run twice |
| DispatchFacts.RunConcat | three.interactionmanager.js:569-604 | consecutive dispatches produce their traces one after another |
| Pointer.MouseMove | three.interactionmanager.js:606-663 | `onMouseMove`; `HoverTransition`, `HoverWalk` and `SceneKeepsSelection` state its effect |
| Pointer.MouseDown | three.interactionmanager.js:665-701 | `onMouseDown`; `DownMarksHits` states its effect |
| Pointer.MouseUp | three.interactionmanager.js:703-753 | `onMouseUp`; `UpReleases`, `ReleaseNowhere` and `PressThenReleaseOutside` state its effect |
| Pointer.Broadcast | three.interactionmanager.js:755-852 | the body of `onClick`, `onDblClick` and `onContextmenu`; `BroadcastReachesEveryHit` states its effect |
| Pointer.TouchStart | three.interactionmanager.js:902-950 | `onTouchStart`; `TouchStartTracks` and `TouchStartSends` state its effect |
| Pointer.TouchMove | three.interactionmanager.js:854-900 | `onTouchMove`; `TouchMoveReadsOnly` and `TouchMoveReachesHolders` state its effect |
| Pointer.TouchEnd | three.interactionmanager.js:952-1018 | `onTouchEnd`; `EndTouchSends`, `EndTouchClears`, `TouchEndReleasesLastOnly` and `TouchEndKeepsRecords` state its effect |
| PointerFacts.EachHitSends | three.interactionmanager.js:627-629 | the loop from the farthest hit sends the event to every hit object with the given record, and to nothing else |
| PointerFacts.HoverTransition | three.interactionmanager.js:606-663 | the nearest hit becomes `selected` (no hit clears it); every hit gets "mousemove", farthest first; then "mouseout" to the old target and "mouseover" to the new one when they differ |
| PointerFacts.HoverWalk | three.interactionmanager.js:626-662 | entering a gives mousemove and over on a; moving onto b gives mousemove on b, out a, over b; leaving gives out b and clears the hover target |
| PointerFacts.SceneKeepsSelection | three.interactionmanager.js:552-559 | with a scene registered the scene is always hit last, so `selected` is never cleared, and with no object hit the scene itself is selected |
| PointerFacts.DownMarksHits | three.interactionmanager.js:665-701 | `onMouseDown` sets the pressed button's flag on exactly the hit objects and dispatches the down event to each, farthest first |
| PointerFacts.SweepEffect | three.interactionmanager.js:740-752 | the up-outside sweep clears every registered node's flag and dispatches exactly once to each registered node still flagged |
| PointerFacts.UpReleases | three.interactionmanager.js:703-753 | `onMouseUp` sends the up event to every hit, clears the flag on hits and registered nodes, and sends up-outside to exactly the pressed nodes not released over |
| PointerFacts.ReleaseNowhere | three.interactionmanager.js:740-752 | a release hitting nothing sends a pressed registered node exactly one "mouseupoutside" and clears its flag |
| PointerFacts.PressThenReleaseOutside | three.interactionmanager.js:665-753 | press on a, release elsewhere: a is flagged after the press, unflagged after the release and gets exactly one "mouseupoutside" |
| PointerFacts.BroadcastReachesEveryHit | three.interactionmanager.js:755-852 | `onClick`, `onDblClick` and `onContextmenu` send their event to every hit object, and only to those |
| PointerFacts.AcquireFresh | three.interactionmanager.js:932 | a touch gets the last pooled record, or else a record no touch, pool entry or object holds |
| PointerFacts.TouchStartTracks | three.interactionmanager.js:902-950 | every changed touch is tracked, every object it hits is flagged down, one pooled record is used per touch while the pool lasts, and records stay apart from the mouse record and below the next fresh one |
| PointerFacts.StartHitsSends | three.interactionmanager.js:940-947 | one touch's hits are sent "touchstart" with its record, farthest first, and each object then holds that record; every other entry is kept |
| PointerFacts.StartTouchSends | three.interactionmanager.js:931-948 | one changed touch is tracked with the record it took, its hits are sent "touchstart" with that record, and other touches' records are kept |
| PointerFacts.TouchStartEachKeeps | three.interactionmanager.js:929-949 | later touches with other identifiers leave a touch's record and the entries filed under it alone |
| PointerFacts.TouchStartEachReach | three.interactionmanager.js:929-949 | the last changed touch with an identifier keeps its record, and each object it hits holds that record and was sent "touchstart" with it |
| PointerFacts.TouchStartEachOnly | three.interactionmanager.js:929-949 | nothing is sent but "touchstart", and only to objects the changed touches hit |
| PointerFacts.TouchStartSends | three.interactionmanager.js:902-950 | for the last changed touch with each identifier, every object it hits holds the touch's record and is sent "touchstart" with it; nothing else is sent |
| PointerFacts.TouchMoveReadsOnly | three.interactionmanager.js:854-900 | `onTouchMove` changes no state, fails exactly when a changed touch has no live record, and sends "touchmove" only with the record an object holds |
| PointerFacts.MoveHitsReach | three.interactionmanager.js:890-897 | every hit whose object holds a record for the touch is sent "touchmove" with that record |
| PointerFacts.TouchMoveReachesHolders | three.interactionmanager.js:854-900 | for every changed touch before the first one without a live record, every hit object holding a record for it is sent "touchmove" with that record |
| PointerFacts.EndHitsFrame | three.interactionmanager.js:988-997 | the touchend loop over the hits changes only down flags and touch records, and only removes them; no hit object keeps a record for the touch |
| PointerFacts.EndOutsideFrame | three.interactionmanager.js:1000-1011 | the touchendoutside loop only clears down flags, sends only "touchendoutside" to nodes that were down, and sends nothing when nothing is down |
| PointerFacts.EndHitsOnly | three.interactionmanager.js:988-997 | "touchend" goes only to hit objects holding a record for the touch, with that record |
| PointerFacts.EndHitsReach | three.interactionmanager.js:988-997 | every hit object holding a record for the touch is sent "touchend" with that record |
| PointerFacts.EndHitsReachOne | three.interactionmanager.js:988-997 | a hit object holding a record for the touch is sent "touchend" with that record, the hit carried being one on the same object |
| PointerFacts.EndHitsOnce | three.interactionmanager.js:988-997 | no object is sent "touchend" twice for one touch |
| PointerFacts.EndHitsClears | three.interactionmanager.js:988-997 | exactly the hit objects holding a record for the touch lose their down flag and that record; every other flag and entry is kept |
| PointerFacts.EndOutsideSends | three.interactionmanager.js:1000-1011 | "touchendoutside" goes exactly to the registered nodes still down and holding a record for the touch, once each, with that record |
| PointerFacts.EndOutsideClears | three.interactionmanager.js:1000-1011 | exactly the registered nodes still down and holding a record for the touch lose their down flag |
| PointerFacts.EndTouchSends | three.interactionmanager.js:984-1011 | for one tracked touch, "touchend" goes exactly to the hit objects holding its record and "touchendoutside" exactly to the registered nodes not hit that are still down and hold it, each with that record, each target once, all "touchend" calls first |
| PointerFacts.EndTouchOrder | three.interactionmanager.js:984-1011 | for one tracked touch, no target is sent twice and every "touchend" call comes before every "touchendoutside" call |
| PointerFacts.EndTouchClears | three.interactionmanager.js:984-1011 | for one tracked touch, the hit objects holding its record lose flag and record, the registered nodes holding it lose their flag only, and nothing else changes |
| PointerFacts.TouchEndReleasesLastOnly | three.interactionmanager.js:1014-1017 | only the last changed touch's record returns to the pool and only its slot is cleared |
| PointerFacts.TwoTouchesLeakOne | three.interactionmanager.js:1014-1017 | with two touches lifted together, the first one's record is neither pooled nor cleared |
| PointerFacts.TouchEndWithoutTouches | three.interactionmanager.js:1014-1017 | an empty `changedTouches` pushes `undefined` into the pool and then fails |
| PointerFacts.TouchHandlersKeepRecords | three.interactionmanager.js:902-1018 | the touch handlers keep every record in use below the next fresh one and apart from the mouse record |
| PointerFacts.TouchEndKeepsRecords | three.interactionmanager.js:952-1018 | the records `onTouchEnd` leaves, the pooled one included, stay below the next fresh one and apart from the mouse record |
| PointerFacts.TouchGesture | three.interactionmanager.js:854-1018 | one finger down, moved and lifted reaches its object with the same record in each phase, and the lift pools that record |
| PointerFacts.DisabledIsInert | three.interactionmanager.js:606-1018 | with `enabled` false every input handler, including the broadcast of any event name, changes nothing, dispatches nothing and does not fail |
| Manager.InteractionManager.constructor | three.interactionmanager.js:86-131 | a new manager is enabled with an empty registry, no touches, an empty pool and nothing hovered |
| Manager.InteractionManager.Disable | three.interactionmanager.js:139-142 | the manager is disabled |
| Manager.InteractionManager.Enable | three.interactionmanager.js:144-147 | the manager is enabled |
| Manager.InteractionManager.Bind | three.interactionmanager.js:233-302 | the in-place `bind` ends in the state `Registry.Bind` describes and keeps the index exact |
| Manager.InteractionManager.BindName | three.interactionmanager.js:246-301 | the in-place `bind` for one name ends in the registry `Registry.BindOne` describes |
| Manager.InteractionManager.DropEntries | three.interactionmanager.js:337-373 | the splicing loop from the last entry leaves the non-matching entries and unindexes an emptied node |
| Manager.InteractionManager.UnbindName | three.interactionmanager.js:317-398 | the in-place `unbind` for one name ends in the registry `Registry.UnbindOne` describes |
| Manager.InteractionManager.Unbind | three.interactionmanager.js:304-398 | the in-place `unbind` ends in the state `Registry.Unbind` describes and keeps the index exact for every name |
| Manager.InteractionManager.ForgetEmptyScene | three.interactionmanager.js:386-397 | the scene is forgotten exactly when none of its lists holds an entry |
| Manager.InteractionManager.RemoveEvents | three.interactionmanager.js:403-410 | the in-place `removeEvents` ends in the state `Registry.RemoveEvents` describes and keeps the index exact |
| Manager.InteractionManager.Dispatch | three.interactionmanager.js:569-604 | the recursive `dispatch` appends exactly the invocations `DispatchTrace` describes |
| Manager.InteractionManager.Notify | three.interactionmanager.js:583-603 | the handler loop appends exactly the invocations `HandlersTrace` describes |
| Manager.InteractionManager.OnMouseMove | three.interactionmanager.js:606-663 | updates `selected` and appends the invocations `MouseMove` describes |
| Manager.InteractionManager.HoverHits | three.interactionmanager.js:627-656 | the loop sends "mousemove" to each hit from the farthest, then the hover change at the nearest, and selects the nearest hit |
| Manager.InteractionManager.OnMouseDown | three.interactionmanager.js:665-701 | for the button `IsRightButton` reads from `button` and `which`, updates the button flags and appends the invocations `MouseDown` describes |
| Manager.InteractionManager.PressHits | three.interactionmanager.js:691-700 | the loop flags exactly the hit objects for the pressed button and sends the down event to each, farthest first |
| Manager.InteractionManager.ReleaseHits | three.interactionmanager.js:723-737 | the loop clears the button's flag on exactly the hit objects and sends the up event to each, farthest first |
| Manager.InteractionManager.ReleaseThenSweep | three.interactionmanager.js:723-752 | the up event to each hit, then the up-outside sweep over the nodes registered for it, ending in the flags `UpSweep` describes |
| Manager.InteractionManager.OnMouseUp | three.interactionmanager.js:703-753 | for the button `IsRightButton` reads from `button` and `which`, updates the button flags and appends the invocations `MouseUp` describes |
| Manager.InteractionManager.SweepOutside | three.interactionmanager.js:740-752 | the loop over registered nodes from the last ends in the flags and calls `UpSweep` describes |
| Manager.InteractionManager.BroadcastHits | three.interactionmanager.js:755-852 | appends the invocations `Broadcast` describes and changes nothing else |
| Manager.InteractionManager.OnClick | three.interactionmanager.js:755-786 | appends the "click" invocations `Broadcast` describes and changes nothing else |
| Manager.InteractionManager.OnDblClick | three.interactionmanager.js:788-819 | appends the "dblclick" invocations `Broadcast` describes and changes nothing else |
| Manager.InteractionManager.OnContextmenu | three.interactionmanager.js:821-852 | appends the "contextmenu" invocations `Broadcast` describes and changes nothing else |
| Manager.InteractionManager.AcquireRecord | three.interactionmanager.js:932 | `pool.pop() \|\| new InteractionData()` ends as `Acquire` describes |
| Manager.InteractionManager.StartTouches | three.interactionmanager.js:929-949 | the loop over changed touches ends in the pointer state and invocations `TouchStartEach` describes |
| Manager.InteractionManager.OnTouchStart | three.interactionmanager.js:902-950 | updates touches, pool, flags and touch records and appends the invocations `TouchStart` describes |
| Manager.InteractionManager.MoveTouches | three.interactionmanager.js:882-899 | the loop over changed touches appends the invocations `TouchMoveEach` describes and reports its TypeError |
| Manager.InteractionManager.OnTouchMove | three.interactionmanager.js:854-900 | appends the invocations `TouchMove` describes and reports its TypeError |
| Manager.InteractionManager.EndTouchOutside | three.interactionmanager.js:1000-1011 | the loop from the last registered node ends in the flags and invocations `EndOutside` describes |
| Manager.InteractionManager.EndTouches | three.interactionmanager.js:976-1013 | the loop over changed touches ends in the pointer state, invocations and TypeError `TouchEndEach` describes |
| Manager.InteractionManager.OnTouchEnd | three.interactionmanager.js:952-1018 | updates flags, touch records, pool and touches and appends the invocations `TouchEnd` describes, reporting its TypeError |

## Left out

- The DOM wiring is not modelled: listener registration, `setCamera`, `setRenderer`, `setTargetDomElement`, `removeEventListeners` and the cursor style. It only connects the handlers to a browser.
- Ray casting is not modelled. Each handler takes the hit list as a parameter, nearest first, and `Intersect` appends the scene hit. Floating-point geometry and the bounding-rectangle cache are out of scope.
- Records keep only their identity. The fields `x`, `y`, `originalEvent`, `touchEvent`, `eventName`, `target` and `intersect`, which `intersect` and `dispatch` overwrite, are not modelled.
- `preventDefault` and `AUTO_PREVENT_DEFAULT` are not modelled; they act only on the browser event.
- The `console.assert` on unknown event names is not modelled. It only logs, and names outside the list are still bound.
- The index is proved exact only for the listed event names. `removeEvents` unbinds only those names before deleting the `events` table, so handlers under any other name are dropped without being unindexed.
- The `Function.prototype.bind` polyfill is not modelled. The `Object3D` forwarders `on`, `off` and `removeEvents` only call the manager methods modelled here.
- `destroy` is not modelled: it calls `removeEvents(null)`, which dereferences null before doing anything.
- The global `out = false` assignment in `onMouseMove` is not modelled; it changes no manager state.
- Callbacks are opaque. `stops` says which invocations call `stopPropagation`. Callbacks are taken not to change the manager or the scene graph while it dispatches.
- `stops` is a function of the invocation. Two identical invocations therefore both stop or both go on. A callback that stops on one run and not on the next, such as one of the repeated parent runs of line 601, is not modelled.
- `Manager.InteractionManager.Bind` takes `capture` as a boolean, the value of `!!useCapture`. `unbind`'s strict comparison with a non-boolean `useCapture` is not modelled.
- Inherited prototype keys such as "constructor" are not modelled. In the source, `Atlas[eventName] || eventName` would resolve them through `Object.prototype`.
- Clearing a touch's slot (`touches[id] = null`) is modelled as removing the entry. A later `touchmove` or `touchend` for that id fails in both cases when handlers for that event are registered, and is ignored in both otherwise.
- A TypeError from a touch handler is modelled as the `threw` flag. Changes made before it are kept and the rest of the handler is skipped.
