# Entity component container and input state machine

A Dafny model of two pieces of the TPV2 ping-pong game's runtime:

- `ecs::Entity` (module `Ecs`, file `entity.dfy`): the per-entity component
  container of the Entity-Component runtime. An entity keeps a fixed-size slot
  array `cmps`, indexed by a dense component type id in `[0, maxComponentId)`,
  and the insertion-ordered list `currCmps` of the attached components, plus an
  alive flag and a group id. `AddComponent` replaces any component of the same
  type; `RemoveComponent` erases one and keeps the order of the rest;
  `GetComponent`/`HasComponent` read one slot; `Update`/`Render` walk the list
  using its length at entry. The class invariant `Valid()` is the predicate
  `Consistent`: the list holds exactly the filled slots, each in the slot of its
  own type, with no duplicates. Each mutator keeps it.
- `InputHandler` (module `Input`, file `input_handler.dfy`): the per-frame input
  state. It has six event flags, the mouse position and a three-entry
  mouse-button array. `ClearState`, `Update(event)` and `Refresh(events)` are
  methods of the class. Each is proved equal to a pure transition function
  (`Cleared`, `Step`, `Refreshed`). The lemmas state what one frame's batch of
  events leaves behind.
- `Util` (file `util.dfy`): `Option`, the `Distinct` predicate, order-preserving
  erasure `Without` (what `vector::erase` does to a vector without duplicates),
  linear search `Find` (`std::find`) and the pigeonhole lemma behind the
  capacity bound.

Components are objects of class `Component`. Each has a constant type id and
owning entity. They are abstracted to what the entity can observe of them:
- the sibling types their `initComponent` insists on (`needs`, as `Image`
  and `PaddleMouseCtrl` need `Transform`);
- an optional type their `update` attaches when the entity lacks one (`spawn`);
- the slots `initComponent` saw (`initView`).

A call of a component's `update` or `render` is recorded as a `Call` event.

## Model

| member | source | states |
|---|---|---|
| `Ecs.Entity.constructor` | TPV2-Practica1/src/ecs/Entity.h:22-33 | a fresh entity has every slot empty, an empty list, alive false and the given group; the group is a constant |
| `Ecs.Entity.SetAlive` | TPV2-Practica1/src/ecs/Entity.h:60-68 | afterwards `IsAlive()` returns the value passed, and only the alive flag changes |
| `Ecs.Entity.IsAlive` | TPV2-Practica1/src/ecs/Entity.h:66-68 | returns the alive flag, the one `SetAlive` writes |
| `Ecs.Entity.GroupId` | TPV2-Practica1/src/ecs/Entity.h:174-176 | returns the group id fixed at construction (`gId`) |
| `Ecs.Entity.GetComponent` | TPV2-Practica1/src/ecs/Entity.h:150-158 | a non-null result is an attached component of the requested type owned by this entity; null means no attached component has that type |
| `Ecs.Entity.HasComponent` | TPV2-Practica1/src/ecs/Entity.h:162-170 | true iff some component in the ordered list has the requested type |
| `Ecs.Entity.RemoveComponent` | TPV2-Practica1/src/ecs/Entity.h:116-144 | empty slot: nothing changes; otherwise the slot is emptied and exactly that component is erased from the list, the others keeping their order, one fewer; the invariant is kept |
| `Ecs.Entity.AddComponent` | TPV2-Practica1/src/ecs/Entity.h:91-112 | the old component of the type (if any) is erased from the list, the new one fills the slot and goes last; other slots unchanged; its init saw its own slot empty and every other slot as before; the invariant is kept |
| `Ecs.Entity.Update` | TPV2-Practica1/src/ecs/Entity.h:73-77 | exactly the components attached at entry are called, once each, in list order; components attached during the pass are fresh, go after them, are not called, and each has a type some visited component spawns; filled slots, alive flag and group are unchanged |
| `Ecs.Entity.Render` | TPV2-Practica1/src/ecs/Entity.h:82-86 | every attached component is called once, in list order |
| `Ecs.Entity.Dispose` | TPV2-Practica1/src/ecs/Entity.h:45-51 | the destructor deletes every component in a slot exactly once, and nothing else |
| `Ecs.Component.constructor` | TPV2-Practica1/src/ecs/Entity.h:104-105 | a new component is created for its type and linked to its owning entity |
| `Ecs.Component.InitComponent` | TPV2-Practica1/src/components/Image.cpp:23-26 | callable only when every needed sibling is attached (the asserted lookup); records the slots it observes |
| `Ecs.Component.Update` | TPV2-Practica1/src/ecs/Entity.h:76 | records its call; only appends fresh components of its spawn type to its entity's list, never detaches; filled slots unchanged |
| `Ecs.Component.Render` | TPV2-Practica1/src/ecs/Entity.h:85 | records a render call of this component |
| `Ecs.OnePerType` | TPV2-Practica1/src/ecs/Entity.h:32 | under the invariant the listed components have pairwise distinct types, so the list never outgrows the `maxComponentId` capacity reserved for it |
| `Ecs.DetachConsistent` | TPV2-Practica1/src/ecs/Entity.h:123-143 | emptying a component's slot and erasing it from the list keeps the two stores consistent |
| `Ecs.AttachConsistent` | TPV2-Practica1/src/ecs/Entity.h:107-108 | filling an empty slot with a new component and appending it to the list keeps the two stores consistent |
| `Ecs.AttachDetachScenario` | TPV2-Practica1/src/ecs/Entity.h:73-144 | attach A, B and update: A then B are called; detach A, attach C and update: B then C are called, A is not |
| `Ecs.AttachTwo` | TPV2-Practica1/src/ecs/Entity.h:91-112 | first half of the scenario: after attaching A then B the list is [A, B] and an update calls A then B |
| `Ecs.ReplaceFirst` | TPV2-Practica1/src/ecs/Entity.h:116-144 | second half of the scenario: removing A from [A, B] and attaching C gives [B, C], updated in that order |
| `Util.Find` | TPV2-Practica1/src/ecs/Entity.h:127-131 | returns the index of the first occurrence, or the length exactly when the value is absent |
| `Util.EraseAt` | TPV2-Practica1/src/ecs/Entity.h:127-134 | erasing the position `std::find` returned, in a list without duplicates, erases that value and nothing else |
| `Util.WithoutMembers` | TPV2-Practica1/src/ecs/Entity.h:134 | erasure removes the value and keeps every other element |
| `Util.WithoutDistinct` | TPV2-Practica1/src/ecs/Entity.h:134 | erasure keeps a list duplicate-free, shortens it by one when the value was present, changes nothing when absent |
| `Util.DistinctTail` | TPV2-Practica1/src/ecs/Entity.h:134 | the tail of a duplicate-free list is duplicate-free and lacks the head |
| `Util.DistinctCons` | TPV2-Practica1/src/ecs/Entity.h:108 | adding a value not yet present keeps a list duplicate-free |
| `Util.DistinctBelow` | TPV2-Practica1/src/ecs/Entity.h:32 | distinct ids below `m` number at most `m` |
| `Input.InputHandler.constructor` | TPV2-Practica1/src/sdlutils/InputHandler.h:132-135 | all six flags false, mouse position at the origin; nothing about the button states |
| `Input.InputHandler.ClearState` | TPV2-Practica1/src/sdlutils/InputHandler.h:26-35 | all six flags false; mouse position and button states unchanged |
| `Input.InputHandler.Update` | TPV2-Practica1/src/sdlutils/InputHandler.h:38-61 | the new state is `Step` of the old state and the event |
| `Input.InputHandler.Refresh` | TPV2-Practica1/src/sdlutils/InputHandler.h:64-70 | the new state is the cleared old state fed every pending event in arrival order |
| `Input.InputHandler.OnKeyDown` | TPV2-Practica1/src/sdlutils/InputHandler.h:146-148 | sets the key-down flag only |
| `Input.InputHandler.OnKeyUp` | TPV2-Practica1/src/sdlutils/InputHandler.h:150-152 | sets the key-up flag only |
| `Input.InputHandler.OnMouseMotion` | TPV2-Practica1/src/sdlutils/InputHandler.h:154-159 | sets the motion flag and the mouse position to the event's; nothing else |
| `Input.InputHandler.OnMouseButtonDown` | TPV2-Practica1/src/sdlutils/InputHandler.h:161-176 | sets the button-down flag and marks left/middle/right pressed; an unknown button changes only the flag |
| `Input.InputHandler.OnMouseButtonUp` | TPV2-Practica1/src/sdlutils/InputHandler.h:178-193 | sets the button-up flag and marks left/middle/right released; an unknown button changes only the flag |
| `Input.InputHandler.HandleWindowCloseRequestEvent` | TPV2-Practica1/src/sdlutils/InputHandler.h:195-197 | sets the close-window flag only |
| `Input.InputHandler.MouseButtonEvent` | TPV2-Practica1/src/sdlutils/InputHandler.h:107-109 | true iff the button-up or the button-down flag is set |
| `Input.InputHandler.CloseWindowEvent` | TPV2-Practica1/src/sdlutils/InputHandler.h:73-75 | returns the close-window flag of the handler's state |
| `Input.InputHandler.KeyDownEvent` | TPV2-Practica1/src/sdlutils/InputHandler.h:78-80 | returns the key-down flag of the handler's state |
| `Input.InputHandler.KeyUpEvent` | TPV2-Practica1/src/sdlutils/InputHandler.h:82-84 | returns the key-up flag of the handler's state |
| `Input.InputHandler.MouseMotionEvent` | TPV2-Practica1/src/sdlutils/InputHandler.h:103-105 | returns the mouse-motion flag of the handler's state |
| `Input.InputHandler.MouseButtonUpEvent` | TPV2-Practica1/src/sdlutils/InputHandler.h:111-113 | returns the button-up flag of the handler's state |
| `Input.InputHandler.MouseButtonDownEvent` | TPV2-Practica1/src/sdlutils/InputHandler.h:115-117 | returns the button-down flag of the handler's state |
| `Input.InputHandler.GetMousePos` | TPV2-Practica1/src/sdlutils/InputHandler.h:119-121 | returns the mouse position of the handler's state |
| `Input.InputHandler.GetMouseButtonState` | TPV2-Practica1/src/sdlutils/InputHandler.h:123-126 | requires a button index below 3; returns 1 when that button is pressed and 0 otherwise |
| `Input.ButtonIndex` | TPV2-Practica1/src/sdlutils/InputHandler.h:163-192 | the switch of `onMouseButtonDown`/`onMouseButtonUp` from a library button code (1/2/3) to `LEFT`/`MIDDLE`/`RIGHT` (enum at InputHandler.h:20-22); a recognised code maps to an index below `_LAST_MOUSEBUTTON_VALUE`, any other code to none |
| `Input.Press` | TPV2-Practica1/src/sdlutils/InputHandler.h:161-193 | reference for the button switch of `onMouseButtonDown`/`onMouseButtonUp`: never resizes the button states and changes nothing for an unknown code; `PressAt` states which button it changes |
| `Input.Cleared` | TPV2-Practica1/src/sdlutils/InputHandler.h:26-35 | reference for `clearState`: no flag is set; mouse position and button states are kept |
| `Input.Step` | TPV2-Practica1/src/sdlutils/InputHandler.h:38-61 | reference for `update(event)`: never resizes the button states; `StepEffect` and `StepButton` state what each event does |
| `Input.Feed` | TPV2-Practica1/src/sdlutils/InputHandler.h:64-70 | reference for the event loop of `refresh`, a fold of `Step` over the events in arrival order: never resizes the button states; `FeedFlag`, `FeedMousePos` and `FeedButtons` state its result |
| `Input.Refreshed` | TPV2-Practica1/src/sdlutils/InputHandler.h:64-70 | reference for `refresh`: `Feed` of the cleared state; with no pending event no flag is set; `RefreshFlag` and `RefreshMouseButtonEvent` state the flags after any frame |
| `Input.StepEffect` | TPV2-Practica1/src/sdlutils/InputHandler.h:38-61 | an event sets its own flag and no other; only motion moves the mouse; only button events touch the buttons; any other event changes nothing |
| `Input.PressAt` | TPV2-Practica1/src/sdlutils/InputHandler.h:163-175 | a button code changes the state of exactly the button it maps to |
| `Input.StepButton` | TPV2-Practica1/src/sdlutils/InputHandler.h:161-193 | one event changes button b iff it is a down or up event for b: pressed after down, released after up |
| `Input.FeedFlag` | TPV2-Practica1/src/sdlutils/InputHandler.h:68-69 | after a batch a flag is set iff it was set before or some event of the batch raises it |
| `Input.RefreshFlag` | TPV2-Practica1/src/sdlutils/InputHandler.h:64-70 | after a refresh a flag is set iff some event of the frame raises it |
| `Input.RefreshMouseButtonEvent` | TPV2-Practica1/src/sdlutils/InputHandler.h:107-109 | after a refresh `mouseButtonEvent()` holds iff the frame had a button event |
| `Input.FeedMousePos` | TPV2-Practica1/src/sdlutils/InputHandler.h:154-159 | after a batch the mouse is at its last motion event's position, or where it was when there was none |
| `Input.FeedButtons` | TPV2-Practica1/src/sdlutils/InputHandler.h:161-193 | after a batch each button's state is set by its last down/up event, or unchanged when it had none |

## Left out

- The back-pointer to the entity manager and `getMngr` (Entity.h:54-56): the
  manager's source is not part of this model, so the pointer would be an opaque
  value nothing reads.
- The entity manager itself (entity admission, groups, handlers, the deferred
  commit): its source is not part of this model.
- `maxComponentId` and the per-type ids `cmpId<T>` come from ecs.h, which is not
  part of this model. The count is the slot array's length, fixed by the
  constructor. A type id is a natural number. The compile-time
  `static_assert(cId < maxComponentId)` becomes the precondition
  `t < cmps.Length`.
- What concrete components do in `update` and `render` (moving, drawing,
  reading input) is not modelled. A call is recorded as an event. The only
  structural effect modelled is an `update` attaching a component of a type the
  entity lacks; that component goes past the length taken at entry, so it is
  not called in the same pass. A callback that detaches or replaces a component
  during a pass is not modelled, and for it the source gives no such
  guarantee: `Entity::update` (Entity.h:73-77) takes the length once and indexes
  the live list. Removing a component shrinks the list, so a later index can
  run past its end. Replacing a component of a type already present
  (Entity.h:100, 134, 108) erases the old one and appends the new one, keeping
  the length: if A's update replaces C in [A, B, C], the list becomes
  [A, B, C'] and C' is called in the same pass; if B's update replaces A, the
  list becomes [B, C, A'], C is skipped and A' is called. So the proved
  `Ecs.Entity.Update` promise that components attached during a pass are not
  called holds in the source only when callbacks append.
- `Ecs.Component.Render` has no effect on the entity, and `Ecs.Entity.Render`
  has no `modifies` clause: its "every component attached at entry is called
  once, in order" holds because a render callback cannot attach, detach or
  replace components in the model. A render callback in the source that does
  so has the same hazards as an update callback above.
- Memory release (`delete`) has no counterpart in Dafny's garbage-collected
  heap. `Dispose` returns the components the destructor deletes, and
  `RemoveComponent` simply drops the reference.
- `Ecs.Component.InitComponent`: a real `initComponent` may do anything. The
  model checks that the needed siblings are present and records the slots it
  sees. It does not attach or detach components.
- `InputHandler::isKeyDown`/`isKeyUp` and `init()`: they read the keyboard array
  owned by the windowing library. That array is foreign state, so they are not
  modelled, and neither is `isKeyUp` returning the same value as `isKeyDown`.
- Event polling: the pending events of a frame are the `events` parameter of
  `Refresh`.
- The singleton wrapper `ih()`.
- Mouse coordinates are floats that are only copied. They are modelled as
  reals.
- `Input.InputHandler.constructor`: the C++ button array is left uninitialised.
  The model allocates one but promises nothing about its contents before the
  first button event.
