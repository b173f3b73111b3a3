# MultiWindow application state, in Dafny

A model of the state manager of a small Compose-for-Desktop application that
opens, titles and closes several windows. The manager, `EstadoDeAplicacion`,
owns an ordered list of window records (`RepresentacionEstadoVentana`). Four
things happen to the list:

- at start-up it is seeded with one record titled "Initial window";
- the "Nueva ventana" (New window) menu item appends a record titled
  "Window N", where N is the number of records in the list at that moment;
- the "Salir" (Exit) menu item clears the list;
- closing a window removes that window's own record from the list.

The model has four modules.

- `Wrappers` holds the `Option` datatype.
- `Titles` defines a title as `Initial | Numbered(n)`. `Render` gives the
  displayed string. `ParseTitle` reads it back. The two are proved to be
  inverses, so distinct titles always display differently.
- `WindowList` defines `Record(id, title)`. The record class does not override
  `equals`, so the list's `remove(element)` compares objects by identity. `id`
  stands for that identity. `Remove` is the list's remove-first-occurrence
  operation. It is proved commutative; with distinct identities it is proved
  idempotent and to drop exactly one record. `RemoveFrom` runs the
  search as a loop and also returns the Boolean that `remove` reports.
- `ApplicationState` defines the manager state `App(windows, nextId)`. Here
  `nextId` models object allocation: each created record gets a new identity.
  The module has the transitions `Init`, `NewWindow`, `Exit` and `Close`, plus
  `Step` and `Run`, which apply the callbacks' events in order. `Valid` is the
  invariant: identities in the list are pairwise distinct and already
  allocated. It is proved to hold after any sequence of events. A record that
  stays open is never altered, so its title is fixed at creation.

The record's three function-valued fields are not modelled as closures. Each
one is modelled as the manager transition it is bound to: `cuandoNuevaVentana`
as `NewWindow`, `alSalir` as `Exit`, and `alCerrar` as `Close`. The list's
reactivity (`mutableStateListOf`) is modelled as a plain sequence.

One detail comes from the list type: the list's `remove` drops the first equal element and
returns whether it found one. `cierra` discards that Boolean, because
`alCerrar` is typed `(RepresentacionEstadoVentana) -> Unit`. So closing an
absent record is a silent no-op.

## Model

| member | source | states |
|---|---|---|
| Titles.ParseRender | src/main/kotlin/main.kt:58-66 | Reading back the displayed title of any window gives that title again |
| Titles.RenderParse | src/main/kotlin/main.kt:58-66 | Any string the title reader accepts is exactly the display of the title it yields |
| Titles.RenderInjective | src/main/kotlin/main.kt:58-66 | Two different titles ("Initial window" or "Window N") are never displayed as the same string |
| Titles.DecimalString | src/main/kotlin/main.kt:66 | The size printed into "Window N" is a canonical decimal numeral: non-empty, digits only, leading zero only for 0 |
| Titles.ParseOfDecimal | src/main/kotlin/main.kt:66 | The printed numeral read in base ten is the list size it came from |
| Titles.DecimalOfParse | src/main/kotlin/main.kt:66 | Every canonical numeral is the printed form of its own value |
| WindowList.IndexOf | src/main/kotlin/main.kt:89 | The search finds nothing exactly when no record with that identity is listed; otherwise it finds the first one |
| WindowList.Remove | src/main/kotlin/main.kt:89 | The list's remove leaves a list that does not hold the record unchanged, and otherwise makes it exactly one shorter |
| WindowList.RemoveCutsFirstMatch | src/main/kotlin/main.kt:89 | Removing a record is the same as finding its first position with indexOf and cutting that position out, so the remaining records keep their relative order |
| WindowList.RemoveCommutes | src/main/kotlin/main.kt:89 | Removing two records in either order gives the same list |
| WindowList.RemoveExactly | src/main/kotlin/main.kt:89-102 | With distinct identities, remove keeps identities distinct, leaves no record with that identity, and keeps every other record |
| WindowList.RemoveIdempotent | src/main/kotlin/main.kt:89 | With distinct identities, removing the same record a second time changes nothing |
| WindowList.RemoveFrom | src/main/kotlin/main.kt:89 | The search-then-cut loop reports true exactly when the record was listed, and yields the same list as Remove |
| ApplicationState.AddRecord | src/main/kotlin/main.kt:83-90 | A created record is a new object: its identity is in no listed record, it goes last with the requested title, and earlier records are untouched |
| ApplicationState.Init | src/main/kotlin/main.kt:57-59 | After start-up there is exactly one window, displayed as "Initial window", and the invariant holds |
| ApplicationState.NewWindow | src/main/kotlin/main.kt:65-67 | The "Nueva ventana" (New window) item adds one record at the end, displayed as "Window " plus the old size; the earlier records keep identity, title and order; the new identity is unused |
| ApplicationState.Exit | src/main/kotlin/main.kt:73-75 | The "Salir" (Exit) item empties the list whatever its size, without reusing identities |
| ApplicationState.Close | src/main/kotlin/main.kt:100-102 | Closing a listed window shortens the list by one and cuts out exactly that record, the others keeping their relative order; closing an absent one changes nothing |
| ApplicationState.StepKeepsRecords | src/main/kotlin/main.kt:85-90 | Each callback keeps identities distinct and allocated, and never alters a record that existed before it |
| ApplicationState.RunPreservesValid | src/main/kotlin/main.kt:83-90 | Any sequence of callbacks keeps the list's identities pairwise distinct |
| ApplicationState.RunKeepsRecords | src/main/kotlin/main.kt:96-97 | After any sequence of callbacks, every record that was already open is still the same identity with the same title, or is gone |
| ApplicationState.TitleFixed | src/main/kotlin/main.kt:97 | A window's title never changes while it stays open |
| ApplicationState.CloseCommutes | src/main/kotlin/main.kt:100-102 | Closing two windows in either order yields the same state |
| ApplicationState.CloseIdempotent | src/main/kotlin/main.kt:100-102 | Closing an already closed window, is a no-op, and so is closing a window whose record was held across the Exit action |
| ApplicationState.ThreeNewWindows | src/main/kotlin/main.kt:57-67 | Start-up then three clicks on "Nueva ventana" (New window) shows "Initial window", "Window 1", "Window 2", "Window 3" |
| ApplicationState.TitlesMayRepeat | src/main/kotlin/main.kt:66 | After a close, a new window can repeat the title of one still open, as a different record |

## Left out

- `main`, the `application { … }` block and its `key(…)` loop (src/main/kotlin/main.kt:14-23): Compose runtime, recomposition and the event loop are UI plumbing. Their only effect here is to deliver the callbacks, which `Run` applies in order.
- `ComponenteVentana`, `Window`, `MenuBar`, `Menu`, `Item`, `@Preview` (src/main/kotlin/main.kt:33-45): rendering through a UI library whose code is not part of this model.
- Snapshot and observer semantics of `mutableStateListOf` (src/main/kotlin/main.kt:52): the list is a plain sequence.
- Process termination once no window remains: this belongs to the host framework, not to this code.
- Function-valued fields of `RepresentacionEstadoVentana`: each is modelled as the transition it is bound to, not as a closure.
- The list size is a 32-bit `Int` in the source. The model uses unbounded naturals, because no list here gets anywhere near 2^31 records.
- Object allocation: each new object's fresh identity is modelled by the `nextId` counter rather than by a heap.
