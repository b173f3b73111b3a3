/**
 * The application-state manager (`EstadoDeAplicacion`): the ordered list of
 * open windows and the three things the windows' callbacks do to it — the
 * menu item "Nueva ventana" (New window) appends a record, "Salir" (Exit)
 * clears the list, and closing a window removes that window's own record. Object allocation is modelled by
 * `nextId`, the identity the next record will get; it only ever grows, so a
 * new record is never the same object as any earlier one.
 */
module ApplicationState {
  import opened Wrappers
  import opened Titles
  import opened WindowList

  datatype App = App(windows: seq<Record>, nextId: nat)

  /** The state reachable from start-up keeps: no object twice in the list,
      and every listed object already allocated. */
  predicate Valid(a: App) {
    && DistinctIds(a.windows)
    && forall i :: 0 <= i < |a.windows| ==> a.windows[i].id < a.nextId
  }

  /** `estadosDeVentana += CreaRepresentacionEstadoWindow(t)`: a freshly
      allocated record with title `t` goes at the end of the list. */
  function AddRecord(a: App, t: Title): (r: App)
    ensures r.nextId > a.nextId
    ensures |r.windows| == |a.windows| + 1 && r.windows[..|a.windows|] == a.windows
    ensures r.windows[|a.windows|].title == t
    ensures !Holds(a.windows, r.windows[|a.windows|].id) || !Valid(a)
    ensures Valid(a) ==> Valid(r)
  {
    var created := Record(a.nextId, t);
    assert (a.windows + [created])[..|a.windows|] == a.windows;
    App(a.windows + [created], a.nextId + 1)
  }

  /** Start-up (`init`): the list holds a single window, "Initial window". */
  function Init(): (a: App)
    ensures Valid(a)
    ensures |a.windows| == 1
    ensures Render(a.windows[0].title) == "Initial window"
  {
    AddRecord(App([], 0), Initial)
  }

  /** The New window action (`nuevoEstadoDeVentana`, menu item "Nueva
      ventana"): one more window at the end, titled "Window " and the number
      of windows open before it. */
  function NewWindow(a: App): (r: App)
    ensures |r.windows| == |a.windows| + 1
    ensures r.windows[..|a.windows|] == a.windows
    ensures Render(r.windows[|a.windows|].title) == "Window " + DecimalString(|a.windows|)
    ensures Valid(a) ==> Valid(r) && !Holds(a.windows, r.windows[|a.windows|].id)
  {
    AddRecord(a, Numbered(|a.windows|))
  }

  /** The Exit action (`limpiarEstadosDeVentana`, menu item "Salir"): every
      window goes, whatever was open. */
  function Exit(a: App): (r: App)
    ensures r.windows == []
    ensures Valid(r)
    ensures r.nextId == a.nextId
  {
    App([], a.nextId)
  }

  /** Closing the window whose record has identity `id` (`cierra`, wired to
      the list's `remove`). */
  function Close(a: App, id: nat): (r: App)
    ensures r.nextId == a.nextId
    ensures !Holds(a.windows, id) ==> r == a
    ensures Holds(a.windows, id) ==> |r.windows| == |a.windows| - 1
    ensures Valid(a) ==> Valid(r) && !Holds(r.windows, id)
    ensures Valid(a) ==> forall w :: w in r.windows <==> w in a.windows && w.id != id
    ensures forall i :: IndexOf(a.windows, id) == Some(i) ==> r.windows == a.windows[..i] + a.windows[i + 1..]
  {
    var r := App(Remove(a.windows, id), a.nextId);
    assert Valid(a) ==> Valid(r) && !Holds(r.windows, id) by {
      if Valid(a) {
        RemoveExactly(a.windows, id);
      }
    }
    assert forall i :: IndexOf(a.windows, id) == Some(i) ==> r.windows == a.windows[..i] + a.windows[i + 1..] by {
      if IndexOf(a.windows, id).Some? {
        RemoveCutsFirstMatch(a.windows, id, IndexOf(a.windows, id).value);
      }
    }
    r
  }

  /** What a window's callbacks can ask of the manager. */
  datatype Event =
    | NewWindowClicked          // menu item "Nueva ventana"
    | ExitClicked               // menu item "Salir"
    | CloseRequested(id: nat)   // the window with this record is closed

  function Step(a: App, e: Event): App {
    match e
    case NewWindowClicked => NewWindow(a)
    case ExitClicked => Exit(a)
    case CloseRequested(id) => Close(a, id)
  }

  /** The events applied in the order they are delivered. */
  function Run(a: App, es: seq<Event>): App
    decreases |es|
  {
    if |es| == 0 then a else Run(Step(a, es[0]), es[1..])
  }

  /** One step keeps the invariant, never reuses an identity, and never
      alters a record that existed before it. */
  lemma StepKeepsRecords(a: App, e: Event)
    requires Valid(a)
    ensures Valid(Step(a, e))
    ensures Step(a, e).nextId >= a.nextId
    ensures forall w :: w in Step(a, e).windows && w.id < a.nextId ==> w in a.windows
  {
  }

  /** Any sequence of events keeps the invariant. */
  lemma {:induction false} RunPreservesValid(a: App, es: seq<Event>)
    requires Valid(a)
    ensures Valid(Run(a, es))
    ensures Run(a, es).nextId >= a.nextId
    decreases |es|
  {
    if |es| > 0 {
      StepKeepsRecords(a, es[0]);
      RunPreservesValid(Step(a, es[0]), es[1..]);
    }
  }

  /** Whatever happens later, a record that is still open is the very record
      it was when created: same identity, same title. */
  lemma {:induction false} RunKeepsRecords(a: App, es: seq<Event>)
    requires Valid(a)
    ensures forall w :: w in Run(a, es).windows && w.id < a.nextId ==> w in a.windows
    decreases |es|
  {
    if |es| > 0 {
      var b := Step(a, es[0]);
      StepKeepsRecords(a, es[0]);
      RunKeepsRecords(b, es[1..]);
    }
  }

  /** A title never changes: a window open now and later has the same title. */
  lemma TitleFixed(a: App, es: seq<Event>, w: Record, w': Record)
    requires Valid(a)
    requires w in a.windows && w' in Run(a, es).windows && w'.id == w.id
    ensures w'.title == w.title
  {
    RunKeepsRecords(a, es);
    var i :| 0 <= i < |a.windows| && a.windows[i] == w;
    var j :| 0 <= j < |a.windows| && a.windows[j] == w';
    assert i == j;
  }

  /** Closing two windows gives the same list in either order. */
  lemma CloseCommutes(a: App, x: nat, y: nat)
    ensures Close(Close(a, x), y) == Close(Close(a, y), x)
  {
    RemoveCommutes(a.windows, x, y);
  }

  /** Closing a window that is already closed changes nothing, and neither
      does closing one whose record was held across the Exit action. */
  lemma CloseIdempotent(a: App, id: nat)
    requires Valid(a)
    ensures Close(Close(a, id), id) == Close(a, id)
    ensures Close(Exit(a), id) == Exit(a)
  {
  }

  /** Three clicks on "Nueva ventana" (New window) after start-up show the titles
      "Initial window", "Window 1", "Window 2", "Window 3". */
  lemma ThreeNewWindows()
    ensures var ws := Run(Init(), [NewWindowClicked, NewWindowClicked, NewWindowClicked]).windows;
      && |ws| == 4
      && Render(ws[0].title) == "Initial window"
      && Render(ws[1].title) == "Window 1"
      && Render(ws[2].title) == "Window 2"
      && Render(ws[3].title) == "Window 3"
  {
  }

  /** Titles can repeat: after closing "Window 1" of three windows, the next
      new window is titled "Window 2" again, next to a different "Window 2". */
  lemma TitlesMayRepeat()
    ensures var ws := Run(Init(), [NewWindowClicked, NewWindowClicked, CloseRequested(1), NewWindowClicked]).windows;
      && |ws| == 3
      && ws[1].title == ws[2].title == Numbered(2)
      && ws[1].id != ws[2].id
  {
  }
}
