/**
 * The ordered list of window records and the list operations the
 * application performs on it. A record stands for one
 * `RepresentacionEstadoVentana` object: its title and its identity. The class
 * does not override `equals`, so two records are the same exactly when they
 * are the same object; `id` is that object identity.
 */
module WindowList {
  import opened Wrappers
  import opened Titles

  datatype Record = Record(id: nat, title: Title)

  /** The list contains the record whose identity is `id`. */
  predicate Holds(ws: seq<Record>, id: nat) {
    exists i :: 0 <= i < |ws| && ws[i].id == id
  }

  /** No object appears twice in the list. */
  predicate DistinctIds(ws: seq<Record>) {
    forall i, j :: 0 <= i < j < |ws| ==> ws[i].id != ws[j].id
  }

  /** Position of the first record with identity `id`, as a list's `indexOf`. */
  function IndexOf(ws: seq<Record>, id: nat): (r: Option<nat>)
    ensures r.None? <==> !Holds(ws, id)
    ensures r.Some? ==> r.value < |ws| && ws[r.value].id == id
    ensures r.Some? ==> forall k :: 0 <= k < r.value ==> ws[k].id != id
  {
    if |ws| == 0 then None
    else if ws[0].id == id then Some(0)
    else
      match IndexOf(ws[1..], id)
      case None =>
        assert forall i :: 1 <= i < |ws| ==> ws[i] == ws[1..][i - 1];
        None
      case Some(k) =>
        assert ws[k + 1] == ws[1..][k];
        Some(k + 1)
  }

  /** The list's `remove(element)`: drops the first record with identity
      `id` and leaves the list as it was when there is none. */
  function Remove(ws: seq<Record>, id: nat): (r: seq<Record>)
    ensures !Holds(ws, id) ==> r == ws
    ensures Holds(ws, id) ==> |r| == |ws| - 1
  {
    if |ws| == 0 then []
    else if ws[0].id == id then ws[1..]
    else
      assert Holds(ws, id) ==> Holds(ws[1..], id) by {
        if Holds(ws, id) {
          var i :| 0 <= i < |ws| && ws[i].id == id;
          assert ws[1..][i - 1] == ws[i];
        }
      }
      assert !Holds(ws, id) ==> !Holds(ws[1..], id) && ws == [ws[0]] + ws[1..] by {
        if !Holds(ws, id) {
          assert forall i :: 0 <= i < |ws| - 1 ==> ws[1..][i] == ws[i + 1];
        }
      }
      [ws[0]] + Remove(ws[1..], id)
  }

  /** `Remove` is the way the list's `remove(element)` does it: find the first
      match with `indexOf`, then cut that position out. */
  lemma {:induction false} RemoveCutsFirstMatch(ws: seq<Record>, id: nat, i: nat)
    requires IndexOf(ws, id) == Some(i)
    ensures Remove(ws, id) == ws[..i] + ws[i + 1..]
  {
    if i > 0 {
      assert IndexOf(ws[1..], id) == Some(i - 1);
      RemoveCutsFirstMatch(ws[1..], id, i - 1);
      assert ws[..i] == [ws[0]] + ws[1..][..i - 1];
      assert ws[i + 1..] == ws[1..][i..];
    }
  }

  /** Removing two records gives the same list in either order. */
  lemma {:induction false} RemoveCommutes(ws: seq<Record>, x: nat, y: nat)
    ensures Remove(Remove(ws, x), y) == Remove(Remove(ws, y), x)
  {
    if |ws| > 0 && x != y {
      var tail := ws[1..];
      if ws[0].id == x {
        assert ([ws[0]] + Remove(tail, y))[1..] == Remove(tail, y);
      } else if ws[0].id == y {
        assert ([ws[0]] + Remove(tail, x))[1..] == Remove(tail, x);
      } else {
        assert ([ws[0]] + Remove(tail, x))[1..] == Remove(tail, x);
        assert ([ws[0]] + Remove(tail, y))[1..] == Remove(tail, y);
        RemoveCommutes(tail, x, y);
      }
    }
  }

  /** With identities distinct, `Remove` takes away exactly the record with
      identity `id`: every other record stays and no other record comes in. */
  lemma {:induction false} RemoveExactly(ws: seq<Record>, id: nat)
    requires DistinctIds(ws)
    ensures DistinctIds(Remove(ws, id))
    ensures !Holds(Remove(ws, id), id)
    ensures forall w :: w in Remove(ws, id) <==> w in ws && w.id != id
  {
    if |ws| > 0 {
      var tail := ws[1..];
      assert DistinctIds(tail) by {
        forall a, b | 0 <= a < b < |tail|
          ensures tail[a].id != tail[b].id
        {
          assert tail[a] == ws[a + 1] && tail[b] == ws[b + 1];
        }
      }
      assert forall w :: w in ws <==> w == ws[0] || w in tail;
      assert !Holds(tail, ws[0].id) by {
        forall k | 0 <= k < |tail|
          ensures tail[k].id != ws[0].id
        {
          assert tail[k] == ws[k + 1];
        }
      }
      RemoveExactly(tail, id);
      if ws[0].id != id {
        var r := Remove(ws, id);
        var rt := Remove(tail, id);
        assert r == [ws[0]] + rt;
        assert forall w :: w in r <==> w == ws[0] || w in rt;
        assert DistinctIds(r) by {
          forall a, b | 0 <= a < b < |r|
            ensures r[a].id != r[b].id
          {
            assert r[b] == rt[b - 1];
            if a > 0 {
              assert r[a] == rt[a - 1];
            } else {
              assert r[b] in tail;
            }
          }
        }
      }
    }
  }

  /** Closing an already closed window again changes nothing. */
  lemma {:induction false} RemoveIdempotent(ws: seq<Record>, id: nat)
    requires DistinctIds(ws)
    ensures Remove(Remove(ws, id), id) == Remove(ws, id)
  {
    RemoveExactly(ws, id);
  }

  /** The list's `remove(element)` as it runs: search for the first match,
      then cut it out. `removed` is the Boolean that `remove` reports. */
  method RemoveFrom(ws: seq<Record>, id: nat) returns (r: seq<Record>, removed: bool)
    ensures removed <==> Holds(ws, id)
    ensures r == Remove(ws, id)
  {
    var i := 0;
    while i < |ws| && ws[i].id != id
      invariant 0 <= i <= |ws|
      invariant forall k :: 0 <= k < i ==> ws[k].id != id
    {
      i := i + 1;
    }
    if i == |ws| {
      r, removed := ws, false;
    } else {
      RemoveCutsFirstMatch(ws, id, i);
      r, removed := ws[..i] + ws[i + 1..], true;
    }
  }
}
