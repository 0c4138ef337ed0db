/** The tab order handed to reorder_worksheets: the new snapshot sheet first,
    then every other sheet in its current order. */
module Tabs {

  /** A worksheet as far as ordering goes: its id and title. */
  datatype Worksheet = Worksheet(id: int, title: string)

  /** The sheets of ws whose id differs from id, in order. */
  function OthersById(ws: seq<Worksheet>, id: int): seq<Worksheet>
  {
    if ws == [] then []
    else (if ws[0].id != id then [ws[0]] else []) + OthersById(ws[1..], id)
  }

  /** A sheet survives the filter exactly when it was there and has another id. */
  lemma {:induction false} OthersByIdMembers(ws: seq<Worksheet>, id: int, w: Worksheet)
    ensures w in OthersById(ws, id) <==> w in ws && w.id != id
  {
    if ws != [] {
      OthersByIdMembers(ws[1..], id, w);
      assert ws == [ws[0]] + ws[1..];
    }
  }

  /** The order handed to reorder_worksheets: the new sheet, then every
      current sheet whose id differs from its id, in their current order. */
  function NewOrder(all: seq<Worksheet>, newWs: Worksheet): (order: seq<Worksheet>)
    ensures |order| >= 1 && order[0] == newWs
  {
    [newWs] + OthersById(all, newWs.id)
  }

  /** After the new sheet come exactly the sheets with a different id. */
  lemma {:induction false} NewOrderMembers(all: seq<Worksheet>, newWs: Worksheet, w: Worksheet)
    ensures w in NewOrder(all, newWs)[1..] <==> w in all && w.id != newWs.id
  {
    assert NewOrder(all, newWs)[1..] == OthersById(all, newWs.id);
    OthersByIdMembers(all, newWs.id, w);
  }

  /** Filtering keeps relative order: it distributes over concatenation. */
  lemma {:induction false} OthersByIdAppend(a: seq<Worksheet>, b: seq<Worksheet>, id: int)
    ensures OthersById(a + b, id) == OthersById(a, id) + OthersById(b, id)
  {
    if a == [] {
      assert a + b == b;
    } else {
      var ab := a + b;
      assert ab[0] == a[0];
      assert ab[1..] == a[1..] + b;
      calc {
        OthersById(ab, id);
        (if a[0].id != id then [a[0]] else []) + OthersById(a[1..] + b, id);
        { OthersByIdAppend(a[1..], b, id); }
        (if a[0].id != id then [a[0]] else []) + (OthersById(a[1..], id) + OthersById(b, id));
      }
    }
  }

  /** A sequence holding no sheet with that id passes through unchanged. */
  lemma {:induction false} OthersByIdNone(ws: seq<Worksheet>, id: int)
    requires forall i | 0 <= i < |ws| :: ws[i].id != id
    ensures OthersById(ws, id) == ws
  {
    if ws != [] {
      OthersByIdNone(ws[1..], id);
    }
  }

  predicate UniqueIds(ws: seq<Worksheet>)
  {
    forall i, j | 0 <= i < j < |ws| :: ws[i].id != ws[j].id
  }

  /** Filtering out the one sheet carrying that id joins what was around it. */
  lemma {:induction false} OthersByIdAroundOne(a: seq<Worksheet>, w: Worksheet, b: seq<Worksheet>)
    requires forall i | 0 <= i < |a| :: a[i].id != w.id
    requires forall i | 0 <= i < |b| :: b[i].id != w.id
    ensures OthersById(a + [w] + b, w.id) == a + b
  {
    OthersByIdNone(a, w.id);
    OthersByIdNone(b, w.id);
    assert OthersById([w], w.id) == [];
    OthersByIdAppend(a + [w], b, w.id);
    OthersByIdAppend(a, [w], w.id);
  }

  /** With unique ids and the new sheet among them, the new sheet moves to the
      front and the others keep their order. */
  lemma {:induction false} NewOrderMovesToFront(all: seq<Worksheet>, newWs: Worksheet)
    requires UniqueIds(all)
    requires newWs in all
    ensures var k := IndexOfSheet(all, newWs);
      NewOrder(all, newWs) == [newWs] + all[..k] + all[k + 1..]
  {
    var k := IndexOfSheet(all, newWs);
    var a, b := all[..k], all[k + 1..];
    forall i | 0 <= i < |a| ensures a[i].id != newWs.id {
      assert a[i] == all[i];
    }
    forall i | 0 <= i < |b| ensures b[i].id != newWs.id {
      assert b[i] == all[k + 1 + i];
    }
    assert all == a + [newWs] + b;
    OthersByIdAroundOne(a, newWs, b);
    assert NewOrder(all, newWs) == [newWs] + (a + b);
  }

  /** ... and so the new order is a rearrangement of the current sheets. */
  lemma {:induction false} NewOrderIsPermutation(all: seq<Worksheet>, newWs: Worksheet)
    requires UniqueIds(all)
    requires newWs in all
    ensures multiset(NewOrder(all, newWs)) == multiset(all)
  {
    var k := IndexOfSheet(all, newWs);
    NewOrderMovesToFront(all, newWs);
    var a, b := all[..k], all[k + 1..];
    assert all == a + [newWs] + b;
    assert multiset(all) == multiset(a) + multiset([newWs]) + multiset(b);
    assert multiset([newWs] + a + b) == multiset([newWs]) + multiset(a) + multiset(b);
  }

  function IndexOfSheet(ws: seq<Worksheet>, w: Worksheet): (k: nat)
    requires w in ws
    ensures k < |ws| && ws[k] == w
  {
    if ws[0] == w then 0 else 1 + IndexOfSheet(ws[1..], w)
  }
}
