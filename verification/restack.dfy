/** Client restacking and the stacking ring (fvwm/events.c, fvwm/stack.c). */
module StackOrder {

  ghost predicate AllDifferent<W>(ring: seq<W>) {
    forall i, j :: 0 <= i < j < |ring| ==> ring[i] != ring[j]
  }

  function IndexOf<W(==)>(ring: seq<W>, w: W): (k: nat)
    requires w in ring
    ensures k < |ring| && ring[k] == w && w !in ring[..k]
  {
    if ring[0] == w then 0 else
      assert w in ring[1..];
      var k := 1 + IndexOf(ring[1..], w);
      assert ring[..k] == [ring[0]] + ring[1..][..k - 1];
      k
  }

  function Removed<W(==)>(ring: seq<W>, w: W): seq<W>
    requires w in ring
  {
    var k := IndexOf(ring, w);
    ring[..k] + ring[k + 1..]
  }

  /** `w` right after `a`. */
  function AddedAfter<W(==)>(ring: seq<W>, w: W, a: W): seq<W>
    requires a in ring
  {
    var k := IndexOf(ring, a);
    ring[..k + 1] + [w] + ring[k + 1..]
  }

  /** Where the source puts `w`: the ring runs from the top window down, so above
      `s` means right after the window before `s`. */
  function Restacked<W(==)>(ring: seq<W>, w: W, s: W, above: bool): seq<W>
    requires |ring| > 0 && w in ring[1..] && s in ring[1..] && w != s && AllDifferent(ring)
  {
    SiblingPlace(ring, w, s);
    var rest := Removed(ring, w);
    AddedAfter(rest, w, if above then rest[IndexOf(rest, s) - 1] else s)
  }

  lemma IndexIs<W>(ring: seq<W>, k: nat)
    requires k < |ring| && AllDifferent(ring)
    ensures IndexOf(ring, ring[k]) == k
  {
  }

  lemma Others<W>(ring: seq<W>, k: nat)
    requires k < |ring| && AllDifferent(ring)
    ensures forall j :: 0 <= j < |ring| && j != k ==> ring[j] != ring[k]
  {
  }

  lemma CutAt<W>(ring: seq<W>, k: nat)
    requires k < |ring| && AllDifferent(ring)
    ensures var rest := ring[..k] + ring[k + 1..];
            && |rest| == |ring| - 1 && AllDifferent(rest)
            && (forall j :: 0 <= j < k ==> rest[j] == ring[j])
            && (forall j :: k <= j < |rest| ==> rest[j] == ring[j + 1])
  {
  }

  lemma CutMembers<W>(ring: seq<W>, k: nat)
    requires k < |ring| && AllDifferent(ring)
    ensures var rest := ring[..k] + ring[k + 1..];
            && ring[k] !in rest && (forall v :: v in rest <==> v in ring && v != ring[k])
            && multiset(rest) + multiset{ring[k]} == multiset(ring)
  {
    var rest := ring[..k] + ring[k + 1..];
    Others(ring, k);
    assert ring == ring[..k] + [ring[k]] + ring[k + 1..];
    forall v | v in ring && v != ring[k]
      ensures v in rest
    {
      var j :| 0 <= j < |ring| && ring[j] == v;
      assert rest[if j < k then j else j - 1] == v;
    }
  }

  lemma RemovedFacts<W>(ring: seq<W>, w: W)
    requires |ring| > 0 && w in ring[1..] && AllDifferent(ring)
    ensures w in ring && IndexOf(ring, w) > 0
    ensures var rest := Removed(ring, w);
            && |rest| == |ring| - 1 && rest[0] == ring[0] && AllDifferent(rest) && w !in rest
            && (forall v :: v in rest <==> v in ring && v != w)
            && multiset(rest) + multiset{w} == multiset(ring)
  {
    var i :| 0 <= i < |ring[1..]| && ring[1..][i] == w;
    IndexIs(ring, i + 1);
    assert Removed(ring, w) == ring[..i + 1] + ring[i + 2..];
    hide IndexOf, AllDifferent, Removed;
    CutFirst(ring, i + 1);
    CutMembers(ring, i + 1);
  }

  lemma CutFirst<W>(ring: seq<W>, k: nat)
    requires 0 < k < |ring| && AllDifferent(ring)
    ensures var rest := ring[..k] + ring[k + 1..];
            |rest| == |ring| - 1 && rest[0] == ring[0] && AllDifferent(rest)
  {
    CutAt(ring, k);
  }

  lemma AddedPlaces<W>(rest: seq<W>, w: W, k: nat)
    requires k < |rest| && AllDifferent(rest) && w !in rest
    ensures var r := rest[..k + 1] + [w] + rest[k + 1..];
            && |r| == |rest| + 1 && AllDifferent(r) && r[k + 1] == w
            && (forall j :: 0 <= j <= k ==> r[j] == rest[j])
            && (forall j :: k + 2 <= j < |r| ==> r[j] == rest[j - 1])
  {
  }

  lemma AddedMembers<W>(rest: seq<W>, w: W, k: nat)
    requires k < |rest|
    ensures var r := rest[..k + 1] + [w] + rest[k + 1..];
            multiset(r) == multiset(rest) + multiset{w} && r[..k + 1] + r[k + 2..] == rest
  {
    assert rest == rest[..k + 1] + rest[k + 1..];
  }

  lemma SiblingPlace<W>(ring: seq<W>, w: W, s: W)
    requires |ring| > 0 && w in ring[1..] && s in ring[1..] && w != s && AllDifferent(ring)
    ensures w in ring
    ensures var rest := Removed(ring, w);
            s in rest && IndexOf(rest, s) > 0 && w !in rest && AllDifferent(rest) && rest[0] == ring[0]
  {
    RemovedFacts(ring, w);
    var i :| 0 <= i < |ring[1..]| && ring[1..][i] == s;
    Others(ring, 0);
    assert ring[i + 1] == s && s in ring;
  }

  /** Restacking cuts the window out and puts it back after place `k`. */
  lemma RestackedIs<W>(ring: seq<W>, w: W, s: W, above: bool) returns (k: nat)
    requires |ring| > 0 && w in ring[1..] && s in ring[1..] && w != s && AllDifferent(ring)
    ensures w in ring && s in Removed(ring, w)
    ensures var rest := Removed(ring, w);
            && IndexOf(rest, s) == (if above then k + 1 else k)
            && Restacked(ring, w, s, above) == rest[..k + 1] + [w] + rest[k + 1..]
  {
    SiblingPlace(ring, w, s);
    var rest := Removed(ring, w);
    k := IndexOf(rest, s) - (if above then 1 else 0);
    IndexIs(rest, k);
  }

  /** Restacking a window next to a sibling: the ring holds the same windows, the
      window is directly above or below its sibling, and the others keep their
      order. */
  lemma RestackedFacts<W>(ring: seq<W>, w: W, s: W, above: bool)
    requires |ring| > 0 && w in ring[1..] && s in ring[1..] && w != s && AllDifferent(ring)
    ensures var r := Restacked(ring, w, s, above);
            && |r| == |ring| && r[0] == ring[0] && AllDifferent(r)
            && multiset(r) == multiset(ring)
            && w in ring && w in r && s in r && Removed(r, w) == Removed(ring, w)
            && IndexOf(r, if above then s else w) == IndexOf(r, if above then w else s) + 1
  {
    hide AllDifferent, Restacked;
    RemovedFacts(ring, w);
    SiblingPlace(ring, w, s);
    var k := RestackedIs(ring, w, s, above);
    var rest := Removed(ring, w);
    hide Removed;
    AddedPlaces(rest, w, k);
    AddedMembers(rest, w, k);
    var r := rest[..k + 1] + [w] + rest[k + 1..];
    IndexIs(r, k + 1);
    IndexIs(r, if above then k + 2 else k);
    RemovedIs(r, k + 1);
  }

  /** Said of the order alone: where the other windows stand as `front`, `s` and `back`,
      the window ends up right before or right behind `s`. */
  lemma RestackedSplits<W>(ring: seq<W>, w: W, s: W, above: bool, x: seq<W>, y: seq<W>, front: seq<W>, back: seq<W>)
    requires |ring| > 0 && w in ring[1..] && s in ring[1..] && w != s && AllDifferent(ring)
    requires ring == x + [w] + y && x + y == front + [s] + back
    ensures Restacked(ring, w, s, above) == if above then front + [w, s] + back else front + [s, w] + back
  {
    RemovedSplits(ring, w, x, y);
    SiblingPlace(ring, w, s);
    IndexSplits(x + y, s, front, back);
    var k := RestackedIs(ring, w, s, above);
    hide *;
    PutInto(x + y, w, s, front, back);
  }

  lemma RemovedSplits<W>(ring: seq<W>, w: W, x: seq<W>, y: seq<W>)
    requires AllDifferent(ring) && ring == x + [w] + y
    ensures w in ring && Removed(ring, w) == x + y
  {
    assert ring[|x|] == w && ring[..|x|] == x && ring[|x| + 1..] == y;
    RemovedIs(ring, |x|);
  }

  lemma IndexSplits<W>(rest: seq<W>, s: W, front: seq<W>, back: seq<W>)
    requires AllDifferent(rest) && rest == front + [s] + back
    ensures s in rest && IndexOf(rest, s) == |front|
  {
    assert rest[|front|] == s;
    IndexIs(rest, |front|);
  }

  lemma PutInto<W>(rest: seq<W>, w: W, s: W, front: seq<W>, back: seq<W>)
    requires rest == front + [s] + back
    ensures rest[..|front|] + [w] + rest[|front|..] == front + [w, s] + back
    ensures rest[..|front| + 1] + [w] + rest[|front| + 1..] == front + [s, w] + back
  {
  }

  lemma RestackedCases<W>(ring: seq<W>, w: W, s: W, above: bool)
    requires |ring| > 0 && w in ring[1..] && s in ring[1..] && w != s && AllDifferent(ring)
    ensures w in ring && s in Removed(ring, w) && IndexOf(Removed(ring, w), s) > 0
    ensures var rest := Removed(ring, w);
            Restacked(ring, w, s, above) ==
            AddedAfter(rest, w, if above then rest[IndexOf(rest, s) - 1] else s)
  {
    SiblingPlace(ring, w, s);
  }

  lemma RemovedIs<W>(ring: seq<W>, k: nat)
    requires k < |ring| && AllDifferent(ring)
    ensures Removed(ring, ring[k]) == ring[..k] + ring[k + 1..]
  {
    IndexIs(ring, k);
  }

  /** Layers fall from the top window, at place 1, down. */
  ghost predicate LayersFall<W>(ring: seq<W>, layer: map<W, int>) {
    && (forall v :: v in ring ==> v in layer)
    && forall i, j :: 1 <= i <= j < |ring| ==> layer[ring[i]] >= layer[ring[j]]
  }

  lemma CutKeepsLayers<W>(ring: seq<W>, k: nat, layer: map<W, int>)
    requires 1 <= k < |ring| && LayersFall(ring, layer)
    ensures LayersFall(ring[..k] + ring[k + 1..], layer)
  {
    var rest := ring[..k] + ring[k + 1..];
    assert forall j :: 0 <= j < |rest| ==> rest[j] == ring[if j < k then j else j + 1];
  }

  lemma AddingKeepsLayers<W>(rest: seq<W>, w: W, k: nat, p: nat, layer: map<W, int>)
    requires k < |rest| && 1 <= p < |rest| && (p == k || p == k + 1) && LayersFall(rest, layer)
    requires w in layer && layer[w] == layer[rest[p]]
    ensures LayersFall(rest[..k + 1] + [w] + rest[k + 1..], layer)
  {
    var r := rest[..k + 1] + [w] + rest[k + 1..];
    assert forall j :: 0 <= j < |r| && j != k + 1 ==> r[j] == rest[if j <= k then j else j - 1];
  }

  /** Restacking within a layer keeps the layers in order from the top down. */
  lemma RestackedKeepsLayers<W>(ring: seq<W>, w: W, s: W, above: bool, layer: map<W, int>)
    requires |ring| > 0 && w in ring[1..] && s in ring[1..] && w != s && AllDifferent(ring)
    requires forall v | v in ring :: v in layer
    requires forall i, j | 1 <= i <= j < |ring| :: layer[ring[i]] >= layer[ring[j]]
    requires w in layer && s in layer && layer[w] == layer[s]
    ensures var r := Restacked(ring, w, s, above);
            && (forall v | v in r :: v in layer)
            && forall i, j | 1 <= i <= j < |r| :: layer[r[i]] >= layer[r[j]]
  {
    assert LayersFall(ring, layer);
    hide LayersFall, AllDifferent, Restacked;
    FallsAfter(ring, w, s, above, layer);
    LayersAre(Restacked(ring, w, s, above), layer);
  }

  lemma LayersAre<W>(r: seq<W>, layer: map<W, int>)
    requires LayersFall(r, layer)
    ensures forall v | v in r :: v in layer
    ensures forall i, j | 1 <= i <= j < |r| :: layer[r[i]] >= layer[r[j]]
  {
  }

  lemma FallsAfter<W>(ring: seq<W>, w: W, s: W, above: bool, layer: map<W, int>)
    requires |ring| > 0 && w in ring[1..] && s in ring[1..] && w != s && AllDifferent(ring)
    requires LayersFall(ring, layer) && layer[w] == layer[s]
    ensures LayersFall(Restacked(ring, w, s, above), layer)
  {
    hide LayersFall, AllDifferent, Restacked;
    LayersKnown(ring, w, layer);
    RemovedFacts(ring, w);
    SiblingPlace(ring, w, s);
    CutKeepsLayers(ring, IndexOf(ring, w), layer);
    var rest := Removed(ring, w);
    var k := RestackedIs(ring, w, s, above);
    AddingKeepsLayers(rest, w, k, IndexOf(rest, s), layer);
  }

  lemma LayersKnown<W>(ring: seq<W>, w: W, layer: map<W, int>)
    requires |ring| > 0 && w in ring[1..] && LayersFall(ring, layer)
    ensures w in layer
  {
    assert w in ring;
  }
}

module Restack {
  import opened StackOrder

  class FvwmWindow {
    var stackNext: FvwmWindow?
    var stackPrev: FvwmWindow?
    var layer: int
    var scheduledForDestroy: bool

    constructor (layer: int)
      ensures this.layer == layer && !scheduledForDestroy
    {
      this.layer := layer;
      scheduledForDestroy := false;
      stackNext, stackPrev := null, null;
    }
  }

  datatype Detail = Above | Below | Unusual

  /** What a request leads to; raising, lowering and the unusual modes are done
      elsewhere. */
  datatype Outcome = Stacked | Raise | Lower | UnusualMode

  class StackRing {
    const root: FvwmWindow
    /** The windows in ring order; the anchor comes first, then the top window. */
    ghost var ring: seq<FvwmWindow>
    /** The managed windows and the anchor. */
    ghost var windows: set<FvwmWindow>

    static function Succ(i: nat, n: nat): nat { if i + 1 < n then i + 1 else 0 }

    /** The window at place `i` and the one after it point at each other. */
    static ghost predicate LinkAt(r: seq<FvwmWindow>, i: nat)
      requires i < |r|
      reads r[i], r[Succ(i, |r|)]
    {
      var j := Succ(i, |r|);
      r[i].stackNext == r[j] && r[j].stackPrev == r[i]
    }

    ghost predicate Valid()
      reads this, windows
    {
      && |ring| > 0 && ring[0] == root && AllDifferent(ring)
      && (forall i :: 0 <= i < |ring| ==> ring[i] in windows)
      && forall i :: 0 <= i < |ring| ==> LinkAt(ring, i)
    }

    constructor (root: FvwmWindow)
      modifies root
      ensures Valid() && ring == [root] && windows == {root} && this.root == root
    {
      this.root := root;
      ring, windows := [root], {root};
      new;
      root.stackNext, root.stackPrev := root, root;
    }

    /** remove_window_from_stack_ring() */
    method Remove(t: FvwmWindow)
      requires Valid() && (!t.scheduledForDestroy ==> t in ring[1..])
      modifies this`ring, windows`stackNext, windows`stackPrev
      ensures Valid()
      ensures ring == if t.scheduledForDestroy then old(ring) else Removed(old(ring), t)
    {
      if t.scheduledForDestroy {
        return;
      }
      RemovedFacts(ring, t);
      ghost var k, before := IndexOf(ring, t), ring;
      CutAt(ring, k);
      Others(ring, k);
      Others(ring, k - 1);
      Others(ring, Succ(k, |ring|));
      assert LinkAt(ring, k - 1) && LinkAt(ring, k);
      hide AllDifferent, IndexOf;
      t.stackPrev.stackNext := t.stackNext;
      t.stackNext.stackPrev := t.stackPrev;
      t.stackPrev := null;
      t.stackNext := null;
      ring := ring[..k] + ring[k + 1..];
      forall i | 0 <= i < |ring|
        ensures LinkAt(ring, i)
      {
        var m := if i < k then i else i + 1;
        assert old(LinkAt(before, m));
      }
    }

    /** add_window_to_stack_ring_after() */
    method AddAfter(t: FvwmWindow, a: FvwmWindow)
      requires Valid() && t in windows && a in ring && (!t.scheduledForDestroy ==> t !in ring)
      modifies this`ring, windows`stackNext, windows`stackPrev
      ensures Valid()
      ensures ring == if t.scheduledForDestroy then old(ring) else AddedAfter(old(ring), t, a)
    {
      ghost var k, before := IndexOf(ring, a), ring;
      assert LinkAt(ring, k);
      if t.scheduledForDestroy || t == a || t == a.stackNext {
        return;
      }
      AddedPlaces(ring, t, k);
      Others(ring, k);
      Others(ring, Succ(k, |ring|));
      hide AllDifferent, IndexOf;
      Link(t, a, a.stackNext);
      ring := ring[..k + 1] + [t] + ring[k + 1..];
      forall i | 0 <= i < |ring|
        ensures LinkAt(ring, i)
      {
        if i < k || i > k + 1 {
          var m := if i < k then i else i - 1;
          assert ring[i] == before[m] && ring[Succ(i, |ring|)] == before[Succ(m, |before|)];
          assert old(LinkAt(before, m));
        }
      }
    }

    method Link(t: FvwmWindow, a: FvwmWindow, b: FvwmWindow)
      requires t != a && t != b
      modifies t`stackNext, t`stackPrev, a`stackNext, b`stackPrev
      ensures t.stackNext == b && t.stackPrev == a && a.stackNext == t && b.stackPrev == t
    {
      t.stackNext := b;
      b.stackPrev := t;
      t.stackPrev := a;
      a.stackNext := t;
    }

    /** Takes the window out of the ring and puts it next to its sibling. */
    method PutNextTo(fw: FvwmWindow, fw2: FvwmWindow, above: bool)
      requires Valid() && !fw.scheduledForDestroy && fw in ring[1..] && fw2 in ring[1..] && fw != fw2
      modifies this`ring, windows`stackNext, windows`stackPrev
      ensures Valid() && ring == Restacked(old(ring), fw, fw2, above)
      ensures if above then fw.stackNext == fw2 else fw2.stackNext == fw
    {
      ghost var was := ring;
      TakeOutAndPut(fw, fw2, above);
      Neighbours(was, fw, fw2, above);
    }

    lemma Neighbours(was: seq<FvwmWindow>, fw: FvwmWindow, fw2: FvwmWindow, above: bool)
      requires |was| > 0 && fw in was[1..] && fw2 in was[1..] && fw != fw2 && AllDifferent(was)
      requires Valid() && ring == Restacked(was, fw, fw2, above)
      ensures if above then fw.stackNext == fw2 else fw2.stackNext == fw
    {
      RestackedFacts(was, fw, fw2, above);
      var k := IndexOf(ring, if above then fw else fw2);
      assert LinkAt(ring, k);
      hide Restacked, AllDifferent;
    }

    method TakeOutAndPut(fw: FvwmWindow, fw2: FvwmWindow, above: bool)
      requires Valid() && !fw.scheduledForDestroy && fw in ring[1..] && fw2 in ring[1..] && fw != fw2
      modifies this`ring, windows`stackNext, windows`stackPrev
      ensures Valid() && ring == Restacked(old(ring), fw, fw2, above)
    {
      hide *;
      Places(fw);
      Places(fw2);
      RemovedFacts(ring, fw);
      RestackedCases(ring, fw, fw2, above);
      Remove(fw);
      if above {
        var a := Previous(fw2);
        AddAfter(fw, a);
      } else {
        AddAfter(fw, fw2);
      }
    }

    lemma Places(fw: FvwmWindow)
      requires Valid() && fw in ring[1..]
      ensures fw in ring && fw in windows && AllDifferent(ring) && |ring| > 0
    {
    }

    /** get_prev_window_in_stack_ring() */
    method Previous(t: FvwmWindow) returns (u: FvwmWindow)
      requires Valid() && t in ring && IndexOf(ring, t) > 0
      ensures u == ring[IndexOf(ring, t) - 1] && u in ring
    {
      assert LinkAt(ring, IndexOf(ring, t) - 1);
      u := t.stackPrev;
    }

    /** _handle_cr_restack(): clients restack their windows within a layer. */
    method HandleRestack(fw: FvwmWindow, sibling: FvwmWindow?, detail: Detail) returns (outcome: Outcome)
      requires Valid() && !fw.scheduledForDestroy && fw in ring[1..]
      requires sibling != null ==> sibling in ring[1..]
      modifies this`ring, windows`stackNext, windows`stackPrev
      ensures Valid()
      ensures outcome == if detail == Unusual then UnusualMode
                         else if sibling == null || sibling == fw || sibling.layer != fw.layer
                         then if detail == Above then Raise else Lower
                         else Stacked
      ensures ring == if outcome == Stacked then Restacked<FvwmWindow>(old(ring), fw, sibling, detail == Above)
                      else old(ring)
      ensures ring[0] == root && multiset(ring) == multiset(old(ring))
      ensures outcome == Stacked ==> if detail == Above then fw.stackNext == sibling else sibling.stackNext == fw
    {
      hide AllDifferent, Restacked, LinkAt, IndexOf, Removed, AddedAfter;
      var fw2 := sibling;
      if fw2 == fw {
        fw2 := null;
      }
      if detail == Unusual {
        return UnusualMode;
      }
      if fw2 == null || fw2.layer != fw.layer {
        return if detail == Above then Raise else Lower;
      }
      Places(fw);
      RestackedFacts<FvwmWindow>(ring, fw, fw2, detail == Above);
      PutNextTo(fw, fw2, detail == Above);
      return Stacked;
    }
  }
}
