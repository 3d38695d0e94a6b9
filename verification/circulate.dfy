/** The circular search through the window list (fvwm/conditional.c). */
module CyclicOrder {

  /** How many steps the search needs from just past place `k` to place `i` of `n`:
      towards the front for a positive direction, else towards the back.  Without a
      start, `k` is the place just outside the list. */
  function Rank(n: nat, k: int, direction: int, i: nat): int {
    if direction > 0 then if i < k then k - 1 - i else n - 1 - i + k
    else if i > k then i - k - 1 else n - 1 - k + i
  }

  /** The place just outside the end where a search without a start begins. */
  function Outside(direction: int): int { if direction > 0 then 0 else -1 }

  /** The ranks go round: the neighbour in search direction has the next rank, the
      two ends are neighbours, no two places have the same rank, and the start
      comes last. */
  lemma RankIsCyclic(n: nat, k: int, direction: int, i: nat, j: nat)
    requires direction != 0 && i < n && j < n && (0 <= k < n || k == Outside(direction))
    ensures 0 <= Rank(n, k, direction, i) < n
    ensures i != j ==> Rank(n, k, direction, i) != Rank(n, k, direction, j)
    ensures i != k ==>
              var next := if direction > 0 then (if i > 0 then i - 1 else n - 1) else (if i + 1 < n then i + 1 else 0);
              (k == Outside(direction) && next == (if direction > 0 then n - 1 else 0)) ||
              Rank(n, k, direction, next) == Rank(n, k, direction, i) + 1
    ensures 0 <= k < n ==> Rank(n, k, direction, k) == n - 1
  {
  }
}

module Circulation {
  import opened CyclicOrder

  class FvwmWindow {
    var next: FvwmWindow?
    var prev: FvwmWindow?

    constructor ()
    {
      next, prev := null, null;
    }
  }

  class WindowList {
    const root: FvwmWindow
    ghost var list: seq<FvwmWindow>

    ghost predicate Valid()
      reads this, root, list
    {
      && root !in list
      && (forall i, j :: 0 <= i < j < |list| ==> list[i] != list[j])
      && root.next == (if list == [] then null else list[0])
      && (forall i {:trigger list[i].prev} :: 0 <= i < |list| ==>
            list[i].prev == if i == 0 then root else list[i - 1])
      && (forall i {:trigger list[i].next} :: 0 <= i < |list| ==>
            list[i].next == if i == |list| - 1 then null else list[i + 1])
    }

    constructor ()
      ensures Valid() && list == [] && fresh(root)
    {
      root := new FvwmWindow();
      list := [];
      new;
      root.next := null;
    }

    ghost predicate NoMatch(lo: int, hi: int, matches: FvwmWindow -> bool)
      reads this
    {
      forall i :: 0 <= i < |list| && lo <= i < hi ==> !matches(list[i])
    }

    /** The far end of the list in search direction. */
    method FarEnd(direction: int) returns (fw: FvwmWindow?)
      requires Valid() && direction != 0
      ensures fw == if list == [] then null else list[if direction > 0 then |list| - 1 else 0]
    {
      fw := root.next;
      if direction > 0 {
        ghost var p := 0;
        while fw != null && fw.next != null
          invariant fw == null <==> list == []
          invariant fw != null ==> 0 <= p < |list| && fw == list[p]
          decreases |list| - p
        {
          fw := fw.next;
          p := p + 1;
        }
      }
    }

    /** One pass of the search from `fw`, at place `p`, to the end of the list. */
    method Pass(start: FvwmWindow?, direction: int, matches: FvwmWindow -> bool, ghost p: int)
      returns (found: FvwmWindow?, ghost q: int)
      requires Valid() && direction != 0 && -1 <= p <= |list| && (direction < 0 ==> 0 <= p)
      requires start == (if 0 <= p < |list| then list[p] else if p == -1 then root else null) ||
               (start == null && list == [])
      ensures found != null ==> 0 <= q < |list| && found == list[q] && matches(found)
      ensures found != null && direction > 0 ==> q <= p && NoMatch(q + 1, p + 1, matches)
      ensures found != null && direction < 0 ==> p <= q && NoMatch(p, q, matches)
      ensures found == null && start != null && direction > 0 ==> NoMatch(0, p + 1, matches)
      ensures found == null && direction < 0 ==> NoMatch(p, |list|, matches)
    {
      var fw := start;
      found := null;
      q := p;
      while fw != null && found == null && fw != root
        invariant found == null ==> -1 <= q <= |list|
        invariant found == null ==>
                    fw == (if 0 <= q < |list| then list[q] else if q == -1 then root else null) ||
                    (fw == null && list == [])
        invariant found != null ==> 0 <= q < |list| && found == list[q] && matches(found)
        invariant direction > 0 ==> q <= p && NoMatch(q + 1, p + 1, matches)
        invariant direction < 0 ==> p <= q && NoMatch(p, q, matches)
        invariant fw == null ==> start == null || direction < 0
        decreases if found != null then 0 else if direction > 0 then q + 2 else |list| + 1 - q
      {
        if matches(fw) {
          found := fw;
        } else if direction > 0 {
          fw := fw.prev;
          q := q - 1;
        } else {
          fw := fw.next;
          q := q + 1;
        }
      }
    }

    /** Circulate(): `sf` is where to start, `focus` the window to start from
        without one.  The condition mask is a predicate on windows. */
    method Circulate(sf: FvwmWindow?, focus: FvwmWindow?, direction: int, matches: FvwmWindow -> bool, ghost k: int)
      returns (found: FvwmWindow?, ghost at: int)
      requires Valid()
      requires var s := if sf == null || direction == 0 then focus else sf;
               if s == null then k == Outside(direction) else 0 <= k < |list| && list[k] == s
      ensures direction == 0 ==>
                var s := focus;
                found == if s != null && matches(s) then s else null
      ensures direction != 0 && found == null ==> forall i :: 0 <= i < |list| ==> !matches(list[i])
      ensures direction != 0 && found != null ==>
                && 0 <= at < |list| && list[at] == found && matches(found)
                && forall i :: 0 <= i < |list| && matches(list[i]) ==>
                     Rank(|list|, k, direction, at) <= Rank(|list|, k, direction, i)
    {
      at := -1;
      var s := if sf == null || direction == 0 then focus else sf;
      if direction == 0 {
        return if s != null && matches(s) then s else null, -1;
      }
      var fw: FvwmWindow? := null;
      ghost var p := |list|;
      if s != null {
        if direction > 0 {
          fw, p := s.prev, k - 1;
        } else {
          fw, p := s.next, k + 1;
        }
      }
      ghost var first := p;
      found := null;
      var pass := 0;
      while pass < 3 && found == null
        invariant 0 <= pass <= 3
        invariant found == null ==> -1 <= p <= |list| && (direction < 0 ==> 0 <= p)
        invariant found == null && pass == 0 ==> p == first
        invariant found == null && pass == 0 && s != null && direction > 0 ==> fw != null
        invariant found == null && pass > 0 ==> p == (if direction > 0 then |list| - 1 else 0)
        invariant found == null ==>
                    fw == (if 0 <= p < |list| then list[p] else if p == -1 then root else null) ||
                    (fw == null && list == [])
        invariant found == null && pass > 0 && s != null ==>
                    if direction > 0 then NoMatch(0, k, matches) else NoMatch(k + 1, |list|, matches)
        invariant found == null && pass > 1 ==> NoMatch(0, |list|, matches)
        invariant found != null ==>
                    && 0 <= at < |list| && list[at] == found && matches(found)
                    && forall i :: 0 <= i < |list| && matches(list[i]) ==>
                         Rank(|list|, k, direction, at) <= Rank(|list|, k, direction, i)
      {
        found, at := Pass(fw, direction, matches, p);
        if found == null {
          fw := FarEnd(direction);
          p := if direction > 0 then |list| - 1 else 0;
        }
        pass := pass + 1;
      }
    }
  }
}
