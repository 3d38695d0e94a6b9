/** The icon and mini icon that the window manager donates to a window
    (fvwm/ewmh_icons.c). */
module DonatedIcons {
  import opened CStrings
  import opened IconList
  import opened WmIcons

  datatype Picture = Picture(w: nat, h: nat, image: (nat, nat) -> Card32)

  function Record(p: Picture): Rec { Rec(p.w, p.h, Raster(p.image, p.w, p.h)) }

  function Present(r: Option<Rec>): seq<Rec> { if r.Some? then [r.value] else [] }

  /** The size that is noted for an icon: zero if there is none. */
  function Size(r: Option<Rec>): (nat, nat) { if r.Some? then (r.value.w, r.value.h) else (0, 0) }

  predicate DifferentSize(a: Option<Rec>, b: Option<Rec>) {
    a.Some? && b.Some? ==> !a.value.HasSize(b.value.w, b.value.h)
  }

  /** The records of the two icons, in either order. */
  ghost predicate Holds(rs: seq<Rec>, icon: Option<Rec>, mini: Option<Rec>) {
    rs == Present(icon) + Present(mini) || rs == Present(mini) + Present(icon)
  }

  /** Selecting by the size of one icon finds that icon, or nothing if it is not
      there. */
  lemma SelectsBySize(rs: seq<Rec>, icon: Option<Rec>, mini: Option<Rec>)
    requires Holds(rs, icon, mini) && RecsOk(rs) && DifferentSize(icon, mini)
    ensures FindSize(rs, Size(icon).0, Size(icon).1) == icon
    ensures FindSize(rs, Size(mini).0, Size(mini).1) == mini
  {
    assert forall k :: 0 <= k < |rs| ==> Sized(rs[k]);
    if icon.Some? && mini.Some? {
      assert rs == [icon.value, mini.value] || rs == [mini.value, icon.value];
      assert rs[1..] == [rs[1]] && rs[1..][1..] == [];
    } else if icon.Some? {
      assert rs == [icon.value];
    } else if mini.Some? {
      assert rs == [mini.value];
    }
  }

  lemma FlattenOne(r: Rec)
    requires Sized(r)
    ensures RecsOk([r]) && Flatten([r]) == Image(r)
  {
    assert [r][1..] == [];
  }

  lemma FlattenTwo(a: Rec, b: Rec)
    requires Sized(a) && Sized(b)
    ensures RecsOk([a, b]) && Flatten([a, b]) == Image(a) + Image(b)
  {
    FlattenOne(b);
    assert [a, b][1..] == [b];
  }

  lemma FirstHeader(a: Rec, b: Rec)
    requires Sized(a) && Sized(b) && |Image(a) + Image(b)| < TWO31
    ensures var list := Image(a) + Image(b);
            && 1 < |list| && list[0] == a.w && list[1] == a.h && |Image(a)| == 2 + Area(list, 0)
            && Area(list, 0) > 0 && Steady(list, 0) && Fits(list, 0)
  {
    FlattenTwo(a, b);
    hide Image, Area, Steady, Fits;
    assert [] + (Image(a) + Image(b)) == Image(a) + Image(b) && [] + Image(a) == Image(a);
    HeaderOf([], [a, b]);
  }

  lemma SecondHeader(a: Rec, b: Rec)
    requires Sized(a) && Sized(b) && |Image(a) + Image(b)| < TWO31
    ensures var list, i := Image(a) + Image(b), |Image(a)|;
            && i + 1 < |list| && list[i] == b.w && list[i + 1] == b.h && |Image(b)| == 2 + Area(list, i)
            && Area(list, i) > 0 && Steady(list, i) && Fits(list, i)
  {
    FlattenOne(b);
    hide Image, Area, Steady, Fits;
    HeaderOf(Image(a), [b]);
  }

  lemma TwoEnd(a: Rec, b: Rec)
    requires Sized(a) && Sized(b) && |Image(a) + Image(b)| < TWO31
    ensures NoWrap(Image(a) + Image(b))
  {
    FlattenTwo(a, b);
    hide Image;
    WellFormedNoWrap([a, b]);
  }

  /** Donating an icon and then a mini icon gives the list of both records.  A
      search by size finds the first of them whole, and the second one exactly if
      its size is another one. */
  lemma TwoRecordsRoundTrip(a: Rec, b: Rec)
    requires Sized(a) && Sized(b) && |Image(a) + Image(b)| < TWO31
    ensures var list := Image(a) + Image(b);
            && Ends(list)
            && KeepIn(list, Looked(list), a.w, a.h) == Some((0, |Image(a)|))
            && (KeepIn(list, Looked(list), b.w, b.h) == Some((|Image(a)|, |Image(b)|)) <==> a.w != b.w || a.h != b.h)
  {
    var list := Image(a) + Image(b);
    FirstHeader(a, b);
    SecondHeader(a, b);
    TwoEnd(a, b);
    hide Image, Area, Steady, Fits, Sized, Keep, KeepIn, Looked, Ends, Visited;
    KeepStep(list, 0, [a, b], a.w, a.h);
    KeepStep(list, 0, [a, b], b.w, b.h);
    KeepStep(list, |Image(a)|, [b], b.w, b.h);
    NoWrapEnds(list);
    KeepsFirst(list, a.w, a.h, 0);
    KeepsFirst(list, b.w, b.h, 0);
  }

  lemma {:induction false} FoundIsThere(rs: seq<Rec>, kw: nat, kh: nat)
    ensures FindSize(rs, kw, kh).Some? ==> FindSize(rs, kw, kh).value in rs
  {
    if rs != [] {
      FoundIsThere(rs[1..], kw, kh);
    }
  }

  lemma KeepPresent(rs: seq<Rec>, r: Option<Rec>, kw: nat, kh: nat)
    requires RecsOk(rs) && |Flatten(rs)| < TWO31 && FindSize(rs, kw, kh) == r
    ensures Ends(Flatten(rs)) && RecsOk(Present(r))
    ensures var k := KeepIn(Flatten(rs), Looked(Flatten(rs)), kw, kh);
            if r.Some? then k.Some? && k.value.1 > 0 && k.value.0 + k.value.1 <= |Flatten(rs)|
                               && Flatten(rs)[k.value.0..k.value.0 + k.value.1] == Flatten(Present(r))
            else k.None? && Flatten(Present(r)) == []
  {
    hide *;
    WellFormedNoWrap(rs);
    assert [] + Flatten(rs) == Flatten(rs);
    KeepsRecord([], rs, kw, kh);
    NoWrapEnds(Flatten(rs));
    KeepsFirst(Flatten(rs), kw, kh, 0);
    PresentIs(rs, r);
  }

  lemma PresentIs(rs: seq<Rec>, r: Option<Rec>)
    requires RecsOk(rs) && (r.Some? ==> r.value in rs)
    ensures RecsOk(Present(r))
    ensures r.Some? ==> Sized(r.value) && Flatten(Present(r)) == Image(r.value)
    ensures r.None? ==> Flatten(Present(r)) == []
  {
    if r.Some? {
      assert Sized(r.value);
      FlattenOne(r.value);
    }
  }

  ghost predicate AreStored(rs: seq<Rec>, property: Option<seq<Card32>>, icon: Option<Rec>, mini: Option<Rec>,
                            iconSize: (nat, nat), miniSize: (nat, nat)) {
    && Holds(rs, icon, mini) && RecsOk(rs) && 4 * |Flatten(rs)| < TWO31
    && property == (if rs == [] then None else Some(Flatten(rs)))
    && iconSize == Size(icon) && miniSize == Size(mini)
  }

  /** A new record behind the one that was found: these are the two icons exactly if
      the other one was found. */
  lemma StoredIffFound(found: Option<Rec>, other: Option<Rec>, r: Rec, isMini: bool, size: (nat, nat))
    requires RecsOk(Present(found) + [r]) && size == Size(other)
    requires 4 * |Flatten(Present(found) + [r])| < TWO31
    ensures var rs, property := Present(found) + [r], Some(Flatten(Present(found) + [r]));
            if isMini then AreStored(rs, property, other, Some(r), size, (r.w, r.h)) <==> found == other
            else AreStored(rs, property, Some(r), other, (r.w, r.h), size) <==> found == other
  {
    HoldsIff(found, other, r, isMini);
    hide Flatten, RecsOk, Holds, Present;
  }

  lemma HoldsIff(found: Option<Rec>, other: Option<Rec>, r: Rec, isMini: bool)
    ensures Present(found) + [r] != []
    ensures Holds(Present(found) + [r], if isMini then other else Some(r), if isMini then Some(r) else other) <==>
            found == other
  {
    var rs := Present(found) + [r];
    assert |rs| == if found.Some? then 2 else 1;
    assert rs[|rs| - 1] == r;
    if found.Some? {
      assert rs[0] == found.value;
    }
  }

  /** The same for the record alone. */
  lemma StoredAloneIffFound(found: Option<Rec>, other: Option<Rec>, isMini: bool, size: (nat, nat))
    requires RecsOk(Present(found)) && size == Size(other) && 4 * |Flatten(Present(found))| < TWO31
    ensures var kept := Flatten(Present(found));
            var property := if kept == [] then None else Some(kept);
            if isMini then AreStored(Present(found), property, None, other, (0, 0), size) <==> found == other
            else AreStored(Present(found), property, other, None, size, (0, 0)) <==> found == other
  {
    HoldsOneIff(found, other);
    EmptyIff(found);
    hide Flatten, RecsOk, Holds, Present;
  }

  lemma EmptyIff(r: Option<Rec>)
    requires RecsOk(Present(r))
    ensures Flatten(Present(r)) == [] <==> Present(r) == []
  {
    if r.Some? {
      assert Sized(Present(r)[0]);
      FlattenOne(r.value);
    }
  }

  lemma HoldsOneIff(found: Option<Rec>, other: Option<Rec>)
    ensures Holds(Present(found), other, None) <==> found == other
    ensures Holds(Present(found), None, other) <==> found == other
  {
    if found.Some? {
      assert Present(found)[0] == found.value;
    }
  }

  class FvwmWindow {
    var property: Option<seq<Card32>>
    var iconW: nat
    var iconH: nat
    var miniW: nat
    var miniH: nat
    ghost var icon: Option<Rec>
    ghost var mini: Option<Rec>
    ghost var records: seq<Rec>

    /** The property holds exactly the records of the donated icons. */
    ghost predicate Stored()
      reads this
    {
      AreStored(records, property, icon, mini, (iconW, iconH), (miniW, miniH))
    }

    /** And each of them can be found by its size. */
    ghost predicate Valid()
      reads this
    {
      Stored() && DifferentSize(icon, mini)
    }

    constructor ()
      ensures Valid() && icon == None && mini == None
    {
      property, icon, mini, records := None, None, None, [];
      iconW, iconH, miniW, miniH := 0, 0, 0, 0;
    }

    ghost function Chosen(chooseMini: bool): Option<Rec>
      reads this
    {
      if chooseMini then mini else icon
    }

    /** The record that is found by the size of one kind of icon. */
    ghost function Found(chooseMini: bool): (r: Option<Rec>)
      requires RecsOk(records)
      reads this
      ensures r.Some? ==> r.value in records
    {
      FoundIsThere(records, if chooseMini then miniW else iconW, if chooseMini then miniH else iconH);
      FindSize(records, if chooseMini then miniW else iconW, if chooseMini then miniH else iconH)
    }

    /** It is the record of that icon, unless both icons have the same size. */
    lemma FoundIfDifferent(chooseMini: bool)
      requires Valid()
      ensures Found(chooseMini) == Chosen(chooseMini)
    {
      SelectsBySize(records, icon, mini);
      hide Flatten, RecsOk, FindSize, Holds, DifferentSize;
    }

    lemma FoundKept(list: seq<Card32>, chooseMini: bool)
      requires Stored() && property == Some(list)
      ensures Ends(list) && |list| < TWO31
      ensures var r := Found(chooseMini);
              var k := KeepIn(list, Looked(list),
                              if chooseMini then miniW else iconW, if chooseMini then miniH else iconH);
              && RecsOk(Present(r))
              && if r.Some? then k.Some? && k.value.1 > 0 && k.value.0 + k.value.1 <= |list|
                                 && list[k.value.0..k.value.0 + k.value.1] == Flatten(Present(r))
                 else k.None? && Flatten(Present(r)) == []
    {
      hide Flatten, RecsOk, FindSize, Holds, KeepIn, Looked, Present, Ends;
      KeepPresent(records, Found(chooseMini),
                  if chooseMini then miniW else iconW, if chooseMini then miniH else iconH);
    }

    /** The part of the property to keep for the icon that is not replaced. */
    method Kept(list: seq<Card32>, keepMini: bool, guarded: bool) returns (kept: seq<Card32>)
      requires Stored() && property == Some(list)
      ensures RecsOk(Present(Found(keepMini))) && kept == Flatten(Present(Found(keepMini)))
      ensures |kept| <= |list|
    {
      FoundKept(list, keepMini);
      hide Flatten, KeepIn, Looked, Present, Stored, Ends, RecsOk, Found;
      var start, length := FindKeep(list, if keepMini then miniW else iconW,
                                    if keepMini then miniH else iconH, guarded);
      kept := [];
      if length > 0 {
        kept := list[start..start + length];
      }
    }

    /** ewmh_SetWmIconFromPixmap(): replaces one icon and keeps the record that is found
        by the size of the other one. */
    method SetFromPixmap(orig: Option<seq<Card32>>, picture: Option<Picture>, isMini: bool)
      returns (newIcon: Option<seq<Card32>>)
      requires Stored() && orig == property
      requires picture.Some? ==>
                 && 0 < picture.value.w < TWO31 && 0 < picture.value.h < TWO31
                 && 4 * (|Flatten(records)| + 2 + picture.value.w * picture.value.h) < TWO31
      modifies this
      ensures picture.None? ==> newIcon == None && Stored() && property == old(property)
      ensures picture.None? ==> icon == old(icon) && mini == old(mini)
      ensures picture.Some? ==> newIcon == property && RecsOk(records) && property == Some(Flatten(records))
      ensures picture.Some? ==> records == Present(old(Found(!isMini))) + [Record(picture.value)]
      ensures picture.Some? && isMini ==> icon == old(icon) && mini == Some(Record(picture.value))
      ensures picture.Some? && !isMini ==> mini == old(mini) && icon == Some(Record(picture.value))
      ensures picture.Some? ==> (Stored() <==> old(Found(!isMini) == Chosen(!isMini)))
      ensures miniW == (if picture.Some? && isMini then picture.value.w else old(miniW))
      ensures miniH == (if picture.Some? && isMini then picture.value.h else old(miniH))
      ensures iconW == (if picture.Some? && !isMini then picture.value.w else old(iconW))
      ensures iconH == (if picture.Some? && !isMini then picture.value.h else old(iconH))
      ensures old(Valid()) ==> Stored()
    {
      if Valid() {
        FoundIfDifferent(!isMini);
      }
      if picture.None? {
        return None;
      }
      var p := picture.value;
      ghost var found, other := Found(!isMini), Chosen(!isMini);
      var list := NewList(orig, p, isMini);
      StoredIffFound(found, other, Record(p), isMini, if isMini then (iconW, iconH) else (miniW, miniH));
      hide *;
      assert Record(p).w == p.w && Record(p).h == p.h by { RecordHasSize(p); }
      if isMini {
        miniW, miniH := p.w, p.h;
        mini := Some(Record(p));
      } else {
        iconW, iconH := p.w, p.h;
        icon := Some(Record(p));
      }
      records := Present(found) + [Record(p)];
      property := Some(list);
      newIcon := property;
    }

    /** The record that is kept, and the new one behind it. */
    method NewList(orig: Option<seq<Card32>>, p: Picture, isMini: bool) returns (list: seq<Card32>)
      requires Stored() && orig == property && 0 < p.w < TWO31 && 0 < p.h < TWO31
      requires 4 * (|Flatten(records)| + 2 + p.w * p.h) < TWO31
      ensures RecsOk(Present(Found(!isMini)) + [Record(p)])
      ensures list == Flatten(Present(Found(!isMini)) + [Record(p)]) && 4 * |list| < TWO31
    {
      var kept := KeptOther(orig, isMini);
      var buffer := BuildIcon(kept, p.w, p.h, p.image);
      AppendRecord(Found(!isMini), Record(p));
      hide Flatten, Found, Present;
      list := buffer[..];
    }

    lemma RecordHasSize(p: Picture)
      ensures Record(p).w == p.w && Record(p).h == p.h
    {
    }

    method KeptOther(orig: Option<seq<Card32>>, isMini: bool) returns (kept: seq<Card32>)
      requires Stored() && orig == property
      ensures RecsOk(Present(Found(!isMini))) && kept == Flatten(Present(Found(!isMini)))
      ensures |kept| <= |Flatten(records)|
    {
      kept := [];
      if orig.Some? {
        kept := Kept(orig.value, !isMini, true);
      } else {
        assert Found(!isMini) == None;
      }
    }

    lemma AppendRecord(other: Option<Rec>, r: Rec)
      requires RecsOk(Present(other)) && Sized(r)
      ensures RecsOk(Present(other) + [r]) && Flatten(Present(other) + [r]) == Flatten(Present(other)) + Image(r)
    {
      FlattenOne(r);
      if other.Some? {
        assert Sized(Present(other)[0]);
        FlattenOne(other.value);
        FlattenTwo(other.value, r);
        assert Present(other) + [r] == [other.value, r];
      } else {
        assert Present(other) + [r] == [r];
      }
    }

    /** EWMH_DeleteWmIcon(): keeps the record that is found by the size of the icon that
        is not deleted. */
    method DeleteWmIcon(deleteMini: bool, deleteIcon: bool)
      requires Stored() && (deleteMini || deleteIcon)
      modifies this
      ensures icon == if deleteIcon then None else old(icon)
      ensures mini == if deleteMini then None else old(mini)
      ensures deleteMini && deleteIcon ==> Stored()
      ensures !(deleteMini && deleteIcon) ==> records == Present(old(Found(deleteIcon)))
      ensures !(deleteMini && deleteIcon) ==> (Stored() <==> old(Found(deleteIcon) == Chosen(deleteIcon)))
      ensures old(Valid()) ==> Valid()
    {
      if Valid() {
        FoundIfDifferent(deleteIcon);
      }
      if deleteMini && deleteIcon {
        DeleteProperty();
        return;
      }
      if property.None? {
        NothingStored();
        return;
      }
      ghost var found, other := Found(deleteIcon), Chosen(deleteIcon);
      var kept := Kept(property.value, deleteIcon, false);
      StoredAloneIffFound(found, other, deleteIcon, if deleteIcon then (miniW, miniH) else (iconW, iconH));
      hide *;
      records := Present(found);
      if kept == [] {
        property := None;
      } else {
        property := Some(kept);
      }
      if deleteMini {
        miniW, miniH := 0, 0;
        mini := None;
      }
      if deleteIcon {
        iconW, iconH := 0, 0;
        icon := None;
      }
    }

    lemma NothingStored()
      requires Stored() && property.None?
      ensures icon == mini == None && records == [] && Found(true) == Found(false) == None
    {
      assert Present(icon) + Present(mini) == [];
    }

    method DeleteProperty()
      requires Stored()
      modifies this
      ensures Stored() && icon == None && mini == None
    {
      property, icon, mini, records := None, None, None, [];
      miniW, miniH, iconW, iconH := 0, 0, 0, 0;
    }
  }
}
