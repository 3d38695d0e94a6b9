/** The cache of title bar pixmaps that the button states of a window share
    (fvwm/borders.c). */
module BarPixmapSpec {

  /** One entry; 0 stands for None and NULL.  A created picture is named after the
      pixmap inside it. */
  datatype BarPixmap = BarPixmap(p: nat, mpCreated: nat, cs: int, mpPic: nat, mpPart: int, created: bool)
  {
    function Id(): Key { Key(cs, mpPic, mpPart) }
  }

  datatype Key = Key(cs: int, mpPic: nat, mpPart: int)

  /** The entries of one button state; the count is 0 before setup, and -1 if there
      is nothing to set up. */
  datatype Table = Table(count: int, bps: seq<BarPixmap>)

  /** The tables, and the pixmaps and pictures that were created. */
  datatype Cache = Cache(tables: seq<Table>, next: nat, live: set<nat>)

  const BS_MAX: nat := 8

  // ----- setup

  const TBMP_NONE := -1
  const TBMP_MAIN := 0
  const TBMP_LEFT_MAIN := 1
  const TBMP_RIGHT_MAIN := 2
  const TBMP_LEFT_BUTTONS := 3
  const TBMP_RIGHT_BUTTONS := 4
  const UTS_TBMP_NUM_PIXMAPS := 5

  datatype Part = Part(cs: int, pixmap: nat, solid: bool)
  {
    /** TBMP_HAS_PART */
    predicate Has() { pixmap != 0 || cs >= 0 || solid }
  }

  datatype Face =
    | ColorsetButton(cs: int)
    | MultiPixmap(main: Part, leftMain: Part, rightMain: Part, leftButtons: Part, rightButtons: Part)
    | OtherFace

  function PartOf(f: Face, j: int): Part
    requires f.MultiPixmap? && 0 <= j < UTS_TBMP_NUM_PIXMAPS
  {
    if j == TBMP_MAIN then f.main
    else if j == TBMP_LEFT_MAIN then f.leftMain
    else if j == TBMP_RIGHT_MAIN then f.rightMain
    else if j == TBMP_LEFT_BUTTONS then f.leftButtons
    else f.rightButtons
  }

  /** border_mp_get_use_title_style_parts_and_geometry(): the part behind the
      buttons of one side. */
  function SidePart(f: Face, isLeft: bool): int
    requires f.MultiPixmap?
  {
    if isLeft && f.leftButtons.Has() then TBMP_LEFT_BUTTONS
    else if !isLeft && f.rightButtons.Has() then TBMP_RIGHT_BUTTONS
    else if isLeft && f.leftMain.Has() then TBMP_LEFT_MAIN
    else if !isLeft && f.rightMain.Has() then TBMP_RIGHT_MAIN
    else if f.main.Has() then TBMP_MAIN
    else TBMP_NONE
  }

  /** A part of a face gets an entry if it is behind buttons and has a picture. */
  predicate Wanted(f: Face, j: int)
    requires f.MultiPixmap? && 0 <= j < UTS_TBMP_NUM_PIXMAPS
  {
    (j == SidePart(f, true) || j == SidePart(f, false)) && (PartOf(f, j).cs >= 0 || PartOf(f, j).pixmap != 0)
  }

  function PartEntries(f: Face, j: nat): seq<BarPixmap>
    requires f.MultiPixmap? && j <= UTS_TBMP_NUM_PIXMAPS
  {
    if j == 0 then []
    else PartEntries(f, j - 1) +
         if Wanted(f, j - 1) then [BarPixmap(0, 0, PartOf(f, j - 1).cs, PartOf(f, j - 1).pixmap, j - 1, false)] else []
  }

  function FaceEntries(f: Face): seq<BarPixmap> {
    match f
    case ColorsetButton(cs) => [BarPixmap(0, 0, cs, 0, TBMP_NONE, false)]
    case MultiPixmap(_, _, _, _, _) => PartEntries(f, UTS_TBMP_NUM_PIXMAPS)
    case OtherFace => []
  }

  function Entries(faces: seq<Face>): seq<BarPixmap> {
    if faces == [] then [] else Entries(faces[..|faces| - 1]) + FaceEntries(faces[|faces| - 1])
  }

  /** border_setup_bar_pixmaps() */
  function Setup(c: Cache, bs: nat, faces: seq<Face>): Cache
    requires bs < |c.tables|
  {
    var e := Entries(faces);
    if c.tables[bs].count != 0 then c
    else c.(tables := c.tables[bs := if e == [] then Table(-1, []) else Table(|e|, e)])
  }

  // ----- lookup

  /** The place of the first entry with a key, or the length. */
  function Find(bps: seq<BarPixmap>, k: Key): (i: nat)
    ensures i <= |bps| && (i < |bps| ==> bps[i].Id() == k)
    ensures forall j :: 0 <= j < i ==> bps[j].Id() != k
  {
    if bps == [] then 0 else if bps[0].Id() == k then 0 else 1 + Find(bps[1..], k)
  }

  /** The first button state from `b` on whose entry for the key has a pixmap. */
  function FindShared(tables: seq<Table>, k: Key, b: nat): (r: nat)
    requires b <= |tables|
    ensures b <= r <= |tables|
    ensures r < |tables| ==> Find(tables[r].bps, k) < |tables[r].bps| && tables[r].bps[Find(tables[r].bps, k)].p != 0
    ensures forall d :: b <= d < r ==> var i := Find(tables[d].bps, k); i < |tables[d].bps| ==> tables[d].bps[i].p == 0
    decreases |tables| - b
  {
    if b == |tables| then b
    else
      var i := Find(tables[b].bps, k);
      if i < |tables[b].bps| && tables[b].bps[i].p != 0 then b else FindShared(tables, k, b + 1)
  }

  /** What a lookup does to an entry.  `ok` tells whether the X server and the
      picture code can create what they are asked for. */
  function Looked(c: Cache, bs: nat, i: nat, k: Key, wantPic: bool, ok: bool): (BarPixmap, bool)
    requires bs < |c.tables| && i < |c.tables[bs].bps|
  {
    var e := c.tables[bs].bps[i];
    if e.p != 0 then (e, false)
    else
      var b := FindShared(c.tables, k, 0);
      if b < |c.tables| then
        var f := c.tables[b].bps[Find(c.tables[b].bps, k)];
        (e.(p := f.p, mpCreated := if k.mpPic != 0 && wantPic then f.mpCreated else e.mpCreated), false)
      else if k.cs >= 0 then (e.(p := if ok then c.next else 0, created := true), ok)
      else if k.mpPic != 0 && wantPic && ok then
        (e.(mpCreated := c.next, created := true, p := c.next), true)
      else (e, false)
  }

  /** border_get_bar_pixmaps() */
  function Lookup(c: Cache, bs: nat, k: Key, wantPic: bool, ok: bool): Cache
    requires bs < |c.tables|
  {
    var t := c.tables[bs];
    var i := Find(t.bps, k);
    if t.count <= 0 || i == |t.bps| then c
    else
      var (e, isNew) := Looked(c, bs, i, k, wantPic, ok);
      var d := c.(tables := c.tables[bs := t.(bps := t.bps[i := e])]);
      if isNew then d.(live := d.live + {d.next}, next := d.next + 1) else d
  }

  /** The lookup asks for a new pixmap and does not get it. */
  predicate PixmapFails(c: Cache, bs: nat, k: Key, ok: bool)
    requires bs < |c.tables|
  {
    var t := c.tables[bs];
    var i := Find(t.bps, k);
    && t.count > 0 && i < |t.bps| && t.bps[i].p == 0
    && FindShared(c.tables, k, 0) == |c.tables| && k.cs >= 0 && !ok
  }

  // ----- the invariant

  predicate At(ts: seq<Table>, b: int, j: int) { 0 <= b < |ts| && 0 <= j < |ts[b].bps| }

  predicate EntryOk(c: Cache, b: int, j: int)
    requires At(c.tables, b, j)
  {
    var e := c.tables[b].bps[j];
    && (e.p != 0 ==> e.p in c.live && Find(c.tables[b].bps, e.Id()) == j)
    && (e.created ==> e.p != 0)
    && (e.mpCreated != 0 ==> e.mpCreated == e.p && e.cs < 0)
    && (e.created && e.cs < 0 ==> e.mpCreated == e.p)
  }

  ghost predicate Owner(c: Cache, r: nat, b: int, j: int) {
    At(c.tables, b, j) && c.tables[b].bps[j].created && c.tables[b].bps[j].p == r
  }

  /** Each live resource has exactly one entry that is marked as its creator. */
  ghost predicate OneOwner(c: Cache, r: nat) {
    && (exists b, j :: Owner(c, r, b, j))
    && forall b, j, b', j' :: Owner(c, r, b, j) && Owner(c, r, b', j') ==> b == b' && j == j'
  }

  /** Entries with a pixmap have the same one exactly if they have the same key. */
  ghost predicate Shares(c: Cache) {
    forall b, j, b', j' :: At(c.tables, b, j) && At(c.tables, b', j') ==>
      var e, f := c.tables[b].bps[j], c.tables[b'].bps[j'];
      e.p != 0 && f.p != 0 ==> (e.Id() == f.Id() <==> e.p == f.p)
  }

  predicate CountsOk(c: Cache) {
    forall b :: 0 <= b < |c.tables| ==>
      if c.tables[b].count > 0 then c.tables[b].count == |c.tables[b].bps| else c.tables[b].bps == []
  }

  ghost predicate EntriesOk(c: Cache) {
    forall b, j :: At(c.tables, b, j) ==> EntryOk(c, b, j)
  }

  ghost predicate OwnersOk(c: Cache) {
    c.next > 0 && forall r :: r in c.live ==> 0 < r < c.next && OneOwner(c, r)
  }

  ghost predicate Inv(c: Cache) {
    CountsOk(c) && EntriesOk(c) && OwnersOk(c) && Shares(c)
  }
}

/** What the cache keeps over any run. */
module BarPixmapTheorems {
  import opened BarPixmapSpec

  predicate IsSetUp(c: Cache, bs: nat, k: Key)
    requires bs < |c.tables|
  {
    c.tables[bs].count > 0 && Find(c.tables[bs].bps, k) < |c.tables[bs].bps|
  }

  /** Only one entry differs, and it has the same key. */
  ghost predicate Differs(c: Cache, d: Cache, bs: nat, i: nat, e: BarPixmap) {
    && At(c.tables, bs, i) && d.tables == c.tables[bs := c.tables[bs].(bps := c.tables[bs].bps[i := e])]
    && e.Id() == c.tables[bs].bps[i].Id()
  }

  lemma Same(c: Cache, d: Cache, bs: nat, i: nat, e: BarPixmap)
    requires Differs(c, d, bs, i, e)
    ensures At(d.tables, bs, i) && d.tables[bs].bps[i] == e
    ensures forall x, y :: At(c.tables, x, y) <==> At(d.tables, x, y)
    ensures forall x, y :: At(c.tables, x, y) && !(x == bs && y == i) ==> d.tables[x].bps[y] == c.tables[x].bps[y]
  {
  }

  lemma {:induction false} FindStays(u: seq<BarPixmap>, v: seq<BarPixmap>, k: Key)
    requires |u| == |v| && forall j :: 0 <= j < |u| ==> u[j].Id() == v[j].Id()
    ensures Find(u, k) == Find(v, k)
  {
    if u != [] {
      FindStays(u[1..], v[1..], k);
    }
  }

  lemma FindSame(c: Cache, d: Cache, bs: nat, i: nat, e: BarPixmap, x: int, k: Key)
    requires Differs(c, d, bs, i, e) && 0 <= x < |c.tables|
    ensures Find(d.tables[x].bps, k) == Find(c.tables[x].bps, k)
  {
    if x == bs {
      FindStays(c.tables[x].bps, d.tables[x].bps, k);
    }
  }

  lemma EntriesStay(c: Cache, d: Cache, bs: nat, i: nat, e: BarPixmap)
    requires Differs(c, d, bs, i, e) && EntriesOk(c) && c.live <= d.live && EntryOk(d, bs, i)
    ensures EntriesOk(d)
  {
    Same(c, d, bs, i, e);
    forall x, y | At(d.tables, x, y)
      ensures EntryOk(d, x, y)
    {
      assert EntryOk(c, x, y);
      if !(x == bs && y == i) {
        FindSame(c, d, bs, i, e, x, d.tables[x].bps[y].Id());
      }
    }
  }

  lemma SharesAfter(c: Cache, d: Cache, bs: nat, i: nat, e: BarPixmap)
    requires Shares(c) && Differs(c, d, bs, i, e)
    requires forall x, y :: At(c.tables, x, y) && !(x == bs && y == i) && c.tables[x].bps[y].p != 0 ==>
               (c.tables[x].bps[y].Id() == e.Id() <==> c.tables[x].bps[y].p == e.p)
    ensures Shares(d)
  {
    Same(c, d, bs, i, e);
    hide Differs;
    forall b, j, b', j' | At(d.tables, b, j) && At(d.tables, b', j')
      ensures var f, g := d.tables[b].bps[j], d.tables[b'].bps[j'];
              f.p != 0 && g.p != 0 ==> (f.Id() == g.Id() <==> f.p == g.p)
    {
      assert At(c.tables, b, j) && At(c.tables, b', j');
    }
  }

  lemma OwnersStay(c: Cache, d: Cache, r: nat)
    requires OneOwner(c, r)
    requires forall x, y :: Owner(c, r, x, y) <==> Owner(d, r, x, y)
    ensures OneOwner(d, r)
  {
    var b, j :| Owner(c, r, b, j);
    assert Owner(d, r, b, j);
  }

  lemma OwnersAfter(c: Cache, d: Cache, bs: nat, i: nat, e: BarPixmap)
    requires OwnersOk(c) && Differs(c, d, bs, i, e) && !c.tables[bs].bps[i].created
    requires if e.created then e.p == c.next && d.next == c.next + 1 && d.live == c.live + {c.next} && EntriesOk(c)
             else d.next == c.next && d.live == c.live
    ensures OwnersOk(d)
  {
    Same(c, d, bs, i, e);
    hide Differs;
    forall r | r in d.live
      ensures OneOwner(d, r)
    {
      if r == c.next {
        assert Owner(d, r, bs, i);
        forall x, y | Owner(d, r, x, y)
          ensures x == bs && y == i
        {
          assert EntryOk(c, x, y);
        }
      } else {
        assert OneOwner(c, r);
        OwnersStay(c, d, r);
      }
    }
  }

  lemma Changed(c: Cache, d: Cache, bs: nat, i: nat, e: BarPixmap)
    requires CountsOk(c) && Differs(c, d, bs, i, e)
    ensures CountsOk(d)
  {
  }

  /** One entry gets the pixmap of another entry with the same key. */
  lemma SharingKeepsInv(c: Cache, d: Cache, bs: nat, i: nat, b: nat, j: nat, e: BarPixmap)
    requires Inv(c) && At(c.tables, bs, i) && At(c.tables, b, j) && Differs(c, d, bs, i, e)
    requires d.next == c.next && d.live == c.live
    requires var was, f := c.tables[bs].bps[i], c.tables[b].bps[j];
             && was.p == 0 && f.p != 0 && was.Id() == f.Id() && Find(c.tables[bs].bps, was.Id()) == i
             && e == was.(p := f.p, mpCreated := e.mpCreated)
             && (e.mpCreated == was.mpCreated || e.mpCreated == f.mpCreated)
    ensures Inv(d)
  {
    var f := c.tables[b].bps[j];
    assert EntryOk(c, bs, i) && EntryOk(c, b, j);
    FindSame(c, d, bs, i, e, bs, e.Id());
    Same(c, d, bs, i, e);
    assert EntryOk(d, bs, i);
    assert forall x, y :: At(c.tables, x, y) && !(x == bs && y == i) && c.tables[x].bps[y].p != 0 ==>
        (c.tables[x].bps[y].Id() == e.Id() <==> c.tables[x].bps[y].p == e.p);
    hide EntryOk, Shares, CountsOk, EntriesOk, OwnersOk, Differs;
    Changed(c, d, bs, i, e);
    EntriesStay(c, d, bs, i, e);
    OwnersAfter(c, d, bs, i, e);
    SharesAfter(c, d, bs, i, e);
  }

  /** One entry becomes the creator of a new resource. */
  lemma CreatingKeepsInv(c: Cache, d: Cache, bs: nat, i: nat, e: BarPixmap)
    requires Inv(c) && At(c.tables, bs, i) && Differs(c, d, bs, i, e)
    requires d.next == c.next + 1 && d.live == c.live + {c.next}
    requires var was := c.tables[bs].bps[i];
             && was.p == 0 && Find(c.tables[bs].bps, was.Id()) == i
             && FindShared(c.tables, was.Id(), 0) == |c.tables|
             && e == was.(p := c.next, created := true, mpCreated := if was.cs < 0 then c.next else 0)
    ensures Inv(d)
  {
    assert EntryOk(c, bs, i);
    FindSame(c, d, bs, i, e, bs, e.Id());
    Same(c, d, bs, i, e);
    assert EntryOk(d, bs, i);
    forall x, y | At(c.tables, x, y) && !(x == bs && y == i) && c.tables[x].bps[y].p != 0
      ensures c.tables[x].bps[y].Id() != e.Id() && c.tables[x].bps[y].p != e.p
    {
      assert EntryOk(c, x, y);
    }
    hide EntryOk, Shares, CountsOk, EntriesOk, OwnersOk, Differs;
    Changed(c, d, bs, i, e);
    EntriesStay(c, d, bs, i, e);
    OwnersAfter(c, d, bs, i, e);
    SharesAfter(c, d, bs, i, e);
  }

  /** A lookup keeps the invariant exactly when it does not ask in vain for a new
      pixmap: then the entry is marked as a creator without having created. */
  lemma LookupKeepsInv(c: Cache, bs: nat, k: Key, wantPic: bool, ok: bool)
    requires Inv(c) && bs < |c.tables|
    ensures Inv(Lookup(c, bs, k, wantPic, ok)) <==> !PixmapFails(c, bs, k, ok)
  {
    hide Shares, CountsOk, OneOwner;
    var t := c.tables[bs];
    var i := Find(t.bps, k);
    var d := Lookup(c, bs, k, wantPic, ok);
    if t.count > 0 && i < |t.bps| {
      assert EntryOk(c, bs, i);
      var e := Looked(c, bs, i, k, wantPic, ok).0;
      var b := FindShared(c.tables, k, 0);
      assert Differs(c, d, bs, i, e);
      Same(c, d, bs, i, e);
      hide Differs;
      if e == t.bps[i] {
        assert d.tables[bs].bps == t.bps && d == c;
      } else if b < |c.tables| {
        SharingKeepsInv(c, d, bs, i, b, Find(c.tables[b].bps, k), e);
      } else if e.p != 0 {
        CreatingKeepsInv(c, d, bs, i, e);
      } else {
        assert !EntryOk(d, bs, i);
      }
    }
  }

  // ----- what a lookup gives, said of the entries alone

  lemma {:induction false} FirstIs(bps: seq<BarPixmap>, k: Key, i: nat)
    requires i < |bps| && Key(bps[i].cs, bps[i].mpPic, bps[i].mpPart) == k
    requires forall h | 0 <= h < i :: Key(bps[h].cs, bps[h].mpPic, bps[h].mpPart) != k
    ensures Find(bps, k) == i
  {
    if i > 0 {
      FirstIs(bps[1..], k, i - 1);
    }
  }

  lemma FoundIn(bps: seq<BarPixmap>, k: Key)
    requires Find(bps, k) < |bps|
    ensures exists e :: e in bps && Key(e.cs, e.mpPic, e.mpPart) == k
  {
    assert bps[Find(bps, k)] in bps;
  }

  lemma NoneIs(bps: seq<BarPixmap>, k: Key)
    requires forall e | e in bps :: Key(e.cs, e.mpPic, e.mpPart) != k
    ensures Find(bps, k) == |bps|
  {
    if Find(bps, k) < |bps| {
      FoundIn(bps, k);
    }
  }

  lemma {:induction false} SharedFrom(ts: seq<Table>, k: Key, b: nat, r: nat)
    requires b <= r <= |ts|
    requires forall d | b <= d < r :: var i := Find(ts[d].bps, k); i < |ts[d].bps| ==> ts[d].bps[i].p == 0
    requires r < |ts| ==> var i := Find(ts[r].bps, k); i < |ts[r].bps| && ts[r].bps[i].p != 0
    ensures FindShared(ts, k, b) == r
    decreases r - b
  {
    hide Find;
    if b < r {
      SharedFrom(ts, k, b + 1, r);
    }
  }

  /** Entry `i` is the first of its table with a key. */
  ghost predicate IsFirst(c: Cache, bs: int, k: Key, i: int) {
    && At(c.tables, bs, i) && Key(c.tables[bs].bps[i].cs, c.tables[bs].bps[i].mpPic, c.tables[bs].bps[i].mpPart) == k
    && forall h | 0 <= h < i ::
         var g := c.tables[bs].bps[h]; g.cs != k.cs || g.mpPic != k.mpPic || g.mpPart != k.mpPart
  }

  /** Entry `j` of a table has a pixmap for a key. */
  predicate HasPixmap(c: Cache, b: int, k: Key, j: int) {
    && At(c.tables, b, j) && c.tables[b].bps[j].p != 0
    && c.tables[b].bps[j].cs == k.cs && c.tables[b].bps[j].mpPic == k.mpPic && c.tables[b].bps[j].mpPart == k.mpPart
  }

  /** The first entry of the key has no pixmap, and table `b` is the first that has one. */
  ghost predicate CanShare(c: Cache, bs: int, k: Key, i: int, b: int, j: int) {
    && IsFirst(c, bs, k, i) && c.tables[bs].bps[i].p == 0 && HasPixmap(c, b, k, j)
    && forall e, h | 0 <= e < b :: !HasPixmap(c, e, k, h)
  }

  /** No table has one. */
  ghost predicate CanCreate(c: Cache, bs: int, k: Key, i: int) {
    IsFirst(c, bs, k, i) && forall e, h :: !HasPixmap(c, e, k, h)
  }

  /** An entry without a pixmap gets that of the first button state that has one for
      the same key, and with it the picture, if there is one and it is asked for. */
  lemma SharedLookup(c: Cache, bs: nat, k: Key, wantPic: bool, ok: bool, i: nat, b: nat, j: nat)
    requires Inv(c) && CanShare(c, bs, k, i, b, j)
    ensures var e, f := c.tables[bs].bps[i], c.tables[b].bps[j];
            var now := e.(p := f.p, mpCreated := if k.mpPic != 0 && wantPic then f.mpCreated else e.mpCreated);
            var ts := c.tables[bs := c.tables[bs].(bps := c.tables[bs].bps[i := now])];
            && IsSetUp(c, bs, k) && Find(c.tables[bs].bps, k) == i
            && Lookup(c, bs, k, wantPic, ok) == c.(tables := ts)
  {
    assert EntryOk(c, b, j);
    assert CountsOk(c);
    FirstIs(c.tables[bs].bps, k, i);
    hide Inv, Find, Shares, OwnersOk, EntriesOk;
    forall d | 0 <= d < b
      ensures var n := Find(c.tables[d].bps, k); n < |c.tables[d].bps| ==> c.tables[d].bps[n].p == 0
    {
      var n := Find(c.tables[d].bps, k);
      assert !HasPixmap(c, d, k, n);
    }
    SharedFrom(c.tables, k, 0, b);
  }

  /** Where no button state has a pixmap for the key, a colorset gets a new one, and a
      picture gets a new one that is both pixmap and picture, if it is asked for. */
  lemma CreatingLookup(c: Cache, bs: nat, k: Key, wantPic: bool, ok: bool, i: nat)
    requires Inv(c) && CanCreate(c, bs, k, i)
    ensures c.tables[bs].bps[i].mpCreated == 0
    ensures var e, isNew := c.tables[bs].bps[i], ok && (k.cs >= 0 || (k.mpPic != 0 && wantPic));
            var r := if isNew then c.next else 0;
            var now := e.(p := r, mpCreated := if isNew && k.cs < 0 then r else e.mpCreated,
                          created := isNew || k.cs >= 0);
            && IsSetUp(c, bs, k) && Find(c.tables[bs].bps, k) == i
            && Lookup(c, bs, k, wantPic, ok) ==
               Cache(c.tables[bs := c.tables[bs].(bps := c.tables[bs].bps[i := now])],
                     if isNew then c.next + 1 else c.next, if isNew then c.live + {c.next} else c.live)
  {
    assert CountsOk(c) && EntryOk(c, bs, i);
    FirstIs(c.tables[bs].bps, k, i);
    hide Inv, Find, Shares, OwnersOk, EntriesOk;
    forall d | 0 <= d < |c.tables|
      ensures var n := Find(c.tables[d].bps, k); n < |c.tables[d].bps| ==> c.tables[d].bps[n].p == 0
    {
      var n := Find(c.tables[d].bps, k);
      assert !HasPixmap(c, d, k, n);
    }
    SharedFrom(c.tables, k, 0, |c.tables|);
    assert c.tables[bs].bps[i].p == 0;
  }

  /** An entry with a pixmap keeps it, and without an entry nothing happens. */
  lemma SettledLookup(c: Cache, bs: nat, k: Key, wantPic: bool, ok: bool)
    requires Inv(c) && bs < |c.tables|
    ensures forall i: nat | At(c.tables, bs, i) && Find(c.tables[bs].bps, k) == i && c.tables[bs].bps[i].p != 0 ::
              Lookup(c, bs, k, wantPic, ok) == c
    ensures Find(c.tables[bs].bps, k) == |c.tables[bs].bps| ==>
              !IsSetUp(c, bs, k) && Lookup(c, bs, k, wantPic, ok) == c
  {
    var t := c.tables[bs];
    assert CountsOk(c);
    hide Inv, Find, FindShared;
    forall i: nat | At(c.tables, bs, i) && Find(t.bps, k) == i && t.bps[i].p != 0
      ensures Lookup(c, bs, k, wantPic, ok) == c
    {
      assert t.bps[i := t.bps[i]] == t.bps;
      assert c.tables[bs := t.(bps := t.bps)] == c.tables;
    }
  }

  /** Without an entry of the key there is nothing. */
  ghost predicate GivesNothing(c: Cache, d: Cache, bs: nat, k: Key, p: nat, pic: nat) {
    bs < |c.tables| && (forall e | e in c.tables[bs].bps :: Key(e.cs, e.mpPic, e.mpPart) != k) ==>
      d == c && p == pic == 0
  }

  /** An entry that has a pixmap keeps it and its picture. */
  ghost predicate GivesOwn(c: Cache, d: Cache, bs: nat, k: Key, p: nat, pic: nat) {
    forall i | At(c.tables, bs, i) ::
      var was := c.tables[bs].bps[i];
      Key(was.cs, was.mpPic, was.mpPart) == k && was.p != 0 ==> d == c && p == was.p && pic == was.mpCreated
  }

  /** The first entry of the key, without a pixmap, gets that of the first state that
      has one for the key, and with it the picture if there is one and it is asked
      for. */
  ghost predicate GivesShared(c: Cache, d: Cache, bs: nat, k: Key, wantPic: bool, p: nat, pic: nat) {
    forall i, b, j | CanShare(c, bs, k, i, b, j) ::
      var was, f := c.tables[bs].bps[i], c.tables[b].bps[j];
      && p == f.p && pic == (if k.mpPic != 0 && wantPic then f.mpCreated else was.mpCreated)
      && Becomes(c, d, bs, i, was.(p := p, mpCreated := pic)) && d.next == c.next && d.live == c.live
  }

  /** Where no state has a pixmap for the key, the first entry of the key gets a new
      one if there can be one: for a colorset, or for a picture that is asked for, of
      which it is also the picture. */
  ghost predicate GivesNew(c: Cache, d: Cache, bs: nat, k: Key, wantPic: bool, ok: bool, p: nat, pic: nat) {
    forall i | CanCreate(c, bs, k, i) ::
      var was, isNew := c.tables[bs].bps[i], ok && (k.cs >= 0 || (k.mpPic != 0 && wantPic));
      && p == (if isNew then c.next else 0) && pic == (if k.cs < 0 then p else 0)
      && Becomes(c, d, bs, i, was.(p := p, mpCreated := pic, created := isNew || k.cs >= 0))
      && d.next == c.next + (if isNew then 1 else 0) && d.live == c.live + (if isNew then {p} else {})
  }

  /** One entry is another now, and the tables are otherwise what they were. */
  ghost predicate Becomes(c: Cache, d: Cache, bs: int, i: int, e: BarPixmap)
    requires At(c.tables, bs, i)
  {
    d.tables == c.tables[bs := c.tables[bs].(bps := c.tables[bs].bps[i := e])]
  }

  /** The pixmap and the picture of the entry that a lookup finds. */
  function PixmapOf(c: Cache, d: Cache, bs: nat, k: Key): (nat, nat)
    requires bs < |c.tables| && (IsSetUp(c, bs, k) ==> At(d.tables, bs, Find(c.tables[bs].bps, k)))
  {
    if !IsSetUp(c, bs, k) then (0, 0)
    else
      var e := d.tables[bs].bps[Find(c.tables[bs].bps, k)];
      (e.p, e.mpCreated)
  }

  lemma LookupGives(c: Cache, bs: nat, k: Key, wantPic: bool, ok: bool)
    requires Inv(c) && bs < |c.tables|
    ensures var d := Lookup(c, bs, k, wantPic, ok);
            && (IsSetUp(c, bs, k) ==> At(d.tables, bs, Find(c.tables[bs].bps, k)))
            && var (p, pic) := PixmapOf(c, d, bs, k);
               && GivesNothing(c, d, bs, k, p, pic) && GivesOwn(c, d, bs, k, p, pic)
               && GivesShared(c, d, bs, k, wantPic, p, pic) && GivesNew(c, d, bs, k, wantPic, ok, p, pic)
  {
    NothingOrOwn(c, bs, k, wantPic, ok);
    SharedGives(c, bs, k, wantPic, ok);
    NewGives(c, bs, k, wantPic, ok);
    hide *;
  }

  lemma SharedGives(c: Cache, bs: nat, k: Key, wantPic: bool, ok: bool)
    requires Inv(c) && bs < |c.tables|
    ensures var d := Lookup(c, bs, k, wantPic, ok);
            && (IsSetUp(c, bs, k) ==> At(d.tables, bs, Find(c.tables[bs].bps, k)))
            && var (p, pic) := PixmapOf(c, d, bs, k); GivesShared(c, d, bs, k, wantPic, p, pic)
  {
    if IsSetUp(c, bs, k) {
      StaysAt(c, bs, k, wantPic, ok);
    }
    hide Inv, Lookup, Find, IsSetUp;
    forall i, b, j | CanShare(c, bs, k, i, b, j) {
      SharedLookup(c, bs, k, wantPic, ok, i, b, j);
    }
  }

  lemma NewGives(c: Cache, bs: nat, k: Key, wantPic: bool, ok: bool)
    requires Inv(c) && bs < |c.tables|
    ensures var d := Lookup(c, bs, k, wantPic, ok);
            && (IsSetUp(c, bs, k) ==> At(d.tables, bs, Find(c.tables[bs].bps, k)))
            && var (p, pic) := PixmapOf(c, d, bs, k); GivesNew(c, d, bs, k, wantPic, ok, p, pic)
  {
    if IsSetUp(c, bs, k) {
      StaysAt(c, bs, k, wantPic, ok);
    }
    hide Inv, Lookup, Find, IsSetUp;
    forall i | CanCreate(c, bs, k, i) {
      CreatingLookup(c, bs, k, wantPic, ok, i);
    }
  }

  lemma StaysAt(c: Cache, bs: nat, k: Key, wantPic: bool, ok: bool)
    requires bs < |c.tables| && IsSetUp(c, bs, k)
    ensures At(Lookup(c, bs, k, wantPic, ok).tables, bs, Find(c.tables[bs].bps, k))
  {
    hide Find, FindShared;
  }

  lemma NothingOrOwn(c: Cache, bs: nat, k: Key, wantPic: bool, ok: bool)
    requires Inv(c) && bs < |c.tables|
    ensures var d := Lookup(c, bs, k, wantPic, ok);
            && (IsSetUp(c, bs, k) ==> At(d.tables, bs, Find(c.tables[bs].bps, k)))
            && var (p, pic) := PixmapOf(c, d, bs, k);
               GivesNothing(c, d, bs, k, p, pic) && GivesOwn(c, d, bs, k, p, pic)
  {
    var bps := c.tables[bs].bps;
    SettledLookup(c, bs, k, wantPic, ok);
    if forall e | e in bps :: Key(e.cs, e.mpPic, e.mpPart) != k {
      NoneIs(bps, k);
    }
    forall i | At(c.tables, bs, i) && bps[i].p != 0
      ensures Find(bps, Key(bps[i].cs, bps[i].mpPic, bps[i].mpPart)) == i && c.tables[bs].count == |bps|
    {
      assert EntryOk(c, bs, i);
    }
    hide Lookup, Inv, Find;
  }

  lemma {:induction false} PartEntriesAreNew(f: Face, j: nat)
    requires f.MultiPixmap? && j <= UTS_TBMP_NUM_PIXMAPS
    ensures forall x :: x in PartEntries(f, j) ==> x.p == 0 && x.mpCreated == 0 && !x.created
  {
    if j > 0 {
      PartEntriesAreNew(f, j - 1);
    }
  }

  lemma {:induction false} EntriesAreNew(faces: seq<Face>)
    ensures forall x :: x in Entries(faces) ==> x.p == 0 && x.mpCreated == 0 && !x.created
    decreases |faces|
  {
    if faces != [] {
      var f := faces[|faces| - 1];
      EntriesAreNew(faces[..|faces| - 1]);
      if f.MultiPixmap? {
        PartEntriesAreNew(f, UTS_TBMP_NUM_PIXMAPS);
      }
    }
  }

  /** A face draws with the pixmap of a key. */
  predicate Draws(f: Face, k: Key) {
    match f
    case ColorsetButton(cs) => k == Key(cs, 0, TBMP_NONE)
    case MultiPixmap(_, _, _, _, _) =>
      && 0 <= k.mpPart < UTS_TBMP_NUM_PIXMAPS && Wanted(f, k.mpPart)
      && k.cs == PartOf(f, k.mpPart).cs && k.mpPic == PartOf(f, k.mpPart).pixmap
    case OtherFace => false
  }

  function Keys(bps: seq<BarPixmap>): set<Key> { set e | e in bps :: e.Id() }

  lemma KeysOfSum(u: seq<BarPixmap>, v: seq<BarPixmap>)
    ensures Keys(u + v) == Keys(u) + Keys(v)
  {
  }

  lemma {:induction false} PartKeys(f: Face, j: nat, k: Key)
    requires f.MultiPixmap? && j <= UTS_TBMP_NUM_PIXMAPS
    ensures k in Keys(PartEntries(f, j)) <==> Draws(f, k) && k.mpPart < j
  {
    if j > 0 {
      PartKeys(f, j - 1, k);
      var last := if Wanted(f, j - 1)
                  then [BarPixmap(0, 0, PartOf(f, j - 1).cs, PartOf(f, j - 1).pixmap, j - 1, false)] else [];
      assert k in Keys(last) <==> Draws(f, k) && k.mpPart == j - 1 by {
        if Wanted(f, j - 1) {
          assert last[0].Id() in Keys(last);
        }
      }
      assert PartEntries(f, j) == PartEntries(f, j - 1) + last;
      hide Draws, Keys, PartEntries;
      KeysOfSum(PartEntries(f, j - 1), last);
    }
  }

  lemma FaceKeys(f: Face, k: Key)
    ensures k in Keys(FaceEntries(f)) <==> Draws(f, k)
  {
    if f.MultiPixmap? {
      PartKeys(f, UTS_TBMP_NUM_PIXMAPS, k);
    } else if f.ColorsetButton? {
      assert FaceEntries(f)[0].Id() in Keys(FaceEntries(f));
    }
  }

  lemma {:induction false} AllKeys(faces: seq<Face>, k: Key)
    ensures k in Keys(Entries(faces)) <==> exists f :: f in faces && Draws(f, k)
    decreases |faces|
  {
    if faces != [] {
      var n := |faces| - 1;
      AllKeys(faces[..n], k);
      FaceKeys(faces[n], k);
      KeysOfSum(Entries(faces[..n]), FaceEntries(faces[n]));
      hide Draws, Keys, FaceEntries;
      assert faces == faces[..n] + [faces[n]];
      if f :| f in faces && Draws(f, k) {
        assert f in faces[..n] || f == faces[n];
      }
    }
  }

  lemma FindsKey(bps: seq<BarPixmap>, k: Key)
    ensures k in Keys(bps) <==> Find(bps, k) < |bps|
  {
    if k in Keys(bps) {
      var i :| 0 <= i < |bps| && bps[i].Id() == k;
    }
  }

  /** After setup, a lookup finds an entry for exactly the keys that some face
      draws with. */
  lemma SetupCoversFaces(c: Cache, bs: nat, faces: seq<Face>, k: Key)
    requires bs < |c.tables| && c.tables[bs].count == 0
    ensures IsSetUp(Setup(c, bs, faces), bs, k) <==> exists f :: f in faces && Draws(f, k)
  {
    AllKeys(faces, k);
    FindsKey(Entries(faces), k);
  }

  /** Which parts of a face get an entry: of each side the buttons' own part if there is
      one, else the side's part of the title, else the main part; and of these only a
      part with a colorset or a picture. */
  lemma EntriesOfParts(c: Cache, bs: nat, f: Face, k: Key)
    requires bs < |c.tables| && c.tables[bs].count == 0 && f.MultiPixmap?
    ensures var bps := Setup(c, bs, [f]).tables[bs].bps;
            var m, lm, rm, lb, rb := f.main, f.leftMain, f.rightMain, f.leftButtons, f.rightButtons;
            var left := !(lb.pixmap != 0 || lb.cs >= 0 || lb.solid);
            var right := !(rb.pixmap != 0 || rb.cs >= 0 || rb.solid);
            (exists e :: e in bps && e.cs == k.cs && e.mpPic == k.mpPic && e.mpPart == k.mpPart) <==>
            || (k == Key(lb.cs, lb.pixmap, 3) && (lb.cs >= 0 || lb.pixmap != 0))
            || (k == Key(rb.cs, rb.pixmap, 4) && (rb.cs >= 0 || rb.pixmap != 0))
            || (k == Key(lm.cs, lm.pixmap, 1) && (lm.cs >= 0 || lm.pixmap != 0) && left)
            || (k == Key(rm.cs, rm.pixmap, 2) && (rm.cs >= 0 || rm.pixmap != 0) && right)
            || (k == Key(m.cs, m.pixmap, 0) && (m.cs >= 0 || m.pixmap != 0) &&
                ((left && !(lm.pixmap != 0 || lm.cs >= 0 || lm.solid)) ||
                 (right && !(rm.pixmap != 0 || rm.cs >= 0 || rm.solid))))
  {
    AllKeys([f], k);
    var bps := Setup(c, bs, [f]).tables[bs].bps;
    assert bps == Entries([f]);
    assert k in Keys(bps) <==> exists e :: e in bps && e.cs == k.cs && e.mpPic == k.mpPic && e.mpPart == k.mpPart by {
      hide Entries, Setup;
    }
    hide Entries, Setup, Keys;
    assert f in [f];
    assert (exists g :: g in [f] && Draws(g, k)) <==> Draws(f, k);
  }

  lemma SetupKeepsInv(c: Cache, bs: nat, faces: seq<Face>)
    requires Inv(c) && bs < |c.tables|
    ensures Inv(Setup(c, bs, faces))
  {
    var d := Setup(c, bs, faces);
    EntriesAreNew(faces);
    if c.tables[bs].count == 0 {
      forall x, y | At(d.tables, x, y)
        ensures EntryOk(d, x, y)
        ensures x != bs ==> At(c.tables, x, y) && d.tables[x].bps[y] == c.tables[x].bps[y]
        ensures x == bs ==> d.tables[x].bps[y].p == 0
      {
        if x == bs {
          assert d.tables[x].bps[y] in Entries(faces);
        } else {
          assert EntryOk(c, x, y);
        }
      }
      forall r | r in d.live
        ensures OneOwner(d, r)
      {
        assert OneOwner(c, r);
        OwnersStay(c, d, r);
      }
    }
  }

  // ----- runs

  datatype Op =
    | SetUp(bs: nat, faces: seq<Face>)
    | LookUp(bs: nat, k: Key, wantPic: bool, pictureOk: bool)

  /** The callers ask for no pixmap of a transparent colorset
      (fvwm/borders.c:2237-2259, 3254-3275, 3374-3383), and the server has one for
      every other colorset. */
  function Asked(c: Cache, transparent: set<int>, bs: nat, k: Key, wantPic: bool, pictureOk: bool): Cache
    requires bs < |c.tables|
  {
    if k.cs >= 0 && k.cs in transparent then c else Lookup(c, bs, k, wantPic, k.cs >= 0 || pictureOk)
  }

  lemma AskedKeepsInv(c: Cache, transparent: set<int>, bs: nat, k: Key, wantPic: bool, pictureOk: bool)
    requires Inv(c) && bs < |c.tables|
    ensures Inv(Asked(c, transparent, bs, k, wantPic, pictureOk))
  {
    LookupKeepsInv(c, bs, k, wantPic, k.cs >= 0 || pictureOk);
    hide Inv, Lookup;
  }

  function Step(c: Cache, transparent: set<int>, op: Op): Cache
    requires op.bs < |c.tables|
  {
    match op
    case SetUp(bs, faces) => Setup(c, bs, faces)
    case LookUp(bs, k, wantPic, pictureOk) => Asked(c, transparent, bs, k, wantPic, pictureOk)
  }

  function Run(c: Cache, transparent: set<int>, ops: seq<Op>): (d: Cache)
    requires forall i :: 0 <= i < |ops| ==> ops[i].bs < |c.tables|
    ensures |d.tables| == |c.tables|
    decreases |ops|
  {
    if ops == [] then c else Step(Run(c, transparent, ops[..|ops| - 1]), transparent, ops[|ops| - 1])
  }

  const EMPTY := Cache(seq(BS_MAX, _ => Table(0, [])), 1, {})

  lemma EmptyIsOk()
    ensures Inv(EMPTY)
  {
  }

  lemma {:induction false} RunKeepsInv(c: Cache, transparent: set<int>, ops: seq<Op>)
    requires Inv(c) && forall i :: 0 <= i < |ops| ==> ops[i].bs < |c.tables|
    ensures Inv(Run(c, transparent, ops))
    decreases |ops|
  {
    if ops != [] {
      var n := |ops| - 1;
      RunKeepsInv(c, transparent, ops[..n]);
      hide Inv, Setup, Asked;
      match ops[n]
      case SetUp(bs, faces) =>
        SetupKeepsInv(Run(c, transparent, ops[..n]), bs, faces);
      case LookUp(bs, k, wantPic, pictureOk) =>
        AskedKeepsInv(Run(c, transparent, ops[..n]), transparent, bs, k, wantPic, pictureOk);
    }
  }

  // ----- pictures

  /** Every entry of a picture that has a pixmap has the picture it is in. */
  ghost predicate PicturesOk(c: Cache) {
    forall b, j | At(c.tables, b, j) ::
      var e := c.tables[b].bps[j]; e.cs < 0 && e.p != 0 ==> e.mpPic != 0 && e.mpCreated == e.p
  }

  lemma LookupKeepsPictures(c: Cache, bs: nat, k: Key, ok: bool)
    requires Inv(c) && bs < |c.tables| && PicturesOk(c)
    ensures PicturesOk(Lookup(c, bs, k, true, ok))
  {
    var i, b := Find(c.tables[bs].bps, k), FindShared(c.tables, k, 0);
    var d := Lookup(c, bs, k, true, ok);
    assert b < |c.tables| ==> At(c.tables, b, Find(c.tables[b].bps, k));
    hide Inv, Find, FindShared;
    forall x, y | At(d.tables, x, y)
      ensures var e := d.tables[x].bps[y]; e.cs < 0 && e.p != 0 ==> e.mpPic != 0 && e.mpCreated == e.p
    {
      assert At(c.tables, x, y);
    }
  }

  lemma SetupKeepsPictures(c: Cache, bs: nat, faces: seq<Face>)
    requires bs < |c.tables| && PicturesOk(c)
    ensures PicturesOk(Setup(c, bs, faces))
  {
    var d := Setup(c, bs, faces);
    EntriesAreNew(faces);
    hide Entries;
    forall x, y | At(d.tables, x, y)
      ensures var e := d.tables[x].bps[y]; e.cs < 0 && e.p != 0 ==> e.mpPic != 0 && e.mpCreated == e.p
    {
      assert d.tables[x].bps[y].p == 0 || At(c.tables, x, y);
    }
  }

  /** While every lookup asks for the picture, each entry of a picture that has a
      pixmap has the picture as well: no state is left with the pixmap alone. */
  lemma {:induction false} RunKeepsPictures(transparent: set<int>, ops: seq<Op>)
    requires forall i :: 0 <= i < |ops| ==> ops[i].bs < BS_MAX && (ops[i].LookUp? ==> ops[i].wantPic)
    ensures var c := Run(EMPTY, transparent, ops);
            Inv(c) && forall b, j | At(c.tables, b, j) ::
              var e := c.tables[b].bps[j]; e.cs < 0 && e.p != 0 ==> e.mpPic != 0 && e.mpCreated == e.p
    decreases |ops|
  {
    EmptyIsOk();
    RunKeepsInv(EMPTY, transparent, ops);
    if ops != [] {
      var n := |ops| - 1;
      RunKeepsPictures(transparent, ops[..n]);
      var c := Run(EMPTY, transparent, ops[..n]);
      assert PicturesOk(c);
      hide Inv, Setup, Lookup, PicturesOk;
      match ops[n]
      case SetUp(bs, faces) =>
        SetupKeepsPictures(c, bs, faces);
      case LookUp(bs, k, wantPic, pictureOk) =>
        LookupKeepsPictures(c, bs, k, k.cs >= 0 || pictureOk);
      assert PicturesOk(Run(EMPTY, transparent, ops));
    }
    hide Inv;
  }

  // ----- freeing

  /** What border_free_bar_pixmaps() frees for one entry. */
  function FreedOf(e: BarPixmap): seq<nat> {
    if e.mpCreated != 0 && e.created then [e.mpCreated]
    else if e.p != 0 && e.created then [e.p]
    else []
  }

  function FreedIn(bps: seq<BarPixmap>): seq<nat> {
    if bps == [] then [] else FreedIn(bps[..|bps| - 1]) + FreedOf(bps[|bps| - 1])
  }

  function FreedAll(ts: seq<Table>): seq<nat> {
    if ts == [] then []
    else
      var t := ts[|ts| - 1];
      FreedAll(ts[..|ts| - 1]) + if t.count < 1 then [] else FreedIn(t.bps)
  }

  lemma OneMore(s: seq<nat>, t: seq<nat>, r: nat)
    ensures multiset(s + t)[r] == multiset(s)[r] + multiset(t)[r]
  {
  }

  lemma FreedOfOne(e: BarPixmap, r: nat)
    ensures multiset(FreedOf(e))[r] == if FreedOf(e) == [r] then 1 else 0
  {
  }

  lemma FreedInStep(bps: seq<BarPixmap>, r: nat)
    requires bps != []
    ensures var n := |bps| - 1;
            multiset(FreedIn(bps))[r] == multiset(FreedIn(bps[..n]))[r] + if FreedOf(bps[n]) == [r] then 1 else 0
  {
    hide FreedOf;
    OneMore(FreedIn(bps[..|bps| - 1]), FreedOf(bps[|bps| - 1]), r);
    FreedOfOne(bps[|bps| - 1], r);
  }

  /** Entry `i` is freed as `r`. */
  predicate FreesIn(bps: seq<BarPixmap>, i: int, r: nat) { 0 <= i < |bps| && FreedOf(bps[i]) == [r] }

  lemma FreesBefore(bps: seq<BarPixmap>, r: nat)
    requires bps != []
    ensures var n := |bps| - 1;
            && (forall i :: FreesIn(bps[..n], i, r) <==> FreesIn(bps, i, r) && i != n)
            && (FreesIn(bps, n, r) <==> FreedOf(bps[n]) == [r])
  {
    hide FreedOf;
  }

  lemma {:induction false} CountIn(bps: seq<BarPixmap>, r: nat)
    requires forall i, j :: FreesIn(bps, i, r) && FreesIn(bps, j, r) ==> i == j
    ensures multiset(FreedIn(bps))[r] == if exists i :: FreesIn(bps, i, r) then 1 else 0
    decreases |bps|
  {
    if bps == [] {
      assert FreedIn(bps) == [];
    } else {
      var n := |bps| - 1;
      FreesBefore(bps, r);
      hide FreesIn, FreedIn, FreedOf;
      CountIn(bps[..n], r);
      FreedInStep(bps, r);
      if i :| FreesIn(bps, i, r) {
        assert i == n || FreesIn(bps[..n], i, r);
      }
    }
  }

  /** Entry `j` of table `b` is freed as `r`. */
  predicate Frees(ts: seq<Table>, b: int, j: int, r: nat) {
    0 <= b < |ts| && ts[b].count >= 1 && FreesIn(ts[b].bps, j, r)
  }

  lemma FreedAllStep(ts: seq<Table>, r: nat)
    requires ts != []
    ensures var n := |ts| - 1;
            multiset(FreedAll(ts))[r] ==
            multiset(FreedAll(ts[..n]))[r] + if ts[n].count < 1 then 0 else multiset(FreedIn(ts[n].bps))[r]
  {
    var t := ts[|ts| - 1];
    hide FreedIn;
    OneMore(FreedAll(ts[..|ts| - 1]), if t.count < 1 then [] else FreedIn(t.bps), r);
  }

  lemma {:induction false} CountAll(ts: seq<Table>, r: nat)
    requires forall b, j, b', j' :: Frees(ts, b, j, r) && Frees(ts, b', j', r) ==> b == b' && j == j'
    ensures multiset(FreedAll(ts))[r] == if exists b, j :: Frees(ts, b, j, r) then 1 else 0
    decreases |ts|
  {
    if ts == [] {
      assert FreedAll(ts) == [];
    } else {
      var n := |ts| - 1;
      assert forall b, j :: Frees(ts[..n], b, j, r) <==> Frees(ts, b, j, r) && b < n;
      assert forall b, j :: Frees(ts, b, j, r) ==> b <= n;
      assert ts[n].count >= 1 ==> forall j :: FreesIn(ts[n].bps, j, r) <==> Frees(ts, n, j, r);
      assert ts[n].count < 1 ==> forall j :: !Frees(ts, n, j, r);
      hide Frees, FreesIn, FreedAll, FreedIn;
      CountAll(ts[..n], r);
      FreedAllStep(ts, r);
      if ts[n].count >= 1 {
        CountIn(ts[n].bps, r);
      }
    }
  }

  /** When a valid cache is freed, each created pixmap or picture is freed exactly
      once, and nothing else is. */
  lemma FreesEachOnce(c: Cache, r: nat)
    requires Inv(c)
    ensures multiset(FreedAll(c.tables))[r] == if r in c.live then 1 else 0
  {
    forall b, j
      ensures Frees(c.tables, b, j, r) <==> r in c.live && Owner(c, r, b, j)
    {
      if At(c.tables, b, j) {
        assert EntryOk(c, b, j);
      }
    }
    if r in c.live {
      assert OneOwner(c, r);
    }
    CountAll(c.tables, r);
  }

  /** After any run from the empty cache. */
  lemma RunFreesEachOnce(transparent: set<int>, ops: seq<Op>, r: nat)
    requires forall i :: 0 <= i < |ops| ==> ops[i].bs < BS_MAX
    ensures var c := Run(EMPTY, transparent, ops);
            Inv(c) && multiset(FreedAll(c.tables))[r] == if r in c.live then 1 else 0
  {
    EmptyIsOk();
    hide Inv, FreedAll;
    RunKeepsInv(EMPTY, transparent, ops);
    FreesEachOnce(Run(EMPTY, transparent, ops), r);
  }

  const CSET := Key(3, 0, TBMP_NONE)
  const NEW := BarPixmap(0, 0, 3, 0, TBMP_NONE, false)

  /** Two states with an entry each, and the others before setup. */
  function TwoStates(e: BarPixmap, f: BarPixmap, next: nat, live: set<nat>): Cache {
    Cache([Table(1, [e]), Table(1, [f])] + UNSET, next, live)
  }

  const UNSET: seq<Table> := [NOT_SET, NOT_SET, NOT_SET, NOT_SET, NOT_SET, NOT_SET]

  const NOT_SET := Table(0, [])

  lemma LiveIs(e: BarPixmap, next: nat, live: set<nat>)
    ensures TwoStates(e, e, next, live).live == live
  {
  }

  lemma TwoStatesSetUp()
    ensures Setup(Setup(EMPTY, 0, [ColorsetButton(3)]), 1, [ColorsetButton(3)]) == TwoStates(NEW, NEW, 1, {})
  {
    assert Entries([ColorsetButton(3)]) == [NEW] by {
      assert FaceEntries(ColorsetButton(3)) == [NEW];
      assert Entries([ColorsetButton(3)][..0]) == [];
    }
    var c := Setup(EMPTY, 0, [ColorsetButton(3)]);
    assert c.tables == EMPTY.tables[0 := Table(1, [NEW])];
    assert c.tables[1 := Table(1, [NEW])] == [Table(1, [NEW]), Table(1, [NEW])] + UNSET;
  }

  lemma {:induction false} NothingShared(ts: seq<Table>, k: Key, b: nat)
    requires b <= |ts| && forall d :: b <= d < |ts| ==> ts[d].bps == []
    ensures FindShared(ts, k, b) == |ts|
    decreases |ts| - b
  {
    if b < |ts| {
      NothingShared(ts, k, b + 1);
    }
  }

  lemma LookedIn(e: BarPixmap, f: BarPixmap, next: nat, live: set<nat>)
    requires e.Id() == f.Id() == CSET
    ensures Find([e], CSET) == Find([f], CSET) == 0
    ensures var ts := TwoStates(e, f, next, live).tables;
            && ts[0] == Table(1, [e]) && ts[1] == Table(1, [f]) && |ts| == 8
            && FindShared(ts, CSET, 0) == if e.p != 0 then 0 else if f.p != 0 then 1 else 8
  {
    var ts := TwoStates(e, f, next, live).tables;
    NothingShared(ts, CSET, 2);
    assert FindShared(ts, CSET, 1) == if f.p != 0 then 1 else 8;
  }

  lemma Updated(e: BarPixmap, f: BarPixmap, x: BarPixmap)
    ensures var ts := [Table(1, [e]), Table(1, [f])] + UNSET;
            && ts[0 := Table(1, [e][0 := x])] == [Table(1, [x]), Table(1, [f])] + UNSET
            && ts[1 := Table(1, [f][0 := x])] == [Table(1, [e]), Table(1, [x])] + UNSET
  {
    assert [e][0 := x] == [x] == [f][0 := x];
  }

  lemma FailingStep(e: BarPixmap, f: BarPixmap, next: nat, live: set<nat>)
    requires e.Id() == f.Id() == CSET && e.p == f.p == 0
    ensures Lookup(TwoStates(e, f, next, live), 0, CSET, false, false)
         == TwoStates(e.(created := true), f, next, live)
  {
    LookedIn(e, f, next, live);
    Updated(e, f, e.(created := true));
    hide Find, FindShared;
  }

  lemma CreatingStep(e: BarPixmap, f: BarPixmap, next: nat, live: set<nat>)
    requires e.Id() == f.Id() == CSET && e.p == f.p == 0
    ensures Lookup(TwoStates(e, f, next, live), 1, CSET, false, true)
         == TwoStates(e, f.(created := true, p := next), next + 1, live + {next})
  {
    LookedIn(e, f, next, live);
    Updated(e, f, f.(created := true, p := next));
    hide Find, FindShared;
  }

  lemma SharingStep(e: BarPixmap, f: BarPixmap, next: nat, live: set<nat>)
    requires e.Id() == f.Id() == CSET && e.p == 0 && f.p != 0
    ensures Lookup(TwoStates(e, f, next, live), 0, CSET, false, true)
         == TwoStates(e.(p := f.p), f, next, live)
  {
    LookedIn(e, f, next, live);
    Updated(e, f, e.(p := f.p));
    hide Find, FindShared;
  }

  lemma {:induction false} NothingFreed(ts: seq<Table>, us: seq<Table>)
    requires forall d :: 0 <= d < |us| ==> us[d].count < 1
    ensures FreedAll(ts + us) == FreedAll(ts)
    decreases |us|
  {
    if us == [] {
      assert ts + us == ts;
    } else {
      var n := |us| - 1;
      assert (ts + us)[..|ts + us| - 1] == ts + us[..n];
      NothingFreed(ts, us[..n]);
    }
  }

  lemma FreedTwice(e: BarPixmap, next: nat, live: set<nat>)
    requires e.created && e.mpCreated == 0 && e.p != 0
    ensures multiset(FreedAll(TwoStates(e, e, next, live).tables))[e.p] == 2
  {
    var t := Table(1, [e]);
    NothingFreed([t, t], UNSET);
    assert FreedIn([e]) == [e.p];
    assert FreedAll([t]) == [e.p];
    assert [t, t][..1] == [t];
  }

  /** The lookup itself does not guard against a pixmap that fails: the entry stays
      marked as its creator, shares the pixmap that another state gets later, and
      that one is freed twice. */
  lemma FailedPixmapIsFreedTwice()
    ensures var c := Setup(Setup(EMPTY, 0, [ColorsetButton(3)]), 1, [ColorsetButton(3)]);
            var d := Lookup(Lookup(Lookup(c, 0, CSET, false, false), 1, CSET, false, true), 0, CSET, false, true);
            d.live == {1} && multiset(FreedAll(d.tables))[1] == 2
  {
    var failed := NEW.(created := true);
    TwoStatesSetUp();
    assert NEW.Id() == CSET;
    LiveIs(failed.(p := 1), 2, {1});
    hide Lookup, Inv, FreedAll, TwoStates, Setup;
    FailingStep(NEW, NEW, 1, {});
    CreatingStep(failed, NEW, 1, {});
    SharingStep(failed, failed.(p := 1), 2, {1});
    FreedTwice(failed.(p := 1), 2, {1});
    assert {} + {1} == {1};
  }

  /** A pixmap that an entry has stays with it, and every later lookup of its key
      gives the same one. */
  lemma LookupIsStable(c: Cache, bs: nat, k: Key, wantPic: bool, ok: bool, b: nat, j: nat)
    requires Inv(c) && bs < |c.tables| && At(c.tables, b, j) && c.tables[b].bps[j].p != 0
    ensures var d := Lookup(c, bs, k, wantPic, ok);
            && At(d.tables, b, j) && d.tables[b].bps[j].p == c.tables[b].bps[j].p
            && (IsSetUp(c, bs, k) && k == c.tables[b].bps[j].Id() ==>
                  d.tables[bs].bps[Find(c.tables[bs].bps, k)].p == c.tables[b].bps[j].p)
  {
    assert EntryOk(c, b, j);
    hide OwnersOk, CountsOk;
    var d := Lookup(c, bs, k, wantPic, ok);
    if IsSetUp(c, bs, k) && k == c.tables[b].bps[j].Id() {
      var i := Find(c.tables[bs].bps, k);
      var s := FindShared(c.tables, k, 0);
      assert At(c.tables, bs, i);
      if c.tables[bs].bps[i].p == 0 {
        assert At(c.tables, s, Find(c.tables[s].bps, k));
      }
    }
  }
}

module BarPixmaps {
  import opened BarPixmapSpec
  import opened BarPixmapTheorems

  class DynamicDecorations {
    const transparent: set<int>
    var tables: seq<Table>
    var next: nat
    ghost var live: set<nat>
    ghost var freed: seq<nat>

    ghost function State(): Cache
      reads this
    {
      Cache(tables, next, live)
    }

    constructor (transparent: set<int>)
      ensures State() == EMPTY && Inv(State()) && freed == [] && this.transparent == transparent
    {
      this.transparent := transparent;
      tables := seq(BS_MAX, _ => Table(0, []));
      next, live, freed := 1, {}, [];
    }

    lemma {:induction false} PartCount(f: Face, j: nat)
      requires f.MultiPixmap? && j < UTS_TBMP_NUM_PIXMAPS
      ensures |PartEntries(f, j + 1)| == |PartEntries(f, j)| + if Wanted(f, j) then 1 else 0
    {
    }

    lemma {:induction false} FewerEntries(faces: seq<Face>, n: nat)
      requires n < |faces|
      ensures Entries(faces[..n + 1]) == Entries(faces[..n]) + FaceEntries(faces[n])
      ensures |Entries(faces[..n + 1])| <= |Entries(faces)|
      decreases |faces| - n
    {
      assert faces[..n + 1][..n] == faces[..n];
      if n + 1 < |faces| {
        FewerEntries(faces, n + 1);
      } else {
        assert faces[..n + 1] == faces;
      }
    }

    /** The first pass: how many entries the faces need. */
    method CountEntries(faces: seq<Face>) returns (count: nat)
      ensures count == |Entries(faces)|
    {
      count := 0;
      var n := 0;
      assert faces[..0] == [] && |Entries([])| == 0;
      hide Entries, PartEntries;
      while n < |faces|
        invariant n <= |faces| && count == |Entries(faces[..n])|
      {
        FewerEntries(faces, n);
        var c := CountFace(faces[n]);
        count := count + c;
        n := n + 1;
      }
      assert faces[..n] == faces;
    }

    method CountFace(f: Face) returns (count: nat)
      ensures count == |FaceEntries(f)|
    {
      count := 0;
      if f.ColorsetButton? {
        count := count + 1;
      } else if f.MultiPixmap? {
        var left, right := SidePart(f, true), SidePart(f, false);
        var j := 0;
        while j < UTS_TBMP_NUM_PIXMAPS
          invariant 0 <= j <= UTS_TBMP_NUM_PIXMAPS && count == |PartEntries(f, j)|
        {
          PartCount(f, j);
          if (j == left || j == right) && (PartOf(f, j).cs >= 0 || PartOf(f, j).pixmap != 0) {
            count := count + 1;
          }
          j := j + 1;
        }
      }
    }

    /** The second pass fills an array of exactly that length. */
    method FillEntries(faces: seq<Face>, bps: array<BarPixmap>)
      requires bps.Length == |Entries(faces)|
      modifies bps
      ensures bps[..] == Entries(faces)
    {
      var i := 0;
      hide FaceEntries;
      for n := 0 to |faces|
        invariant i == |Entries(faces[..n])| <= bps.Length
        invariant bps[..i] == Entries(faces[..n])
      {
        FewerEntries(faces, n);
        hide Entries;
        i := FillOne(faces[n], bps, i);
      }
      assert faces[..|faces|] == faces;
    }

    method FillOne(f: Face, bps: array<BarPixmap>, start: nat) returns (i: nat)
      requires start + |FaceEntries(f)| <= bps.Length
      modifies bps
      ensures i == start + |FaceEntries(f)|
      ensures bps[..i] == old(bps[..start]) + FaceEntries(f)
    {
      i := start;
      if f.ColorsetButton? {
        bps[i] := BarPixmap(0, 0, f.cs, 0, TBMP_NONE, false);
        i := i + 1;
      } else if f.MultiPixmap? {
        i := FillFace(f, bps, i);
      }
    }

    method FillFace(f: Face, bps: array<BarPixmap>, start: nat) returns (i: nat)
      requires f.MultiPixmap? && start + |FaceEntries(f)| <= bps.Length
      modifies bps
      ensures i == start + |FaceEntries(f)|
      ensures bps[..i] == old(bps[..start]) + FaceEntries(f)
    {
      i := start;
      var left, right := SidePart(f, true), SidePart(f, false);
      ghost var before := bps[..start];
      var j := 0;
      while j < UTS_TBMP_NUM_PIXMAPS
        invariant 0 <= j <= UTS_TBMP_NUM_PIXMAPS && i == start + |PartEntries(f, j)|
        invariant i <= bps.Length && bps[..i] == before + PartEntries(f, j)
      {
        FewerParts(f, j + 1);
        if (j == left || j == right) && (PartOf(f, j).cs >= 0 || PartOf(f, j).pixmap != 0) {
          bps[i] := BarPixmap(0, 0, PartOf(f, j).cs, PartOf(f, j).pixmap, j, false);
          i := i + 1;
        }
        j := j + 1;
      }
    }

    lemma {:induction false} FewerParts(f: Face, j: nat)
      requires f.MultiPixmap? && j <= UTS_TBMP_NUM_PIXMAPS
      ensures |PartEntries(f, j)| <= |FaceEntries(f)|
      decreases UTS_TBMP_NUM_PIXMAPS - j
    {
      if j < UTS_TBMP_NUM_PIXMAPS {
        FewerParts(f, j + 1);
      }
    }

    /** border_setup_bar_pixmaps() */
    method SetupBarPixmaps(bs: nat, faces: seq<Face>)
      requires bs < |tables|
      modifies this`tables
      ensures State() == Setup(old(State()), bs, faces)
      ensures old(Inv(State())) ==> Inv(State())
      ensures next == old(next) && live == old(live) && |tables| == old(|tables|)
      ensures forall b :: 0 <= b < |tables| && (b != bs || old(tables[bs].count) != 0) ==> tables[b] == old(tables)[b]
      ensures old(tables[bs].count) == 0 ==>
                && tables[bs].count == (if tables[bs].bps == [] then -1 else |tables[bs].bps|)
                && (forall e :: e in tables[bs].bps ==> e.p == 0 && e.mpCreated == 0 && !e.created)
                && (forall k :: IsSetUp(State(), bs, k) <==> exists f :: f in faces && Draws(f, k))
    {
      EntriesAreNew(faces);
      if old(tables[bs].count) == 0 {
        forall k {
          SetupCoversFaces(State(), bs, faces, k);
        }
      }
      hide Draws, IsSetUp, Entries;
      if Inv(State()) {
        SetupKeepsInv(State(), bs, faces);
      }
      if tables[bs].count != 0 {
        return;
      }
      var count := CountEntries(faces);
      if count == 0 {
        tables := tables[bs := Table(-1, [])];
        return;
      }
      var bps := new BarPixmap[count](_ => BarPixmap(0, 0, 0, 0, 0, false));
      FillEntries(faces, bps);
      tables := tables[bs := Table(count, bps[..])];
    }

    method FindEntry(bps: seq<BarPixmap>, k: Key) returns (i: nat)
      ensures i == Find(bps, k)
    {
      i := 0;
      while i < |bps| && (bps[i].cs != k.cs || bps[i].mpPart != k.mpPart || bps[i].mpPic != k.mpPic)
        invariant i <= |bps| && forall j :: 0 <= j < i ==> bps[j].Id() != k
      {
        i := i + 1;
      }
    }

    /** Asks the X server for a pixmap. */
    method Create(ok: bool) returns (r: nat)
      requires next > 0
      modifies this`next, this`live
      ensures r == if ok then old(next) else 0
      ensures if ok then next == old(next) + 1 && live == old(live) + {r} else next == old(next) && live == old(live)
    {
      r := 0;
      if ok {
        r := next;
        live := live + {r};
        next := next + 1;
      }
    }

    /** Looks through all button states for an entry with the key and a pixmap. */
    method Share(was: BarPixmap, k: Key, wantPic: bool) returns (e: BarPixmap)
      requires was.p == 0
      ensures var b := FindShared(tables, k, 0);
              if b == |tables| then e == was
              else
                var f := tables[b].bps[Find(tables[b].bps, k)];
                e == was.(p := f.p, mpCreated := if k.mpPic != 0 && wantPic then f.mpCreated else was.mpCreated)
    {
      e := was;
      var b := 0;
      while b < |tables|
        invariant b <= |tables| && FindShared(tables, k, 0) == FindShared(tables, k, b) && e == was
      {
        var j := FindEntry(tables[b].bps, k);
        if j < |tables[b].bps| && tables[b].bps[j].p != 0 {
          e := e.(p := tables[b].bps[j].p);
          if k.mpPic != 0 && wantPic {
            e := e.(mpCreated := tables[b].bps[j].mpCreated);
          }
          return;
        }
        b := b + 1;
      }
    }

    /** A new pixmap for an entry: a background, or a picture. */
    method CreateFor(was: BarPixmap, k: Key, wantPic: bool, ok: bool) returns (e: BarPixmap)
      requires was.p == 0 && next > 0
      modifies this`next, this`live
      ensures e == if k.cs >= 0 then was.(p := if ok then old(next) else 0, created := true)
                   else if k.mpPic != 0 && wantPic && ok then
                     was.(mpCreated := old(next), created := true, p := old(next))
                   else was
      ensures var isNew := ok && (k.cs >= 0 || (k.mpPic != 0 && wantPic));
              next == old(next) + (if isNew then 1 else 0) && live == old(live) + (if isNew then {e.p} else {})
    {
      e := was;
      if k.cs >= 0 {
        var r := Create(ok);
        e := e.(p := r, created := true);
      } else if k.mpPic != 0 && wantPic {
        var r := Create(ok);
        if r != 0 {
          e := e.(mpCreated := r, created := true, p := r);
        }
      }
    }

    /** border_get_bar_pixmaps(): the pixmap and the picture for a key, shared if any
        button state has one, else created if `ok`. */
    method GetBarPixmaps(bs: nat, k: Key, wantPic: bool, ok: bool) returns (p: nat, pic: nat)
      requires bs < |tables| && Inv(State())
      modifies this`tables, this`next, this`live
      ensures State() == Lookup(old(State()), bs, k, wantPic, ok)
      ensures p == if old(IsSetUp(State(), bs, k)) then tables[bs].bps[Find(old(tables[bs].bps), k)].p else 0
      ensures pic == if old(IsSetUp(State(), bs, k)) then tables[bs].bps[Find(old(tables[bs].bps), k)].mpCreated else 0
      ensures Inv(State()) <==> !old(PixmapFails(State(), bs, k, ok))
      ensures GivesNothing(old(State()), State(), bs, k, p, pic)
      ensures GivesOwn(old(State()), State(), bs, k, p, pic)
      ensures GivesShared(old(State()), State(), bs, k, wantPic, p, pic)
      ensures GivesNew(old(State()), State(), bs, k, wantPic, ok, p, pic)
    {
      LookupGives(State(), bs, k, wantPic, ok);
      hide *;
      p, pic := LookUpEntry(bs, k, wantPic, ok);
    }

    /** The search, and what it changes. */
    method LookUpEntry(bs: nat, k: Key, wantPic: bool, ok: bool) returns (p: nat, pic: nat)
      requires bs < |tables| && Inv(State())
      modifies this`tables, this`next, this`live
      ensures State() == Lookup(old(State()), bs, k, wantPic, ok)
      ensures p == if old(IsSetUp(State(), bs, k)) then tables[bs].bps[Find(old(tables[bs].bps), k)].p else 0
      ensures pic == if old(IsSetUp(State(), bs, k)) then tables[bs].bps[Find(old(tables[bs].bps), k)].mpCreated else 0
      ensures Inv(State()) <==> !old(PixmapFails(State(), bs, k, ok))
    {
      LookupKeepsInv(State(), bs, k, wantPic, ok);
      assert next > 0 && (tables[bs].count > 0 ==> tables[bs].count == |tables[bs].bps|);
      hide Inv, PixmapFails, FindShared, Find;
      if tables[bs].count <= 0 {
        return 0, 0;
      }
      var bps := tables[bs].bps;
      var i := FindEntry(bps, k);
      if i == tables[bs].count {
        return 0, 0;
      }
      var e := bps[i];
      if e.p == 0 {
        e := Share(e, k, wantPic);
      }
      if e.p == 0 {
        e := CreateFor(e, k, wantPic, ok);
      }
      tables := tables[bs := tables[bs].(bps := bps[i := e])];
      p, pic := e.p, e.mpCreated;
    }

    /** The guard of the callers. */
    method AskForPixmap(bs: nat, k: Key, wantPic: bool, pictureOk: bool) returns (p: nat, pic: nat)
      requires bs < |tables| && Inv(State())
      modifies this`tables, this`next, this`live
      ensures Inv(State()) && State() == Step(old(State()), transparent, LookUp(bs, k, wantPic, pictureOk))
      ensures k.cs >= 0 && old(IsSetUp(State(), bs, k)) ==> (p != 0 <==> k.cs !in transparent)
      ensures if k.cs >= 0 && k.cs in transparent then State() == old(State()) && p == pic == 0
              else
                && GivesNothing(old(State()), State(), bs, k, p, pic)
                && GivesOwn(old(State()), State(), bs, k, p, pic)
                && GivesShared(old(State()), State(), bs, k, wantPic, p, pic)
                && GivesNew(old(State()), State(), bs, k, wantPic, k.cs >= 0 || pictureOk, p, pic)
    {
      AskedKeepsInv(State(), transparent, bs, k, wantPic, pictureOk);
      if k.cs >= 0 && k.cs in transparent {
        return 0, 0;
      }
      if IsSetUp(State(), bs, k) {
        GivesPixmap(State(), bs, k, wantPic, k.cs >= 0 || pictureOk);
      }
      hide Inv, Lookup, GivesNothing, GivesOwn, GivesShared, GivesNew;
      p, pic := GetBarPixmaps(bs, k, wantPic, k.cs >= 0 || pictureOk);
    }

    lemma GivesPixmap(c: Cache, bs: nat, k: Key, wantPic: bool, ok: bool)
      requires Inv(c) && bs < |c.tables| && IsSetUp(c, bs, k)
      ensures var d := Lookup(c, bs, k, wantPic, ok);
              var i := Find(c.tables[bs].bps, k);
              i < |d.tables[bs].bps| && (k.cs >= 0 && ok ==> d.tables[bs].bps[i].p != 0)
    {
    }

    /** border_free_bar_pixmaps() */
    method FreeBarPixmaps()
      requires Inv(State())
      modifies this`freed
      ensures freed == old(freed) + FreedAll(tables)
      ensures forall r :: multiset(FreedAll(tables))[r] == if r in live then 1 else 0
    {
      FreesExactly(State());
      FreeTables();
    }

    method FreeTables()
      modifies this`freed
      ensures freed == old(freed) + FreedAll(tables)
    {
      FreedAllEnds(tables);
      hide *;
      ghost var before := freed;
      var bs := 0;
      while bs < |tables|
        invariant bs <= |tables| && freed == before + FreedAll(tables[..bs])
      {
        FreedAllNext(tables, bs);
        if tables[bs].count >= 1 {
          FreeTable(tables[bs].bps);
        }
        bs := bs + 1;
      }
    }

    lemma FreesExactly(c: Cache)
      requires Inv(c)
      ensures forall r :: multiset(FreedAll(c.tables))[r] == if r in c.live then 1 else 0
    {
      forall r: nat
        ensures multiset(FreedAll(c.tables))[r] == if r in c.live then 1 else 0
      {
        FreesEachOnce(c, r);
      }
    }

    lemma FreedAllEnds(ts: seq<Table>)
      ensures FreedAll(ts[..0]) == [] && FreedAll(ts[..|ts|]) == FreedAll(ts)
    {
      assert ts[..|ts|] == ts;
    }

    lemma FreedAllNext(ts: seq<Table>, n: nat)
      requires n < |ts|
      ensures FreedAll(ts[..n + 1]) == FreedAll(ts[..n]) + if ts[n].count < 1 then [] else FreedIn(ts[n].bps)
    {
      assert ts[..n + 1][..n] == ts[..n];
    }

    method FreeTable(bps: seq<BarPixmap>)
      modifies this`freed
      ensures freed == old(freed) + FreedIn(bps)
    {
      ghost var before := freed;
      var i := 0;
      while i < |bps|
        invariant i <= |bps| && freed == before + FreedIn(bps[..i])
      {
        assert bps[..i + 1][..i] == bps[..i];
        if bps[i].mpCreated != 0 && bps[i].created {
          freed := freed + [bps[i].mpCreated];
        } else if bps[i].p != 0 && bps[i].created {
          freed := freed + [bps[i].p];
        }
        i := i + 1;
      }
      assert bps[..i] == bps;
    }
  }
}
