/** Demand paging (pintos/src/vm/page.c, pintos/src/vm/frame.c) over the swap device: page contents
    move between file, frame and swap, and user programs see ordinary memory. */
module Paging {
  import opened Basics
  import opened Swap

  type Tid = nat
  type FileId = nat

  datatype Pid = Pid(thread: Tid, vpn: nat)

  /** Where a page's first contents come from: zeros (file == NULL), or readBytes bytes of a file
      followed by zeros; mmap tells a memory-mapped file from a program segment. */
  datatype Source = Zeros | File(id: FileId, ofs: nat, readBytes: nat, mmap: bool)

  /** An entry of the supplemental page table. */
  datatype Page = Page(writable: bool, frame: Option<nat>, priv: bool, dirty: bool, slot: Option<nat>, src: Source)

  /** A hardware page-table entry; clearing `present` preserves the other bits. */
  datatype Pte = Pte(present: bool, accessed: bool, dirty: bool, frame: nat)

  datatype Frame = Frame(data: PageData, vpage: Option<Pid>, pinned: bool)

  datatype Mem = Mem(pages: map<Pid, Page>, ptes: map<Pid, Pte>, frames: seq<Frame>,
                     files: map<FileId, seq<Byte>>, held: map<nat, PageData>)

  predicate IsMmap(src: Source) { src.File? && src.mmap }

  /** What page_in reads for a page that is not in swap; None when the file is too short.  A page with
      nothing to read, as most of a program's bss, never is: the file is not looked at. */
  function Loaded(files: map<FileId, seq<Byte>>, src: Source): (d: Option<PageData>) {
    if src.Zeros? || src.readBytes == 0 then Some(Zeroes(4096))
    else if src.readBytes <= 4096 && src.id in files && src.ofs + src.readBytes <= |files[src.id]| then
      Some(files[src.id][src.ofs..src.ofs + src.readBytes] + Zeroes(4096 - src.readBytes))
    else None
  }

  /** Bytes of a page that count: a memory-mapped page ends with its file. */
  function Trim(src: Source, d: PageData): (r: seq<Byte>) {
    if IsMmap(src) && src.readBytes <= 4096 then d[..src.readBytes] else d
  }

  // ---------------------------------------------------------------- invariant

  /** All that one page depends on. */
  datatype Local = Local(pg: Page, present: bool, hwDirty: bool, hwFrame: Option<nat>, data: Option<PageData>,
                         loaded: Option<PageData>, stored: Option<PageData>)

  predicate Present(ptes: map<Pid, Pte>, p: Pid) { p in ptes && ptes[p].present }

  predicate HwDirty(ptes: map<Pid, Pte>, p: Pid) { p in ptes && ptes[p].dirty }

  predicate Accessed(ptes: map<Pid, Pte>, p: Pid) { p in ptes && ptes[p].accessed }

  ghost function LocalOf(m: Mem, p: Pid): Local
    requires p in m.pages
  {
    var pg := m.pages[p];
    Local(pg, Present(m.ptes, p), HwDirty(m.ptes, p),
          if p in m.ptes then Some(m.ptes[p].frame) else None,
          if pg.frame.Some? && pg.frame.value < |m.frames| then Some(m.frames[pg.frame.value].data) else None,
          Loaded(m.files, pg.src),
          if pg.slot.Some? && pg.slot.value in m.held then Some(m.held[pg.slot.value]) else None)
  }

  ghost predicate LocalOk(l: Local) {
    && (l.pg.src.File? ==> l.pg.src.readBytes <= 4096)
    && (l.pg.frame.Some? ==> l.data.Some?)
    && (l.pg.priv <==> l.pg.slot.Some?)
    && (l.present ==> l.pg.frame.Some? && l.hwFrame == l.pg.frame && !l.pg.priv && l.loaded.Some?)
    && (l.pg.priv ==> l.pg.frame.None? && l.stored.Some? && l.pg.dirty && l.loaded.Some? && !IsMmap(l.pg.src))
    && (l.present && !l.hwDirty && !l.pg.dirty ==> Trim(l.pg.src, l.data.value) == Trim(l.pg.src, l.loaded.value))
    && (l.pg.frame.Some? && !l.present ==> l.loaded.None?)
    && (l.loaded.None? ==> !l.pg.dirty && !l.hwDirty)
    && (IsMmap(l.pg.src) ==> l.pg.writable && !l.pg.dirty && l.pg.src.readBytes > 0)
    && (l.pg.priv || l.pg.dirty || l.hwDirty ==> l.pg.writable)
  }

  /** What the page's owner reads, faulting the page in if need be; None when that fault fails. */
  ghost function LocalView(l: Local): Option<seq<Byte>>
    requires LocalOk(l)
  {
    if l.present then Some(Trim(l.pg.src, l.data.value))
    else if l.pg.priv then Some(l.stored.value)
    else if l.loaded.Some? then Some(Trim(l.pg.src, l.loaded.value))
    else None
  }

  ghost predicate PagesOk(m: Mem) { forall p {:trigger LocalOf(m, p)} :: p in m.pages ==> LocalOk(LocalOf(m, p)) }

  /** Frames and pages point at each other, one to one; `hole` is a frame changing hands, which no
      page points at. */
  ghost predicate Linked(pages: map<Pid, Page>, frames: seq<Frame>, hole: Option<nat>) {
    && (forall p {:trigger FrameOk(frames, hole, p, pages[p].frame)} :: p in pages ==>
          FrameOk(frames, hole, p, pages[p].frame))
    && (forall f {:trigger OwnerOk(pages, f, frames[f].vpage)} :: 0 <= f < |frames| && Some(f) != hole ==>
          OwnerOk(pages, f, frames[f].vpage))
  }

  ghost predicate FrameOk(frames: seq<Frame>, hole: Option<nat>, p: Pid, frame: Option<nat>) {
    frame.Some? ==> frame.value < |frames| && frame != hole && frames[frame.value].vpage == Some(p)
  }

  ghost predicate OwnerOk(pages: map<Pid, Page>, f: nat, owner: Option<Pid>) {
    owner.Some? ==> owner.value in pages && pages[owner.value].frame == Some(f)
  }

  /** Swapped-out pages own the groups in use, one each, and no group is in use without an owner. */
  ghost predicate SlotsOwned(pages: map<Pid, Page>, held: map<nat, PageData>) {
    && (forall p, q, s :: Owns(pages, p, s) && Owns(pages, q, s) ==> p == q)
    && (forall p, s :: Owns(pages, p, s) ==> s in held)
    && (forall s :: s in held ==> exists p :: Owns(pages, p, s))
  }

  ghost predicate Owns(pages: map<Pid, Page>, p: Pid, s: nat) { p in pages && pages[p].slot == Some(s) }

  /** A memory-mapped page shares no file bytes with any other page. */
  ghost predicate SourcesApart(pages: map<Pid, Page>) {
    forall p, q {:trigger Apart(pages[p].src, pages[q].src)} ::
      p in pages && q in pages && p != q ==> Apart(pages[p].src, pages[q].src)
  }

  predicate Apart(a: Source, b: Source) {
    a.File? && b.File? && (a.mmap || b.mmap) ==> !Overlap(a, b)
  }

  /** Two sources have a byte of a file in common. */
  predicate Overlap(a: Source, b: Source) {
    && a.File? && b.File? && a.id == b.id && a.readBytes > 0 && b.readBytes > 0
    && a.ofs < b.ofs + b.readBytes && b.ofs < a.ofs + a.readBytes
  }

  ghost predicate Inv(m: Mem, hole: Option<nat>) {
    && PagesOk(m) && Linked(m.pages, m.frames, hole) && SlotsOwned(m.pages, m.held) && SourcesApart(m.pages)
    && m.ptes.Keys <= m.pages.Keys && PinsOk(m.pages, m.frames, hole)
  }

  /** A frame with an owner is pinned exactly when that is a page of a file that is not writable. */
  ghost predicate PinOk(pages: map<Pid, Page>, fr: Frame) {
    fr.vpage.Some? && fr.vpage.value in pages ==>
      (fr.pinned <==> pages[fr.vpage.value].src.File? && !pages[fr.vpage.value].writable)
  }

  ghost predicate PinsOk(pages: map<Pid, Page>, frames: seq<Frame>, hole: Option<nat>) {
    forall f {:trigger PinOk(pages, frames[f])} :: 0 <= f < |frames| && Some(f) != hole ==> PinOk(pages, frames[f])
  }

  /** All frames but f have the owner and the pin they had, and no page has changed its source or rights. */
  ghost predicate SamePins(pages: map<Pid, Page>, frames: seq<Frame>, pages': map<Pid, Page>, frames': seq<Frame>,
                           f: Option<nat>) {
    && |frames'| == |frames|
    && (forall g {:trigger frames'[g]} :: 0 <= g < |frames| && f != Some(g) ==>
          frames'[g].vpage == frames[g].vpage && frames'[g].pinned == frames[g].pinned)
    && (forall q {:trigger pages'[q]} :: q in pages' && q in pages ==>
          pages'[q].writable == pages[q].writable && pages'[q].src == pages[q].src)
    && (forall g {:trigger frames[g]} :: 0 <= g < |frames| && f != Some(g) && frames[g].vpage.Some? ==>
          frames[g].vpage.value in pages || frames[g].vpage.value !in pages')
  }

  lemma PinsKept(pages: map<Pid, Page>, frames: seq<Frame>, hole: Option<nat>,
                 pages': map<Pid, Page>, frames': seq<Frame>, hole': Option<nat>, f: Option<nat>)
    requires PinsOk(pages, frames, hole) && SamePins(pages, frames, pages', frames', f)
    requires hole == None || hole == f || hole == hole'
    requires f.Some? && f.value < |frames'| && f != hole' ==> PinOk(pages', frames'[f.value])
    ensures PinsOk(pages', frames', hole')
  {
    forall g {:trigger PinOk(pages', frames'[g])} | 0 <= g < |frames'| && Some(g) != hole'
      ensures PinOk(pages', frames'[g])
    {
      if f != Some(g) {
        assert PinOk(pages, frames[g]);
        assert frames'[g].vpage == frames[g].vpage;
      }
    }
  }

  ghost function View(m: Mem, p: Pid): Option<seq<Byte>>
    requires PagesOk(m) && p in m.pages
  {
    LocalView(LocalOf(m, p))
  }

  /** Nothing but page p may have changed, as its owners see it. */
  ghost predicate OthersKept(m: Mem, m': Mem, p: Pid) {
    && m'.pages.Keys == m.pages.Keys
    && forall q {:trigger LocalOf(m', q)} :: q in m.pages && q != p ==> LocalOf(m', q) == LocalOf(m, q)
  }

  lemma OthersOk(m: Mem, m': Mem, p: Pid)
    requires PagesOk(m) && OthersKept(m, m', p) && p in m.pages && LocalOk(LocalOf(m', p))
    ensures PagesOk(m') && forall q :: q in m.pages && q != p ==> View(m', q) == View(m, q)
  {
  }

  ghost predicate SameLocals(m: Mem, m': Mem) {
    && m'.pages.Keys == m.pages.Keys
    && forall q {:trigger LocalOf(m', q)} :: q in m.pages ==> LocalOf(m', q) == LocalOf(m, q)
  }

  lemma SameViews(m: Mem, m': Mem)
    requires PagesOk(m) && SameLocals(m, m')
    ensures PagesOk(m') && forall q :: q in m.pages ==> View(m', q) == View(m, q)
  {
  }

  // ---------------------------------------------------------------- page_out

  ghost predicate IsDirty(m: Mem, p: Pid)
    requires p in m.pages
  {
    m.pages[p].dirty || HwDirty(m.ptes, p)
  }

  /** s with the bytes from ofs on overwritten by d. */
  function Patch(s: seq<Byte>, ofs: nat, d: seq<Byte>): (r: seq<Byte>)
    requires ofs + |d| <= |s|
    ensures |r| == |s| && r[ofs..ofs + |d|] == d
    ensures forall i :: 0 <= i < |s| && !(ofs <= i < ofs + |d|) ==> r[i] == s[i]
  {
    s[..ofs] + d + s[ofs + |d|..]
  }

  function Cleared(ptes: map<Pid, Pte>, p: Pid): map<Pid, Pte> {
    if Present(ptes, p) then ptes[p := ptes[p].(present := false)] else ptes
  }

  function HwClean(ptes: map<Pid, Pte>, p: Pid): map<Pid, Pte> {
    if p in ptes then ptes[p := ptes[p].(dirty := false)] else ptes
  }

  ghost predicate Placed(m: Mem, p: Pid) {
    p in m.pages && m.pages[p].frame.Some? && m.pages[p].frame.value < |m.frames| && LocalOk(LocalOf(m, p))
  }

  lemma IsPlaced(m: Mem, hole: Option<nat>, p: Pid)
    requires Inv(m, hole) && p in m.pages && m.pages[p].frame.Some?
    ensures Placed(m, p) && m.frames[m.pages[p].frame.value].vpage == Some(p)
  {
    assert FrameOk(m.frames, hole, p, m.pages[p].frame);
  }

  /** The state after page_out; slot is what swap_out answered. */
  ghost function PagedOut(m: Mem, p: Pid, slot: Option<nat>): Mem
    requires Placed(m, p)
  {
    var pg := m.pages[p];
    var data := m.frames[pg.frame.value].data;
    if !IsDirty(m, p) then
      m.(pages := m.pages[p := pg.(frame := None)], ptes := Cleared(m.ptes, p))
    else if IsMmap(pg.src) then
      m.(pages := m.pages[p := pg.(frame := None)], ptes := Cleared(HwClean(m.ptes, p), p),
         files := m.files[pg.src.id := Patch(m.files[pg.src.id], pg.src.ofs, data[..pg.src.readBytes])])
    else if slot.Some? then
      m.(pages := m.pages[p := pg.(frame := None, dirty := true, priv := true, slot := slot)],
         ptes := Cleared(m.ptes, p), held := m.held[slot.value := data])
    else
      m.(pages := m.pages[p := pg.(frame := None, dirty := true)], ptes := Cleared(m.ptes, p))
  }

  /** page_out throws a page's contents away: it is dirty, has to go to swap, and swap is full. */
  ghost predicate Loses(m: Mem, p: Pid, slot: Option<nat>)
    requires p in m.pages
  {
    IsDirty(m, p) && !IsMmap(m.pages[p].src) && slot.None?
  }

  lemma PatchApart(files: map<FileId, seq<Byte>>, a: Source, b: Source, d: seq<Byte>)
    requires a.File? && a.mmap && Apart(a, b) && a.id in files
    requires |d| == a.readBytes && a.ofs + a.readBytes <= |files[a.id]|
    ensures Loaded(files[a.id := Patch(files[a.id], a.ofs, d)], b) == Loaded(files, b)
  {
    if b.File? && b.id == a.id {
      var old' := files[a.id];
      var new' := Patch(old', a.ofs, d);
      if b.ofs + b.readBytes <= |old'| {
        assert new'[b.ofs..b.ofs + b.readBytes] == old'[b.ofs..b.ofs + b.readBytes];
      }
    }
  }

  ghost predicate CanWriteBack(files: map<FileId, seq<Byte>>, a: Source, d: seq<Byte>) {
    a.File? && a.id in files && |d| == a.readBytes && a.ofs + a.readBytes <= |files[a.id]|
  }

  /** What sources apart is needed for, no more and no less: write-back through a mapped page never shows in
      another page's file contents exactly when the two have no byte in common. */
  lemma ApartIff(a: Source, b: Source)
    requires a.File? && a.mmap && (b.File? ==> b.readBytes <= 4096)
    ensures (forall files, d {:trigger CanWriteBack(files, a, d)} :: CanWriteBack(files, a, d) ==>
               Loaded(files[a.id := Patch(files[a.id], a.ofs, d)], b) == Loaded(files, b))
            <==> Apart(a, b)
  {
    if Apart(a, b) {
      forall files, d {:trigger CanWriteBack(files, a, d)} | CanWriteBack(files, a, d)
        ensures Loaded(files[a.id := Patch(files[a.id], a.ofs, d)], b) == Loaded(files, b)
      {
        PatchApart(files, a, b, d);
      }
    } else {
      OverlapShows(a, b);
    }
  }

  lemma OverlapShows(a: Source, b: Source)
    requires Overlap(a, b) && b.readBytes <= 4096
    ensures exists files, d {:trigger CanWriteBack(files, a, d)} :: CanWriteBack(files, a, d)
              && Loaded(files[a.id := Patch(files[a.id], a.ofs, d)], b) != Loaded(files, b)
  {
    var blank := Zeroes(a.ofs + a.readBytes + b.ofs + b.readBytes);
    var files := map[a.id := blank];
    var d: seq<Byte> := seq(a.readBytes, _ => 1);
    assert CanWriteBack(files, a, d);
    var patched := Patch(blank, a.ofs, d);
    var k := if a.ofs < b.ofs then b.ofs else a.ofs;
    assert patched[k] == patched[a.ofs..a.ofs + |d|][k - a.ofs] == 1 && blank[k] == 0;
    var was, now := Loaded(files, b), Loaded(files[a.id := patched], b);
    assert was.value[k - b.ofs] == 0 && now.value[k - b.ofs] == 1;
  }

  lemma PagedOutLocal(m: Mem, p: Pid, slot: Option<nat>)
    requires Placed(m, p)
    requires slot.Some? ==> slot.value !in m.held
    ensures var l := LocalOf(PagedOut(m, p, slot), p);
            && LocalOk(l) && !l.present
            && LocalView(l) == if Loses(m, p, slot) then Loaded(m.files, m.pages[p].src) else LocalView(LocalOf(m, p))
  {
    var l, l' := LocalOf(m, p), LocalOf(PagedOut(m, p, slot), p);
    assert LocalOk(l);
    var src := m.pages[p].src;
    if IsDirty(m, p) && IsMmap(src) {
      var d := m.frames[m.pages[p].frame.value].data;
      assert l'.loaded.Some? && l'.loaded.value[..src.readBytes] == d[..src.readBytes];
    }
  }

  lemma PagedOutOther(m: Mem, p: Pid, slot: Option<nat>, q: Pid)
    requires Placed(m, p) && q in m.pages && q != p && Apart(m.pages[p].src, m.pages[q].src)
    requires slot.Some? ==> slot.value !in m.held && !Owns(m.pages, q, slot.value)
    ensures LocalOf(PagedOut(m, p, slot), q) == LocalOf(m, q)
  {
    var src := m.pages[p].src;
    if IsDirty(m, p) {
      if IsMmap(src) {
        PatchApart(m.files, src, m.pages[q].src, m.frames[m.pages[p].frame.value].data[..src.readBytes]);
      }
    }
  }

  lemma PagedOutOthers(m: Mem, p: Pid, slot: Option<nat>)
    requires Placed(m, p) && SourcesApart(m.pages) && SlotsOwned(m.pages, m.held)
    requires slot.Some? ==> slot.value !in m.held
    ensures OthersKept(m, PagedOut(m, p, slot), p)
  {
    forall q | q in m.pages && q != p
      ensures LocalOf(PagedOut(m, p, slot), q) == LocalOf(m, q)
    {
      PagedOutOther(m, p, slot, q);
    }
  }

  /** Pages a and b have the same frames, but for page p. */
  ghost predicate SameFrames(a: map<Pid, Page>, b: map<Pid, Page>, p: Pid) {
    a.Keys == b.Keys && forall q :: q in a && q != p ==> b[q].frame == a[q].frame
  }

  ghost predicate SameSources(a: map<Pid, Page>, b: map<Pid, Page>) {
    a.Keys == b.Keys && forall q :: q in a ==> b[q].src == a[q].src
  }

  lemma SourcesKept(a: map<Pid, Page>, b: map<Pid, Page>)
    requires SourcesApart(a) && SameSources(a, b)
    ensures SourcesApart(b)
  {
  }

  lemma Unlinked(a: map<Pid, Page>, b: map<Pid, Page>, frames: seq<Frame>, p: Pid)
    requires Linked(a, frames, None) && p in a && SameFrames(a, b, p) && b[p].frame.None?
    ensures Linked(b, frames, a[p].frame)
  {
    var f := a[p].frame;
    forall q | q in b
      ensures FrameOk(frames, f, q, b[q].frame)
    {
      assert FrameOk(frames, None, q, a[q].frame) && FrameOk(frames, None, p, a[p].frame);
    }
    forall g | 0 <= g < |frames| && Some(g) != f
      ensures OwnerOk(b, g, frames[g].vpage)
    {
      assert OwnerOk(a, g, frames[g].vpage);
    }
  }

  lemma PagedOutLinked(m: Mem, p: Pid, slot: Option<nat>)
    requires Placed(m, p) && Linked(m.pages, m.frames, None) && SourcesApart(m.pages)
    ensures var m' := PagedOut(m, p, slot);
            Linked(m'.pages, m'.frames, m.pages[p].frame) && SourcesApart(m'.pages)
  {
    var m' := PagedOut(m, p, slot);
    SourcesKept(m.pages, m'.pages);
    Unlinked(m.pages, m'.pages, m.frames, p);
  }

  lemma PagedOutSlots(m: Mem, p: Pid, slot: Option<nat>)
    requires Placed(m, p) && SlotsOwned(m.pages, m.held)
    requires slot.Some? ==> slot.value !in m.held
    ensures var m' := PagedOut(m, p, slot); SlotsOwned(m'.pages, m'.held)
  {
    var m' := PagedOut(m, p, slot);
    if m'.pages[p].slot.None? {
      SlotsKept(m.pages, m'.pages, m.held);
    } else {
      SlotAdded(m.pages, m'.pages, m.held, p, slot.value, m'.held[slot.value]);
    }
  }

  lemma SlotsKept(a: map<Pid, Page>, b: map<Pid, Page>, held: map<nat, PageData>)
    requires SlotsOwned(a, held) && a.Keys == b.Keys && forall p :: p in a ==> a[p].slot == b[p].slot
    ensures SlotsOwned(b, held)
  {
    assert forall p, s :: Owns(b, p, s) <==> Owns(a, p, s);
  }

  lemma SlotAdded(a: map<Pid, Page>, b: map<Pid, Page>, held: map<nat, PageData>, p: Pid, s: nat, d: PageData)
    requires SlotsOwned(a, held) && a.Keys == b.Keys && p in a && a[p].slot.None? && b[p].slot == Some(s) && s !in held
    requires forall q :: q in a && q != p ==> a[q].slot == b[q].slot
    ensures SlotsOwned(b, held[s := d])
  {
    assert forall q, t :: Owns(b, q, t) <==> if q == p then t == s else Owns(a, q, t);
    assert Owns(b, p, s);
  }

  lemma SlotRemoved(a: map<Pid, Page>, b: map<Pid, Page>, held: map<nat, PageData>, p: Pid, s: nat)
    requires SlotsOwned(a, held) && Owns(a, p, s) && b.Keys + {p} == a.Keys
    requires p in b ==> b[p].slot.None?
    requires forall q :: q in b && q != p ==> a[q].slot == b[q].slot
    ensures SlotsOwned(b, held - {s})
  {
    assert forall q, t :: Owns(b, q, t) <==> q != p && Owns(a, q, t);
  }

  /** page_out keeps the invariant, and every page's contents except the one it loses to a full
      swap device, which falls back to its first contents. */
  lemma PagedOutOk(m: Mem, p: Pid, slot: Option<nat>)
    requires Inv(m, None) && Placed(m, p)
    requires slot.Some? ==> slot.value !in m.held
    ensures var m' := PagedOut(m, p, slot);
            && Inv(m', m.pages[p].frame)
            && (forall q :: q in m.pages && q != p ==> View(m', q) == View(m, q))
            && View(m', p) == if Loses(m, p, slot) then Loaded(m.files, m.pages[p].src) else View(m, p)
  {
    PagedOutLocal(m, p, slot);
    PagedOutOthers(m, p, slot);
    PagedOutLinked(m, p, slot);
    PagedOutSlots(m, p, slot);
    PagedOutPins(m, p, slot);
    OthersOk(m, PagedOut(m, p, slot), p);
  }

  lemma PagedOutPins(m: Mem, p: Pid, slot: Option<nat>)
    requires Placed(m, p) && Linked(m.pages, m.frames, None) && PinsOk(m.pages, m.frames, None)
    ensures var m' := PagedOut(m, p, slot); PinsOk(m'.pages, m'.frames, m.pages[p].frame)
  {
    var m' := PagedOut(m, p, slot);
    PinsKept(m.pages, m.frames, None, m'.pages, m'.frames, m.pages[p].frame, None);
  }

  // ---------------------------------------------------------------- frames changing hands

  function Claimed(m: Mem, f: nat, p: Pid, pinned: bool): Mem
    requires f < |m.frames|
  {
    m.(frames := m.frames[f := m.frames[f].(vpage := Some(p), pinned := pinned)])
  }

  lemma ClaimedLinked(pages: map<Pid, Page>, frames: seq<Frame>, hole: Option<nat>, f: nat, fr: Frame)
    requires Linked(pages, frames, hole) && f < |frames|
    requires hole == Some(f) || (hole.None? && frames[f].vpage.None?)
    ensures Linked(pages, frames[f := fr], Some(f))
  {
    forall q | q in pages
      ensures FrameOk(frames[f := fr], Some(f), q, pages[q].frame)
    {
      assert FrameOk(frames, hole, q, pages[q].frame);
    }
    var frames' := frames[f := fr];
    forall g | 0 <= g < |frames'| && Some(g) != Some(f)
      ensures OwnerOk(pages, g, frames'[g].vpage)
    {
      assert OwnerOk(pages, g, frames[g].vpage);
    }
  }

  /** Giving a free or vacated frame to page p, before p points at it. */
  lemma ClaimedOk(m: Mem, hole: Option<nat>, f: nat, p: Pid, pinned: bool)
    requires Inv(m, hole) && f < |m.frames| && (hole == Some(f) || (hole.None? && m.frames[f].vpage.None?))
    ensures Inv(Claimed(m, f, p, pinned), Some(f))
    ensures forall q :: q in m.pages ==> View(Claimed(m, f, p, pinned), q) == View(m, q)
  {
    var m' := Claimed(m, f, p, pinned);
    assert m'.frames[f].data == m.frames[f].data;
    assert SameLocals(m, m');
    SameViews(m, m');
    ClaimedLinked(m.pages, m.frames, hole, f, m'.frames[f]);
    ClaimedPins(m.pages, m.frames, hole, f, m'.frames[f]);
  }

  lemma ClaimedPins(pages: map<Pid, Page>, frames: seq<Frame>, hole: Option<nat>, f: nat, fr: Frame)
    requires Linked(pages, frames, hole) && PinsOk(pages, frames, hole) && f < |frames|
    requires hole == Some(f) || hole.None?
    ensures PinsOk(pages, frames[f := fr], Some(f))
  {
    forall g | 0 <= g < |frames| && g != f
      ensures frames[g].vpage.Some? ==> frames[g].vpage.value in pages
    {
      assert OwnerOk(pages, g, frames[g].vpage);
    }
    PinsKept(pages, frames, hole, pages, frames[f := fr], Some(f), Some(f));
  }

  // ---------------------------------------------------------------- page_in

  /** A frame after a read that delivered too few bytes: those that the file has, over what was there. */
  function ShortRead(files: map<FileId, seq<Byte>>, src: Source, old': PageData): (d: PageData)
    requires src.File? && src.readBytes <= 4096 && Loaded(files, src).None?
    ensures forall k :: 0 <= k < 4096 ==>
              d[k] == if src.id in files && src.ofs + k < |files[src.id]| then files[src.id][src.ofs + k] else old'[k]
  {
    if src.id in files && src.ofs < |files[src.id]| then
      files[src.id][src.ofs..] + old'[|files[src.id]| - src.ofs..]
    else old'
  }

  /** Program text stays pinned. */
  function PinnedAfter(pg: Page): bool { !pg.priv && pg.src.File? && !pg.writable }

  /** The state after page_in has filled frame f for page p. */
  ghost function PagedIn(m: Mem, p: Pid, f: nat): Mem
    requires p in m.pages && LocalOk(LocalOf(m, p)) && f < |m.frames|
  {
    var pg := m.pages[p];
    var mapped := m.ptes[p := Pte(true, false, false, f)];
    if pg.priv then
      m.(pages := m.pages[p := pg.(frame := Some(f), priv := false, slot := None)], ptes := mapped,
         frames := m.frames[f := Frame(m.held[pg.slot.value], Some(p), false)], held := m.held - {pg.slot.value})
    else if Loaded(m.files, pg.src).Some? then
      m.(pages := m.pages[p := pg.(frame := Some(f))], ptes := mapped,
         frames := m.frames[f := Frame(Loaded(m.files, pg.src).value, Some(p), PinnedAfter(pg))])
    else
      m.(pages := m.pages[p := pg.(frame := Some(f))],
         frames := m.frames[f := Frame(ShortRead(m.files, pg.src, m.frames[f].data), Some(p), PinnedAfter(pg))])
  }

  ghost predicate Vacant(m: Mem, p: Pid, f: nat) {
    p in m.pages && m.pages[p].frame.None? && !Present(m.ptes, p) && f < |m.frames| && LocalOk(LocalOf(m, p))
  }

  /** Frame f has been given to page p, which does not point at it yet. */
  ghost predicate Claiming(m: Mem, p: Pid, f: nat) {
    Vacant(m, p, f) && m.frames[f].vpage == Some(p) && Inv(m, Some(f))
  }

  lemma PagedInLocal(m: Mem, p: Pid, f: nat)
    requires Vacant(m, p, f)
    ensures var l := LocalOf(PagedIn(m, p, f), p);
            LocalOk(l) && LocalView(l) == LocalView(LocalOf(m, p)) && l.present == LocalView(l).Some?
  {
  }

  lemma PagedInOther(m: Mem, p: Pid, f: nat, q: Pid)
    requires Vacant(m, p, f) && q in m.pages && q != p && FrameOk(m.frames, Some(f), q, m.pages[q].frame)
    requires m.pages[p].slot.Some? ==> !Owns(m.pages, q, m.pages[p].slot.value)
    ensures LocalOf(PagedIn(m, p, f), q) == LocalOf(m, q)
  {
  }

  lemma PagedInLinked(m: Mem, p: Pid, f: nat)
    requires Vacant(m, p, f) && Linked(m.pages, m.frames, Some(f)) && SourcesApart(m.pages)
    ensures var m' := PagedIn(m, p, f); Linked(m'.pages, m'.frames, None) && SourcesApart(m'.pages)
  {
    var m' := PagedIn(m, p, f);
    SourcesKept(m.pages, m'.pages);
    Relinked(m.pages, m'.pages, m.frames, m'.frames, p, f);
  }

  lemma Relinked(a: map<Pid, Page>, b: map<Pid, Page>, frames: seq<Frame>, frames': seq<Frame>, p: Pid, f: nat)
    requires Linked(a, frames, Some(f)) && p in a && SameFrames(a, b, p) && b[p].frame == Some(f)
    requires f < |frames| == |frames'| && frames'[f].vpage == Some(p)
    requires forall g :: 0 <= g < |frames| && g != f ==> frames'[g] == frames[g]
    requires a[p].frame.None?
    ensures Linked(b, frames', None)
  {
    forall q | q in b
      ensures FrameOk(frames', None, q, b[q].frame)
    {
      assert FrameOk(frames, Some(f), q, a[q].frame);
    }
    forall g | 0 <= g < |frames'|
      ensures OwnerOk(b, g, frames'[g].vpage)
    {
      if g != f {
        assert OwnerOk(a, g, frames[g].vpage);
      }
    }
  }

  lemma PagedInSlots(m: Mem, p: Pid, f: nat)
    requires Vacant(m, p, f) && SlotsOwned(m.pages, m.held)
    ensures var m' := PagedIn(m, p, f); SlotsOwned(m'.pages, m'.held)
  {
    var m' := PagedIn(m, p, f);
    if m.pages[p].priv {
      SlotRemoved(m.pages, m'.pages, m.held, p, m.pages[p].slot.value);
    } else {
      SlotsKept(m.pages, m'.pages, m.held);
    }
  }

  lemma PagedInOthers(m: Mem, p: Pid, f: nat)
    requires Vacant(m, p, f) && Linked(m.pages, m.frames, Some(f)) && SlotsOwned(m.pages, m.held)
    ensures OthersKept(m, PagedIn(m, p, f), p)
  {
    forall q | q in m.pages && q != p
      ensures LocalOf(PagedIn(m, p, f), q) == LocalOf(m, q)
    {
      assert m.pages[p].slot.Some? ==> Owns(m.pages, p, m.pages[p].slot.value);
      PagedInOther(m, p, f, q);
    }
  }

  /** page_in keeps the invariant and what every page reads; it succeeds exactly when the page has
      contents to read. */
  lemma PagedInOk(m: Mem, p: Pid, f: nat)
    requires Inv(m, Some(f)) && Vacant(m, p, f)
    ensures var m' := PagedIn(m, p, f);
            && Inv(m', None) && Present(m'.ptes, p) == View(m, p).Some?
            && SameRights(m.pages, m'.pages)
            && forall q {:trigger View(m', q)} :: q in m.pages ==> View(m', q) == View(m, q)
  {
    PagedInLocal(m, p, f);
    PagedInOthers(m, p, f);
    PagedInLinked(m, p, f);
    PagedInSlots(m, p, f);
    PagedInPins(m, p, f);
    OthersOk(m, PagedIn(m, p, f), p);
  }

  lemma PagedInPins(m: Mem, p: Pid, f: nat)
    requires Vacant(m, p, f) && PinsOk(m.pages, m.frames, Some(f))
    ensures var m' := PagedIn(m, p, f); PinsOk(m'.pages, m'.frames, None)
  {
    var m' := PagedIn(m, p, f);
    PinsKept(m.pages, m.frames, Some(f), m'.pages, m'.frames, None, Some(f));
  }

  function Unframed(m: Mem, p: Pid): Mem
    requires p in m.pages
  {
    m.(pages := m.pages[p := m.pages[p].(frame := None)])
  }

  lemma UnframedViews(m: Mem, p: Pid)
    requires PagesOk(m) && Placed(m, p) && !Present(m.ptes, p)
    ensures Vacant(Unframed(m, p), p, m.pages[p].frame.value) && View(m, p).None?
    ensures PagesOk(Unframed(m, p)) && forall q :: q in m.pages ==> View(Unframed(m, p), q) == View(m, q)
  {
    var m0 := Unframed(m, p);
    assert OthersKept(m, m0, p);
    OthersOk(m, m0, p);
  }

  lemma UnframedOk(m: Mem, p: Pid)
    requires Inv(m, None) && Placed(m, p) && !Present(m.ptes, p)
    ensures Inv(Unframed(m, p), m.pages[p].frame)
  {
    var m0 := Unframed(m, p);
    UnframedViews(m, p);
    Unlinked(m.pages, m0.pages, m.frames, p);
    SourcesKept(m.pages, m0.pages);
    SlotsKept(m.pages, m0.pages, m.held);
    UnframedPins(m, p);
  }

  lemma UnframedPins(m: Mem, p: Pid)
    requires p in m.pages && PinsOk(m.pages, m.frames, None)
    ensures PinsOk(Unframed(m, p).pages, m.frames, m.pages[p].frame)
  {
    PinsKept(m.pages, m.frames, None, Unframed(m, p).pages, m.frames, m.pages[p].frame, None);
  }

  lemma UnframedSame(m: Mem, p: Pid, f: nat)
    requires p in m.pages && LocalOk(LocalOf(m, p)) && LocalOk(LocalOf(Unframed(m, p), p)) && f < |m.frames|
    ensures PagedIn(Unframed(m, p), p, f) == PagedIn(m, p, f)
  {
    assert PagedIn(Unframed(m, p), p, f).pages == PagedIn(m, p, f).pages;
  }

  /** A page that kept its frame after a failed load fails again, and nothing else changes. */
  lemma RetriedOk(m: Mem, p: Pid)
    requires Inv(m, None) && Placed(m, p) && !Present(m.ptes, p)
    ensures var m' := PagedIn(m, p, m.pages[p].frame.value);
            && Inv(m', None) && !Present(m'.ptes, p) && View(m, p).None?
            && SameRights(m.pages, m'.pages)
            && forall q {:trigger View(m', q)} :: q in m.pages ==> View(m', q) == View(m, q)
  {
    var f := m.pages[p].frame.value;
    UnframedViews(m, p);
    UnframedOk(m, p);
    UnframedSame(m, p, f);
    PagedInOk(Unframed(m, p), p, f);
    RightsKept(m, p, PagedIn(m, p, f).pages);
  }

  lemma RightsKept(m: Mem, p: Pid, pages: map<Pid, Page>)
    requires p in m.pages && SameRights(Unframed(m, p).pages, pages)
    ensures SameRights(m.pages, pages)
  {
    assert SameRights(m.pages, Unframed(m, p).pages);
  }

  // ---------------------------------------------------------------- the second-chance clock

  /** The clock looks only at unpinned frames of the current thread. */
  predicate Candidate(frames: seq<Frame>, t: Tid, f: nat) {
    f < |frames| && !frames[f].pinned && frames[f].vpage.Some? && frames[f].vpage.value.thread == t
  }

  predicate Used(frames: seq<Frame>, ptes: map<Pid, Pte>, f: nat) {
    f < |frames| && frames[f].vpage.Some? && Accessed(ptes, frames[f].vpage.value)
  }

  /** f is the first frame at or after `from` that is a candidate and not in `spared`. */
  ghost predicate FirstFrom(frames: seq<Frame>, t: Tid, spared: set<nat>, from: nat, f: nat) {
    from <= f && Candidate(frames, t, f) && f !in spared && NoneIn(frames, t, spared, from, f)
  }

  ghost predicate NoneIn(frames: seq<Frame>, t: Tid, spared: set<nat>, from: nat, to: nat) {
    forall i :: from <= i < to && Candidate(frames, t, i) ==> i in spared
  }

  ghost function UsedSet(frames: seq<Frame>, ptes: map<Pid, Pte>): set<nat> {
    set f | 0 <= f < |frames| && Used(frames, ptes, f)
  }

  /** Frames whose accessed bit survives a sweep of lo..hi. */
  ghost function Spared(frames: seq<Frame>, t: Tid, used: set<nat>, lo: nat, hi: nat): set<nat> {
    set f | f in used && !(lo <= f < hi && Candidate(frames, t, f))
  }

  /** The victim: the first unused candidate from the hand on, else the first from the start that
      is unused after that sweep cleared the used bits, else simply the first candidate. */
  ghost predicate IsVictim(frames: seq<Frame>, t: Tid, used: set<nat>, hand: nat, f: nat) {
    var used1 := Spared(frames, t, used, hand, |frames|);
    var used2 := Spared(frames, t, used1, 0, |frames|);
    || FirstFrom(frames, t, used, hand, f)
    || (NoneIn(frames, t, used, hand, |frames|) && FirstFrom(frames, t, used1, 0, f))
    || (&& NoneIn(frames, t, used, hand, |frames|) && NoneIn(frames, t, used1, 0, |frames|)
        && FirstFrom(frames, t, {}, 0, f))
  }

  ghost predicate SameButAccessed(a: map<Pid, Pte>, b: map<Pid, Pte>) {
    a.Keys == b.Keys && forall p :: p in a ==> b[p] == a[p].(accessed := b[p].accessed)
  }

  lemma AccessedIrrelevant(m: Mem, ptes: map<Pid, Pte>, hole: Option<nat>)
    requires Inv(m, hole) && SameButAccessed(m.ptes, ptes)
    ensures Inv(m.(ptes := ptes), hole) && SameLocals(m, m.(ptes := ptes))
    ensures forall q :: q in m.pages ==> View(m.(ptes := ptes), q) == View(m, q)
  {
    assert SameLocals(m, m.(ptes := ptes));
    SameViews(m, m.(ptes := ptes));
  }

  /** Two frames never hold the same page, so clearing one accessed bit affects one frame. */
  lemma ClearOne(pages: map<Pid, Page>, frames: seq<Frame>, ptes: map<Pid, Pte>, i: nat)
    requires Linked(pages, frames, None) && i < |frames| && Used(frames, ptes, i)
    ensures var v := frames[i].vpage.value;
            UsedSet(frames, ptes[v := ptes[v].(accessed := false)]) == UsedSet(frames, ptes) - {i}
  {
    var v := frames[i].vpage.value;
    var ptes' := ptes[v := ptes[v].(accessed := false)];
    forall f | 0 <= f < |frames|
      ensures Used(frames, ptes', f) <==> Used(frames, ptes, f) && f != i
    {
      assert OwnerOk(pages, i, frames[i].vpage) && OwnerOk(pages, f, frames[f].vpage);
    }
  }

  lemma SparedStep(frames: seq<Frame>, t: Tid, used: set<nat>, lo: nat, hi: nat)
    requires lo <= hi
    ensures Spared(frames, t, used, lo, hi + 1)
         == if Candidate(frames, t, hi) then Spared(frames, t, used, lo, hi) - {hi} else Spared(frames, t, used, lo, hi)
    ensures hi in Spared(frames, t, used, lo, hi) <==> hi in used
  {
  }

  /** The page that goes to a full swap device and is lost. */
  ghost predicate WillLose(m: Mem, p: Pid, groups: nat)
    requires p in m.pages
  {
    IsDirty(m, p) && !IsMmap(m.pages[p].src) && |m.held| == groups
  }

  ghost predicate SameRights(a: map<Pid, Page>, b: map<Pid, Page>) {
    a.Keys == b.Keys && forall q {:trigger b[q]} :: q in a ==> b[q].writable == a[q].writable
  }

  /** All pages read as before; but victim v, if it is lost, falls back to its first contents. */
  ghost predicate KeptBut(m: Mem, m': Mem, v: Option<Pid>, groups: nat) {
    && PagesOk(m) && PagesOk(m') && SameRights(m.pages, m'.pages)
    && forall q {:trigger View(m', q)} :: q in m.pages ==>
         View(m', q) == if v == Some(q) && WillLose(m, q, groups) then Loaded(m.files, m.pages[q].src) else View(m, q)
  }

  lemma LastLap(frames: seq<Frame>, t: Tid, used: set<nat>, now: set<nat>, found: bool, f: nat)
    requires now == Spared(frames, t, used, 0, |frames|) && exists c :: Candidate(frames, t, c)
    requires if found then FirstFrom(frames, t, now, 0, f) else NoneIn(frames, t, now, 0, |frames|)
    ensures found && FirstFrom(frames, t, {}, 0, f)
  {
    var c :| Candidate(frames, t, c);
    assert c !in now;
  }

  lemma KeptSinceSweep(m0: Mem, ptes: map<Pid, Pte>, m3: Mem, v: Pid, groups: nat)
    requires Inv(m0, None) && v in m0.pages && SameButAccessed(m0.ptes, ptes)
    requires KeptBut(m0.(ptes := ptes), m3, Some(v), groups)
    ensures KeptBut(m0, m3, Some(v), groups)
  {
    AccessedIrrelevant(m0, ptes, None);
  }

  lemma KeptAfter(m1: Mem, m2: Mem, m3: Mem, v: Option<Pid>, groups: nat)
    requires KeptBut(m1, m2, v, groups) && PagesOk(m3) && SameRights(m2.pages, m3.pages)
    requires forall q {:trigger View(m3, q)} :: q in m2.pages ==> View(m3, q) == View(m2, q)
    ensures KeptBut(m1, m3, v, groups)
  {
  }

  lemma OutKept(m1: Mem, v: Pid, slot: Option<nat>, groups: nat)
    requires Inv(m1, None) && Placed(m1, v) && (slot.Some? ==> slot.value !in m1.held)
    requires Loses(m1, v, slot) <==> WillLose(m1, v, groups)
    ensures KeptBut(m1, PagedOut(m1, v, slot), Some(v), groups)
  {
    PagedOutOk(m1, v, slot);
    OutRights(m1, v, slot);
  }

  lemma OutRights(m1: Mem, v: Pid, slot: Option<nat>)
    requires Placed(m1, v)
    ensures SameRights(m1.pages, PagedOut(m1, v, slot).pages)
  {
  }

  lemma VictimPlaced(m0: Mem, ptes: map<Pid, Pte>, f: nat, v: Pid)
    requires Inv(m0, None) && SameButAccessed(m0.ptes, ptes) && f < |m0.frames| && m0.frames[f].vpage == Some(v)
    ensures var m1 := m0.(ptes := ptes); Inv(m1, None) && Placed(m1, v) && m1.pages[v].frame == Some(f)
  {
    AccessedIrrelevant(m0, ptes, None);
    assert OwnerOk(m0.pages, f, m0.frames[f].vpage);
    IsPlaced(m0.(ptes := ptes), None, v);
  }

  /** What frame_victim does to what pages read, after the sweep: page out, hand over. */
  lemma VictimKept(m1: Mem, f: nat, p: Pid, v: Pid, slot: Option<nat>, groups: nat)
    requires Inv(m1, None) && Placed(m1, v) && m1.pages[v].frame == Some(f)
    requires (slot.Some? ==> slot.value !in m1.held) && (Loses(m1, v, slot) <==> WillLose(m1, v, groups))
    ensures KeptBut(m1, Claimed(PagedOut(m1, v, slot), f, p, false), Some(v), groups)
  {
    var m2 := PagedOut(m1, v, slot);
    OutKept(m1, v, slot, groups);
    PagedOutOk(m1, v, slot);
    ClaimedOk(m2, Some(f), f, p, false);
    KeptAfter(m1, m2, Claimed(m2, f, p, false), Some(v), groups);
  }

  lemma VictimInv(m1: Mem, f: nat, p: Pid, v: Pid, slot: Option<nat>)
    requires Inv(m1, None) && Placed(m1, v) && m1.pages[v].frame == Some(f) && (slot.Some? ==> slot.value !in m1.held)
    requires p in m1.pages && m1.pages[p].frame.None? && !Present(m1.ptes, p)
    ensures var m3 := Claimed(PagedOut(m1, v, slot), f, p, false); Inv(m3, Some(f)) && Vacant(m3, p, f)
  {
    var m2 := PagedOut(m1, v, slot);
    PagedOutOk(m1, v, slot);
    ClaimedOk(m2, Some(f), f, p, false);
    StillVacant(m1, m2, f, p, v, slot);
  }

  lemma StillVacant(m1: Mem, m2: Mem, f: nat, p: Pid, v: Pid, slot: Option<nat>)
    requires Placed(m1, v) && m2 == PagedOut(m1, v, slot) && PagesOk(m2) && m1.pages[v].frame == Some(f)
    requires p in m1.pages && m1.pages[p].frame.None? && !Present(m1.ptes, p)
    ensures Vacant(Claimed(m2, f, p, false), p, f)
  {
    OutElsewhere(m1, v, slot, p);
    assert LocalOf(Claimed(m2, f, p, false), p) == LocalOf(m2, p);
  }

  lemma OutElsewhere(m: Mem, v: Pid, slot: Option<nat>, p: Pid)
    requires Placed(m, v) && p in m.pages && p != v
    ensures var m' := PagedOut(m, v, slot);
            p in m'.pages && m'.pages[p] == m.pages[p] && Present(m'.ptes, p) == Present(m.ptes, p)
    ensures PagedOut(m, v, slot).frames == m.frames
  {
  }

  // ---------------------------------------------------------------- new, ended and used pages

  function NewPage(writable: bool, src: Source): Page { Page(writable, None, false, false, None, src) }

  function Added(m: Mem, p: Pid, pg: Page): Mem { m.(pages := m.pages[p := pg]) }

  /** What load_segment and sys_mmap fill in: at most a page of a file, and for a mapping a writable page
      with at least one byte. */
  predicate WellFormed(writable: bool, src: Source) {
    (src.File? ==> src.readBytes <= 4096) && (IsMmap(src) ==> writable && src.readBytes > 0)
  }

  ghost predicate CanAdd(m: Mem, p: Pid, writable: bool, src: Source) {
    && p !in m.pages && WellFormed(writable, src)
    && forall q {:trigger m.pages[q]} :: q in m.pages ==> Apart(src, m.pages[q].src) && Apart(m.pages[q].src, src)
  }

  lemma AddedViews(m: Mem, p: Pid, writable: bool, src: Source)
    requires PagesOk(m) && m.ptes.Keys <= m.pages.Keys && CanAdd(m, p, writable, src)
    ensures var m' := Added(m, p, NewPage(writable, src));
            && PagesOk(m')
            && View(m', p) == (if Loaded(m.files, src).Some? then Some(Trim(src, Loaded(m.files, src).value)) else None)
            && forall q {:trigger View(m', q)} :: q in m.pages ==> View(m', q) == View(m, q)
  {
    var m' := Added(m, p, NewPage(writable, src));
    assert LocalOk(LocalOf(m', p));
    assert forall q {:trigger LocalOf(m', q)} :: q in m.pages ==> LocalOf(m', q) == LocalOf(m, q);
  }

  /** A page of a program's bss reads as zeros wherever in its file it is said to start, past the end
      included. */
  lemma BssReadsZeros(m: Mem, p: Pid, writable: bool, id: FileId, ofs: nat)
    requires Inv(m, None) && p !in m.pages
    ensures var m' := Added(m, p, NewPage(writable, File(id, ofs, 0, false)));
            && Inv(m', None) && View(m', p) == Some(Zeroes(4096))
            && forall a: Access :: a.p == p && a.off < 4096 && a.store.None? ==>
                 PlainOutcome(Seen(m'), a) == Value(0)
  {
    var src := File(id, ofs, 0, false);
    assert CanAdd(m, p, writable, src);
    AddedViews(m, p, writable, src);
    AddedOk(m, p, writable, src);
  }

  /** New pages keep the invariant exactly when they share no file byte with a mapping. */
  lemma AddedOkIff(m: Mem, p: Pid, writable: bool, src: Source)
    requires Inv(m, None) && p !in m.pages && WellFormed(writable, src)
    ensures Inv(Added(m, p, NewPage(writable, src)), None) <==> CanAdd(m, p, writable, src)
  {
    var b := m.pages[p := NewPage(writable, src)];
    if CanAdd(m, p, writable, src) {
      AddedOk(m, p, writable, src);
    } else {
      var q :| q in m.pages && !(Apart(src, m.pages[q].src) && Apart(m.pages[q].src, src));
      assert !Apart(b[p].src, b[q].src) || !Apart(b[q].src, b[p].src);
    }
  }

  lemma AddedOk(m: Mem, p: Pid, writable: bool, src: Source)
    requires Inv(m, None) && CanAdd(m, p, writable, src)
    ensures Inv(Added(m, p, NewPage(writable, src)), None)
  {
    AddedViews(m, p, writable, src);
    var b := m.pages[p := NewPage(writable, src)];
    assert forall q, t :: Owns(b, q, t) <==> Owns(m.pages, q, t);
    forall q | q in b
      ensures FrameOk(m.frames, None, q, b[q].frame)
    {
      assert q != p ==> FrameOk(m.frames, None, q, m.pages[q].frame);
    }
    forall f | 0 <= f < |m.frames|
      ensures OwnerOk(b, f, m.frames[f].vpage)
    {
      assert OwnerOk(m.pages, f, m.frames[f].vpage);
    }
    forall q, r | q in b && r in b && q != r
      ensures Apart(b[q].src, b[r].src)
    {
      assert q != p && r != p ==> Apart(m.pages[q].src, m.pages[r].src);
    }
    PinsKept(m.pages, m.frames, None, b, m.frames, None, None);
  }

  /** page_destroy, with the page directory entry gone as well. */
  ghost function Destroyed(m: Mem, p: Pid): Mem
    requires Inv(m, None) && p in m.pages
  {
    var pg := m.pages[p];
    assert FrameOk(m.frames, None, p, pg.frame) && LocalOk(LocalOf(m, p));
    Mem(m.pages - {p}, m.ptes - {p},
        if pg.frame.Some? then m.frames[pg.frame.value := m.frames[pg.frame.value].(vpage := None)] else m.frames,
        m.files, if pg.priv then m.held - {pg.slot.value} else m.held)
  }

  lemma DestroyedOther(m: Mem, p: Pid, q: Pid)
    requires Inv(m, None) && p in m.pages && q in m.pages && q != p
    ensures LocalOf(Destroyed(m, p), q) == LocalOf(m, q)
  {
    assert FrameOk(m.frames, None, p, m.pages[p].frame) && FrameOk(m.frames, None, q, m.pages[q].frame);
    assert LocalOk(LocalOf(m, p)) && LocalOk(LocalOf(m, q));
    if m.pages[p].priv && m.pages[q].priv {
      assert Owns(m.pages, p, m.pages[p].slot.value) && Owns(m.pages, q, m.pages[q].slot.value);
    }
  }

  lemma DestroyedLinked(m: Mem, p: Pid)
    requires Inv(m, None) && p in m.pages
    ensures var m' := Destroyed(m, p); Linked(m'.pages, m'.frames, None)
  {
    var m' := Destroyed(m, p);
    forall q | q in m'.pages
      ensures FrameOk(m'.frames, None, q, m'.pages[q].frame)
    {
      assert FrameOk(m.frames, None, p, m.pages[p].frame) && FrameOk(m.frames, None, q, m.pages[q].frame);
    }
    assert FrameOk(m.frames, None, p, m.pages[p].frame);
    forall f | 0 <= f < |m'.frames|
      ensures OwnerOk(m'.pages, f, m'.frames[f].vpage)
    {
      assert OwnerOk(m.pages, f, m.frames[f].vpage);
    }
  }

  lemma DestroyedSlots(m: Mem, p: Pid)
    requires Inv(m, None) && p in m.pages
    ensures var m' := Destroyed(m, p); SlotsOwned(m'.pages, m'.held)
  {
    var b := m.pages - {p};
    assert LocalOk(LocalOf(m, p));
    if m.pages[p].priv {
      SlotRemoved(m.pages, b, m.held, p, m.pages[p].slot.value);
    } else {
      assert forall q, t :: Owns(b, q, t) <==> Owns(m.pages, q, t);
    }
  }

  lemma DestroyedPins(m: Mem, p: Pid)
    requires Inv(m, None) && p in m.pages
    ensures var m' := Destroyed(m, p); PinsOk(m'.pages, m'.frames, None)
  {
    var m', f := Destroyed(m, p), m.pages[p].frame;
    assert FrameOk(m.frames, None, p, f);
    PinsKept(m.pages, m.frames, None, m'.pages, m'.frames, None, f);
  }

  /** The end of a page frees its frame and its group, and changes nothing for the others. */
  lemma DestroyedOk(m: Mem, p: Pid)
    requires Inv(m, None) && p in m.pages
    ensures var m' := Destroyed(m, p);
            Inv(m', None) && forall q {:trigger View(m', q)} :: q in m'.pages ==> View(m', q) == View(m, q)
  {
    var m' := Destroyed(m, p);
    forall q {:trigger LocalOf(m', q)} | q in m'.pages
      ensures LocalOf(m', q) == LocalOf(m, q)
    {
      DestroyedOther(m, p, q);
    }
    DestroyedLinked(m, p);
    DestroyedSlots(m, p);
    DestroyedPins(m, p);
    forall q, r | q in m'.pages && r in m'.pages && q != r
      ensures Apart(m'.pages[q].src, m'.pages[r].src)
    {
      assert Apart(m.pages[q].src, m.pages[r].src);
    }
  }

  /** A store by the processor to a mapped page: the accessed and dirty bits go up. */
  function Stored(m: Mem, p: Pid, off: nat, b: Byte): Mem
    requires p in m.ptes && m.ptes[p].frame < |m.frames| && off < 4096
  {
    var f := m.ptes[p].frame;
    m.(ptes := m.ptes[p := m.ptes[p].(accessed := true, dirty := true)],
       frames := m.frames[f := m.frames[f].(data := m.frames[f].data[off := b])])
  }

  ghost predicate Mapped(m: Mem, p: Pid) {
    && p in m.pages && Present(m.ptes, p) && LocalOk(LocalOf(m, p))
    && m.ptes[p].frame < |m.frames| && m.pages[p].frame == Some(m.ptes[p].frame)
  }

  lemma IsMapped(m: Mem, p: Pid)
    requires Inv(m, None) && p in m.pages && Present(m.ptes, p)
    ensures Mapped(m, p)
  {
    assert LocalOk(LocalOf(m, p)) && FrameOk(m.frames, None, p, m.pages[p].frame);
  }

  lemma StoredLocal(m: Mem, p: Pid, off: nat, b: Byte)
    requires Mapped(m, p) && off < 4096 && m.pages[p].writable
    ensures var l, l' := LocalOf(m, p), LocalOf(Stored(m, p, off, b), p);
            && LocalOk(l')
            && var d := LocalView(l).value; LocalView(l') == Some(if off < |d| then d[off := b] else d)
  {
  }

  lemma StoredLinked(pages: map<Pid, Page>, frames: seq<Frame>, f: nat, fr: Frame)
    requires Linked(pages, frames, None) && f < |frames| && fr.vpage == frames[f].vpage
    ensures Linked(pages, frames[f := fr], None)
  {
    var frames' := frames[f := fr];
    forall q | q in pages
      ensures FrameOk(frames', None, q, pages[q].frame)
    {
      assert FrameOk(frames, None, q, pages[q].frame);
    }
    forall g | 0 <= g < |frames'|
      ensures OwnerOk(pages, g, frames'[g].vpage)
    {
      assert OwnerOk(pages, g, frames[g].vpage);
    }
  }

  lemma StoredOthers(m: Mem, p: Pid, off: nat, b: Byte)
    requires Linked(m.pages, m.frames, None) && Mapped(m, p) && off < 4096
    ensures OthersKept(m, Stored(m, p, off, b), p)
  {
    forall q {:trigger LocalOf(Stored(m, p, off, b), q)} | q in m.pages && q != p
      ensures LocalOf(Stored(m, p, off, b), q) == LocalOf(m, q)
    {
      assert FrameOk(m.frames, None, p, m.pages[p].frame) && FrameOk(m.frames, None, q, m.pages[q].frame);
    }
  }

  lemma StoredOk(m: Mem, p: Pid, off: nat, b: Byte)
    requires Inv(m, None) && Mapped(m, p) && off < 4096 && m.pages[p].writable
    ensures var m' := Stored(m, p, off, b);
            && Inv(m', None) && m'.pages == m.pages
            && (var d := View(m, p).value; View(m', p) == Some(if off < |d| then d[off := b] else d))
            && forall q {:trigger View(m', q)} :: q in m.pages && q != p ==> View(m', q) == View(m, q)
  {
    var m' := Stored(m, p, off, b);
    StoredLocal(m, p, off, b);
    StoredOthers(m, p, off, b);
    OthersOk(m, m', p);
    StoredLinked(m.pages, m.frames, m.ptes[p].frame, m'.frames[m.ptes[p].frame]);
    StoredPins(m.pages, m.frames, m.ptes[p].frame, m'.frames[m.ptes[p].frame]);
  }

  lemma StoredPins(pages: map<Pid, Page>, frames: seq<Frame>, f: nat, fr: Frame)
    requires PinsOk(pages, frames, None) && f < |frames| && Linked(pages, frames, None)
    requires fr.vpage == frames[f].vpage && fr.pinned == frames[f].pinned
    ensures PinsOk(pages, frames[f := fr], None)
  {
    forall g | 0 <= g < |frames|
      ensures frames[g].vpage.Some? ==> frames[g].vpage.value in pages
    {
      assert OwnerOk(pages, g, frames[g].vpage);
    }
    PinsKept(pages, frames, None, pages, frames[f := fr], None, None);
  }

  lemma FreeClaimed(m: Mem, f: nat, p: Pid, pinned: bool, groups: nat)
    requires Inv(m, None) && f < |m.frames| && m.frames[f].vpage.None?
    requires p in m.pages && m.pages[p].frame.None? && !Present(m.ptes, p)
    ensures Claiming(Claimed(m, f, p, pinned), p, f) && KeptBut(m, Claimed(m, f, p, pinned), None, groups)
  {
    ClaimedOk(m, None, f, p, pinned);
    assert LocalOf(Claimed(m, f, p, pinned), p) == LocalOf(m, p);
  }

  /** Every frame belongs to another thread or to a page of this one that is not writable and comes from a
      file. */
  ghost predicate NoneToTake(m: Mem, t: Tid) {
    forall f {:trigger m.frames[f]} :: 0 <= f < |m.frames| ==>
      && m.frames[f].vpage.Some? && m.frames[f].vpage.value in m.pages
      && var owner := m.frames[f].vpage.value;
         owner.thread != t || (m.pages[owner].src.File? && !m.pages[owner].writable)
  }

  /** A frame cannot be had exactly then: data and stack pages never stand in the way. */
  lemma StuckIff(m: Mem, t: Tid)
    requires Inv(m, None)
    ensures !CanGet(m.frames, t) <==> NoneToTake(m, t)
  {
    forall f {:trigger m.frames[f]} | 0 <= f < |m.frames|
      ensures PinOk(m.pages, m.frames[f]) && OwnerOk(m.pages, f, m.frames[f].vpage)
    {
    }
    if NoneToTake(m, t) {
      assert forall f :: 0 <= f < |m.frames| ==> !Candidate(m.frames, t, f);
    }
  }

  // ---------------------------------------------------------------- plain memory

  /** Memory as programs think of it: for each page its bytes, if it has any, and its rights. */
  datatype Plain = Plain(bytes: Option<seq<Byte>>, writable: bool)

  datatype Access = Access(p: Pid, stack: bool, off: nat, store: Option<Byte>)

  /** Bytes of a mapped page past the end of its file are unspecified. */
  datatype Outcome = Fault | Value(b: Byte) | Done | Unspecified

  ghost function Seen(m: Mem): map<Pid, Plain>
    requires PagesOk(m)
  {
    map p | p in m.pages :: Plain(View(m, p), m.pages[p].writable)
  }

  /** The stack grows on its first use. */
  ghost function GrownPlain(mem: map<Pid, Plain>, a: Access): map<Pid, Plain> {
    if a.stack && a.p !in mem then mem[a.p := Plain(Some(Zeroes(4096)), true)] else mem
  }

  ghost function PlainOutcome(mem: map<Pid, Plain>, a: Access): Outcome {
    if a.p !in mem || mem[a.p].bytes.None? then Fault
    else if a.store.Some? && !mem[a.p].writable then Fault
    else if a.off >= |mem[a.p].bytes.value| then Unspecified
    else if a.store.Some? then Done
    else Value(mem[a.p].bytes.value[a.off])
  }

  ghost function PlainAccess(mem: map<Pid, Plain>, a: Access): map<Pid, Plain> {
    if PlainOutcome(mem, a).Done? then
      mem[a.p := Plain(Some(mem[a.p].bytes.value[a.off := a.store.value]), true)]
    else mem
  }

  ghost predicate Matches(spec: Outcome, o: Outcome) { if spec.Unspecified? then o.Value? || o.Done? else o == spec }

  /** What a run of accesses must answer. */
  ghost predicate PlainRun(mem: map<Pid, Plain>, ops: seq<Access>, out: seq<Outcome>, mem': map<Pid, Plain>)
    requires |ops| == |out|
    decreases |ops|
  {
    if ops == [] then mem' == mem
    else
      var n := |ops| - 1;
      exists mid :: PlainRun(mem, ops[..n], out[..n], mid) && PlainStep(mid, ops[n], out[n], mem')
  }

  ghost predicate PlainStep(mem: map<Pid, Plain>, a: Access, o: Outcome, mem': map<Pid, Plain>) {
    Matches(PlainOutcome(GrownPlain(mem, a), a), o) && mem' == PlainAccess(GrownPlain(mem, a), a)
  }

  lemma PlainExtend(mem: map<Pid, Plain>, ops: seq<Access>, out: seq<Outcome>, mid: map<Pid, Plain>, a: Access,
                    o: Outcome, mem': map<Pid, Plain>)
    requires |ops| == |out| && PlainRun(mem, ops, out, mid) && PlainStep(mid, a, o, mem')
    ensures PlainRun(mem, ops + [a], out + [o], mem')
  {
    var n := |ops|;
    assert (ops + [a])[..n] == ops && (out + [o])[..n] == out;
  }

  ghost function Grown(m: Mem, p: Pid, stack: bool): Mem {
    if stack && p !in m.pages then Added(m, p, NewPage(true, Zeros)) else m
  }

  lemma AddedSeen(m: Mem, p: Pid)
    requires PagesOk(m) && m.ptes.Keys <= m.pages.Keys && CanAdd(m, p, true, Zeros)
    ensures PagesOk(Grown(m, p, true)) && Seen(Grown(m, p, true)) == Seen(m)[p := Plain(Some(Zeroes(4096)), true)]
  {
    AddedViews(m, p, true, Zeros);
  }

  lemma GrownSeen(m: Mem, a: Access)
    requires Inv(m, None)
    ensures Inv(Grown(m, a.p, a.stack), None) && Seen(Grown(m, a.p, a.stack)) == GrownPlain(Seen(m), a)
  {
    if a.stack && a.p !in m.pages {
      AddedOk(m, a.p, true, Zeros);
      AddedSeen(m, a.p);
    }
  }

  /** What page v holds in plain memory after it has been lost: its first contents. */
  ghost function Reset(mem: map<Pid, Plain>, m: Mem, lost: Option<Pid>): map<Pid, Plain>
    requires lost.Some? ==> lost.value in m.pages
  {
    if lost.None? then mem
    else mem[lost.value := Plain(Loaded(m.files, m.pages[lost.value].src), m.pages[lost.value].writable)]
  }

  lemma KeptSeenAt(m: Mem, m': Mem, v: Option<Pid>, groups: nat, q: Pid)
    requires KeptBut(m, m', v, groups) && q in m.pages
    ensures Seen(m')[q] == if v == Some(q) && WillLose(m, q, groups)
                           then Plain(Loaded(m.files, m.pages[q].src), m.pages[q].writable) else Seen(m)[q]
  {
    assert View(m', q) ==
           if v == Some(q) && WillLose(m, q, groups) then Loaded(m.files, m.pages[q].src) else View(m, q);
    assert m'.pages[q].writable == m.pages[q].writable;
  }

  lemma OneReset(mem: map<Pid, Plain>, mem': map<Pid, Plain>, v: Option<Pid>, x: Plain)
    requires mem'.Keys == mem.Keys && (v.Some? ==> v.value in mem)
    requires forall q {:trigger mem'[q]} :: q in mem ==> mem'[q] == if v == Some(q) then x else mem[q]
    ensures mem' == if v.Some? then mem[v.value := x] else mem
  {
  }

  lemma KeptSeen(m: Mem, m': Mem, v: Option<Pid>, groups: nat)
    requires KeptBut(m, m', v, groups) && (v.Some? ==> v.value in m.pages)
    ensures Seen(m') == Reset(Seen(m), m, if v.Some? && WillLose(m, v.value, groups) then v else None)
  {
    var lost := if v.Some? && WillLose(m, v.value, groups) then v else None;
    var x := if lost.Some? then Plain(Loaded(m.files, m.pages[lost.value].src), m.pages[lost.value].writable)
             else Plain(None, false);
    var mem, mem' := Seen(m), Seen(m');
    forall q {:trigger mem'[q]} | q in mem
      ensures mem'[q] == if lost == Some(q) then x else mem[q]
    {
      KeptSeenAt(m, m', v, groups, q);
    }
    OneReset(mem, mem', lost, x);
  }

  /** What the processor answers at a present page is what plain memory answers. */
  lemma TouchOutcome(m: Mem, a: Access)
    requires PagesOk(m) && Mapped(m, a.p) && a.off < 4096
    ensures var spec := PlainOutcome(Seen(m), a);
            if a.store.None? then Matches(spec, Value(m.frames[m.ptes[a.p].frame].data[a.off]))
            else if m.pages[a.p].writable then Matches(spec, Done)
            else spec == Fault
  {
    assert View(m, a.p) == Some(Trim(m.pages[a.p].src, m.frames[m.ptes[a.p].frame].data));
  }

  lemma OneChanged(mem: map<Pid, Plain>, mem': map<Pid, Plain>, a: Access)
    requires a.p in mem && mem[a.p].bytes.Some? && mem[a.p].writable && a.store.Some? && mem'.Keys == mem.Keys
    requires forall q {:trigger mem'[q]} :: q in mem && q != a.p ==> mem'[q] == mem[q]
    requires var d := mem[a.p].bytes.value;
             mem'[a.p] == Plain(Some(if a.off < |d| then d[a.off := a.store.value] else d), true)
    ensures mem' == PlainAccess(mem, a)
  {
    var spec := PlainAccess(mem, a);
    assert forall q :: q in mem ==> mem'[q] == spec[q];
  }

  lemma StoredSeen(m: Mem, a: Access)
    requires Inv(m, None) && Mapped(m, a.p) && a.off < 4096 && a.store.Some? && m.pages[a.p].writable
    ensures var m' := Stored(m, a.p, a.off, a.store.value); Inv(m', None) && Seen(m') == PlainAccess(Seen(m), a)
  {
    StoredOk(m, a.p, a.off, a.store.value);
    var m' := Stored(m, a.p, a.off, a.store.value);
    OneChanged(Seen(m), Seen(m'), a);
  }

  lemma ReadSeen(m: Mem, ptes: map<Pid, Pte>)
    requires Inv(m, None) && SameButAccessed(m.ptes, ptes)
    ensures Inv(m.(ptes := ptes), None) && Seen(m.(ptes := ptes)) == Seen(m)
  {
    AccessedIrrelevant(m, ptes, None);
  }

  /** Swap cannot be full while a page stays outside it, if it has a group for every page. */
  lemma {:induction false} HeldCount(pages: map<Pid, Page>, held: map<nat, PageData>)
    requires SlotsOwned(pages, held)
    ensures |held| <= |pages| && ((exists p :: p in pages && pages[p].slot.None?) ==> |held| < |pages|)
    decreases |held|
  {
    if held.Keys != {} {
      var s :| s in held.Keys;
      assert s in held;
      var p :| Owns(pages, p, s);
      SlotRemoved(pages, pages - {p}, held, p, s);
      HeldCount(pages - {p}, held - {s});
      assert |(pages - {p}).Keys| == |pages.Keys| - 1 && |(held - {s}).Keys| == |held.Keys| - 1 by {
        assert (pages - {p}).Keys == pages.Keys - {p} && (held - {s}).Keys == held.Keys - {s};
      }
      if x :| x in pages && pages[x].slot.None? {
        assert x in pages - {p} && (pages - {p})[x].slot.None?;
      }
    }
  }

  lemma LostMeansFull(m: Mem, v: Pid, groups: nat)
    requires Inv(m, None) && v in m.pages && m.pages[v].frame.Some? && WillLose(m, v, groups)
    ensures groups < |m.pages|
  {
    assert LocalOk(LocalOf(m, v));
    HeldCount(m.pages, m.held);
  }

  /** The page whose contents an access of thread t throws away: resident, dirty, not memory-mapped,
      evicted while swap is full. */
  ghost predicate IsLost(m: Mem, t: Tid, v: Pid, groups: nat) {
    v in m.pages && v.thread == t && m.pages[v].frame.Some? && WillLose(m, v, groups)
  }

  /** One access: it answers as plain memory does, in which the page it lost, if any, has fallen back
      to its first contents. */
  ghost predicate AccessOk(m: Mem, a: Access, o: Outcome, m': Mem, lost: Option<Pid>, groups: nat) {
    && PagesOk(m) && PagesOk(m') && m.pages.Keys <= m'.pages.Keys
    && (lost.Some? ==> IsLost(m, a.p.thread, lost.value, groups) && groups < |m.pages|)
    && PlainStep(Reset(Seen(m), m, lost), a, o, Seen(m'))
  }

  /** The stack page an access adds is not the one it loses. */
  lemma GrownUpdate(mem: map<Pid, Plain>, a: Access, v: Pid, x: Plain)
    requires v in mem
    ensures GrownPlain(mem, a)[v := x] == GrownPlain(mem[v := x], a)
  {
  }

  lemma GrownReset(m: Mem, a: Access, lost: Option<Pid>)
    requires Inv(m, None) && (lost.Some? ==> lost.value in m.pages)
    ensures var g := Grown(m, a.p, a.stack);
            && PagesOk(g) && (lost.Some? ==> lost.value in g.pages)
            && Reset(Seen(g), g, lost) == GrownPlain(Reset(Seen(m), m, lost), a)
  {
    GrownSeen(m, a);
    if lost.Some? {
      var v := lost.value;
      GrownUpdate(Seen(m), a, v, Plain(Loaded(m.files, m.pages[v].src), m.pages[v].writable));
    }
  }

  predicate NeedsFrame(pages: map<Pid, Page>, ptes: map<Pid, Pte>, a: Access) {
    !Present(ptes, a.p) && if a.p in pages then pages[a.p].frame.None? else a.stack
  }

  ghost predicate Fillable(m: Mem, p: Pid, f: nat) {
    p in m.pages && !Present(m.ptes, p) && f < |m.frames| && LocalOk(LocalOf(m, p)) && m.frames[f].vpage == Some(p)
  }

  /** Filling frame f of state m1 with page p completes a load that started in state m. */
  ghost predicate LoadsTo(m: Mem, m1: Mem, p: Pid, f: nat, v: Option<Pid>, groups: nat)
    requires Fillable(m1, p, f)
  {
    var m2 := PagedIn(m1, p, f);
    Inv(m2, None) && p in m2.pages && Present(m2.ptes, p) == View(m2, p).Some? && KeptBut(m, m2, v, groups)
  }

  lemma FreshLoads(m: Mem, m1: Mem, p: Pid, f: nat, v: Option<Pid>, groups: nat)
    requires Claiming(m1, p, f) && KeptBut(m, m1, v, groups)
    ensures Fillable(m1, p, f) && LoadsTo(m, m1, p, f, v, groups)
  {
    PagedInOk(m1, p, f);
    KeptAfter(m, m1, PagedIn(m1, p, f), v, groups);
  }

  lemma RetryLoads(m: Mem, p: Pid, groups: nat)
    requires Inv(m, None) && p in m.pages && m.pages[p].frame.Some? && !Present(m.ptes, p)
    ensures Fillable(m, p, m.pages[p].frame.value) && LoadsTo(m, m, p, m.pages[p].frame.value, None, groups)
  {
    IsPlaced(m, None, p);
    RetriedOk(m, p);
  }

  class Vm {
    var pages: map<Pid, Page>
    var ptes: map<Pid, Pte>
    var frames: seq<Frame>
    var hand: nat
    var files: map<FileId, seq<Byte>>
    const swap: SwapDevice

    ghost function State(): Mem
      requires swap.Valid()
      reads this, swap, swap.bitmap.bits
    {
      Mem(pages, ptes, frames, files, swap.Pages())
    }

    ghost predicate Valid()
      reads this, swap, swap.bitmap.bits
    {
      swap.Valid() && Inv(State(), None) && hand <= |frames|
    }

    ghost function Groups(): nat
      reads swap
    {
      |swap.sectors| / 8
    }

    /** frame_init and swap_init: n zeroed frames, nothing in swap; the hand starts past the end. */
    constructor (n: nat, disk: map<FileId, seq<Byte>>, device: seq<Sector>)
      ensures Valid() && pages == map[] && |frames| == n && files == disk && Groups() == |device| / 8
      ensures fresh(swap) && fresh(swap.bitmap.bits)
    {
      pages, ptes, files, hand := map[], map[], disk, n;
      frames := seq(n, _ => Frame(Zeroes(4096), None, false));
      swap := new SwapDevice(device);
    }

    /** page_out. */
    method PageOut(p: Pid) returns (ghost slot: Option<nat>)
      requires swap.Valid() && Placed(State(), p)
      modifies `pages, `ptes, `files, swap, swap.bitmap.bits
      ensures swap.Valid() && Groups() == old(Groups())
      ensures State() == PagedOut(old(State()), p, slot)
      ensures slot.Some? ==> slot.value !in old(State()).held
      ensures Loses(old(State()), p, slot) ==> WillLose(old(State()), p, Groups())
      ensures WillLose(old(State()), p, Groups()) ==> Loses(old(State()), p, slot)
    {
      var pg := pages[p];
      var f := pg.frame.value;
      pg := pg.(dirty := pg.dirty || HwDirty(ptes, p));
      slot := None;
      if pg.dirty {
        if !IsMmap(pg.src) {
          var group := swap.SwapOut(frames[f].data);
          slot := group;
          if group.Some? {
            pg := pg.(priv := true, slot := group, frame := None);
          }
        } else {
          files := files[pg.src.id := Patch(files[pg.src.id], pg.src.ofs, frames[f].data[..pg.src.readBytes])];
          ptes := HwClean(ptes, p);
          pg := pg.(dirty := false);
        }
      }
      ptes := Cleared(ptes, p);
      pages := pages[p := pg.(frame := None)];
    }

    /** One pass of the clock over the frames from `start` to the end of the frame table. */
    method Sweep(t: Tid, start: nat) returns (found: bool, f: nat)
      requires start <= |frames| && Linked(pages, frames, None)
      requires forall i :: 0 <= i < |frames| ==> frames[i].vpage.Some?
      modifies `ptes
      ensures SameButAccessed(old(ptes), ptes)
      ensures found ==> FirstFrom(frames, t, UsedSet(frames, old(ptes)), start, f)
      ensures !found ==> NoneIn(frames, t, UsedSet(frames, old(ptes)), start, |frames|)
      ensures UsedSet(frames, ptes) ==
              Spared(frames, t, UsedSet(frames, old(ptes)), start, if found then f else |frames|)
    {
      ghost var used := UsedSet(frames, ptes);
      found, f := false, start;
      while f < |frames|
        invariant start <= f <= |frames|
        invariant SameButAccessed(old(ptes), ptes)
        invariant NoneIn(frames, t, used, start, f)
        invariant UsedSet(frames, ptes) == Spared(frames, t, used, start, f)
      {
        var v := frames[f].vpage.value;
        SparedStep(frames, t, used, start, f);
        assert f in UsedSet(frames, ptes) <==> Accessed(ptes, v);
        if !frames[f].pinned && v.thread == t {
          if Accessed(ptes, v) {
            ClearOne(pages, frames, ptes, f);
            ptes := ptes[v := ptes[v].(accessed := false)];
          } else {
            found := true;
            return;
          }
        }
        f := f + 1;
      }
    }

    /** The clock stops within three passes whenever the thread has an unpinned frame. */
    method PickVictim(t: Tid) returns (f: nat, ghost passes: nat)
      requires hand <= |frames| && Linked(pages, frames, None)
      requires forall i :: 0 <= i < |frames| ==> frames[i].vpage.Some?
      requires exists c :: Candidate(frames, t, c)
      modifies `ptes, `hand
      ensures SameButAccessed(old(ptes), ptes) && hand == f && 1 <= passes <= 3
      ensures Candidate(frames, t, f) && IsVictim(frames, t, UsedSet(frames, old(ptes)), old(hand), f)
    {
      ghost var used, h := UsedSet(frames, ptes), hand;
      ghost var used1 := Spared(frames, t, used, h, |frames|);
      ghost var lap := 0;
      var found := false;
      f, passes := 0, 0;
      while !found
        invariant SameButAccessed(old(ptes), ptes) && hand <= |frames| && 0 <= lap <= 2
        invariant passes == if found then lap + 1 else lap
        invariant found ==> hand == f && Candidate(frames, t, f) && IsVictim(frames, t, used, h, f)
        invariant !found && lap == 0 ==> hand == h && UsedSet(frames, ptes) == used
        invariant lap > 0 ==> NoneIn(frames, t, used, h, |frames|)
        invariant !found && lap == 1 ==> hand == 0 && UsedSet(frames, ptes) == used1
        invariant lap > 1 ==> NoneIn(frames, t, used1, 0, |frames|)
        invariant !found && lap == 2 ==> hand == 0 && UsedSet(frames, ptes) == Spared(frames, t, used1, 0, |frames|)
        decreases !found, 2 - lap
      {
        ghost var now := UsedSet(frames, ptes);
        found, f := Sweep(t, hand);
        passes := passes + 1;
        if lap == 2 {
          LastLap(frames, t, used1, now, found, f);
        }
        if !found {
          hand := 0;
          lap := lap + 1;
        } else {
          hand := f;
        }
      }
    }

    /** The second half of frame_victim: page out the owner of frame f and give the frame to p. */
    method Evict(f: nat, p: Pid) returns (ghost v: Pid)
      requires Valid() && f < |frames| && frames[f].vpage.Some?
      requires p in pages && pages[p].frame.None? && !Present(ptes, p)
      modifies `pages, `ptes, `files, `frames, swap, swap.bitmap.bits
      ensures swap.Valid() && Claiming(State(), p, f)
      ensures Groups() == old(Groups()) && |frames| == old(|frames|) && old(frames)[f].vpage == Some(v)
      ensures v in old(pages) && old(pages)[v].frame.Some? && KeptBut(old(State()), State(), Some(v), Groups())
    {
      ghost var m1 := State();
      var page := frames[f].vpage.value;
      v := page;
      VictimPlaced(m1, ptes, f, v);
      ghost var slot := PageOut(page);
      frames := frames[f := frames[f].(vpage := Some(p), pinned := false)];
      VictimKept(m1, f, p, v, slot, Groups());
      VictimInv(m1, f, p, v, slot);
      assert State() == Claimed(PagedOut(m1, v, slot), f, p, false);
    }

    /** frame_victim: empties a frame of the current thread and gives it to p. */
    method FrameVictim(p: Pid) returns (f: nat, ghost v: Pid)
      requires Valid() && p in pages && pages[p].frame.None? && !Present(ptes, p)
      requires forall i :: 0 <= i < |frames| ==> frames[i].vpage.Some?
      requires exists c :: Candidate(frames, p.thread, c)
      modifies this, swap, swap.bitmap.bits
      ensures swap.Valid() && Claiming(State(), p, f)
      ensures hand == f && Groups() == old(Groups())
      ensures IsVictim(old(frames), p.thread, UsedSet(old(frames), old(ptes)), old(hand), f)
      ensures old(frames)[f].vpage == Some(v) && v in old(pages)
      ensures old(pages)[v].frame.Some? && KeptBut(old(State()), State(), Some(v), Groups())
    {
      ghost var m0 := State();
      ghost var passes;
      f, passes := PickVictim(p.thread);
      AccessedIrrelevant(m0, ptes, None);
      assert State() == m0.(ptes := ptes);
      ghost var swept := ptes;
      v := Evict(f, p);
      KeptSinceSweep(m0, swept, State(), v, Groups());
    }

    /** frame_alloc: the first free frame, else a victim's. */
    method FrameAlloc(p: Pid) returns (f: nat, ghost v: Option<Pid>)
      requires Valid() && p in pages && pages[p].frame.None? && !Present(ptes, p) && CanGet(frames, p.thread)
      modifies this, swap, swap.bitmap.bits
      ensures swap.Valid() && Claiming(State(), p, f)
      ensures hand <= |frames| && Groups() == old(Groups())
      ensures KeptBut(old(State()), State(), v, Groups())
      ensures v.None? <==> exists i :: 0 <= i < |old(frames)| && old(frames)[i].vpage.None?
      ensures v.None? ==> FirstFree(old(frames), f)
      ensures v.Some? ==> v.value in old(pages) && v.value.thread == p.thread && old(pages)[v.value].frame.Some?
    {
      f := 0;
      while f < |frames|
        invariant 0 <= f <= |frames|
        invariant forall i :: 0 <= i < f ==> frames[i].vpage.Some?
      {
        if frames[f].vpage.None? {
          FreeClaimed(State(), f, p, frames[f].pinned, Groups());
          frames := frames[f := frames[f].(vpage := Some(p))];
          v := None;
          return;
        }
        f := f + 1;
      }
      ghost var victim;
      f, victim := FrameVictim(p);
      v := Some(victim);
    }

    /** page_alloc, with the fields that its callers fill in. */
    method PageAlloc(p: Pid, writable: bool, src: Source)
      requires Valid() && WellFormed(writable, src)
      modifies `pages
      ensures Valid() <==> p in old(pages) || CanAdd(old(State()), p, writable, src)
      ensures State() == if p in old(pages) then old(State()) else Added(old(State()), p, NewPage(writable, src))
    {
      if p !in pages {
        AddedOkIff(State(), p, writable, src);
        pages := pages[p := NewPage(writable, src)];
      }
    }

    method PageDestroy(p: Pid)
      requires Valid() && p in pages
      modifies this, swap, swap.bitmap.bits
      ensures Valid() && State() == Destroyed(old(State()), p)
    {
      DestroyedOk(State(), p);
      assert LocalOk(LocalOf(State(), p)) && FrameOk(frames, None, p, pages[p].frame);
      var pg := pages[p];
      if pg.frame.Some? {
        frames := frames[pg.frame.value := frames[pg.frame.value].(vpage := None)];
      }
      if pg.priv {
        swap.SwapClear(pg.slot.value);
      }
      pages := pages - {p};
      ptes := ptes - {p};
    }

    /** The part of page_in that fills frame f. */
    method Fill(p: Pid, f: nat) returns (success: bool)
      requires swap.Valid() && p in pages && f < |frames| && LocalOk(LocalOf(State(), p)) && frames[f].vpage == Some(p)
      requires !Present(ptes, p)
      modifies `pages, `ptes, `frames, swap, swap.bitmap.bits
      ensures swap.Valid() && State() == PagedIn(old(State()), p, f) && Groups() == old(Groups())
      ensures success == Present(ptes, p)
    {
      var pg := pages[p];
      if pg.priv {
        var data := swap.SwapIn(pg.slot.value);
        frames := frames[f := Frame(data, Some(p), false)];
        pages := pages[p := pg.(frame := Some(f), priv := false, slot := None)];
        success := true;
      } else {
        var loaded := Loaded(files, pg.src);
        success := loaded.Some?;
        var data := if success then loaded.value else ShortRead(files, pg.src, frames[f].data);
        frames := frames[f := Frame(data, Some(p), PinnedAfter(pg))];
        pages := pages[p := pg.(frame := Some(f))];
      }
      if success {
        ptes := ptes[p := Pte(true, false, false, f)];
      }
    }

    /** A frame for page p: the one it kept from a failed load, or a new one. */
    method GetFrame(p: Pid) returns (f: nat, ghost v: Option<Pid>)
      requires Valid() && p in pages && !Present(ptes, p) && (pages[p].frame.None? ==> CanGet(frames, p.thread))
      modifies this, swap, swap.bitmap.bits
      ensures swap.Valid() && Groups() == old(Groups()) && hand <= |frames|
      ensures Fillable(State(), p, f) && LoadsTo(old(State()), State(), p, f, v, Groups())
      ensures v.Some? ==> v.value in old(pages) && v.value.thread == p.thread && old(pages)[v.value].frame.Some?
    {
      ghost var m := State();
      if pages[p].frame.None? {
        f, v := FrameAlloc(p);
        FreshLoads(m, State(), p, f, v, Groups());
      } else {
        f, v := pages[p].frame.value, None;
        RetryLoads(m, p, Groups());
      }
    }

    /** page_in for a page in the supplemental page table. */
    method Load(p: Pid) returns (success: bool, ghost v: Option<Pid>)
      requires Valid() && p in pages && !Present(ptes, p) && (pages[p].frame.None? ==> CanGet(frames, p.thread))
      modifies this, swap, swap.bitmap.bits
      ensures Valid() && Groups() == old(Groups()) && KeptBut(old(State()), State(), v, Groups())
      ensures success == Present(ptes, p) == View(State(), p).Some?
      ensures v.Some? ==> v.value in old(pages) && v.value.thread == p.thread && old(pages)[v.value].frame.Some?
    {
      var f;
      f, v := GetFrame(p);
      success := Fill(p, f);
    }

    /** page_in, called on a fault at a page that is not present. */
    method PageIn(p: Pid, stack: bool) returns (success: bool, ghost v: Option<Pid>)
      requires Valid() && !Present(ptes, p)
      requires (if p in pages then pages[p].frame.None? else stack) ==> CanGet(frames, p.thread)
      modifies this, swap, swap.bitmap.bits
      ensures Valid() && Groups() == old(Groups())
      ensures KeptBut(Grown(old(State()), p, stack), State(), v, Groups())
      ensures success <==> p in pages && Present(ptes, p)
      ensures success <==> p in pages && View(State(), p).Some?
      ensures v.Some? ==> v.value in old(pages) && v.value.thread == p.thread && old(pages)[v.value].frame.Some?
    {
      if stack {
        PageAlloc(p, true, Zeros);
      }
      if p in pages {
        success, v := Load(p);
      } else {
        success, v := false, None;
      }
    }

    /** The access itself, to a page that is present. */
    method Touch(a: Access) returns (o: Outcome)
      requires Valid() && Present(ptes, a.p) && a.off < 4096
      modifies `ptes, `frames
      ensures Valid() && pages == old(pages) && Matches(PlainOutcome(Seen(old(State())), a), o)
      ensures Seen(State()) == PlainAccess(Seen(old(State())), a)
    {
      ghost var m := State();
      IsMapped(m, a.p);
      TouchOutcome(m, a);
      var f := ptes[a.p].frame;
      if a.store.Some? && !pages[a.p].writable {
        o := Fault;
      } else if a.store.Some? {
        StoredSeen(m, a);
        ptes := ptes[a.p := ptes[a.p].(accessed := true, dirty := true)];
        frames := frames[f := frames[f].(data := frames[f].data[a.off := a.store.value])];
        assert State() == Stored(m, a.p, a.off, a.store.value);
        o := Done;
      } else {
        o := Value(frames[f].data[a.off]);
        ptes := ptes[a.p := ptes[a.p].(accessed := true)];
        ReadSeen(m, ptes);
        assert State() == m.(ptes := ptes);
      }
    }

    /** The page-fault handler on behalf of an access. */
    method FaultIn(a: Access) returns (ok: bool, ghost lost: Option<Pid>)
      requires Valid() && !Present(ptes, a.p) && (NeedsFrame(pages, ptes, a) ==> CanGet(frames, a.p.thread))
      modifies this, swap, swap.bitmap.bits
      ensures Valid() && Groups() == old(Groups()) && old(pages).Keys <= pages.Keys
      ensures lost.Some? ==> IsLost(old(State()), a.p.thread, lost.value, Groups()) && Groups() < |old(pages)|
      ensures Seen(State()) == GrownPlain(Reset(Seen(old(State())), old(State()), lost), a)
      ensures ok == Present(ptes, a.p) && (!ok ==> PlainOutcome(Seen(State()), a) == Fault)
    {
      ghost var m := State();
      ghost var grown := Grown(m, a.p, a.stack);
      ghost var v;
      ok, v := PageIn(a.p, a.stack);
      KeptSeen(grown, State(), v, Groups());
      lost := if v.Some? && WillLose(m, v.value, Groups()) then v else None;
      GrownReset(m, a, lost);
      if lost.Some? {
        LostMeansFull(m, v.value, Groups());
      }
    }

    /** One load or store by a user program, with its page fault if the page is not present. */
    method UserAccess(a: Access) returns (o: Outcome, ghost lost: Option<Pid>)
      requires Valid() && a.off < 4096 && (NeedsFrame(pages, ptes, a) ==> CanGet(frames, a.p.thread))
      modifies this, swap, swap.bitmap.bits
      ensures Valid() && Groups() == old(Groups()) && AccessOk(old(State()), a, o, State(), lost, Groups())
    {
      lost := None;
      if !Present(ptes, a.p) {
        var ok;
        ok, lost := FaultIn(a);
        if !ok {
          o := Fault;
          return;
        }
      }
      o := Touch(a);
    }

    /** Any run of loads and stores by any threads answers, access by access, as plain memory in which
        a dirty page that is evicted to a full swap device falls back to its first contents. Without
        such a loss the whole run is one of plain memory, and with a swap group for every page there
        is none. The run stops early only where the clock would spin for ever. */
    method Run(ops: seq<Access>) returns (out: seq<Outcome>, ghost trace: seq<Mem>, ghost lost: seq<Option<Pid>>)
      requires Valid() && forall i :: 0 <= i < |ops| ==> ops[i].off < 4096
      modifies this, swap, swap.bitmap.bits
      ensures Valid() && |out| <= |ops| && IsTrace(trace, ops[..|out|], out, lost, Groups())
      ensures trace[0] == old(State()) && trace[|out|] == State()
      ensures NoLoss(lost) ==> PlainRun(Seen(old(State())), ops[..|out|], out, Seen(State()))
      ensures |pages| <= Groups() ==> NoLoss(lost)
      ensures |out| < |ops| ==>
                var p := ops[|out|].p;
                && !Present(ptes, p) && (if p in pages then pages[p].frame.None? else ops[|out|].stack)
                && NoneToTake(State(), p.thread)
    {
      out, trace, lost := RunLoop(ops);
      if |out| < |ops| {
        StuckIff(State(), ops[|out|].p.thread);
      }
      TraceIsPlain(trace, ops[..|out|], out, lost, Groups());
      TraceNoLoss(trace, ops[..|out|], out, lost, Groups());
    }

    /** The accesses `done` lead from state m to this one along `trace`. */
    ghost predicate Traced(m: Mem, trace: seq<Mem>, done: seq<Access>, out: seq<Outcome>, lost: seq<Option<Pid>>)
      requires Valid()
      reads this, swap, swap.bitmap.bits
    {
      IsTrace(trace, done, out, lost, Groups()) && trace[0] == m && trace[|done|] == State()
    }

    method Next(ghost m: Mem, ghost trace: seq<Mem>, ghost done: seq<Access>, out: seq<Outcome>,
                ghost lost: seq<Option<Pid>>, a: Access)
      returns (o: Outcome, ghost l: Option<Pid>)
      requires Valid() && a.off < 4096 && (NeedsFrame(pages, ptes, a) ==> CanGet(frames, a.p.thread))
      requires Traced(m, trace, done, out, lost)
      modifies this, swap, swap.bitmap.bits
      ensures Valid() && Traced(m, trace + [State()], done + [a], out + [o], lost + [l])
    {
      o, l := UserAccess(a);
      TraceExtend(trace, done, out, lost, Groups(), a, o, State(), l);
    }

    method RunLoop(ops: seq<Access>) returns (out: seq<Outcome>, ghost trace: seq<Mem>, ghost lost: seq<Option<Pid>>)
      requires Valid() && forall i :: 0 <= i < |ops| ==> ops[i].off < 4096
      modifies this, swap, swap.bitmap.bits
      ensures Valid() && |out| <= |ops| && Traced(old(State()), trace, ops[..|out|], out, lost)
      ensures |out| < |ops| ==> NeedsFrame(pages, ptes, ops[|out|]) && !CanGet(frames, ops[|out|].p.thread)
    {
      ghost var m := State();
      out, trace, lost := [], [m], [];
      ghost var done: seq<Access> := [];
      while |out| < |ops|
        invariant Valid() && Traced(m, trace, done, out, lost) && done <= ops
        decreases |ops| - |out|
      {
        var a := ops[|out|];
        if NeedsFrame(pages, ptes, a) && !CanGet(frames, a.p.thread) {
          break;
        }
        var o;
        ghost var l;
        o, l := Next(m, trace, done, out, lost, a);
        done, out, trace, lost := done + [a], out + [o], trace + [State()], lost + [l];
      }
      assert done == ops[..|out|];
    }
  }

  /** The states of a run of accesses, one more than there are accesses. */
  ghost predicate IsTrace(trace: seq<Mem>, ops: seq<Access>, out: seq<Outcome>, lost: seq<Option<Pid>>, groups: nat) {
    && |trace| == |ops| + 1 == |out| + 1 == |lost| + 1 && PagesOk(trace[0])
    && forall i {:trigger StepOk(trace, ops, out, lost, groups, i)} :: 0 <= i < |ops| ==>
         StepOk(trace, ops, out, lost, groups, i)
  }

  ghost predicate StepOk(trace: seq<Mem>, ops: seq<Access>, out: seq<Outcome>, lost: seq<Option<Pid>>, groups: nat,
                         i: nat) {
    && i < |ops| && i < |out| && i < |lost| && i + 1 < |trace|
    && AccessOk(trace[i], ops[i], out[i], trace[i + 1], lost[i], groups)
  }

  /** A step of one trace is a step of another that has the same entries there. */
  lemma SameStep(trace: seq<Mem>, ops: seq<Access>, out: seq<Outcome>, lost: seq<Option<Pid>>, groups: nat, i: nat,
                 trace': seq<Mem>, ops': seq<Access>, out': seq<Outcome>, lost': seq<Option<Pid>>)
    requires StepOk(trace, ops, out, lost, groups, i)
    requires i < |ops'| && i < |out'| && i < |lost'| && i + 1 < |trace'|
    requires trace'[i] == trace[i] && trace'[i + 1] == trace[i + 1]
    requires ops'[i] == ops[i] && out'[i] == out[i] && lost'[i] == lost[i]
    ensures StepOk(trace', ops', out', lost', groups, i)
  {
  }

  ghost predicate NoLoss(lost: seq<Option<Pid>>) { forall i :: 0 <= i < |lost| ==> lost[i].None? }

  lemma TraceExtend(trace: seq<Mem>, ops: seq<Access>, out: seq<Outcome>, lost: seq<Option<Pid>>, groups: nat,
                    a: Access, o: Outcome, m: Mem, l: Option<Pid>)
    requires IsTrace(trace, ops, out, lost, groups) && AccessOk(trace[|ops|], a, o, m, l, groups)
    ensures IsTrace(trace + [m], ops + [a], out + [o], lost + [l], groups)
  {
    var trace', ops', out', lost' := trace + [m], ops + [a], out + [o], lost + [l];
    forall i | 0 <= i < |ops'|
      ensures StepOk(trace', ops', out', lost', groups, i)
    {
      if i < |ops| {
        SameStep(trace, ops, out, lost, groups, i, trace', ops', out', lost');
      }
    }
  }

  lemma TraceStart(trace: seq<Mem>, ops: seq<Access>, out: seq<Outcome>, lost: seq<Option<Pid>>, groups: nat, n: nat)
    requires IsTrace(trace, ops, out, lost, groups) && n + 1 == |ops|
    ensures IsTrace(trace[..n + 1], ops[..n], out[..n], lost[..n], groups)
    ensures AccessOk(trace[n], ops[n], out[n], trace[n + 1], lost[n], groups)
  {
    var trace', ops', out', lost' := trace[..n + 1], ops[..n], out[..n], lost[..n];
    forall i | 0 <= i < |ops'|
      ensures StepOk(trace', ops', out', lost', groups, i)
    {
      SameStep(trace, ops, out, lost, groups, i, trace', ops', out', lost');
    }
    assert StepOk(trace, ops, out, lost, groups, n);
  }

  lemma NoLossStart(lost: seq<Option<Pid>>, n: nat)
    requires n + 1 == |lost|
    ensures NoLoss(lost) <==> NoLoss(lost[..n]) && lost[n].None?
  {
    assert lost == lost[..n] + [lost[n]];
  }

  lemma {:induction false} TraceIsPlain(trace: seq<Mem>, ops: seq<Access>, out: seq<Outcome>, lost: seq<Option<Pid>>,
                                        groups: nat)
    requires IsTrace(trace, ops, out, lost, groups)
    ensures PagesOk(trace[|ops|])
    ensures NoLoss(lost) ==> PlainRun(Seen(trace[0]), ops, out, Seen(trace[|ops|]))
    decreases |ops|
  {
    if ops != [] {
      var n := |ops| - 1;
      TraceStart(trace, ops, out, lost, groups, n);
      NoLossStart(lost, n);
      TraceIsPlain(trace[..n + 1], ops[..n], out[..n], lost[..n], groups);
      if NoLoss(lost) {
        PlainExtend(Seen(trace[0]), ops[..n], out[..n], Seen(trace[n]), ops[n], out[n], Seen(trace[n + 1]));
        assert ops[..n] + [ops[n]] == ops && out[..n] + [out[n]] == out;
      }
    }
  }

  /** A loss needs more pages than swap has groups. */
  lemma {:induction false} TraceNoLoss(trace: seq<Mem>, ops: seq<Access>, out: seq<Outcome>, lost: seq<Option<Pid>>,
                                       groups: nat)
    requires IsTrace(trace, ops, out, lost, groups)
    ensures |trace[|ops|].pages| <= groups ==> NoLoss(lost)
    decreases |ops|
  {
    if ops != [] {
      var n := |ops| - 1;
      TraceStart(trace, ops, out, lost, groups, n);
      NoLossStart(lost, n);
      TraceNoLoss(trace[..n + 1], ops[..n], out[..n], lost[..n], groups);
      KeysGrow(trace[n].pages, trace[n + 1].pages);
    }
  }

  lemma KeysGrow(a: map<Pid, Page>, b: map<Pid, Page>)
    requires a.Keys <= b.Keys
    ensures |a| <= |b|
  {
    assert b.Keys == a.Keys + (b.Keys - a.Keys);
    assert |b.Keys| == |a.Keys| + |b.Keys - a.Keys|;
  }

  ghost predicate FirstFree(frames: seq<Frame>, f: nat) {
    f < |frames| && frames[f].vpage.None? && forall i :: 0 <= i < f ==> frames[i].vpage.Some?
  }

  /** frame_alloc can deliver: some frame is free or may be taken from the thread. */
  predicate CanGet(frames: seq<Frame>, t: Tid) {
    exists f :: 0 <= f < |frames| && (frames[f].vpage.None? || Candidate(frames, t, f))
  }

  // ---------------------------------------------------------------- limits of transparency

  /** page_out is invisible to a page's owner exactly when the page is clean, mapped from a file or
      finds room in swap, or happens to hold its first contents. */
  lemma OutIsInvisibleIff(m: Mem, p: Pid, slot: Option<nat>)
    requires Inv(m, None) && Placed(m, p) && (slot.Some? ==> slot.value !in m.held)
    ensures PagesOk(PagedOut(m, p, slot))
    ensures View(PagedOut(m, p, slot), p) == View(m, p) <==>
            !Loses(m, p, slot) || View(m, p) == Loaded(m.files, m.pages[p].src)
  {
    PagedOutOk(m, p, slot);
  }

  /** A dirty page does lose its contents to a full swap device: here one whose only group holds
      another page. */
  lemma FullSwapLosesPage()
    ensures exists m, p :: Inv(m, None) && Placed(m, p) && |m.held| == 1 && WillLose(m, p, 1)
                        && View(m, p) != Loaded(m.files, m.pages[p].src)
  {
    var p, q := Pid(0, 0), Pid(0, 1);
    var ones := seq(4096, _ => 1);
    var m := Mem(map[p := Page(true, Some(0), false, false, None, Zeros),
                     q := Page(true, None, true, true, Some(0), Zeros)],
                 map[p := Pte(true, true, true, 0)], [Frame(ones, Some(p), false)], map[], map[0 := ones]);
    assert LocalOk(LocalOf(m, p)) && LocalOk(LocalOf(m, q));
    assert PagesOk(m) && Linked(m.pages, m.frames, None) && SourcesApart(m.pages);
    assert forall x, t :: Owns(m.pages, x, t) <==> x == q && t == 0;
    assert Owns(m.pages, q, 0) && SlotsOwned(m.pages, m.held);
    assert |m.held| == 1 by { assert m.held.Keys == {0}; }
    assert View(m, p) == Some(ones) && ones[0] == 1 && Zeroes(4096)[0] == 0;
  }

  /** Once it is written back a memory-mapped page is clean, so it is not written again unless stored to. */
  lemma WrittenBackIsClean(m: Mem, p: Pid, slot: Option<nat>)
    requires Placed(m, p) && IsMmap(m.pages[p].src)
    ensures var m' := PagedOut(m, p, slot); !IsDirty(m', p) && !Present(m'.ptes, p) && m'.pages[p].frame.None?
  {
  }

  /** A memory-mapped page is written back up to the end of its file: what was stored beyond reads
      as zero after the next page_in. */
  lemma MmapTailIsZeroed(m: Mem, p: Pid, slot: Option<nat>)
    requires Placed(m, p) && IsMmap(m.pages[p].src) && IsDirty(m, p)
    ensures var n := m.pages[p].src.readBytes;
            var d := m.frames[m.pages[p].frame.value].data;
            Loaded(PagedOut(m, p, slot).files, m.pages[p].src) == Some(d[..n] + Zeroes(4096 - n))
  {
  }
}
