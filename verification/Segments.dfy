/** Loading a program segment (load_segment in pintos/src/userprog/process.c): it only fills in the
    supplemental page table, and paging does the rest on demand. */
module Segments {
  import opened Basics
  import opened Paging

  /** The source of page i of a segment with this many bytes in its file; the rest is zeros. */
  function SegmentSource(id: FileId, ofs: nat, readBytes: nat, i: nat): (src: Source)
    ensures src.File? && src.readBytes <= 4096 && !src.mmap
  {
    var left := if readBytes <= 4096 * i then 0 else readBytes - 4096 * i;
    File(id, ofs + 4096 * i, if left < 4096 then left else 4096, false)
  }

  /** Byte x of page i of a segment, as the executable defines it; None past the end of a file that is too
      short. */
  function SegmentByte(file: seq<Byte>, ofs: nat, readBytes: nat, i: nat, x: nat): Option<Byte> {
    var k := 4096 * i + x;
    if k >= readBytes then Some(0) else if ofs + k < |file| then Some(file[ofs + k]) else None
  }

  /** The file does not break off within page i of the segment. */
  ghost predicate PageInFile(file: seq<Byte>, ofs: nat, readBytes: nat, i: nat) {
    forall x {:trigger SegmentByte(file, ofs, readBytes, i, x)} :: 0 <= x < 4096 ==>
      SegmentByte(file, ofs, readBytes, i, x).Some?
  }

  /** The pages of a segment cut it up without gap or overlap: each holds the segment's bytes, with zeros
      behind the file part, and has contents unless the file breaks off within it. */
  lemma PageHoldsSegment(files: map<FileId, seq<Byte>>, id: FileId, ofs: nat, readBytes: nat, i: nat)
    requires id in files
    ensures var d, file := Loaded(files, SegmentSource(id, ofs, readBytes, i)), files[id];
            && (d.Some? <==> PageInFile(file, ofs, readBytes, i))
            && (d.Some? ==> forall x {:trigger SegmentByte(file, ofs, readBytes, i, x)} :: 0 <= x < 4096 ==>
                              SegmentByte(file, ofs, readBytes, i, x) == Some(d.value[x]))
  {
    var src, file := SegmentSource(id, ofs, readBytes, i), files[id];
    if src.readBytes > 0 && src.ofs + src.readBytes > |file| {
      assert SegmentByte(file, ofs, readBytes, i, src.readBytes - 1).None?;
    } else {
      var d := Loaded(files, src).value;
      forall x {:trigger SegmentByte(file, ofs, readBytes, i, x)} | 0 <= x < 4096
        ensures SegmentByte(file, ofs, readBytes, i, x) == Some(d[x])
      {
        if x < src.readBytes {
          assert d[x] == file[src.ofs..src.ofs + src.readBytes][x] == file[ofs + (4096 * i + x)];
        }
      }
    }
  }

  predicate InRange(p: Pid, t: Tid, vpn: nat, n: nat) { p.thread == t && vpn <= p.vpn < vpn + n }

  /** Nothing but a table entry exists for page p of a program that does not run yet. */
  ghost predicate Untouched(m: Mem, p: Pid) {
    p in m.pages ==>
      m.pages[p] == NewPage(m.pages[p].writable, m.pages[p].src) && p !in m.ptes && !IsMmap(m.pages[p].src)
  }

  ghost predicate RangeUntouched(m: Mem, t: Tid, vpn: nat, n: nat) {
    forall p {:trigger Untouched(m, p)} :: InRange(p, t, vpn, n) ==> Untouched(m, p)
  }

  ghost predicate NotMapped(pages: map<Pid, Page>, id: FileId) {
    forall q {:trigger pages[q]} :: q in pages && IsMmap(pages[q].src) ==> pages[q].src.id != id
  }

  /** The entry of page p once load_segment has filled it in: a page that was there keeps its rights. */
  function Filled(pages: map<Pid, Page>, p: Pid, writable: bool, src: Source): Page {
    NewPage(if p in pages then pages[p].writable else writable, src)
  }

  /** The page table holds the first n pages of the segment besides what was there. */
  ghost predicate HoldsPages(old': map<Pid, Page>, pages: map<Pid, Page>, t: Tid, vpn: nat, n: nat, writable: bool,
                             id: FileId, ofs: nat, readBytes: nat) {
    && (forall p {:trigger p in pages} :: p in pages <==> p in old' || InRange(p, t, vpn, n))
    && (forall p {:trigger pages[p]} :: p in old' && !InRange(p, t, vpn, n) ==> pages[p] == old'[p])
    && (forall i {:trigger SegmentSource(id, ofs, readBytes, i)} :: 0 <= i < n ==>
          pages[Pid(t, vpn + i)] == Filled(old', Pid(t, vpn + i), writable, SegmentSource(id, ofs, readBytes, i)))
  }

  /** What programs read is the segment, page by page, and everything else as before. */
  ghost predicate SegmentSeen(m: Mem, m': Mem, t: Tid, vpn: nat, n: nat, id: FileId, ofs: nat, readBytes: nat) {
    && PagesOk(m) && PagesOk(m') && m.pages.Keys <= m'.pages.Keys
    && (forall q {:trigger View(m', q)} :: q in m.pages && !InRange(q, t, vpn, n) ==> View(m', q) == View(m, q))
    && (forall i {:trigger SegmentSource(id, ofs, readBytes, i)} :: 0 <= i < n ==>
          && Pid(t, vpn + i) in m'.pages
          && View(m', Pid(t, vpn + i)) == Loaded(m.files, SegmentSource(id, ofs, readBytes, i)))
  }

  lemma HoldsIsSeen(m: Mem, m': Mem, t: Tid, vpn: nat, n: nat, writable: bool, id: FileId, ofs: nat, readBytes: nat)
    requires Inv(m, None) && Inv(m', None) && m' == m.(pages := m'.pages) && RangeUntouched(m, t, vpn, n)
    requires HoldsPages(m.pages, m'.pages, t, vpn, n, writable, id, ofs, readBytes)
    ensures SegmentSeen(m, m', t, vpn, n, id, ofs, readBytes)
  {
    forall q {:trigger View(m', q)} | q in m.pages && !InRange(q, t, vpn, n)
      ensures View(m', q) == View(m, q)
    {
      assert LocalOf(m', q) == LocalOf(m, q);
    }
    forall i {:trigger SegmentSource(id, ofs, readBytes, i)} | 0 <= i < n
      ensures Pid(t, vpn + i) in m'.pages
      ensures View(m', Pid(t, vpn + i)) == Loaded(m.files, SegmentSource(id, ofs, readBytes, i))
    {
      var p := Pid(t, vpn + i);
      assert InRange(p, t, vpn, n) && p in m'.pages && Untouched(m, p) && p !in m.ptes;
      assert m'.pages[p] == Filled(m.pages, p, writable, SegmentSource(id, ofs, readBytes, i));
    }
  }

  /** A program that loads byte x of page i of its segment gets the executable's byte or zero; it faults
      exactly when the file breaks off within the page. */
  lemma SegmentReads(m: Mem, m': Mem, t: Tid, vpn: nat, n: nat, id: FileId, ofs: nat, readBytes: nat, i: nat, x: nat)
    requires SegmentSeen(m, m', t, vpn, n, id, ofs, readBytes) && id in m.files && i < n && x < 4096
    ensures var o := PlainOutcome(Seen(m'), Access(Pid(t, vpn + i), false, x, None));
            var file := m.files[id];
            if PageInFile(file, ofs, readBytes, i)
            then o.Value? && SegmentByte(file, ofs, readBytes, i, x) == Some(o.b)
            else o == Fault
  {
    var file := m.files[id];
    PageHoldsSegment(m.files, id, ofs, readBytes, i);
    assert View(m', Pid(t, vpn + i)) == Loaded(m.files, SegmentSource(id, ofs, readBytes, i));
    assert PageInFile(file, ofs, readBytes, i) ==> SegmentByte(file, ofs, readBytes, i, x).Some?;
  }

  /** load_segment: the whole range becomes readable as the executable says, whether or not the bss part
      lies within the file, and nothing else changes.  A page shared with an earlier segment is the later
      segment's, with the earlier one's rights. */
  method LoadSegment(vm: Vm, t: Tid, vpn: nat, id: FileId, ofs: nat, readBytes: nat, zeroBytes: nat, writable: bool)
    requires vm.Valid() && (readBytes + zeroBytes) % 4096 == 0 && ofs % 4096 == 0
    requires RangeUntouched(vm.State(), t, vpn, (readBytes + zeroBytes) / 4096) && NotMapped(vm.pages, id)
    modifies vm`pages
    ensures vm.Valid()
    ensures var n := (readBytes + zeroBytes) / 4096;
            && HoldsPages(old(vm.pages), vm.pages, t, vpn, n, writable, id, ofs, readBytes)
            && SegmentSeen(old(vm.State()), vm.State(), t, vpn, n, id, ofs, readBytes)
  {
    ghost var m, n := vm.State(), (readBytes + zeroBytes) / 4096;
    var read, zero, i, fileOfs := readBytes, zeroBytes, 0, ofs;
    while read > 0 || zero > 0
      invariant 0 <= i <= n && read + zero == 4096 * (n - i) && fileOfs == ofs + 4096 * i
      invariant read == if readBytes <= 4096 * i then 0 else readBytes - 4096 * i
      invariant vm.Valid() && vm.State() == m.(pages := vm.pages)
      invariant HoldsPages(m.pages, vm.pages, t, vpn, i, writable, id, ofs, readBytes)
      decreases read + zero
    {
      var pageRead := if read < 4096 then read else 4096;
      var pageZero := 4096 - pageRead;
      assert File(id, fileOfs, pageRead, false) == SegmentSource(id, ofs, readBytes, i);
      FillPage(vm, m, t, vpn, i, n, writable, File(id, fileOfs, pageRead, false), id, ofs, readBytes);
      read, zero := read - pageRead, zero - pageZero;
      i, fileOfs := i + 1, fileOfs + 4096;
    }
    HoldsIsSeen(m, vm.State(), t, vpn, n, writable, id, ofs, readBytes);
  }

  /** One iteration: page_alloc finds or makes the entry, and the caller sets its source. */
  method FillPage(vm: Vm, ghost m: Mem, t: Tid, vpn: nat, i: nat, ghost n: nat, writable: bool, src: Source,
                  ghost id: FileId, ghost ofs: nat, ghost readBytes: nat)
    requires vm.Valid() && vm.State() == m.(pages := vm.pages) && i < n
    requires RangeUntouched(m, t, vpn, n) && NotMapped(m.pages, id) && src == SegmentSource(id, ofs, readBytes, i)
    requires HoldsPages(m.pages, vm.pages, t, vpn, i, writable, id, ofs, readBytes)
    modifies vm`pages
    ensures vm.Valid() && vm.State() == m.(pages := vm.pages)
    ensures HoldsPages(m.pages, vm.pages, t, vpn, i + 1, writable, id, ofs, readBytes)
  {
    var p := Pid(t, vpn + i);
    ghost var before := vm.State();
    NextPage(m, before, t, vpn, i, n, writable, id, ofs, readBytes);
    FilledOk(before, p, writable, src);
    HoldsNext(m.pages, vm.pages, t, vpn, i, writable, id, ofs, readBytes);
    vm.PageAlloc(p, writable, src);
    vm.pages := vm.pages[p := vm.pages[p].(src := src)];
    assert vm.State() == Added(before, p, Filled(before.pages, p, writable, src));
  }

  ghost predicate ApartFrom(pages: map<Pid, Page>, p: Pid, src: Source) {
    forall q {:trigger pages[q]} :: q in pages && q != p ==> Apart(src, pages[q].src) && Apart(pages[q].src, src)
  }

  lemma NextPage(m: Mem, m': Mem, t: Tid, vpn: nat, i: nat, n: nat, writable: bool,
                 id: FileId, ofs: nat, readBytes: nat)
    requires m' == m.(pages := m'.pages) && i < n && RangeUntouched(m, t, vpn, n) && NotMapped(m.pages, id)
    requires HoldsPages(m.pages, m'.pages, t, vpn, i, writable, id, ofs, readBytes)
    ensures var p := Pid(t, vpn + i);
            && ApartFrom(m'.pages, p, SegmentSource(id, ofs, readBytes, i)) && Untouched(m', p)
            && forall src :: Filled(m'.pages, p, writable, src) == Filled(m.pages, p, writable, src)
  {
    var p, src := Pid(t, vpn + i), SegmentSource(id, ofs, readBytes, i);
    assert InRange(p, t, vpn, n) && !InRange(p, t, vpn, i) && Untouched(m, p);
    forall q {:trigger m'.pages[q]} | q in m'.pages && q != p
      ensures Apart(src, m'.pages[q].src) && Apart(m'.pages[q].src, src)
    {
      if InRange(q, t, vpn, i) {
        var j := q.vpn - vpn;
        assert q == Pid(t, vpn + j);
        assert m'.pages[q] == Filled(m.pages, q, writable, SegmentSource(id, ofs, readBytes, j));
      } else {
        assert m'.pages[q] == m.pages[q];
      }
    }
  }

  lemma HoldsNext(old': map<Pid, Page>, pages: map<Pid, Page>, t: Tid, vpn: nat, i: nat, writable: bool,
                  id: FileId, ofs: nat, readBytes: nat)
    requires HoldsPages(old', pages, t, vpn, i, writable, id, ofs, readBytes)
    ensures var p := Pid(t, vpn + i);
            HoldsPages(old', pages[p := Filled(old', p, writable, SegmentSource(id, ofs, readBytes, i))],
                       t, vpn, i + 1, writable, id, ofs, readBytes)
  {
  }

  lemma UnlistedOk(m: Mem, p: Pid)
    requires Inv(m, None) && p in m.pages && Untouched(m, p)
    ensures Inv(m.(pages := m.pages - {p}), None)
  {
    DestroyedOk(m, p);
    assert m.ptes - {p} == m.ptes;
    assert Destroyed(m, p) == m.(pages := m.pages - {p});
  }

  lemma AddedBack(m: Mem, p: Pid, pg: Page)
    ensures Added(m.(pages := m.pages - {p}), p, pg) == Added(m, p, pg)
  {
    assert (m.pages - {p})[p := pg] == m.pages[p := pg];
  }

  /** Giving an untouched page another source keeps the invariant. */
  lemma ReplacedOk(m: Mem, p: Pid, src: Source)
    requires Inv(m, None) && p in m.pages && Untouched(m, p) && ApartFrom(m.pages, p, src)
    requires src.File? && src.readBytes <= 4096 && !src.mmap
    ensures Inv(Added(m, p, NewPage(m.pages[p].writable, src)), None)
  {
    var w, m0 := m.pages[p].writable, m.(pages := m.pages - {p});
    UnlistedOk(m, p);
    assert CanAdd(m0, p, w, src);
    AddedOk(m0, p, w, src);
    AddedBack(m, p, NewPage(w, src));
  }

  lemma FilledOk(m: Mem, p: Pid, writable: bool, src: Source)
    requires Inv(m, None) && Untouched(m, p) && ApartFrom(m.pages, p, src)
    requires src.File? && src.readBytes <= 4096 && !src.mmap
    ensures Inv(Added(m, p, Filled(m.pages, p, writable, src)), None)
    ensures p in m.pages || CanAdd(m, p, writable, src)
  {
    if p in m.pages {
      ReplacedOk(m, p, src);
    } else {
      AddedOk(m, p, writable, src);
    }
  }
}
