/** The loader's fault handler (skel-lin/loader/loader.c) over an explicit
    context object that holds what the C code keeps in globals: the page
    size, the executable file (`exec_path`, as its contents), the segment
    table (`exec`) and the process's address space. Each operation is
    proved against the value-level specification of module Fault. */
module Loader {
  import opened Paging
  import opened Presence
  import opened Fault

  class LoaderContext {
    const pageSize: nat
    const execFile: seq<byte>
    const segments: seq<Segment>
    /** The process's address space: page start to page. */
    var memory: map<int, Mapping>
    /** The presence list of every segment, in table order. */
    ghost var present: seq<seq<nat>>
    ghost var Repr: set<object>

    ghost predicate Valid()
      reads this`Repr, Repr
    {
      && this in Repr
      && pageSize > 0
      && (forall i :: 0 <= i < |segments| ==> segments[i] in Repr && segments[i].Repr <= Repr)
      && (forall i :: 0 <= i < |segments| ==> segments[i].Valid())
      && |present| == |segments|
      && (forall i :: 0 <= i < |segments| ==> present[i] == segments[i].Contents)
      && (forall i, j :: 0 <= i < j < |segments| ==>
            segments[i] != segments[j] && segments[i].Repr !! segments[j].Repr)
    }

    /** The segment table as the parser described it. */
    function Table(): (t: seq<SegDesc>)
      ensures |t| == |segments|
      ensures forall i :: 0 <= i < |segments| ==> t[i] == segments[i].Desc()
    {
      seq(|segments|, i requires 0 <= i < |segments| => segments[i].Desc())
    }

    ghost function Config(): Fault.Config
    {
      Fault.Config(pageSize, execFile, Table())
    }

    ghost function State(): Fault.State
      reads this
    {
      Fault.State(memory, present)
    }

    /** The loader once the parser has produced the segment table: the
        loader holds that table, the page size and the file, and every
        segment starts with an empty presence list. */
    constructor (pageSize: nat, execFile: seq<byte>, segments: seq<Segment>, memory: map<int, Mapping>)
      requires pageSize > 0
      requires forall i :: 0 <= i < |segments| ==> segments[i].Valid() && segments[i].Repr == {} && segments[i].Contents == []
      requires forall i, j :: 0 <= i < j < |segments| ==> segments[i] != segments[j]
      ensures Valid() && fresh(Repr - set s: object | s in segments)
      ensures this.pageSize == pageSize && this.execFile == execFile && this.segments == segments
      ensures Config() == Fault.Config(pageSize, execFile, Table())
      ensures State() == Fault.State(memory, seq(|segments|, _ => []))
    {
      this.pageSize, this.execFile, this.segments, this.memory := pageSize, execFile, segments, memory;
      present := seq(|segments|, _ => []);
      Repr := {this} + set s: object | s in segments;
    }

    /** `find_segment_of_address`: the first segment of the table whose range
        holds `addr`, or null when none does. Nothing is changed. */
    method FindSegmentOfAddress(addr: nat) returns (segment: Segment?)
      ensures match FirstContaining(Table(), addr)
        case None => segment == null
        case Some(i) => segment == segments[i]
      ensures segment != null ==> segment in segments && Contains(segment.Desc(), addr)
    {
      var i := 0;
      while i < |segments|
        invariant 0 <= i <= |segments|
        invariant forall j :: 0 <= j < i ==> !Contains(Table()[j], addr)
      {
        if addr >= segments[i].vaddr && addr < segments[i].vaddr + segments[i].memSize {
          return segments[i];
        }
        i := i + 1;
      }
      return null;
    }

    /** `copy_from_exec_to_page`: the bytes of the file that back the page
        holding `addr` are read, up to the page's file-backed length, and
        copied to the start of the page; the rest of the page keeps the zeros
        the fresh mapping came with. */
    method CopyFromExecToPage(segment: Segment, page: array<byte>, addr: nat)
      requires pageSize > 0 && Contains(segment.Desc(), addr)
      requires page.Length == pageSize && forall k :: 0 <= k < page.Length ==> page[k] == 0
      modifies page
      ensures page[..] == PageImage(execFile, segment.Desc(), PageIndex(segment.Desc(), addr, pageSize), pageSize)
    {
      var numPage := (addr - segment.vaddr) / pageSize;
      var data := ReadAt(execFile, segment.offset + numPage * pageSize, Min(pageSize, Max(0, segment.fileSize - numPage * pageSize)));
      forall k | 0 <= k < |data| {
        page[k] := data[k];
      }
      ghost var image := PageImage(execFile, segment.Desc(), numPage, pageSize);
      assert data == PageData(execFile, segment.Desc(), numPage, pageSize);
      assert forall k :: 0 <= k < pageSize ==> page[k] == image[k];
    }

    /** Lines 99-101 of `segv_handler`: the page is mapped afresh, anonymous,
        zero-filled and writable, replacing whatever was mapped there; it is
        filled from the file; then it gets the segment's protection. Only the
        address space changes, and only at the page's start. */
    method MapPage(segment: Segment, currentPage: nat, addr: nat)
      requires pageSize > 0
      requires Contains(segment.Desc(), addr) && currentPage == PageIndex(segment.Desc(), addr, pageSize)
      modifies this`memory
      ensures memory == old(memory)[PageStart(segment.Desc(), currentPage, pageSize) :=
                Mapping(PageImage(execFile, segment.Desc(), currentPage, pageSize), segment.perm)]
    {
      var start := segment.vaddr + currentPage * pageSize;
      var page := new byte[pageSize](_ => 0);
      memory := memory[start := Mapping(page[..], WriteOnly)];
      CopyFromExecToPage(segment, page, addr);
      memory := memory[start := Mapping(page[..], segment.perm)];
    }

    /** Line 102 of `segv_handler`, with `insert_page` as intended: the page
        is appended to the presence list of segment `i`, and to no other. */
    method RecordPresent(segment: Segment, ghost i: nat, currentPage: nat)
      requires Valid() && i < |segments| && segments[i] == segment
      modifies Repr
      ensures Valid() && fresh(Repr - old(Repr))
      ensures memory == old(memory)
      ensures present == old(present)[i := old(present[i]) + [currentPage]]
    {
      segment.InsertPage(currentPage);
      present := present[i := present[i] + [currentPage]];
      Repr := Repr + segment.Repr;
      forall j | 0 <= j < |segments|
        ensures segments[j].Valid() && segments[j] in Repr && segments[j].Repr <= Repr
        ensures present[j] == segments[j].Contents
        ensures j != i ==> segments[j].Repr !! segment.Repr
      {
        if j != i {
          assert segments[j] != segment;
          assert old(segments[j].Repr) !! old(segment.Repr);
        }
      }
      forall k, l | 0 <= k < l < |segments|
        ensures segments[k] != segments[l] && segments[k].Repr !! segments[l].Repr
      {
      }
    }

    /** Lines 99-102 of `segv_handler`: the page is mapped and filled, then
        recorded as present, exactly as Fault.Materialise describes. */
    method LoadPage(segment: Segment, ghost i: nat, currentPage: nat, addr: nat)
      requires Valid() && i < |segments| && segments[i] == segment
      requires Contains(segment.Desc(), addr) && currentPage == PageIndex(segment.Desc(), addr, pageSize)
      modifies Repr
      ensures Valid() && fresh(Repr - old(Repr))
      ensures State() == Materialise(Config(), old(State()), i, currentPage)
    {
      ghost var st' := Materialise(Config(), State(), i, currentPage);
      MapPage(segment, currentPage, addr);
      assert memory == st'.memory;
      RecordPresent(segment, i, currentPage);
    }

    /** `segv_handler`, with a `return` after each forward: a protection
        violation, a fault in no segment and a fault on a page already
        present are forwarded and change nothing; any other fault maps the
        faulting page afresh and writable, fills it from the file, gives it
        the segment's protection and records it in the segment's presence
        list, all as Fault.Step prescribes. */
    method SegvHandler(addr: nat, code: SiCode) returns (outcome: Outcome)
      requires Valid()
      modifies Repr
      ensures Valid() && fresh(Repr - old(Repr))
      ensures (outcome, State()) == Step(Config(), old(State()), addr, code)
    {
      ghost var cfg, st := Config(), State();
      if code == AccErr {
        assert Step(cfg, st, addr, code) == (Forward, st);
        return Forward;
      }
      var segment := FindSegmentOfAddress(addr);
      if segment == null {
        assert Step(cfg, st, addr, code) == (Forward, st);
        return Forward;
      }
      ghost var i := FirstContaining(Table(), addr).value;
      assert segment.Desc() == Table()[i];
      // (addr - vaddr) / PAGESIZE
      var currentPage := PageIndex(segment.Desc(), addr, pageSize);
      var pg := segment.FindPage(currentPage);
      if pg != null {
        assert Step(cfg, st, addr, code) == (Forward, st);
        return Forward;
      }
      assert Step(cfg, st, addr, code) == (Resolved, Materialise(cfg, st, i, currentPage));
      LoadPage(segment, i, currentPage, addr);
      outcome := Resolved;
    }
  }
}
