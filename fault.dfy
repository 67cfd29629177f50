/** What one SIGSEGV delivery does to the loader's state
    (segv_handler, skel-lin/loader/loader.c), stated over values: the
    process's address space as a map from page start to page, and every
    segment's presence list as a sequence of page numbers. The handler
    either forwards the fault to the disposition that was in place before
    the loader installed its own, leaving everything as it was, or
    materialises exactly one page. */
module Fault {
  import opened Paging

  /** The `si_code` of the fault: a protection violation on a mapped page
      (SEGV_ACCERR), or any other code. */
  datatype SiCode = AccErr | MapErr

  /** Forward: the fault is handed to the saved prior disposition.
      Resolved: the page was materialised; the faulting access is retried. */
  datatype Outcome = Forward | Resolved

  /** One page of the address space: its bytes and its protection. */
  datatype Mapping = Mapping(bytes: seq<byte>, perm: Perm)

  /** What the handler reads and never changes: the page size, the contents
      of the executable file and the segment table. */
  datatype Config = Config(pageSize: nat, file: seq<byte>, table: seq<SegDesc>)

  /** What the handler changes: the address space, and the presence list of
      each segment (position i belongs to segment i of the table). */
  datatype State = State(memory: map<int, Mapping>, present: seq<seq<nat>>)

  predicate Fits(cfg: Config, st: State)
  {
    cfg.pageSize > 0 && |st.present| == |cfg.table|
  }

  /** Page `idx` of segment `i` mapped at its page start with the segment's
      protection and its file-backed contents, and recorded as present. */
  function Materialise(cfg: Config, st: State, i: nat, idx: nat): (st': State)
    requires Fits(cfg, st) && i < |cfg.table|
    ensures Fits(cfg, st')
    ensures PageStart(cfg.table[i], idx, cfg.pageSize) in st'.memory
    ensures idx in st'.present[i]
    ensures forall j :: 0 <= j < |st.present| ==> st.present[j] <= st'.present[j]
    ensures |st'.present[i]| == |st.present[i]| + 1
  {
    var s := cfg.table[i];
    State(st.memory[PageStart(s, idx, cfg.pageSize) := Mapping(PageImage(cfg.file, s, idx, cfg.pageSize), s.perm)],
          st.present[i := st.present[i] + [idx]])
  }

  /** The handler as it is meant to behave: forward a protection violation,
      a fault outside every segment and a fault on a page already present;
      materialise the faulting page otherwise. */
  function Step(cfg: Config, st: State, addr: int, code: SiCode): (r: (Outcome, State))
    requires Fits(cfg, st)
    ensures Fits(cfg, r.1)
    ensures r.0 == Forward <==> r.1 == st
  {
    if code == AccErr then (Forward, st)
    else match FirstContaining(cfg.table, addr)
      case None => (Forward, st)
      case Some(i) =>
        var idx := PageIndex(cfg.table[i], addr, cfg.pageSize);
        if idx in st.present[i] then (Forward, st)
        else (Resolved, Materialise(cfg, st, i, idx))
  }

  /** The three forwarding cases, and nothing else, forward; forwarding
      leaves the address space and every presence list as they were. */
  lemma ForwardCases(cfg: Config, st: State, addr: int, code: SiCode)
    requires Fits(cfg, st)
    ensures var (outcome, st') := Step(cfg, st, addr, code);
      && (outcome == Forward <==>
            || code == AccErr
            || FirstContaining(cfg.table, addr).None?
            || var i := FirstContaining(cfg.table, addr).value;
               PageIndex(cfg.table[i], addr, cfg.pageSize) in st.present[i])
      && (outcome == Forward ==> st' == st)
  {
  }

  /** A resolved fault changes exactly one page, the one holding the faulting
      address: it is mapped with the segment's protection and the file-backed
      contents of that page, the page's index is appended to that segment's
      presence list, and every other page and every other list is unchanged. */
  lemma ResolvedChangesOnePage(cfg: Config, st: State, addr: int, code: SiCode)
    requires Fits(cfg, st)
    requires Step(cfg, st, addr, code).0 == Resolved
    ensures FirstContaining(cfg.table, addr).Some?
    ensures var i := FirstContaining(cfg.table, addr).value;
      var s, ps := cfg.table[i], cfg.pageSize;
      var idx := PageIndex(s, addr, ps);
      var start := PageStart(s, idx, ps);
      var st' := Step(cfg, st, addr, code).1;
      && start <= addr < start + ps
      && idx !in st.present[i]
      && start in st'.memory
      && st'.memory[start] == Mapping(PageImage(cfg.file, s, idx, ps), s.perm)
      && st'.memory.Keys == st.memory.Keys + {start}
      && (forall a :: a in st.memory && a != start ==> st'.memory[a] == st.memory[a])
      && st'.present[i] == st.present[i] + [idx]
      && (forall j :: 0 <= j < |st.present| && j != i ==> st'.present[j] == st.present[j])
  {
    var i := FirstContaining(cfg.table, addr).value;
    var s, ps := cfg.table[i], cfg.pageSize;
    var idx := PageIndex(s, addr, ps);
    var start := PageStart(s, idx, ps);
    var st' := Materialise(cfg, st, i, idx);
    assert Step(cfg, st, addr, code).1 == st';
    assert st'.memory == st.memory[start := Mapping(PageImage(cfg.file, s, idx, ps), s.perm)];
    assert st'.present == st.present[i := st.present[i] + [idx]];
  }

  /** Presence lists only grow: a page once present stays present. */
  lemma PresenceOnlyGrows(cfg: Config, st: State, addr: int, code: SiCode)
    requires Fits(cfg, st)
    ensures var st' := Step(cfg, st, addr, code).1;
      forall j :: 0 <= j < |st.present| ==> st.present[j] <= st'.present[j]
  {
  }

  /** A page recorded as present stays recorded, whatever faults follow. */
  lemma {:induction false} RunKeepsPresent(cfg: Config, st: State, faults: seq<(int, SiCode)>, i: nat, idx: nat)
    requires Fits(cfg, st) && i < |st.present| && idx in st.present[i]
    ensures idx in Run(cfg, st, faults).present[i]
    decreases |faults|
  {
    if faults != [] {
      var st1 := Step(cfg, st, faults[0].0, faults[0].1).1;
      PresenceOnlyGrows(cfg, st, faults[0].0, faults[0].1);
      var k :| 0 <= k < |st.present[i]| && st.present[i][k] == idx;
      assert st1.present[i][k] == idx;
      RunKeepsPresent(cfg, st1, faults[1..], i, idx);
    }
  }

  /** Once a fault on a page is resolved, a later fault on that page, of
      whatever kind, at whatever address inside the page and after whatever
      other faults (`between`), forwards and changes nothing: a page is never
      materialised twice. */
  lemma ResolvedPageNeverReloaded(cfg: Config, st: State, addr: int, code: SiCode,
                                  between: seq<(int, SiCode)>, addr2: int, code2: SiCode)
    requires Fits(cfg, st)
    requires Step(cfg, st, addr, code).0 == Resolved
    requires FirstContaining(cfg.table, addr2) == FirstContaining(cfg.table, addr)
    requires var i := FirstContaining(cfg.table, addr).value;
      PageIndex(cfg.table[i], addr2, cfg.pageSize) == PageIndex(cfg.table[i], addr, cfg.pageSize)
    ensures var later := Run(cfg, Step(cfg, st, addr, code).1, between);
      Step(cfg, later, addr2, code2) == (Forward, later)
  {
    var i := FirstContaining(cfg.table, addr).value;
    var idx := PageIndex(cfg.table[i], addr, cfg.pageSize);
    var st1 := Step(cfg, st, addr, code).1;
    assert st1 == Materialise(cfg, st, i, idx);
    RunKeepsPresent(cfg, st1, between, i, idx);
  }

  /** Every present page is mapped, and no page is recorded twice. */
  ghost predicate Consistent(cfg: Config, st: State)
  {
    && Fits(cfg, st)
    && (forall i, k :: 0 <= i < |cfg.table| && 0 <= k < |st.present[i]| ==>
          PageStart(cfg.table[i], st.present[i][k], cfg.pageSize) in st.memory)
    && (forall i, k, l :: 0 <= i < |cfg.table| && 0 <= k < l < |st.present[i]| ==>
          st.present[i][k] != st.present[i][l])
  }

  lemma StepKeepsConsistent(cfg: Config, st: State, addr: int, code: SiCode)
    requires Consistent(cfg, st)
    ensures Consistent(cfg, Step(cfg, st, addr, code).1)
  {
    var (outcome, st') := Step(cfg, st, addr, code);
    if outcome == Resolved {
      var i := FirstContaining(cfg.table, addr).value;
      var idx := PageIndex(cfg.table[i], addr, cfg.pageSize);
      assert st'.present[i] == st.present[i] + [idx];
      forall j, k | 0 <= j < |cfg.table| && 0 <= k < |st'.present[j]|
        ensures PageStart(cfg.table[j], st'.present[j][k], cfg.pageSize) in st'.memory
      {
        if j == i && k == |st.present[i]| {
          assert st'.present[j][k] == idx;
        } else {
          assert st'.present[j][k] == st.present[j][k];
        }
      }
    }
  }

  /** The state after a sequence of faults. */
  function Run(cfg: Config, st: State, faults: seq<(int, SiCode)>): (st': State)
    requires Fits(cfg, st)
    ensures Fits(cfg, st')
    decreases |faults|
  {
    if faults == [] then st
    else Run(cfg, Step(cfg, st, faults[0].0, faults[0].1).1, faults[1..])
  }

  /** However many faults are delivered, a consistent state stays
      consistent: present pages stay mapped and each page is recorded, and so
      materialised, at most once. */
  lemma {:induction false} RunKeepsConsistent(cfg: Config, st: State, faults: seq<(int, SiCode)>)
    requires Consistent(cfg, st)
    ensures Consistent(cfg, Run(cfg, st, faults))
    decreases |faults|
  {
    if faults != [] {
      StepKeepsConsistent(cfg, st, faults[0].0, faults[0].1);
      RunKeepsConsistent(cfg, Step(cfg, st, faults[0].0, faults[0].1).1, faults[1..]);
    }
  }

  /** A fault on the first byte of the second page of a segment gives page
      index 1. */
  lemma SecondPageIndex(s: SegDesc, ps: nat)
    requires ps > 0 && s.memSize >= 2 * ps
    ensures Contains(s, s.vaddr + ps) && PageIndex(s, s.vaddr + ps, ps) == 1
  {
    assert ps / ps == 1;
  }

  /** A segment of two pages whose file image ends ten bytes into its second
      page, read and executable: a fault on its first byte maps page 0 with a
      page of file bytes; a fault on the first byte of page 1 maps it with
      the last ten file bytes followed by zeros; a later write to the first
      byte, a protection violation, is forwarded and changes nothing. */
  lemma TwoPageScenario(ps: nat, file: seq<byte>)
    requires ps >= 10 && |file| >= ps + 10
    ensures var s := SegDesc(0x1000, 2 * ps, ps + 10, 0, Perm(true, false, true));
      var cfg := Config(ps, file, [s]);
      var (o1, st1) := Step(cfg, State(map[], [[]]), 0x1000, MapErr);
      var (o2, st2) := Step(cfg, st1, 0x1000 + ps, MapErr);
      var (o3, st3) := Step(cfg, st2, 0x1000, AccErr);
      && o1 == Resolved && 0x1000 in st1.memory
      && st1.memory[0x1000] == Mapping(file[..ps], Perm(true, false, true))
      && o2 == Resolved && 0x1000 + ps in st2.memory
      && st2.memory[0x1000 + ps] == Mapping(file[ps..ps + 10] + Zeros(ps - 10), Perm(true, false, true))
      && st2.present == [[0, 1]]
      && o3 == Forward && st3 == st2
  {
    var s := SegDesc(0x1000, 2 * ps, ps + 10, 0, Perm(true, false, true));
    var cfg := Config(ps, file, [s]);
    var st0 := State(map[], [[]]);
    assert FirstContaining(cfg.table, 0x1000) == Some(0);
    assert PageIndex(s, 0x1000, ps) == 0;
    var st1 := Materialise(cfg, st0, 0, 0);
    assert Step(cfg, st0, 0x1000, MapErr) == (Resolved, st1);
    assert PageImage(file, s, 0, ps) == file[..ps];
    SecondPageIndex(s, ps);
    assert FirstContaining(cfg.table, 0x1000 + ps) == Some(0);
    var st2 := Materialise(cfg, st1, 0, 1);
    assert Step(cfg, st1, 0x1000 + ps, MapErr) == (Resolved, st2);
    assert ReadLength(s, 1, ps) == 10;
    assert PageImage(file, s, 1, ps) == file[ps..ps + 10] + Zeros(ps - 10);
    assert PageStart(s, 0, ps) == 0x1000 && PageStart(s, 1, ps) == 0x1000 + ps;
    assert st1.present[0] == [0];
    assert st2.present[0] == [0, 1];
  }

  /** The handler as written: a call into the old disposition is not
      followed by `return`, so when that call returns (`oldReturns`) the
      handler goes on. The count is the number of calls into the old
      disposition; when it does not return, the first call ends the fault.
      The presence list is updated as intended, to isolate this defect. */
  function StepAsWritten(cfg: Config, st: State, addr: int, code: SiCode, oldReturns: bool): (r: (nat, State))
    requires Fits(cfg, st)
    ensures Fits(cfg, r.1) && r.0 <= 2
    ensures r.0 == 0 <==> Step(cfg, st, addr, code).0 == Resolved
    ensures r.0 == 0 ==> r.1 == Step(cfg, st, addr, code).1
  {
    var accCalls := if code == AccErr then 1 else 0;
    if accCalls == 1 && !oldReturns then (1, st)
    else match FirstContaining(cfg.table, addr)
      case None => (accCalls + 1, st)
      case Some(i) =>
        var idx := PageIndex(cfg.table[i], addr, cfg.pageSize);
        if idx in st.present[i] && !oldReturns then (accCalls + 1, st)
        else (accCalls + (if idx in st.present[i] then 1 else 0), Materialise(cfg, st, i, idx))
  }

  /** When the old disposition never returns (the default one ends the
      process), the handler as written behaves as intended. */
  lemma AsWrittenAgreesWhenOldDispositionEnds(cfg: Config, st: State, addr: int, code: SiCode)
    requires Fits(cfg, st)
    ensures var (calls, st') := StepAsWritten(cfg, st, addr, code, false);
      && st' == Step(cfg, st, addr, code).1
      && (calls > 0 <==> Step(cfg, st, addr, code).0 == Forward)
  {
  }

  /** When the old disposition returns, a protection violation or a re-fault
      inside a segment falls through: the page is mapped afresh from the
      file, replacing whatever it held, and appended to the presence list
      once more, although the fault was also forwarded. */
  lemma AsWrittenReloadsAfterForwarding(cfg: Config, st: State, addr: int, code: SiCode)
    requires Fits(cfg, st)
    requires FirstContaining(cfg.table, addr).Some?
    requires var i := FirstContaining(cfg.table, addr).value;
      code == AccErr || PageIndex(cfg.table[i], addr, cfg.pageSize) in st.present[i]
    ensures Step(cfg, st, addr, code) == (Forward, st)
    ensures var (calls, st') := StepAsWritten(cfg, st, addr, code, true);
      var i := FirstContaining(cfg.table, addr).value;
      var s := cfg.table[i];
      var idx := PageIndex(s, addr, cfg.pageSize);
      var start := PageStart(s, idx, cfg.pageSize);
      && calls >= 1
      && start in st'.memory
      && st'.memory[start] == Mapping(PageImage(cfg.file, s, idx, cfg.pageSize), s.perm)
      && st'.present[i] == st.present[i] + [idx]
      && st' != st
  {
    var i := FirstContaining(cfg.table, addr).value;
    var st' := StepAsWritten(cfg, st, addr, code, true).1;
    assert |st'.present[i]| == |st.present[i]| + 1;
  }
}
