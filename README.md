# Demand-paging loader: a Dafny model

The loader in `skel-lin/loader/loader.c` runs an ELF executable without mapping
it up front. Every access to a page of a segment that has not been loaded yet
raises SIGSEGV. The loader's `segv_handler` then does one of two things:

- it forwards the fault to the disposition that was in place before, or
- it maps the one page holding the faulting address, fills it from the
  executable file, gives it the segment's protection and records it in the
  segment's presence list.

The presence list is a singly linked list of page numbers hanging off the
segment.

The model has four modules:

- `Paging` (`paging.dfy`) holds everything pure:
  - the `max`/`min` helpers;
  - the segment lookup, as a specification;
  - the page index, page start and file offset of an address;
  - the requested read length;
  - the bytes a materialised page ends up with (`PageImage`).
- `Presence` (`presence.dfy`) holds the presence tracker:
  - a `PageNode` class for `struct pagina`;
  - a `Segment` class whose `data` field heads a heap-allocated list;
  - `FindPage`, `new_page` (the node constructor), and `insert_page` both as
    intended and as written.
- `Fault` (`fault.dfy`) states what one fault does, over values:
  - the address space is a map from page start to `Mapping(bytes, perm)`;
  - the presence lists are a sequence of sequences of page numbers;
  - `Step` is the handler as intended, and `StepAsWritten` is the handler
    without its missing `return`s;
  - lemmas cover the three forwarding cases, the single-page update, presence
    growth, "never materialised twice", a consistency invariant over any
    number of faults, and a two-page scenario.
- `Loader` (`loader.dfy`) holds `LoaderContext`, a class whose fields stand for
  the C globals:
  - `PAGESIZE` becomes `pageSize`;
  - `exec` becomes `segments`;
  - `exec_path` becomes `execFile`, the file's contents;
  - the process's address space becomes `memory`.

  Its methods `FindSegmentOfAddress`, `CopyFromExecToPage` (over an `array` for
  the page) and `SegvHandler` are proved against `Paging` and `Fault.Step`:
  `SegvHandler` ensures `(outcome, State()) == Step(Config(), old(State()), addr, code)`.

A forwarded fault is meant to end the handler. The code at
`loader.c:85-97` calls the old handler and does not return afterwards.
`SegvHandler` and `Fault.Step` model the intended behaviour, with a return
after each forward. `Fault.StepAsWritten` models the code as written, except
`insert_page`, which it applies as intended. `insert_page` is modelled both as
intended (`Presence.Segment.InsertPage`) and as written
(`Presence.Segment.InsertPageAsWritten`). All three defects are listed under
Findings.

## Model

| member | source | states |
|---|---|---|
| Paging.Max | skel-lin/loader/loader.c:24-26 | the result is at least each argument and is one of them |
| Paging.Min | skel-lin/loader/loader.c:28-30 | `a + b - max(a, b)` is at most each argument and is one of them, over unbounded integers |
| Paging.FirstContaining | skel-lin/loader/loader.c:37-44 | Some(i) only for a segment whose `[vaddr, vaddr + mem_size)` holds the address, with no earlier segment holding it; None exactly when no segment holds it |
| Paging.PageIndex | skel-lin/loader/loader.c:92-93 | `(addr - vaddr) / PAGESIZE` puts the address inside its page, `idx*PAGESIZE <= addr - vaddr < idx*PAGESIZE + PAGESIZE`, and the page starts inside the segment, `idx*PAGESIZE < mem_size` |
| Paging.PageStart | skel-lin/loader/loader.c:99 | the page start `vaddr + idx*PAGESIZE` is never below the segment, and lies inside it when the page index does |
| Paging.FileOffset | skel-lin/loader/loader.c:49 | the read offset `offset + idx*PAGESIZE` is never below the segment's file offset, and lies inside the segment's file image when the page starts inside that image |
| Paging.ReadLength | skel-lin/loader/loader.c:51 | the requested length `min(PAGESIZE, max(0, file_size - idx*PAGESIZE))` lies in `[0, PAGESIZE]`; it is 0 exactly for pages at or beyond `file_size`; it is a full page before the page holding the file image's end, and the remainder on that page |
| Paging.ReadAt | skel-lin/loader/loader.c:49-51 | a read at an offset of a regular file returns at most the requested bytes, exactly the file's bytes there, and fewer only at end of file |
| Paging.PageData | skel-lin/loader/loader.c:49-51 | the bytes read for page `idx` are no more than the requested length, which is no more than a page |
| Paging.PageImage | skel-lin/loader/loader.c:50-52 | a materialised page is one page long; its first `rd` bytes are the file's bytes from `offset + idx*PAGESIZE`, and the rest are zero |
| Paging.PageBeyondFileIsZero | skel-lin/loader/loader.c:51-52 | a page at or beyond `file_size` is all zero |
| Paging.PageInsideFileImage | skel-lin/loader/loader.c:49-52 | when the file holds the segment's file image, a page starting inside it gets `min(PAGESIZE, file_size - idx*PAGESIZE)` file bytes followed by zeros |
| Presence.PageNode.constructor | skel-lin/loader/loader.c:67-72 | `new_page` gives a node holding the page number with no successor |
| Presence.Segment.FindPage | skel-lin/loader/loader.c:57-65 | the walk returns null exactly when no node holds the page number; otherwise it returns the first node that does; nothing changes |
| Presence.Segment.InsertPage | skel-lin/loader/loader.c:74-82 | insert as intended: the list becomes the old list followed by the page, so the page is then found, every page found before is still found, and the list only grows |
| Presence.Segment.InsertPageAsWritten | skel-lin/loader/loader.c:74-82 | insert as written: the segment's head never changes; the list is what `InsertAsWritten` says; a one-node list leads to a null dereference, reported as `crashed` with the list unchanged |
| Presence.InsertAsWritten | skel-lin/loader/loader.c:74-82 | insert as written, on the list's contents: it dereferences NULL exactly on a one-node list; otherwise it leaves at most two pages, and never the list the intended insert leaves |
| Presence.InsertAsWrittenLosesFirstPage | skel-lin/loader/loader.c:75-76 | on an empty list, the node goes only to the local copy of the head, so the list stays empty and the page is never found |
| Presence.InsertAsWrittenCrashesOnSingleton | skel-lin/loader/loader.c:78 | on a one-node list, the inverted walk steps onto NULL and reads through it |
| Presence.InsertAsWrittenDropsTail | skel-lin/loader/loader.c:78-80 | on a longer list, the walk stops at the head, and every page from the second node on is lost |
| Fault.Materialise | skel-lin/loader/loader.c:99-102 | loading page `idx` of segment `i` maps the page's start, puts `idx` in that segment's presence list, lengthens that list by one, and only extends every list |
| Fault.Step | skel-lin/loader/loader.c:84-105 | `segv_handler` as intended: a fault changes the state exactly when it is not forwarded; the state keeps one presence list per segment |
| Fault.ForwardCases | skel-lin/loader/loader.c:85-97 | the handler forwards exactly on a protection violation, an address in no segment, or a page already present; forwarding leaves the address space and every presence list unchanged |
| Fault.ResolvedChangesOnePage | skel-lin/loader/loader.c:99-102 | a resolved fault maps exactly the page holding the address, at `vaddr + idx*PAGESIZE`, with the page's file-backed contents and the segment's protection; it appends `idx` to that segment's list; every other page and list is unchanged |
| Fault.PresenceOnlyGrows | skel-lin/loader/loader.c:94-102 | every presence list after a fault extends the list before it |
| Fault.RunKeepsPresent | skel-lin/loader/loader.c:94-102 | a page recorded as present stays recorded after any sequence of faults |
| Fault.ResolvedPageNeverReloaded | skel-lin/loader/loader.c:94-97 | after a page is resolved, a later fault on that page forwards and changes nothing, whatever faults came in between |
| Fault.StepKeepsConsistent | skel-lin/loader/loader.c:94-102 | one fault keeps every recorded page mapped and no page recorded twice |
| Fault.RunKeepsConsistent | skel-lin/loader/loader.c:84-105 | the same holds after any sequence of faults |
| Fault.TwoPageScenario | skel-lin/loader/loader.c:84-105 | a two-page segment whose file image ends ten bytes into its second page: page 0 gets a page of file bytes; page 1 gets ten file bytes and zeros; a later protection fault on page 0 forwards and changes nothing |
| Fault.StepAsWritten | skel-lin/loader/loader.c:84-102 | `segv_handler` as written, with `insert_page` as intended: it calls the old disposition at most twice; it calls it not at all exactly when the intended handler resolves the fault, and then it leaves the same state |
| Fault.AsWrittenAgreesWhenOldDispositionEnds | skel-lin/loader/loader.c:85-97 | when the old disposition never returns, the handler as written leaves the same state as the intended one, and calls it exactly when the intended one forwards |
| Fault.AsWrittenReloadsAfterForwarding | skel-lin/loader/loader.c:85-102 | when the old disposition returns, a protection violation or a re-fault inside a segment is forwarded and still remaps the page at `vaddr + idx*PAGESIZE` with the file-backed image and the segment's protection, replacing what it held, and appends `idx` to the presence list, changing the state |
| Loader.LoaderContext.constructor | skel-lin/loader/loader.c:125-127 | the loader holds the given segment table, page size and file contents, its `Config()` is built from that table, and every presence list starts empty |
| Loader.LoaderContext.FindSegmentOfAddress | skel-lin/loader/loader.c:37-44 | the loop returns the segment `FirstContaining` names, or null when it names none |
| Loader.LoaderContext.CopyFromExecToPage | skel-lin/loader/loader.c:46-55 | the zero-filled page ends up equal to `PageImage` of its page index |
| Loader.LoaderContext.MapPage | skel-lin/loader/loader.c:99-101 | the address space changes only at the page's start, which then holds the page image with the segment's protection |
| Loader.LoaderContext.RecordPresent | skel-lin/loader/loader.c:102 | the page is appended to the faulting segment's presence list and to no other; the address space is unchanged |
| Loader.LoaderContext.LoadPage | skel-lin/loader/loader.c:99-102 | mapping, filling, protecting and recording take the state to `Fault.Materialise` of it |
| Loader.LoaderContext.SegvHandler | skel-lin/loader/loader.c:84-105 | the outcome and the new address space and presence lists are those `Fault.Step` prescribes, with the loader still well formed |

## Left out

- Signal handling is not modelled: `sigaction`, `SA_SIGINFO`, `so_init_loader` (lines 107-123), and the call into `old_action.sa_sigaction`. Forwarding is the outcome value `Forward`. Whether the old disposition returns is the parameter `oldReturns` of `Fault.StepAsWritten`.
- The system calls `mmap`, `mprotect`, `open`, `lseek`, `read`, `close`, `calloc`, `malloc` and `free` are not modelled as calls. They become updates of the `memory` map and reads of the file contents `execFile`. Their error returns are not modelled: a failed `open`, `read` returning -1, a failed `malloc`.
- `read` is modelled as a read of a regular file. It returns fewer bytes than requested only at end of file. Interrupted and other short reads are not modelled.
- `calloc`'s intermediate buffer in `copy_from_exec_to_page` is not modelled. The bytes read are copied straight into the zero-filled page, which has the same effect.
- `so_execute`, `so_parse_exec` and `so_start_exec` (lines 125-135) are not modelled. The segment table is a constructor parameter. `exec_parser.h` is not part of this model, so `so_seg_t` is modelled only by the fields the loader uses.
- `getpagesize()` and `perror` are not modelled. The page size is a parameter and must be positive.
- Concurrent faults are not modelled. Faults are handled one at a time.
- C integer widths are not modelled. The `unsigned int` page number and offset (lines 47, 92-93) could truncate. The unsigned `file_size - num_page * PAGESIZE` at line 51 wraps and only becomes negative when converted to `int`; it is modelled as mathematical subtraction clamped at 0. The `int` sum in `min` could overflow.
- Page alignment is not modelled. `mmap` with `MAP_FIXED` needs a page-aligned address; the model keys a page by `vaddr + idx*PAGESIZE` whether or not `vaddr` is aligned.
- What the program does with a mapped page is not modelled: its reads, its writes and the protection checks of the hardware. A mapping records only its bytes and protection.
- Fault.StepAsWritten: updates the presence list with `insert_page` as intended. This isolates the missing `return`. The combination with the `insert_page` defects follows from the `InsertAsWritten` lemmas and is not stated as one function.
- Presence.Segment.InsertPageAsWritten: reports the null dereference as `crashed` with the list unchanged. What the process does after the dereference is not modelled.

## Findings

| source | as written | input that shows it | evidently intended | confidence | as-written member | corrected member |
|---|---|---|---|---|---|---|
| skel-lin/loader/loader.c:75-76 | `insert_page` stores the new node in its by-value parameter `linked_list` | any first fault in a segment: `segment->data` is NULL and stays NULL, so the list never grows and the page is never found; a later fault on the page (a protection violation once it carries `segment->perm`) goes to the old disposition first, and the page is remapped only if that disposition returns | the head is stored in the segment (`segment->data`) | high (not executed) | Presence.Segment.InsertPageAsWritten, Presence.InsertAsWrittenLosesFirstPage | Presence.Segment.InsertPage |
| skel-lin/loader/loader.c:78 | the walk runs `while (linked_list->next == NULL)` | a one-node list: the walk steps to NULL and dereferences it; a list of two or more nodes: the walk stops at the head and overwrites its `next`, losing the rest. The defect is latent: while the defect at lines 75-76 stands, a list that starts empty stays empty and never has these shapes | `while (linked_list->next != NULL)` | high (not executed) | Presence.Segment.InsertPageAsWritten, Presence.InsertAsWrittenCrashesOnSingleton, Presence.InsertAsWrittenDropsTail | Presence.Segment.InsertPage |
| skel-lin/loader/loader.c:85-97 | no `return` after `old_action.sa_sigaction(...)` at lines 86, 90 and 96 | a SEGV_ACCERR fault on a present page with an old handler that returns: the page is remapped from the file and recorded again | `return` after each forward | medium (not executed; with the default disposition the call does not return) | Fault.StepAsWritten, Fault.AsWrittenReloadsAfterForwarding | Fault.Step, Loader.LoaderContext.SegvHandler |
