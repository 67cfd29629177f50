/** Page arithmetic of the demand-paging loader (skel-lin/loader/loader.c):
    the segment descriptors the executable parser hands over, the linear scan
    that finds the segment holding a faulting address, the page index and
    page start of that address, the byte range of the executable file that
    backs the page, and the bytes a freshly materialised page ends up with. */
module Paging {

  datatype Option<T> = None | Some(value: T)

  /** One byte of the executable file or of a page. */
  newtype byte = b: int | 0 <= b < 256

  /** Protection of a mapping, as handed to mmap and mprotect. */
  datatype Perm = Perm(read: bool, write: bool, exec: bool)

  /** The protection a page is mapped with while it is being filled. */
  const WriteOnly := Perm(false, true, false)

  /** A segment as the executable parser describes it: where it lives, how
      large it is in memory and in the file, where its bytes start in the
      file and what it may be accessed for. It is never changed. */
  datatype SegDesc = SegDesc(vaddr: nat, memSize: nat, fileSize: nat, offset: nat, perm: Perm)

  /** `max` of the loader. */
  function Max(a: int, b: int): (r: int)
    ensures a <= r && b <= r
    ensures r == a || r == b
  {
    if a < b then b else a
  }

  /** `min` of the loader, written as the sum less the larger one. Over
      unbounded integers the sum cannot overflow. */
  function Min(a: int, b: int): (r: int)
    ensures r <= a && r <= b
    ensures r == a || r == b
  {
    a + b - Max(a, b)
  }

  /** The half-open range `[vaddr, vaddr + memSize)` of the segment holds `addr`. */
  predicate Contains(s: SegDesc, addr: int)
  {
    s.vaddr <= addr < s.vaddr + s.memSize
  }

  /** The position of the first segment of the table, in table order, whose
      range holds `addr`; None when no segment holds it. */
  function FirstContaining(table: seq<SegDesc>, addr: int): (r: Option<nat>)
    ensures r.Some? ==> r.value < |table| && Contains(table[r.value], addr)
    ensures r.Some? ==> forall j :: 0 <= j < r.value ==> !Contains(table[j], addr)
    ensures r.None? <==> forall j :: 0 <= j < |table| ==> !Contains(table[j], addr)
  {
    if table == [] then None
    else if Contains(table[0], addr) then Some(0)
    else match FirstContaining(table[1..], addr)
      case None => None
      case Some(i) => Some(i + 1)
  }

  /** Euclidean division puts `x` between two consecutive multiples of `d`. */
  lemma DivisionBounds(x: nat, d: nat)
    requires d > 0
    ensures 0 <= x / d && (x / d) * d <= x < (x / d) * d + d
  {
    assert x == (x / d) * d + x % d;
  }

  /** The page index of an address inside a segment: the number of whole
      pages between the segment's start and the address. */
  function PageIndex(s: SegDesc, addr: int, pageSize: nat): (idx: nat)
    requires pageSize > 0 && Contains(s, addr)
    ensures idx * pageSize <= addr - s.vaddr < idx * pageSize + pageSize
    ensures idx * pageSize < s.memSize
  {
    var x: nat := addr - s.vaddr;
    DivisionBounds(x, pageSize);
    x / pageSize
  }

  /** The virtual address at which page `idx` of the segment starts: never
      below the segment, and inside it for a page that starts inside it. */
  function PageStart(s: SegDesc, idx: nat, pageSize: nat): (start: int)
    ensures s.vaddr <= start
    ensures idx * pageSize < s.memSize ==> Contains(s, start)
  {
    s.vaddr + idx * pageSize
  }

  /** The file offset from which page `idx` of the segment is read: inside
      the segment's file image for a page that starts inside that image. */
  function FileOffset(s: SegDesc, idx: nat, pageSize: nat): (off: nat)
    ensures s.offset <= off
    ensures idx * pageSize < s.fileSize ==> off < s.offset + s.fileSize
  {
    s.offset + idx * pageSize
  }

  /** The number of bytes requested from the file for page `idx`: the part of
      the segment's file image that falls in the page, never negative and
      never more than a page. */
  function ReadLength(s: SegDesc, idx: nat, pageSize: nat): (n: nat)
    requires pageSize > 0
    ensures n <= pageSize
    ensures n == 0 <==> s.fileSize <= idx * pageSize
    ensures idx * pageSize + pageSize <= s.fileSize ==> n == pageSize
    ensures idx * pageSize < s.fileSize < idx * pageSize + pageSize ==> n == s.fileSize - idx * pageSize
  {
    Min(pageSize, Max(0, s.fileSize - idx * pageSize))
  }

  /** What `read` returns when asked for `len` bytes at offset `off` of a
      regular file holding `file`: the bytes at that offset, fewer than asked
      only when the end of the file is reached. */
  function ReadAt(file: seq<byte>, off: nat, len: nat): (data: seq<byte>)
    ensures |data| <= len
    ensures |data| < len ==> off + |data| >= |file|
    ensures forall k :: 0 <= k < |data| ==> off + k < |file| && data[k] == file[off + k]
  {
    if off >= |file| then [] else file[off .. Min(off + len, |file|)]
  }

  function Zeros(n: nat): (z: seq<byte>)
    ensures |z| == n && forall k :: 0 <= k < n ==> z[k] == 0
  {
    seq(n, _ => 0)
  }

  /** The bytes read from the file for page `idx` of the segment. */
  function PageData(file: seq<byte>, s: SegDesc, idx: nat, pageSize: nat): (data: seq<byte>)
    requires pageSize > 0
    ensures |data| <= ReadLength(s, idx, pageSize) <= pageSize
  {
    ReadAt(file, FileOffset(s, idx, pageSize), ReadLength(s, idx, pageSize))
  }

  /** The contents of page `idx` of the segment once it is materialised: the
      bytes read from the file, and zero bytes from there to the page's end. */
  function PageImage(file: seq<byte>, s: SegDesc, idx: nat, pageSize: nat): (img: seq<byte>)
    requires pageSize > 0
    ensures |img| == pageSize
    ensures forall k :: 0 <= k < |PageData(file, s, idx, pageSize)| ==>
              img[k] == file[FileOffset(s, idx, pageSize) + k]
    ensures forall k :: |PageData(file, s, idx, pageSize)| <= k < pageSize ==> img[k] == 0
  {
    var data := PageData(file, s, idx, pageSize);
    data + Zeros(pageSize - |data|)
  }

  /** A page that lies wholly beyond the segment's file image is all zero. */
  lemma PageBeyondFileIsZero(file: seq<byte>, s: SegDesc, idx: nat, pageSize: nat)
    requires pageSize > 0 && s.fileSize <= idx * pageSize
    ensures PageImage(file, s, idx, pageSize) == Zeros(pageSize)
  {
    var img := PageImage(file, s, idx, pageSize);
    assert |PageData(file, s, idx, pageSize)| == 0;
    assert forall k :: 0 <= k < pageSize ==> img[k] == 0;
  }

  /** When the file holds the whole file image of the segment, a page that
      starts inside that image receives the image's bytes up to the page's
      end or the image's end, whichever comes first, and zeros after them. */
  lemma PageInsideFileImage(file: seq<byte>, s: SegDesc, idx: nat, pageSize: nat)
    requires pageSize > 0
    requires s.offset + s.fileSize <= |file|
    requires idx * pageSize < s.fileSize
    ensures var img, n := PageImage(file, s, idx, pageSize), Min(pageSize, s.fileSize - idx * pageSize);
      && (forall k :: 0 <= k < n ==> img[k] == file[s.offset + idx * pageSize + k])
      && (forall k :: n <= k < pageSize ==> img[k] == 0)
  {
    var off, len := FileOffset(s, idx, pageSize), ReadLength(s, idx, pageSize);
    assert len == Min(pageSize, s.fileSize - idx * pageSize);
    assert off + len <= |file|;
    assert |PageData(file, s, idx, pageSize)| == len;
  }
}
