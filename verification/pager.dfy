/** A file of fixed-size pages.

    Reading past its end gives zeros; writing past its end grows it. */
module PagerModel {
  import opened Bytes

  const PAGE_SIZE: nat := 4096
  const MAX_PAGES: nat := 100

  /** From this page number on the byte offset does not fit 32 bits and starts over. */
  const SPAN: nat := 0x10_0000

  /** Where on disk a page goes. */
  function DiskPage(p: nat): nat {
    p % SPAN
  }

  lemma OffsetWraps(p: nat)
    ensures PAGE_SIZE * p % 0x1_0000_0000 == PAGE_SIZE * DiskPage(p)
  {
    var q, r := p / SPAN, p % SPAN;
    assert p == SPAN * q + r;
    assert PAGE_SIZE * p == 0x1_0000_0000 * q + PAGE_SIZE * r;
  }

  predicate IsPage(d: seq<byte>) {
    |d| == PAGE_SIZE
  }

  /** The content of page p: bytes of the file, zero where the file has none. */
  function PageAt(file: seq<byte>, p: nat): (d: seq<byte>)
    ensures IsPage(d)
  {
    seq(PAGE_SIZE, i requires 0 <= i < PAGE_SIZE =>
      if PAGE_SIZE * p + i < |file| then file[PAGE_SIZE * p + i] else 0)
  }

  /** The file after the first bytes of page p, all of them unless the disk is full, were written; a gap
      before the page is filled with zeros. */
  function WritePage(file: seq<byte>, p: nat, d: seq<byte>): (f: seq<byte>)
    requires |d| <= PAGE_SIZE
    ensures |f| == if d == [] || |file| >= PAGE_SIZE * p + |d| then |file| else PAGE_SIZE * p + |d|
  {
    var n := if d == [] || |file| >= PAGE_SIZE * p + |d| then |file| else PAGE_SIZE * p + |d|;
    seq(n, i requires 0 <= i < n =>
      if PAGE_SIZE * p <= i < PAGE_SIZE * p + |d| then d[i - PAGE_SIZE * p]
      else if i < |file| then file[i]
      else 0)
  }

  /** Writing a page changes that page, as far as it was written, and no other. */
  lemma PageAfterWrite(file: seq<byte>, p: nat, d: seq<byte>, q: nat)
    requires |d| <= PAGE_SIZE
    ensures PageAt(WritePage(file, p, d), q) == if q == p then d + PageAt(file, p)[|d|..] else PageAt(file, q)
    ensures IsPage(d) && q == p ==> PageAt(WritePage(file, p, d), q) == d
  {
    var f := WritePage(file, p, d);
    forall i | 0 <= i < PAGE_SIZE
      ensures PageAt(f, q)[i] == if q == p && i < |d| then d[i] else PageAt(file, q)[i]
    {
      PagesApart(p, q, i);
    }
    if q == p {
      var expected := d + PageAt(file, p)[|d|..];
      assert forall i | 0 <= i < PAGE_SIZE :: PageAt(f, q)[i] == expected[i];
      assert PageAt(f, q) == expected;
    }
  }

  lemma PagesApart(p: nat, q: nat, i: nat)
    requires i < PAGE_SIZE
    ensures (PAGE_SIZE * p <= PAGE_SIZE * q + i < PAGE_SIZE * (p + 1)) <==> p == q
  {
    if q < p {
      assert PAGE_SIZE * (q + 1) <= PAGE_SIZE * p;
    } else if p < q {
      assert PAGE_SIZE * (p + 1) <= PAGE_SIZE * q;
    }
  }

  /** The file lives on disk; the pager reads and writes it through page buffers. */
  class Pager {
    var file: seq<byte>

    constructor (file: seq<byte>)
      ensures this.file == file
    {
      this.file := file;
    }

    /** Page numbers from MAX_PAGES on leave the buffer as it was. */
    method Read(p: nat, out: array<byte>)
      requires out.Length == PAGE_SIZE
      modifies out
      ensures out[..] == if p < MAX_PAGES then PageAt(file, p) else old(out[..])
    {
      if p >= MAX_PAGES {
        return;
      }
      var start := PAGE_SIZE * p;
      var count := if |file| <= start then 0
                   else if |file| - start < PAGE_SIZE then |file| - start
                   else PAGE_SIZE;
      forall i | 0 <= i < count {
        out[i] := file[start + i];
      }
      if count < PAGE_SIZE {
        forall i | count <= i < PAGE_SIZE {
          out[i] := 0;
        }
      }
    }

    /** `written`: how many bytes the disk took; fewer than a page are noted and otherwise ignored. */
    method Write(p: nat, data: array<byte>, written: nat)
      requires data.Length == PAGE_SIZE && written <= PAGE_SIZE
      modifies this
      ensures file == WritePage(old(file), DiskPage(p), data[..written])
    {
      var start := PAGE_SIZE * p % 0x1_0000_0000;
      OffsetWraps(p);
      if written > 0 {
        var grown := if |file| < start then file + seq(start - |file|, _ => 0) else file;
        var rest := if |grown| > start + written then grown[start + written..] else [];
        file := grown[..start] + data[..written] + rest;
      }
    }

    method NumPages() returns (n: nat)
      ensures n == |file| / PAGE_SIZE
    {
      n := |file| / PAGE_SIZE;
    }
  }
}
