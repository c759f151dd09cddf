/** Guest-physical memory as the block device sees it: pages of 4 KiB that
    land on distinct host pages in no particular order, so a copy has to be
    split at every page boundary. */
module GuestMemory {
  import opened Common
  import opened Bytes

  const PAGE: nat := 4096

  type Pages = map<nat, nat>

  /** Guest addresses wrap at 64 bits. */
  function Wrap(g: nat): (r: nat)
    ensures r < U64
  {
    g % U64
  }

  predicate Mapped(p: Pages, g: nat) {
    Wrap(g) / PAGE in p
  }

  /** Host address of a mapped guest address. */
  function Host(p: Pages, g: nat): (h: nat)
    requires Mapped(p, g)
  {
    p[Wrap(g) / PAGE] * PAGE + Wrap(g) % PAGE
  }

  /** Distinct guest pages are distinct host pages, all inside `size` bytes. */
  ghost predicate Sound(p: Pages, size: nat) {
    && (forall g :: g in p ==> (p[g] + 1) * PAGE <= size)
    && (forall g, h :: g in p && h in p && g != h ==> p[g] != p[h])
  }

  /** The `i`-th guest byte from `g`. */
  predicate Has(p: Pages, g: nat, i: nat) {
    Mapped(p, g + i)
  }

  function At(p: Pages, g: nat, i: nat): (h: nat)
    requires Has(p, g, i)
  {
    Host(p, g + i)
  }

  ghost predicate AllMapped(p: Pages, g: nat, n: nat) {
    forall i :: 0 <= i < n ==> Has(p, g, i)
  }

  /** Host byte `h` lies under the `n` guest bytes at `g`. */
  ghost predicate Under(p: Pages, g: nat, n: nat, h: int) {
    exists i :: 0 <= i < n && Has(p, g, i) && At(p, g, i) == h
  }

  /** How many leading bytes of the `n` at `g` are mapped. */
  ghost function Prefix(p: Pages, g: nat, n: nat): (k: nat)
    ensures k <= n && AllMapped(p, g, k)
    ensures k < n ==> !Has(p, g, k)
  {
    if n == 0 then 0
    else
      var k := Prefix(p, g, n - 1);
      if k == n - 1 && Has(p, g, n - 1) then n else k
  }

  lemma HostInside(p: Pages, size: nat, g: nat)
    requires Sound(p, size) && Mapped(p, g)
    ensures Host(p, g) < size
  {
    var k := Wrap(g) / PAGE;
    assert (p[k] + 1) * PAGE == p[k] * PAGE + PAGE;
  }

  lemma AtInside(p: Pages, size: nat, g: nat, i: nat)
    requires Sound(p, size) && Has(p, g, i)
    ensures At(p, g, i) < size
  {
    HostInside(p, size, g + i);
  }

  /** Two guest bytes share a host byte only if they are the same byte. */
  lemma HostInjective(p: Pages, size: nat, g: nat, k: nat)
    requires Sound(p, size) && Mapped(p, g) && Mapped(p, k)
    ensures Host(p, g) == Host(p, k) <==> Wrap(g) == Wrap(k)
  {
    var a, b := Wrap(g) / PAGE, Wrap(k) / PAGE;
    if Host(p, g) == Host(p, k) {
      assert p[a] == p[b] by {
        Quotient(p[a], Wrap(g) % PAGE);
        Quotient(p[b], Wrap(k) % PAGE);
      }
    }
  }

  lemma Quotient(q: nat, r: nat)
    requires r < PAGE
    ensures (q * PAGE + r) / PAGE == q
  {}

  function PageLeft(g: nat): (n: nat)
    ensures 0 < n <= PAGE
  {
    PAGE - Wrap(g) % PAGE
  }

  /** Within a page, host addresses follow guest addresses. */
  lemma PageRun(p: Pages, g: nat, done: nat, i: nat)
    requires done <= i < done + PageLeft(g + done)
    ensures Has(p, g, i) <==> Has(p, g, done)
    ensures Has(p, g, done) ==> At(p, g, i) == At(p, g, done) + (i - done)
  {
    assert Wrap(g + i) == Wrap(g + done) + (i - done);
    assert Wrap(g + i) / PAGE == Wrap(g + done) / PAGE;
  }

  /** Distinct offsets below 2^64 are distinct bytes. */
  lemma OffsetsApart(p: Pages, size: nat, g: nat, i: nat, j: nat)
    requires Sound(p, size) && i < U64 && j < U64 && i != j && Has(p, g, i) && Has(p, g, j)
    ensures At(p, g, i) != At(p, g, j)
  {
    HostInjective(p, size, g + i, g + j);
  }

  /** The same byte counted from `g` and from `g + k`. */
  lemma Shifted(p: Pages, g: nat, k: nat)
    ensures forall i: nat {:trigger Has(p, g + k, i)} :: Has(p, g + k, i) <==> Has(p, g, k + i)
    ensures forall i: nat {:trigger At(p, g + k, i)} :: Has(p, g + k, i) ==> At(p, g + k, i) == At(p, g, k + i)
    ensures forall j: nat {:trigger Has(p, g, j)} :: k <= j ==> (Has(p, g, j) <==> Has(p, g + k, j - k))
    ensures forall j: nat {:trigger At(p, g, j)} :: k <= j && Has(p, g, j) ==> At(p, g, j) == At(p, g + k, j - k)
  {
    forall j: nat | k <= j ensures Has(p, g, j) <==> Has(p, g + k, j - k) {
      assert g + j == (g + k) + (j - k);
    }
    forall j: nat | k <= j && Has(p, g, j) ensures At(p, g, j) == At(p, g + k, j - k) {
      assert g + j == (g + k) + (j - k);
    }
  }

  lemma UnderPart(p: Pages, g: nat, k: nat, n: nat, len: nat, h: int)
    requires k + n <= len && Under(p, g + k, n, h)
    ensures Under(p, g, len, h)
  {
    var b := g + k;
    var i :| 0 <= i < n && Has(p, b, i) && At(p, b, i) == h;
    assert b + i == g + (k + i);
    assert Has(p, g, k + i) && At(p, g, k + i) == h;
  }

  /** A copy to the bytes from `k` on leaves the earlier ones alone. */
  lemma EarlierNotUnder(p: Pages, size: nat, g: nat, k: nat, n: nat, i: nat)
    requires Sound(p, size) && i < k && k + n <= U64 && Has(p, g, i)
    ensures !Under(p, g + k, n, At(p, g, i))
    ensures At(p, g, i) < size
  {
    HostInside(p, size, g + i);
    var b := g + k;
    forall j | 0 <= j < n && Has(p, b, j) ensures At(p, b, j) != At(p, g, i) {
      assert b + j == g + (k + j);
      OffsetsApart(p, size, g, i, k + j);
    }
  }

  /** The bytes before a page run are not in it. */
  lemma RunMisses(p: Pages, size: nat, g: nat, i: nat, done: nat, take: nat)
    requires Sound(p, size) && i < done && done + take <= U64 && take <= PageLeft(g + done)
    requires Has(p, g, i) && Has(p, g, done)
    ensures !(At(p, g, done) <= At(p, g, i) < At(p, g, done) + take)
  {
    var x := At(p, g, i) - At(p, g, done);
    if 0 <= x < take {
      PageRun(p, g, done, done + x);
      OffsetsApart(p, size, g, i, done + x);
    }
  }

  /** Host RAM behind a page map. The two copies below are what a device may
      do to it. */
  class GuestRam {
    const pages: Pages
    const ram: array<byte>

    ghost predicate Valid() {
      Sound(pages, ram.Length)
    }

    constructor (pages: Pages, ram: array<byte>)
      requires Sound(pages, ram.Length)
      ensures Valid() && this.pages == pages && this.ram == ram
    {
      this.pages := pages;
      this.ram := ram;
    }

    lemma PageRoom(g: nat, done: nat)
      requires Valid() && Has(pages, g, done)
      ensures At(pages, g, done) + PageLeft(g + done) <= ram.Length
    {
      var q := pages[Wrap(g + done) / PAGE];
      assert (q + 1) * PAGE == q * PAGE + PAGE;
    }

    /** Copy the `n` guest bytes at `g` to the front of `dst`, page by page.
        An unmapped page stops the copy. */
    method ReadBytes(g: nat, dst: array<byte>, n: nat) returns (ok: bool)
      requires Valid() && n <= dst.Length && dst != ram
      modifies dst
      ensures ok <==> AllMapped(pages, g, n)
      ensures forall i :: 0 <= i < Prefix(pages, g, n) ==> dst[i] == ram[At(pages, g, i)]
      ensures forall i :: Prefix(pages, g, n) <= i < dst.Length ==> dst[i] == old(dst[i])
    {
      hide Has, At, PageLeft, Sound;
      var done := 0;
      while done < n
        invariant 0 <= done <= n
        invariant AllMapped(pages, g, done)
        invariant forall i :: 0 <= i < done ==> At(pages, g, i) < ram.Length && dst[i] == ram[At(pages, g, i)]
        invariant forall i :: done <= i < dst.Length ==> dst[i] == old(dst[i])
      {
        if !Has(pages, g, done) {
          assert Prefix(pages, g, n) == done;
          return false;
        }
        var h := At(pages, g, done);
        var take := if n - done < PageLeft(g + done) then n - done else PageLeft(g + done);
        PageRoom(g, done);
        forall k | 0 <= k < take {
          dst[done + k] := ram[h + k];
        }
        forall i | done <= i < done + take ensures Has(pages, g, i) && At(pages, g, i) == h + (i - done) {
          PageRun(pages, g, done, i);
        }
        done := done + take;
      }
      assert Prefix(pages, g, n) == n;
      return true;
    }

    /** Copy the front `n` bytes of `src` over the guest bytes at `g`. An
        unmapped page stops the copy after the pages before it. */
    method WriteBytes(g: nat, src: array<byte>, n: nat) returns (ok: bool)
      requires Valid() && n <= src.Length && src != ram && n <= U64
      modifies ram
      ensures ok <==> AllMapped(pages, g, n)
      ensures ok <==> Prefix(pages, g, n) == n
      ensures forall i :: 0 <= i < Prefix(pages, g, n) ==> ram[At(pages, g, i)] == src[i]
      ensures forall h :: 0 <= h < ram.Length && !Under(pages, g, Prefix(pages, g, n), h) ==> ram[h] == old(ram[h])
      ensures forall h :: 0 <= h < ram.Length && !Under(pages, g, n, h) ==> ram[h] == old(ram[h])
    {
      hide Has, At, PageLeft, Sound;
      var done := 0;
      while done < n
        invariant 0 <= done <= n
        invariant AllMapped(pages, g, done)
        invariant forall i :: 0 <= i < done ==> At(pages, g, i) < ram.Length && ram[At(pages, g, i)] == src[i]
        invariant forall h :: 0 <= h < ram.Length && !Under(pages, g, done, h) ==> ram[h] == old(ram[h])
      {
        if !Has(pages, g, done) {
          assert Prefix(pages, g, n) == done;
          return false;
        }
        var h := At(pages, g, done);
        var take := if n - done < PageLeft(g + done) then n - done else PageLeft(g + done);
        PageRoom(g, done);
        forall i | done <= i < done + take ensures Has(pages, g, i) && At(pages, g, i) == h + (i - done) {
          PageRun(pages, g, done, i);
        }
        forall i | 0 <= i < done ensures !(h <= At(pages, g, i) < h + take) {
          RunMisses(pages, ram.Length, g, i, done, take);
        }
        ghost var end := done + take;
        forall x | h <= x < h + take ensures Under(pages, g, end, x) {
          assert At(pages, g, done + (x - h)) == x;
        }
        forall k | 0 <= k < take {
          ram[h + k] := src[done + k];
        }
        done := done + take;
      }
      assert Prefix(pages, g, n) == n;
      return true;
    }
  }
}
