/** Sector addresses in the task-file registers, and block sizes. */
module IdeAddress {
  import opened Numbers

  datatype Geometry = Geometry(heads: nat, spt: nat)

  /** The address registers as they are stored: 8, 16 and 8 bits wide. */
  datatype Address = Address(lba: bool, sector: nat, cylinder: nat, head: nat)

  /** Any geometry whose product an `int` can hold. */
  predicate GeometryOk(g: Geometry) { 1 <= g.heads < 0x1_0000 && 1 <= g.spt < 0x8000 }

  predicate AddressOk(a: Address) { a.sector < 256 && a.cylinder < 65536 && a.head < 256 }

  function GetLba(g: Geometry, a: Address): (l: nat)
    requires GeometryOk(g) && AddressOk(a)
    ensures l < WRAP
  {
    if a.lba then (a.sector + a.cylinder * 0x100 + a.head * 0x100_0000) % WRAP
    else Chs(g.heads, g.spt, a.cylinder, a.head, a.sector)
  }

  function Chs(heads: nat, spt: nat, cylinder: nat, head: nat, sector: nat): (l: nat)
    ensures l < WRAP
  {
    ((cylinder * heads + head) * spt + sector - 1) % WRAP
  }

  /** Cylinder, head and sector within the track, counted from 0, of a sector number. */
  function Cyl(g: Geometry, l: nat): nat requires GeometryOk(g) { hide Area; l / Area(g) }
  function Head(g: Geometry, l: nat): nat requires GeometryOk(g) { hide Area; l % Area(g) / g.spt }
  function Sec(g: Geometry, l: nat): nat requires GeometryOk(g) { hide Area; l % Area(g) % g.spt }

  /** The sectors of a cylinder. */
  function Area(g: Geometry): (a: nat)
    requires GeometryOk(g)
    ensures 1 <= a
  {
    ProductBounds(g.heads, g.spt, 0);
    g.heads * g.spt
  }

  /** The registers for the sector before `next`, each value cut to its register's width. */
  function PutLba(g: Geometry, a: Address, next: nat): (r: Address)
    requires GeometryOk(g) && AddressOk(a)
    ensures AddressOk(r)
  {
    var l := (next - 1) % WRAP;
    if a.lba then a.(sector := l % 0x100, cylinder := l / 0x100 % 0x1_0000, head := l / 0x100_0000 % 16)
    else
      a.(cylinder := Cyl(g, l) % 0x1_0000, head := Head(g, l) % 0x100, sector := (Sec(g, l) + 1) % 0x100)
  }

  /** Only the addressing mode matters of what was there before. */
  lemma PutAgain(g: Geometry, a: Address, next: nat)
    requires GeometryOk(g) && AddressOk(a)
    ensures PutLba(g, PutLba(g, a, next), next) == PutLba(g, a, next)
    ensures PutLba(g, a, next).lba == a.lba
  {
    hide Cyl, Head, Sec;
  }

  /** Whether the registers are wide enough for a sector number. */
  predicate Fits(g: Geometry, lbaMode: bool, l: nat)
    requires GeometryOk(g)
  {
    if lbaMode then l < 0x1000_0000
    else Cyl(g, l) < 0x1_0000 && Head(g, l) < 0x100 && Sec(g, l) < 255
  }

  lemma SplitBounds(g: Geometry, l: nat)
    requires GeometryOk(g)
    ensures Head(g, l) < g.heads
  {
    ProductBounds(g.heads, g.spt, l % Area(g));
  }

  lemma ProductBounds(h: nat, s: nat, r: nat)
    requires 1 <= h && 1 <= s
    ensures 1 <= h * s
    ensures r < h * s ==> r / s < h
  {
    Mono(1, h, s);
    if r < h * s {
      var q := r / s;
      assert q * s <= r;
      if q >= h { Mono(h, q, s); }
    }
  }

  lemma Split(g: Geometry, l: nat)
    requires GeometryOk(g)
    ensures l == (Cyl(g, l) * g.heads + Head(g, l)) * g.spt + Sec(g, l)
    ensures Head(g, l) < g.heads && Sec(g, l) < g.spt
  {
    SplitBounds(g, l);
    SplitAt(l, g.heads, g.spt, Area(g));
    DivParts(l % Area(g), g.spt);
  }

  lemma SplitAt(l: nat, h: nat, s: nat, hs: nat)
    requires hs == h * s && hs > 0 && s > 0
    ensures l == (l / hs * h + l % hs / s) * s + l % hs % s
  {
    var c, r := l / hs, l % hs;
    var q, t := r / s, r % s;
    DivParts(l, hs);
    DivParts(r, s);
    SplitSum(l, c, h, s, q, t);
  }

  lemma SplitSum(l: nat, c: nat, h: nat, s: nat, q: nat, t: nat)
    requires l == c * (h * s) + (q * s + t)
    ensures l == (c * h + q) * s + t
  {
    SplitProduct(c, h, s, q);
  }

  lemma SplitProduct(c: nat, h: nat, s: nat, q: nat)
    ensures (c * h + q) * s == c * (h * s) + q * s
  {
    assert (c * h) * s == c * (h * s);
  }

  /** Reading back the address just written gives the sector it was written for exactly when
      the registers are wide enough. */
  lemma PutGet(g: Geometry, a: Address, next: nat)
    requires GeometryOk(g) && AddressOk(a) && 0 < next < WRAP
    ensures GetLba(g, PutLba(g, a, next)) == next - 1 <==> Fits(g, a.lba, next - 1)
  {
    hide Cyl, Head, Sec, Chs;
    var l := next - 1;
    if a.lba { PutGetFlat(g, a, l); } else { PutGetChs(g, a, l); }
  }

  lemma PutGetFlat(g: Geometry, a: Address, l: nat)
    requires GeometryOk(g) && AddressOk(a) && a.lba && l + 1 < WRAP
    ensures GetLba(g, PutLba(g, a, l + 1)) == l <==> Fits(g, true, l)
  {
    hide Cyl, Head, Sec, Chs;
    Unwrapped(l);
    PutGetLba(l);
    BelowOwn(l);
  }

  lemma Unwrapped(l: nat)
    requires l < WRAP
    ensures l % WRAP == l
  {
  }

  lemma BelowOwn(l: nat)
    ensures l % 0x1000_0000 == l <==> l < 0x1000_0000
  {
  }

  lemma PutGetLba(l: nat)
    requires l < WRAP
    ensures (l % 0x100 + l / 0x100 % 0x1_0000 * 0x100 + l / 0x100_0000 % 16 * 0x100_0000) % WRAP == l % 0x1000_0000
  {
    var m := l / 0x100;
    assert l / 0x100_0000 == m / 0x1_0000;
    assert l % 0x100 + m % 0x1_0000 * 0x100 == l % 0x100_0000;
  }

  lemma PutGetChs(g: Geometry, a: Address, l: nat)
    requires GeometryOk(g) && AddressOk(a) && !a.lba && l + 1 < WRAP
    ensures GetLba(g, PutLba(g, a, l + 1)) == l <==> Fits(g, false, l)
  {
    hide Cyl, Head, Sec, Chs;
    Split(g, l);
    ChsLoss(g.heads, g.spt, Cyl(g, l), Head(g, l), Sec(g, l), l);
  }

  /** What the cuts to 16 and 8 bits take away is nothing, or a difference that the 32-bit
      arithmetic of reading back cannot hide. */
  lemma ChsLoss(heads: nat, spt: nat, c: nat, h: nat, s: nat, l: nat)
    requires heads >= 1 && spt >= 1 && l == (c * heads + h) * spt + s && l + 1 < WRAP
    ensures Chs(heads, spt, c % 0x1_0000, h % 0x100, (s + 1) % 0x100) == l <==> c < 0x1_0000 && h < 0x100 && s < 255
  {
    var k, hq, sq := c / 0x1_0000, h / 0x100, (s + 1) / 0x100;
    var kept := (c % 0x1_0000 * heads + h % 0x100) * spt;
    var m, j := k * heads * spt, hq * spt;
    CutAway(heads, spt, k, c % 0x1_0000, hq, h % 0x100);
    assert 0x1_0000 * k + c % 0x1_0000 == c && 0x100 * hq + h % 0x100 == h;
    ModLoss(l, 0x1_0000 * m + 0x100 * j + 0x100 * sq);
    assert kept + (s + 1) % 0x100 - 1 == l - (0x1_0000 * m + 0x100 * j + 0x100 * sq);
  }

  lemma CutAway(heads: nat, spt: nat, k: nat, d: nat, hq: nat, e: nat)
    requires heads >= 1 && spt >= 1
    ensures ((0x1_0000 * k + d) * heads + (0x100 * hq + e)) * spt
            == 0x1_0000 * (k * heads * spt) + 0x100 * (hq * spt) + (d * heads + e) * spt
    ensures k * heads * spt >= 0 && hq * spt >= 0 && (d * heads + e) * spt >= 0
    ensures k * heads * spt == 0 <==> k == 0
    ensures hq * spt == 0 <==> hq == 0
  {
    NoneLost(k, heads);
    NoneLost(k * heads, spt);
    NoneLost(hq, spt);
    NoneLost(d * heads + e, spt);
    Spread(k, 0, d, heads);
    Spread(k * heads, hq, d * heads + e, spt);
  }

  lemma NoneLost(x: nat, s: nat)
    requires s >= 1
    ensures x * s >= 0 && (x * s == 0 <==> x == 0)
  {
    if x >= 1 { Mono(1, x, s); }
  }

  lemma Spread(x: nat, z: nat, y: nat, s: nat)
    ensures (0x1_0000 * x + 0x100 * z + y) * s == 0x1_0000 * (x * s) + 0x100 * (z * s) + y * s
  {
  }

  lemma ModLoss(l: nat, loss: nat)
    requires loss <= l + 1 < WRAP
    ensures (l - loss) % WRAP == l <==> loss == 0
  {
  }

  // ---------- what an address stands for ----------

  /** Sector 1 of head 0 of cylinder 0 is sector number 0; the next sector is one on, the next head a
      track on, and the next cylinder as many tracks on as there are heads. */
  lemma ChsSteps(heads: nat, spt: nat, cylinder: nat, head: nat, sector: nat)
    ensures Chs(heads, spt, 0, 0, 1) == 0
    ensures var l := Chs(heads, spt, cylinder, head, sector);
            Chs(heads, spt, cylinder, head, sector + 1) == (l + 1) % WRAP
            && Chs(heads, spt, cylinder, head + 1, sector) == (l + spt) % WRAP
            && Chs(heads, spt, cylinder, head + heads, sector) == Chs(heads, spt, cylinder + 1, head, sector)
  {
    var x := cylinder * heads + head;
    var y := x * spt;
    assert 0 * heads == 0 && 0 * spt == 0;
    assert (x + 1) * spt == y + spt;
    assert (cylinder + 1) * heads + head == x + heads;
    ModPlus(y + sector - 1, 1);
    ModPlus(y + sector - 1, spt);
  }

  lemma ModPlus(a: int, b: int)
    ensures (a % WRAP + b) % WRAP == (a + b) % WRAP
  {
  }

  /** A linear address is in the registers byte by byte, the sector register lowest. */
  lemma LbaDigits(g: Geometry, a: Address)
    requires GeometryOk(g) && AddressOk(a) && a.lba
    ensures var l := GetLba(g, a);
            l % 0x100 == a.sector && l / 0x100 % 0x1_0000 == a.cylinder && l / 0x100_0000 == a.head
  {
    var l := GetLba(g, a);
    assert l / 0x100 == a.cylinder + a.head * 0x1_0000;
    assert l / 0x100_0000 == a.head;
  }

  /** With 256 sectors to a track, as a host may ask for, the last sector of the first track is
      written as sector 0 and does not read back. */
  lemma LastOfTrack(a: Address)
    requires AddressOk(a) && !a.lba
    ensures var g := Geometry(16, 256);
            GeometryOk(g) && PutLba(g, a, 256) == Address(false, 0, 0, 0) && GetLba(g, PutLba(g, a, 256)) == WRAP - 1
  {
    var g := Geometry(16, 256);
    assert Area(g) == 4096;
    assert Cyl(g, 255) == 0 && Head(g, 255) == 0 && Sec(g, 255) == 255;
  }
}
