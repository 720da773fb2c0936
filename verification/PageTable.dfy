/**
 Four-level page tables as words in physical memory, and the forest they form.

 `mem` maps the frame of every table page to its 512 words.  Three maps of
 bookkeeping say what each table is for: a table's tag is the address space it
 serves, its level and the page-number prefix it covers; `owner` names, for
 every root and top-level slot, the root whose space the slot belongs to, so
 that slots copied from the kernel root share the kernel's space.
 */
module PageTable {
  import opened Bits

  const ENTRIES: nat := 512
  const TWO36: nat := 0x10_0000_0000
  const TWO51: nat := 0x8_0000_0000_0000
  const TWO63: nat := 0x8000_0000_0000_0000

  /* ---- words and addresses ---- */

  /** `w & PG_PRESENT`. */
  predicate Present(w: nat) {
    w % 2 == 1
  }

  /** `w & PG_PS`, bit 6. */
  predicate Ps(w: nat) {
    w / 64 % 2 == 1
  }

  /** `(w & 0x7ffffffffffff000) >> 12`. */
  function FrameOf(w: nat): nat {
    w / 4096 % TWO51
  }

  /** The word installed for an intermediate table. */
  function TableWord(frame: nat): nat {
    frame * 4096 + 3
  }

  datatype Flags = Flags(write: bool, user: bool, ps: bool, nx: bool)

  /** `phys | flags | PG_PRESENT` for the page-aligned `phys` of `frame`. */
  function LeafWord(frame: nat, f: Flags): nat {
    frame * 4096 + 1 + (if f.write then 2 else 0) + (if f.user then 4 else 0)
      + (if f.ps then 64 else 0) + (if f.nx then TWO63 else 0)
  }

  lemma WordFacts(frame: nat, f: Flags)
    requires frame < TWO51
    ensures Present(TableWord(frame)) && !Ps(TableWord(frame)) && FrameOf(TableWord(frame)) == frame
    ensures Present(LeafWord(frame, f)) && FrameOf(LeafWord(frame, f)) == frame
  {
    var low := LeafWord(frame, f) - frame * 4096 - if f.nx then TWO63 else 0;
    assert 0 <= low < 4096;
    assert LeafWord(frame, f) / 4096 == frame + if f.nx then TWO51 else 0;
  }

  const PG_PRESENT: nat := 1
  const PG_WRITE: nat := 2
  const PG_USER: nat := 4
  const PG_PS: nat := 64
  const PG_NX: nat := TWO63

  /** `w & mask` for a mask of one bit. */
  predicate Has(w: nat, mask: nat)
    requires mask > 0
  {
    w / mask % 2 == 1
  }

  /** Outside the frame only the flags of `f` and the present bit are set. */
  predicate CarriesFlags(w: nat, f: Flags) {
    && Has(w, PG_PRESENT)
    && (Has(w, PG_WRITE) <==> f.write) && (Has(w, PG_USER) <==> f.user)
    && (Has(w, PG_PS) <==> f.ps) && (Has(w, PG_NX) <==> f.nx)
    && !Has(w, 8) && !Has(w, 16) && !Has(w, 32)
    && !Has(w, 128) && !Has(w, 256) && !Has(w, 512) && !Has(w, 1024) && !Has(w, 2048)
  }

  /** Below bit 12 a word whose frame starts at bit 12 is its low part. */
  lemma HasLow(page: nat, low: nat, mask: nat, half: nat)
    requires mask > 0 && mask * half == 2048
    ensures Has(page * 4096 + low, mask) <==> Has(low, mask)
  {
    var q, r := low / mask, low % mask;
    var k := 2 * (page * half) + q;
    assert page * 4096 + low == mask * k + r by {
      assert page * 4096 == page * (2 * (mask * half)) == mask * (2 * (page * half));
    }
    QuotientOf(mask, k, r);
  }

  lemma QuotientOf(m: nat, k: nat, r: nat)
    requires r < m
    ensures (m * k + r) / m == k
  {
    var q := (m * k + r) / m;
    assert m * q <= m * k + r < m * (q + 1);
    assert q + 1 <= k ==> m * (q + 1) <= m * k;
    assert k + 1 <= q ==> m * (k + 1) <= m * q;
  }

  /** The low part of a word: the present bit and three flags. */
  function LowPart(f: Flags): (r: nat)
    ensures r < 128
  {
    1 + (if f.write then 2 else 0) + (if f.user then 4 else 0) + if f.ps then 64 else 0
  }

  lemma LowFlags(f: Flags)
    ensures var r := LowPart(f);
      && Has(r, 1) && (Has(r, 2) <==> f.write) && (Has(r, 4) <==> f.user) && (Has(r, 64) <==> f.ps)
      && !Has(r, 8) && !Has(r, 16) && !Has(r, 32)
  {
  }

  lemma CarriesLow(page: nat, f: Flags)
    requires Has(page * 4096 + LowPart(f), PG_NX) <==> f.nx
    ensures CarriesFlags(page * 4096 + LowPart(f), f)
  {
    hide Has, LowPart;
    var r := LowPart(f);
    LowFlags(f);
    HasLow(page, r, 1, 2048);
    HasLow(page, r, 2, 1024);
    HasLow(page, r, 4, 512);
    HasLow(page, r, 8, 256);
    HasLow(page, r, 16, 128);
    HasLow(page, r, 32, 64);
    HasLow(page, r, 64, 32);
    HasLow(page, r, 128, 16);
    HasLow(page, r, 256, 8);
    HasLow(page, r, 512, 4);
    HasLow(page, r, 1024, 2);
    HasLow(page, r, 2048, 1);
    HighClear(r);
  }

  lemma HighClear(r: nat)
    requires r < 128
    ensures !Has(r, 128) && !Has(r, 256) && !Has(r, 512) && !Has(r, 1024) && !Has(r, 2048)
  {
  }

  /** The words `map_page` stores: the frame, the present bit and exactly the flags asked for; tables are writable. */
  lemma WordBits(frame: nat, f: Flags)
    requires frame < TWO51
    ensures CarriesFlags(LeafWord(frame, f), f) && FrameOf(LeafWord(frame, f)) == frame
    ensures CarriesFlags(TableWord(frame), Flags(true, false, false, false)) && FrameOf(TableWord(frame)) == frame
  {
    hide CarriesFlags, FrameOf, Has;
    WordFacts(frame, f);
    var page := frame + if f.nx then TWO51 else 0;
    assert LeafWord(frame, f) == page * 4096 + LowPart(f);
    TopBit(frame, LowPart(f), f.nx);
    CarriesLow(page, f);
    var table := Flags(true, false, false, false);
    assert TableWord(frame) == frame * 4096 + LowPart(table);
    TopBit(frame, LowPart(table), false);
    CarriesLow(frame, table);
  }

  lemma TopBit(frame: nat, low: nat, nx: bool)
    requires frame < TWO51 && low < 4096
    ensures Has((frame + if nx then TWO51 else 0) * 4096 + low, PG_NX) <==> nx
  {
    assert frame * 4096 + low < TWO63;
  }

  /** `get_index(level, virt)`. */
  function GetIndex(level: nat, virt: nat): nat {
    Shr(virt, 12 + 9 * level) % ENTRIES
  }

  /** The 36-bit virtual page number. */
  function Vpn(virt: nat): nat {
    virt / 4096 % TWO36
  }

  function Prefix(level: nat, v: nat): nat {
    if level == 0 then v / 512 else Prefix(level - 1, v / 512)
  }

  function Index(level: nat, v: nat): nat {
    if level == 0 then v % 512 else Index(level - 1, v / 512)
  }

  lemma PrefixStep(level: nat, v: nat)
    requires level <= 2
    ensures Prefix(level, v) == Prefix(level + 1, v) * 512 + Index(level + 1, v)
    ensures Index(level, v) < 512 && Index(level + 1, v) < 512
  {
    if level > 0 {
      PrefixStep(level - 1, v / 512);
    }
  }

  lemma Digits(v: nat)
    ensures Index(0, v) == v % 512 && Index(1, v) == v / 512 % 512
    ensures Index(2, v) == v / 512 / 512 % 512 && Index(3, v) == v / 512 / 512 / 512 % 512
  {
    var a := v / 512;
    var b := a / 512;
    assert Index(1, v) == Index(0, a) && Index(1, a) == Index(0, b) && Index(1, b) == Index(0, b / 512);
    assert Index(2, v) == Index(1, a) && Index(3, v) == Index(2, a) && Index(2, a) == Index(1, b);
  }

  lemma Shr9(p: nat)
    ensures Shr(p, 9) == p / 512
  {
    ShrAdd(p, 8, 1);
    Shr8(p);
    assert Shr(p / 256, 1) == Shr(p / 512, 0);
  }

  lemma {:induction false} ShrNines(p: nat, level: nat)
    ensures Shr(p, 9 * level) % 512 == Index(level, p)
  {
    if level == 0 {
    } else {
      ShrAdd(p, 9, 9 * (level - 1));
      Shr9(p);
      ShrNines(p / 512, level - 1);
    }
  }

  /** The index the source computes from the address is a digit of the page number. */
  lemma GetIndexIsDigit(level: nat, virt: nat)
    requires level <= 3
    ensures GetIndex(level, virt) == Index(level, Vpn(virt))
  {
    ShrAdd(virt, 12, 9 * level);
    ShrAdd(virt, 8, 4);
    Shr8(virt);
    Shr4(virt / 256);
    ShrNines(virt / 4096, level);
    DigitModulo(virt / 4096, level);
  }

  lemma ModDiv36(x: nat)
    ensures x % TWO36 % 512 == x % 512 && x % TWO36 / 512 == x / 512 % 134217728
  {
    var q, v := x / TWO36, x % TWO36;
    assert x == 512 * (q * 134217728) + v;
    assert x / 512 == q * 134217728 + v / 512;
  }

  lemma ModDiv27(x: nat)
    ensures x % 134217728 % 512 == x % 512 && x % 134217728 / 512 == x / 512 % 262144
  {
    var q, v := x / 134217728, x % 134217728;
    assert x == 512 * (q * 262144) + v;
    assert x / 512 == q * 262144 + v / 512;
  }

  lemma ModDiv18(x: nat)
    ensures x % 262144 % 512 == x % 512 && x % 262144 / 512 == x / 512 % 512
  {
    var q, v := x / 262144, x % 262144;
    assert x == 512 * (q * 512) + v;
    assert x / 512 == q * 512 + v / 512;
  }

  /** Reducing the page number to 36 bits keeps its four digits. */
  lemma DigitModulo(x: nat, level: nat)
    requires level <= 3
    ensures Index(level, x % TWO36) == Index(level, x)
  {
    ModDiv36(x);
    ModDiv27(x / 512);
    ModDiv18(x / 512 / 512);
    Digits(x);
    Digits(x % TWO36);
  }

  lemma DigitsOf(v: nat)
    requires v < TWO36
    ensures v == ((Index(3, v) * 512 + Index(2, v)) * 512 + Index(1, v)) * 512 + Index(0, v)
  {
    Digits(v);
    var a := v / 512;
    var b := a / 512;
    var c := b / 512;
    assert v == a * 512 + v % 512 && a == b * 512 + a % 512 && b == c * 512 + b % 512 && c < 512;
  }

  /** The four indices determine the page number, and the other way round. */
  lemma IndicesDeterminePage(a: nat, b: nat)
    ensures (forall level :: 0 <= level <= 3 ==> GetIndex(level, a) == GetIndex(level, b)) <==> Vpn(a) == Vpn(b)
  {
    forall level: nat | level <= 3 ensures GetIndex(level, a) == Index(level, Vpn(a)) && GetIndex(level, b) == Index(level, Vpn(b)) {
      GetIndexIsDigit(level, a);
      GetIndexIsDigit(level, b);
    }
    DigitsOf(Vpn(a));
    DigitsOf(Vpn(b));
    if forall level :: 0 <= level <= 3 ==> GetIndex(level, a) == GetIndex(level, b) {
      assert GetIndex(0, a) == GetIndex(0, b) && GetIndex(1, a) == GetIndex(1, b);
      assert GetIndex(2, a) == GetIndex(2, b) && GetIndex(3, a) == GetIndex(3, b);
    }
  }
}
