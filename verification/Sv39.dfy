/**
 Page table entries and the Sv39 walk as the interpreter does it, beside the walk of the RISC-V
 Privileged Specification (section 4.3.2). Words are natural numbers below 2^64; a field is taken out by
 dividing and reducing, as the shifts and masks do.
 */
module Sv39 {
  import opened Options
  import opened Bits
  import opened TlbModel

  const P9 := 0x200
  const P10 := 0x400
  const P12 := 0x1000
  const P18 := 0x4_0000
  const P19 := 0x8_0000
  const P20 := 0x10_0000
  const P29 := 0x2000_0000
  const P38 := 0x40_0000_0000
  const P44 := 0x1000_0000_0000
  const P48 := 0x1_0000_0000_0000
  const P54 := 0x40_0000_0000_0000
  const P58 := 0x400_0000_0000_0000
  const P60 := 0x1000_0000_0000_0000
  const P64 := 0x1_0000_0000_0000_0000

  // ---- page table entries ----

  predicate V(raw: nat) { raw % 2 == 1 }
  predicate R(raw: nat) { raw / 2 % 2 == 1 }
  predicate W(raw: nat) { raw / 4 % 2 == 1 }
  predicate X(raw: nat) { raw / 8 % 2 == 1 }
  predicate U(raw: nat) { raw / 16 % 2 == 1 }

  function PermOf(raw: nat): Perm {
    Perm(R(raw), W(raw), X(raw), U(raw))
  }

  /** The page number getter: fields of 29, 9 and 10 bits, put together again. */
  function Ppn(raw: nat): nat {
    raw / P29 % P29 * P19 + raw / P20 % P9 * P10 + raw / P10 % P10
  }

  /** The page number setter. */
  function WithPpn(raw: nat, val: nat): nat {
    var v := val % P44;
    raw % P10 + raw / P58 * P58 + v % P10 * P10 + v / P10 % P9 * P20 + v / P19 % P29 * P29
  }

  class PTE {
    var raw: nat

    constructor (raw: nat)
      ensures this.raw == raw % P64
    {
      this.raw := raw % P64;
    }

    function GetPpn(): nat
      reads this
    {
      Ppn(raw)
    }

    method SetPpn(val: nat)
      modifies this
      ensures raw == WithPpn(old(raw), val)
      ensures GetPpn() == val % P44 && raw % P10 == old(raw) % P10
    {
      SetThenGet(raw, val);
      raw := WithPpn(raw, val);
    }
  }

  /** Reading back a page number gives its low 44 bits; flags and the bits above 57 are kept. */
  lemma SetThenGet(raw: nat, val: nat)
    ensures Ppn(WithPpn(raw, val)) == val % P44
    ensures WithPpn(raw, val) % P10 == raw % P10 && WithPpn(raw, val) / P58 == raw / P58
  {
    hide Ppn;
    var v, w := val % P44, WithPpn(raw, val);
    FieldsOf(v);
    assert w == raw / P58 * P58 + v * P10 + raw % P10;
    PageAt(raw / P58, v, raw % P10, w);
    PpnIsField(w);
  }

  /** A word put together from three parts, taken apart again. */
  lemma PageAt(high: nat, v: nat, low: nat, w: nat)
    requires v < P44 && low < P10 && w == high * P58 + v * P10 + low
    ensures w / P10 % P48 == v && w % P10 == low && w / P58 == high
  {
    assert w == P10 * (high * P48 + v) + low;
    DivModUnique(w, P10, high * P48 + v, low);
    DivModUnique(high * P48 + v, P48, high, v);
    DivModUnique(w, P58, high, v * P10 + low);
  }

  lemma FieldsOf(v: nat)
    requires v < P44
    ensures v % P10 * P10 + v / P10 % P9 * P20 + v / P19 % P29 * P29 == v * P10
  {
    assert v / P19 % P29 == v / P19;
    assert v == v / P19 * P19 + v / P10 % P9 * P10 + v % P10;
  }

  /** The getter spans bits 57 to 10. */
  lemma PpnIsField(raw: nat)
    ensures Ppn(raw) == raw / P10 % P48
  {
    var q := raw / P10;
    var n := q % P48;
    DivDiv(raw, P10, P19);
    DivDiv(raw, P10, P10);
    FieldOf(q, P19, P29);
    FieldOf(q, P10, P9);
    SmallerModulus(q);
    assert P10 * P19 == P29 && P10 * P10 == P20 && P19 * P29 == P48 && P10 * P9 == P19;
    assert Ppn(raw) == q / P19 % P29 * P19 + q / P10 % P9 * P10 + q % P10;
    ThreeFields(n);
  }

  lemma ThreeFields(n: nat)
    ensures n == n / P19 * P19 + n % P19 / P10 * P10 + n % P10
  {
    assert n % P19 % P10 == n % P10 by {
      ModMod(n, P10, P9);
    }
  }

  /** It is the 44-bit field of the standard when bits 57 to 54 are clear. */
  lemma PpnIsFieldIff(raw: nat)
    ensures Ppn(raw) == raw / P10 % P48
    ensures Ppn(raw) == raw / P10 % P44 <==> raw / P54 % 16 == 0
  {
    hide Ppn;
    PpnIsField(raw);
    DivDiv(raw, P10, P44);
    FieldOf(raw / P10, P44, 16);
    SmallerModulus(raw / P10);
  }

  lemma SmallerModulus(q: nat)
    ensures q % P48 % P19 == q % P19 && q % P48 % P10 == q % P10
    ensures q % P48 == q % P48 / P44 * P44 + q % P44
  {
    ModMod(q, P19, P29);
    ModMod(q, P10, 0x40_0000_0000);
    ModMod(q, P44, 16);
    assert P19 * P29 == P48 && P10 * 0x40_0000_0000 == P48 && P44 * 16 == P48;
  }

  // ---- the walk of the interpreter ----

  /** A physical read of eight bytes; `None` when PMP denies the page table page. */
  type Reader = nat -> Option<nat>

  datatype WalkResult =
    | Leaf(ppn: nat, perm: Perm, superpage: bool)
    | NoLeaf
    | Denied

  function Vpn2(va: nat): nat { va / 0x4000_0000 % P9 }
  function Vpn1(va: nat): nat { va / 0x20_0000 % P9 }
  function Vpn0(va: nat): nat { va / P12 % P9 }

  function Level1Next(raw: nat): Option<nat> {
    if V(raw) && !(R(raw) || X(raw)) then Some(Ppn(raw)) else None
  }

  function Level2Leaf(raw: nat, va: nat): Option<(nat, Perm)> {
    if V(raw) && (R(raw) || X(raw)) then Some((Ppn(raw) / P9 * P9 + Vpn0(va), PermOf(raw))) else None
  }

  /**
   The second level hands on its page number without asking whether the entry is valid. This is the walk
   without the native library; with it, an entry that is not valid or not a pointer ends the walk.
   */
  function Level2Next(raw: nat): nat {
    Ppn(raw)
  }

  function Level3Leaf(raw: nat): Option<(nat, Perm)> {
    if V(raw) && (R(raw) || X(raw)) then Some((Ppn(raw), PermOf(raw))) else None
  }

  function Sv39Walk(root: nat, va: nat, read: Reader): WalkResult {
    match read(root * P12 + Vpn2(va) * 8)
    case None => Denied
    case Some(e1) =>
      match Level1Next(e1)
      case None => NoLeaf
      case Some(table) => WalkLevel2(table, va, read)
  }

  function WalkLevel2(table: nat, va: nat, read: Reader): WalkResult {
    match read(table * P12 + Vpn1(va) * 8)
    case None => Denied
    case Some(e2) =>
      match Level2Leaf(e2, va)
      case Some(leaf) => Leaf(leaf.0, leaf.1, true)
      case None => WalkLevel3(Level2Next(e2), va, read)
  }

  function WalkLevel3(table: nat, va: nat, read: Reader): WalkResult {
    match read(table * P12 + Vpn0(va) * 8)
    case None => Denied
    case Some(e3) =>
      match Level3Leaf(e3)
      case None => NoLeaf
      case Some(leaf) => Leaf(leaf.0, leaf.1, false)
  }

  // ---- the walk of the standard ----

  predicate LeafEntry(raw: nat) {
    V(raw) && (R(raw) || X(raw))
  }

  /** Bits A, D and U, which are reserved in an entry that points to a table. */
  predicate PointerReserved(raw: nat) {
    U(raw) || raw / 64 % 2 == 1 || raw / 128 % 2 == 1
  }

  /** An entry at which the walk of the standard stops with a page fault. */
  predicate Rejected(raw: nat) {
    !V(raw) || (!R(raw) && W(raw)) || raw / P54 != 0 || (!LeafEntry(raw) && PointerReserved(raw))
  }

  /** Bits 63 to 39 repeat bit 38, as section 4.4 asks of a 64-bit address. */
  predicate Canonical(va: nat) {
    va % P64 / P38 == 0 || va % P64 / P38 == 0x3FF_FFFF
  }

  /** The canonical addresses are the lowest and the highest 2^38 bytes. */
  lemma CanonicalIsEnds(va: nat)
    requires va < 0x1_0000_0000_0000_0000
    ensures Canonical(va) <==> va < 0x40_0000_0000 || va >= 0xFFFF_FFC0_0000_0000
  {
  }

  function Field(raw: nat): nat { raw / P10 % P44 }

  /** Pages spanned by a leaf at a level: 1, 2^9 or 2^18. */
  function Span(level: nat): nat {
    if level == 0 then 1 else if level == 1 then P9 else P18
  }

  function VpnAt(va: nat, level: nat): nat {
    if level == 0 then Vpn0(va) else if level == 1 then Vpn1(va) else Vpn2(va)
  }

  /** Steps 2 to 6 and 8 of section 4.3.2: walk down from `level`, refusing misaligned superpages. */
  function StandardWalk(level: nat, table: nat, va: nat, read: Reader): WalkResult {
    match read(table * P12 + VpnAt(va, level) * 8)
    case None => Denied
    case Some(e) =>
      if Rejected(e) then NoLeaf
      else if R(e) || X(e) then
        if Field(e) % Span(level) != 0 then NoLeaf
        else Leaf(Field(e) + va / P12 % Span(level), PermOf(e), level > 0)
      else if level == 0 then NoLeaf
      else StandardWalk(level - 1, Field(e), va, read)
  }

  /** The whole translation of the standard: other addresses fault before anything is read. */
  function StandardTranslation(root: nat, va: nat, read: Reader): WalkResult {
    if Canonical(va) then StandardWalk(2, root, va, read) else NoLeaf
  }

  // ---- where the two differ, by the entries that the interpreter reads ----

  function Entry1(root: nat, va: nat, read: Reader): Option<nat> { read(root * P12 + Vpn2(va) * 8) }
  function Entry2(table: nat, va: nat, read: Reader): Option<nat> { read(table * P12 + Vpn1(va) * 8) }
  function Entry3(table: nat, va: nat, read: Reader): Option<nat> { read(table * P12 + Vpn0(va) * 8) }

  /** The third-level entry is there and is no leaf. */
  predicate Empty3(table: nat, va: nat, read: Reader) {
    var e := Entry3(table, va, read);
    e.Some? && !LeafEntry(e.value)
  }

  /** No leaf at the second level, nor where its entry points, valid or not. */
  predicate Empty2(table: nat, va: nat, read: Reader) {
    var e := Entry2(table, va, read);
    e.Some? && !LeafEntry(e.value) && Empty3(Ppn(e.value), va, read)
  }

  /** The first level has no table, or no leaf is found below it. */
  predicate Empty1(root: nat, va: nat, read: Reader) {
    var e := Entry1(root, va, read);
    e.Some? && (V(e.value) && !LeafEntry(e.value) ==> Empty2(Ppn(e.value), va, read))
  }

  /** A leaf at the third level is one the standard accepts. */
  predicate Sound3(table: nat, va: nat, read: Reader) {
    var e := Entry3(table, va, read);
    e.Some? && LeafEntry(e.value) ==> !Rejected(e.value)
  }

  /**
   A leaf at the second level is one the standard accepts, and aligned; a pointer is accepted and leads to
   a sound third level, or is refused and leads to nothing.
   */
  predicate Sound2(table: nat, va: nat, read: Reader) {
    match Entry2(table, va, read)
    case None => true
    case Some(e) =>
      if LeafEntry(e) then !Rejected(e) && Ppn(e) % P9 == 0
      else if Rejected(e) then Empty3(Ppn(e), va, read)
      else Sound3(Ppn(e), va, read)
  }

  /**
   The first level has no 1 GiB page that the standard maps; a pointer is accepted and leads to a sound
   second level, or is refused and leads to nothing.
   */
  predicate Sound1(root: nat, va: nat, read: Reader) {
    match Entry1(root, va, read)
    case None => true
    case Some(e) =>
      if LeafEntry(e) then Rejected(e) || Field(e) % P18 != 0
      else if !V(e) then true
      else if Rejected(e) then Empty2(Ppn(e), va, read)
      else Sound2(Ppn(e), va, read)
  }

  lemma AcceptedField(raw: nat)
    requires !Rejected(raw)
    ensures Ppn(raw) == Field(raw)
  {
    PpnIsFieldIff(raw);
  }

  lemma Walk3MeetsStandardIff(table: nat, va: nat, read: Reader)
    ensures WalkLevel3(table, va, read) == StandardWalk(0, table, va, read) <==> Sound3(table, va, read)
    ensures WalkLevel3(table, va, read) == NoLeaf <==> Empty3(table, va, read)
  {
    hide Ppn, Field, PointerReserved;
    var e := Entry3(table, va, read);
    if e.Some? && !Rejected(e.value) {
      AcceptedField(e.value);
    }
  }

  lemma Walk2MeetsStandardIff(table: nat, va: nat, read: Reader)
    ensures WalkLevel2(table, va, read) == StandardWalk(1, table, va, read) <==> Sound2(table, va, read)
    ensures WalkLevel2(table, va, read) == NoLeaf <==> Empty2(table, va, read)
  {
    var e := Entry2(table, va, read);
    if e.Some? {
      Walk3MeetsStandardIff(Ppn(e.value), va, read);
      if !Rejected(e.value) {
        AcceptedField(e.value);
      }
    }
  }

  /**
   The interpreter's walk gives the result of the standard exactly when the address is canonical and the
   entries are sound, or it is not canonical and the entries lead to no leaf.
   */
  lemma WalkMeetsStandardIff(root: nat, va: nat, read: Reader)
    ensures Sv39Walk(root, va, read) == StandardTranslation(root, va, read)
       <==> if Canonical(va) then Sound1(root, va, read) else Empty1(root, va, read)
  {
    var e := Entry1(root, va, read);
    if e.Some? {
      Walk2MeetsStandardIff(Ppn(e.value), va, read);
      if !Rejected(e.value) {
        AcceptedField(e.value);
      }
    }
  }

  // ---- inputs on which they differ ----

  /** Three tables, each with one entry, at pages 1, 2 and 3. */
  function ThreeTables(e1: nat, e2: nat, e3: nat): Reader {
    a => if a == 0x1000 then Some(e1) else if a == 0x2000 then Some(e2) else if a == 0x3000 then Some(e3) else None
  }

  const READABLE := Perm(true, false, false, false)

  /** The flags of an entry: bits 1, 2, 3 and 4 are R, W, X and U. */
  function Flags(p: Perm): nat {
    (if p.r then 2 else 0) + (if p.w then 4 else 0) + (if p.x then 8 else 0) + (if p.u then 16 else 0)
  }

  /** Every flag is found again in its own bit, whatever the bits above bit 4 are. */
  lemma FlagsDecode(p: Perm, valid: bool, high: nat)
    ensures var raw := 32 * high + Flags(p) + if valid then 1 else 0;
      PermOf(raw) == p && (V(raw) <==> valid)
  {
    var v, r, w, x, u := Bit(valid), Bit(p.r), Bit(p.w), Bit(p.x), Bit(p.u);
    FiveBits(v, r, w, x, u, high);
    assert 32 * high + Flags(p) + v == v + 2 * r + 4 * w + 8 * x + 16 * u + 32 * high;
  }

  function Bit(b: bool): nat {
    if b then 1 else 0
  }

  lemma FiveBits(v: nat, r: nat, w: nat, x: nat, u: nat, high: nat)
    requires v < 2 && r < 2 && w < 2 && x < 2 && u < 2
    ensures var raw := v + 2 * r + 4 * w + 8 * x + 16 * u + 32 * high;
      raw % 2 == v && raw / 2 % 2 == r && raw / 4 % 2 == w && raw / 8 % 2 == x && raw / 16 % 2 == u
  {
    var raw := v + 2 * r + 4 * w + 8 * x + 16 * u + 32 * high;
    LowBit(v, r + 2 * w + 4 * x + 8 * u + 16 * high);
    LowBit(r, w + 2 * x + 4 * u + 8 * high);
    LowBit(w, x + 2 * u + 4 * high);
    LowBit(x, u + 2 * high);
    LowBit(u, high);
    DivDiv(raw, 2, 2);
    DivDiv(raw, 4, 2);
    DivDiv(raw, 8, 2);
  }

  lemma LowBit(b: nat, q: nat)
    requires b < 2
    ensures (b + 2 * q) % 2 == b && (b + 2 * q) / 2 == q
  {
  }

  /** A page whose entry has any flags with R or X is mapped with those, and one with neither is not mapped. */
  lemma TablesMapFlags(va: nat, p: Perm)
    requires Vpn2(va) == 0 && Vpn1(va) == 0 && Vpn0(va) == 0
    ensures Sv39Walk(1, va, ThreeTables(0x801, 0xC01, 0x1401 + Flags(p))) == if p.r || p.x then Leaf(5, p, false) else NoLeaf
  {
    var e, read := 0x1401 + Flags(p), ThreeTables(0x801, 0xC01, 0x1401 + Flags(p));
    FlagsDecode(p, true, 0xA0);
    FifthPage(Flags(p));
    Pointers(va);
    hide Level1Next, Level2Leaf, Level2Next, Flags, V, R, W, X, U, Ppn, Vpn0, Vpn1, Vpn2;
    assert WalkLevel3(3, va, read) == if p.r || p.x then Leaf(5, p, false) else NoLeaf;
    assert WalkLevel2(2, va, read) == WalkLevel3(3, va, read);
  }

  lemma FifthPage(flags: nat)
    requires flags < 0x3FF
    ensures Ppn(0x1401 + flags) == 5
  {
  }

  /** Entries 0x801 and 0xC01 point to tables 2 and 3. */
  lemma Pointers(va: nat)
    ensures Level1Next(0x801) == Some(2) && Level2Leaf(0xC01, va) == None && Level2Next(0xC01) == 3
  {
  }

  /** Entries 0x801, 0xC01 and 0x1403 map page 0 readable to page 5; so far both walks agree. */
  lemma TablesMap(va: nat, e1: nat, e2: nat)
    requires Vpn2(va) == 0 && Vpn1(va) == 0 && Vpn0(va) == 0
    requires e1 == 0x801 || e1 == 0x8D1
    requires e2 == 0xC01 || e2 == 0xC00
    ensures Sv39Walk(1, va, ThreeTables(e1, e2, 0x1403)) == Leaf(5, READABLE, false)
    ensures e1 == 0x801 && e2 == 0xC01 ==> StandardWalk(2, 1, va, ThreeTables(e1, e2, 0x1403)) == Leaf(5, READABLE, false)
    ensures e1 == 0x8D1 || e2 == 0xC00 ==> StandardWalk(2, 1, va, ThreeTables(e1, e2, 0x1403)) == NoLeaf
  {
    var read := ThreeTables(e1, e2, 0x1403);
    PointerEntries(e1, e2, va);
    StandardPointers();
    hide Level1Next, Level2Leaf, Level2Next, Level3Leaf, Rejected, LeafEntry, Field, V, R, W, X, U, Ppn, Vpn0, Vpn1, Vpn2;
    assert WalkLevel3(3, va, read) == Leaf(5, READABLE, false);
    assert WalkLevel2(2, va, read) == Leaf(5, READABLE, false);
    StandardTables(va, e1, e2);
  }

  lemma PointerEntries(e1: nat, e2: nat, va: nat)
    requires e1 == 0x801 || e1 == 0x8D1
    requires e2 == 0xC01 || e2 == 0xC00
    ensures Level1Next(e1) == Some(2) && Level2Leaf(e2, va) == None && Level2Next(e2) == 3
    ensures Level3Leaf(0x1403) == Some((5, READABLE))
  {
  }

  lemma StandardTables(va: nat, e1: nat, e2: nat)
    requires Vpn2(va) == 0 && Vpn1(va) == 0 && Vpn0(va) == 0
    requires e1 == 0x801 || e1 == 0x8D1
    requires e2 == 0xC01 || e2 == 0xC00
    ensures StandardWalk(2, 1, va, ThreeTables(e1, e2, 0x1403)) == if e1 == 0x801 && e2 == 0xC01 then Leaf(5, READABLE, false) else NoLeaf
  {
    var read := ThreeTables(e1, e2, 0x1403);
    StandardPointers();
    StandardEntries();
    hide Rejected, LeafEntry, Field, PermOf, V, R, W, X, U, Vpn0, Vpn1, Vpn2;
    assert StandardWalk(0, 3, va, read) == Leaf(5, READABLE, false);
    assert StandardWalk(1, 2, va, read) == if e2 == 0xC01 then Leaf(5, READABLE, false) else NoLeaf;
  }

  lemma StandardEntries()
    ensures !Rejected(0x1403) && R(0x1403) && Field(0x1403) == 5 && PermOf(0x1403) == READABLE
    ensures Rejected(0xC00) && Rejected(0x8D1)
    ensures !R(0x801) && !X(0x801) && !R(0xC01) && !X(0xC01)
  {
  }

  /** Without the native library the second level follows an entry that is not valid: the page is mapped all the same. */
  lemma FollowsInvalidEntry()
    ensures Sv39Walk(1, 0, ThreeTables(0x801, 0xC00, 0x1403)) == Leaf(5, READABLE, false)
    ensures StandardTranslation(1, 0, ThreeTables(0x801, 0xC00, 0x1403)) == NoLeaf
  {
    TablesMap(0, 0x801, 0xC00);
  }

  /** A pointer with bits A, D and U set is followed. */
  lemma FollowsReservedPointer()
    ensures Sv39Walk(1, 0, ThreeTables(0x8D1, 0xC01, 0x1403)) == Leaf(5, READABLE, false)
    ensures StandardTranslation(1, 0, ThreeTables(0x8D1, 0xC01, 0x1403)) == NoLeaf
  {
    TablesMap(0, 0x8D1, 0xC01);
  }

  /**
   The standard on the same tables: any flags with R or X map the page, but for "writable, not readable"; and a
   first-level pointer with U, A or D set maps nothing.
   */
  lemma StandardMapsFlags(p: Perm)
    ensures StandardTranslation(1, 0, ThreeTables(0x801, 0xC01, 0x1401 + Flags(p)))
         == if (p.r || p.x) && (p.w ==> p.r) then Leaf(5, p, false) else NoLeaf
    ensures forall e1 | e1 in {0x811, 0x841, 0x881} :: StandardTranslation(1, 0, ThreeTables(e1, 0xC01, 0x1403)) == NoLeaf
  {
    var e, read := 0x1401 + Flags(p), ThreeTables(0x801, 0xC01, 0x1401 + Flags(p));
    FlagsDecode(p, true, 0xA0);
    SmallLeaf(Flags(p));
    StandardPointers();
    hide Flags, Field, V, R, W, X, U, PointerReserved;
    assert StandardWalk(0, 3, 0, read) == if (p.r || p.x) && (p.w ==> p.r) then Leaf(5, p, false) else NoLeaf;
    hide Rejected;
    assert StandardWalk(1, 2, 0, read) == StandardWalk(0, 3, 0, read);
    assert StandardWalk(2, 1, 0, read) == StandardWalk(1, 2, 0, read);
  }

  lemma SmallLeaf(flags: nat)
    requires flags < 0x3FF
    ensures Field(0x1401 + flags) == 5 && (0x1401 + flags) / P54 == 0
  {
  }

  lemma StandardPointers()
    ensures !Rejected(0x801) && Field(0x801) == 2 && !LeafEntry(0x801)
    ensures !Rejected(0xC01) && Field(0xC01) == 3 && !LeafEntry(0xC01)
    ensures Rejected(0x811) && Rejected(0x841) && Rejected(0x881)
  {
  }

  /** An address whose upper bits do not repeat bit 38 is mapped like the address without them. */
  lemma MapsNonCanonical()
    ensures Sv39Walk(1, 0x80_0000_0000, ThreeTables(0x801, 0xC01, 0x1403)) == Leaf(5, READABLE, false)
    ensures StandardTranslation(1, 0x80_0000_0000, ThreeTables(0x801, 0xC01, 0x1403)) == NoLeaf
  {
    TablesMap(0x80_0000_0000, 0x801, 0xC01);
  }

  /** The walk looks at the page of an address only. */
  lemma SamePage(root: nat, va: nat, va': nat, read: Reader)
    requires va / P12 == va' / P12
    ensures Sv39Walk(root, va, read) == Sv39Walk(root, va', read)
  {
    hide Vpn0, Vpn1, Vpn2, Ppn, PermOf, V, R, X;
    PageParts(va);
    PageParts(va');
  }

  lemma PageParts(va: nat)
    ensures Vpn0(va) == va / P12 % P9 && Vpn1(va) == va / P12 / P9 % P9 && Vpn2(va) == va / P12 / P18 % P9
  {
    DivDiv(va, P12, P9);
    DivDiv(va, P12, P18);
  }

  /** A 2 MiB leaf maps all its pages into one frame, with one permission. */
  lemma SuperpageIsUniform(root: nat, v: nat, v': nat, read: Reader)
    requires v / P9 == v' / P9
    requires Sv39Walk(root, v * P12, read).Leaf? && Sv39Walk(root, v * P12, read).superpage
    ensures var w, w' := Sv39Walk(root, v * P12, read), Sv39Walk(root, v' * P12, read);
      w'.Leaf? && w'.superpage && w'.ppn / P9 == w.ppn / P9 && w'.perm == w.perm
  {
    hide Vpn0, Vpn1, Vpn2, Ppn, PermOf, V, R, X;
    SuperpageParts(v);
    SuperpageParts(v');
    var e := Entry1(root, v * P12, read).value;
    var e2 := Entry2(Ppn(e), v * P12, read).value;
    FrameOf(Ppn(e2), Vpn0(v * P12));
    FrameOf(Ppn(e2), Vpn0(v' * P12));
  }

  lemma SuperpageParts(v: nat)
    ensures Vpn1(v * P12) == v / P9 % P9 && Vpn2(v * P12) == v / P9 / P9 % P9 && Vpn0(v * P12) < P9
  {
    PageParts(v * P12);
    assert v * P12 / P12 == v;
    DivDiv(v, P9, P9);
  }

  lemma FrameOf(ppn: nat, low: nat)
    requires low < P9
    ensures (ppn / P9 * P9 + low) / P9 == ppn / P9
  {
  }

  /** A page number fits in 48 bits, so the address formed with it fits in 60. */
  lemma PpnBound(root: nat, va: nat, read: Reader)
    ensures Sv39Walk(root, va, read).Leaf? ==> Sv39Walk(root, va, read).ppn < P48
  {
    var e1 := read(root * P12 + Vpn2(va) * 8);
    if e1.Some? && Level1Next(e1.value).Some? {
      var e2 := read(Ppn(e1.value) * P12 + Vpn1(va) * 8);
      if e2.Some? {
        PpnIsFieldIff(e2.value);
        SuperpageBound(Ppn(e2.value), Vpn0(va));
        var e3 := read(Ppn(e2.value) * P12 + Vpn0(va) * 8);
        if e3.Some? {
          PpnIsFieldIff(e3.value);
        }
      }
    }
  }

  lemma SuperpageBound(ppn: nat, low: nat)
    requires ppn < P48 && low < P9
    ensures ppn / P9 * P9 + low < P48
  {
  }
}
