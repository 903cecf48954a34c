/** The ACPI table of interrupt controllers (section 5.2.12 of the ACPI specification): how its
    entries are laid out in bytes, and the walk that reads them back. */
module Madt {
  import opened Bytes
  import opened Memory
  import opened Positions

  const START: nat := 0x2C
  const MAX_NMI: nat := 10

  // ---------------------------------------------------------------- entries

  datatype Lapic = Lapic(processor: Byte, id: Byte, flags: nat)
  datatype IoApic = IoApic(id: nat, address: nat, base: nat)
  datatype Override = Override(bus: Byte, irq: Byte, interrupt: nat, flags: nat)
  datatype Nmi = Nmi(processor: Byte, flags: nat, lint: Byte)

  datatype Body =
    | LocalApic(lapic: Lapic)
    | InputOutput(id: Byte, reserved: Byte, place: nat, base: nat)
    | SourceOverride(source: Override)
    | NonMaskable(nmi: Nmi)
    | AddressOverride(address: nat, filler: nat)
    | Other(kind: Byte, payload: seq<Byte>)

  /** An entry; `tail` is what it has beyond the fields known to the walk. */
  datatype Entry = Entry(body: Body, tail: seq<Byte>)

  function Kind(b: Body): Byte {
    match b
    case LocalApic(_) => 0
    case InputOutput(_, _, _, _) => 1
    case SourceOverride(_) => 2
    case NonMaskable(_) => 4
    case AddressOverride(_, _) => 5
    case Other(kind, _) => kind
  }

  function Payload(b: Body): seq<Byte> {
    match b
    case LocalApic(a) => [a.processor, a.id] + Little(a.flags, 4)
    case InputOutput(id, reserved, place, base) => [id, reserved] + Little(place, 4) + Little(base, 4)
    case SourceOverride(o) => [o.bus, o.irq] + Little(o.interrupt, 4) + Little(o.flags, 2)
    case NonMaskable(n) => [n.processor] + Little(n.flags, 2) + [n.lint]
    case AddressOverride(a, filler) => Little(filler, 2) + Little(a, 8)
    case Other(_, payload) => payload
  }

  function Size(e: Entry): nat {
    2 + |Payload(e.body)| + |e.tail|
  }

  /** Fields fit their widths and the length fits the positive range of a signed byte. */
  predicate EntryOk(e: Entry) {
    && Size(e) < 128
    && match e.body
       case LocalApic(a) => a.flags < Pow256(4)
       case InputOutput(_, _, place, base) => place < Pow256(4) && base < Pow256(4)
       case SourceOverride(o) => o.interrupt < Pow256(4) && o.flags < Pow256(2)
       case NonMaskable(n) => n.flags < Pow256(2)
       case AddressOverride(a, filler) => a < Pow256(8) && filler < Pow256(2)
       case Other(kind, _) => kind !in [0, 1, 2, 4, 5]
  }

  function EntryBytes(e: Entry): (r: seq<Byte>)
    requires EntryOk(e)
    ensures |r| == Size(e)
  {
    [Kind(e.body), Size(e)] + Payload(e.body) + e.tail
  }

  predicate EntriesOk(es: seq<Entry>) {
    forall k | 0 <= k < |es| :: EntryOk(es[k])
  }

  function AllBytes(es: seq<Entry>): seq<Byte>
    requires EntriesOk(es)
  {
    if es == [] then [] else AllBytes(es[..|es| - 1]) + EntryBytes(es[|es| - 1])
  }

  /** The whole table: a header whose bytes 4..8 are the length, the address of the local
      controller at 36, the entries from 44 on. */
  predicate IsTable(table: seq<Byte>, address: nat, es: seq<Entry>) {
    && EntriesOk(es) && address < Pow256(4)
    && |table| >= START && |table| < Pow256(4)
    && table[4..8] == Little(|table|, 4)
    && table[36..40] == Little(address, 4)
    && table[START..] == AllBytes(es)
  }

  // ---------------------------------------------------------------- what is collected

  function Lapics(es: seq<Entry>): seq<Lapic> {
    if es == [] then []
    else Lapics(es[..|es| - 1]) + match es[|es| - 1].body
      case LocalApic(a) => if a.flags % 2 == 1 then [a] else []
      case _ => []
  }

  function Overrides(es: seq<Entry>): seq<Override> {
    if es == [] then []
    else Overrides(es[..|es| - 1]) + match es[|es| - 1].body
      case SourceOverride(o) => [o]
      case _ => []
  }

  function Nmis(es: seq<Entry>): seq<Nmi> {
    if es == [] then []
    else Nmis(es[..|es| - 1]) + match es[|es| - 1].body
      case NonMaskable(n) => [n]
      case _ => []
  }

  /** The last controller of the list, or the one given.  The walk takes as its id the byte before
      the id, which is the length of the entry. */
  function LastIoApic(es: seq<Entry>, none: IoApic): IoApic {
    if es == [] then none
    else match es[|es| - 1].body
      case InputOutput(_, _, place, base) => IoApic(Size(es[|es| - 1]), place, base)
      case _ => LastIoApic(es[..|es| - 1], none)
  }

  function LastAddress(es: seq<Entry>, none: nat): nat {
    if es == [] then none
    else match es[|es| - 1].body
      case AddressOverride(a, _) => a
      case _ => LastAddress(es[..|es| - 1], none)
  }

  predicate FitsTables(es: seq<Entry>) {
    |Lapics(es)| <= MAX_CORE && |Overrides(es)| <= MAX_CORE && |Nmis(es)| <= MAX_NMI
  }

  // ---------------------------------------------------------------- what the collected lists are

  /** The collected local controllers are those of the entries with bit 0 of their flags set, each once
      and in the order of the table. */
  lemma {:induction false} LapicsCollected(es: seq<Entry>) returns (at: seq<nat>)
    ensures Ascending(at, |es|) && |at| == |Lapics(es)|
    ensures forall i | 0 <= i < |at| :: es[at[i]].body == LocalApic(Lapics(es)[i])
    ensures forall k: nat | k < |es| :: k in at <==> es[k].body.LocalApic? && es[k].body.lapic.flags % 2 == 1
  {
    at := [];
    if es != [] {
      var n := |es| - 1;
      var shorter, last := es[..n], es[n].body;
      var before := LapicsCollected(shorter);
      hide Lapics, Ascending, Extended;
      at := Extended(before, n, last.LocalApic? && last.lapic.flags % 2 == 1);
      ExtendedHas(before, n, last.LocalApic? && last.lapic.flags % 2 == 1);
      LapicsMore(es);
      forall i | 0 <= i < |at| ensures at[i] <= n && es[at[i]].body == LocalApic(Lapics(es)[i]) {
        Below(at, n + 1, i);
        if i < |before| {
          Below(before, n, i);
          assert shorter[before[i]] == es[at[i]];
        }
      }
      forall k: nat | k < |es| ensures k in at <==> es[k].body.LocalApic? && es[k].body.lapic.flags % 2 == 1 {
        assert k < n ==> shorter[k] == es[k];
      }
    }
  }

  lemma LapicsMore(es: seq<Entry>)
    requires es != []
    ensures var last := es[|es| - 1].body;
      Lapics(es) == Lapics(es[..|es| - 1]) + if last.LocalApic? && last.lapic.flags % 2 == 1 then [last.lapic] else []
  {}

  /** The collected overrides are those of the table, each once and in order. */
  lemma {:induction false} OverridesCollected(es: seq<Entry>) returns (at: seq<nat>)
    ensures Ascending(at, |es|) && |at| == |Overrides(es)|
    ensures forall i | 0 <= i < |at| :: es[at[i]].body == SourceOverride(Overrides(es)[i])
    ensures forall k: nat | k < |es| :: k in at <==> es[k].body.SourceOverride?
  {
    at := [];
    if es != [] {
      var n := |es| - 1;
      var shorter, last := es[..n], es[n].body;
      var before := OverridesCollected(shorter);
      hide Overrides, Ascending, Extended;
      at := Extended(before, n, last.SourceOverride?);
      ExtendedHas(before, n, last.SourceOverride?);
      OverridesMore(es);
      forall i | 0 <= i < |at| ensures at[i] <= n && es[at[i]].body == SourceOverride(Overrides(es)[i]) {
        Below(at, n + 1, i);
        if i < |before| {
          Below(before, n, i);
          assert shorter[before[i]] == es[at[i]];
        }
      }
      forall k: nat | k < |es| ensures k in at <==> es[k].body.SourceOverride? {
        assert k < n ==> shorter[k] == es[k];
      }
    }
  }

  lemma OverridesMore(es: seq<Entry>)
    requires es != []
    ensures var last := es[|es| - 1].body;
      Overrides(es) == Overrides(es[..|es| - 1]) + if last.SourceOverride? then [last.source] else []
  {}

  /** The collected non-maskable interrupts are those of the table, each once and in order. */
  lemma {:induction false} NmisCollected(es: seq<Entry>) returns (at: seq<nat>)
    ensures Ascending(at, |es|) && |at| == |Nmis(es)|
    ensures forall i | 0 <= i < |at| :: es[at[i]].body == NonMaskable(Nmis(es)[i])
    ensures forall k: nat | k < |es| :: k in at <==> es[k].body.NonMaskable?
  {
    at := [];
    if es != [] {
      var n := |es| - 1;
      var shorter, last := es[..n], es[n].body;
      var before := NmisCollected(shorter);
      hide Nmis, Ascending, Extended;
      at := Extended(before, n, last.NonMaskable?);
      ExtendedHas(before, n, last.NonMaskable?);
      NmisMore(es);
      forall i | 0 <= i < |at| ensures at[i] <= n && es[at[i]].body == NonMaskable(Nmis(es)[i]) {
        Below(at, n + 1, i);
        if i < |before| {
          Below(before, n, i);
          assert shorter[before[i]] == es[at[i]];
        }
      }
      forall k: nat | k < |es| ensures k in at <==> es[k].body.NonMaskable? {
        assert k < n ==> shorter[k] == es[k];
      }
    }
  }

  lemma NmisMore(es: seq<Entry>)
    requires es != []
    ensures var last := es[|es| - 1].body;
      Nmis(es) == Nmis(es[..|es| - 1]) + if last.NonMaskable? then [last.nmi] else []
  {}

  /** The address is that of the last override in the table, and the header's if there is none. */
  lemma {:induction false} AddressCollected(es: seq<Entry>, none: nat)
    ensures forall k | 0 <= k < |es| && es[k].body.AddressOverride?
        && (forall i | k < i < |es| :: !es[i].body.AddressOverride?) :: LastAddress(es, none) == es[k].body.address
    ensures (forall i | 0 <= i < |es| :: !es[i].body.AddressOverride?) ==> LastAddress(es, none) == none
  {
    if es != [] && !es[|es| - 1].body.AddressOverride? {
      AddressCollected(es[..|es| - 1], none);
    }
  }

  /** Without an I/O controller the one known before stays. */
  lemma {:induction false} NoIoApic(es: seq<Entry>, none: IoApic)
    requires forall i | 0 <= i < |es| :: !es[i].body.InputOutput?
    ensures LastIoApic(es, none) == none
  {
    if es != [] {
      NoIoApic(es[..|es| - 1], none);
    }
  }

  // ---------------------------------------------------------------- finding an entry

  lemma PrefixSlice(a: seq<Byte>, b: seq<Byte>, p: nat, q: nat)
    requires p <= q <= |a|
    ensures (a + b)[p..q] == a[p..q]
  {}

  lemma {:induction false} Position(es: seq<Entry>, k: nat)
    requires EntriesOk(es) && k < |es|
    ensures var p := |AllBytes(es[..k])|;
      && p + Size(es[k]) == |AllBytes(es[..k + 1])| <= |AllBytes(es)|
      && AllBytes(es)[p..p + Size(es[k])] == EntryBytes(es[k])
  {
    hide Size, EntryBytes, Payload;
    var shorter, last := es[..|es| - 1], es[|es| - 1];
    assert EntryOk(last) && EntryOk(es[k]);
    assert AllBytes(es) == AllBytes(shorter) + EntryBytes(last);
    hide EntryOk, AllBytes, Size, EntryBytes;
    if k < |es| - 1 {
      Position(shorter, k);
      assert shorter[..k] == es[..k] && shorter[..k + 1] == es[..k + 1];
      PrefixSlice(AllBytes(shorter), EntryBytes(last), |AllBytes(es[..k])|, |AllBytes(es[..k])| + Size(es[k]));
    } else {
      assert es[..k + 1] == es;
    }
  }

  lemma {:induction false} RoomFor(es: seq<Entry>, k: nat)
    requires FitsTables(es) && k <= |es|
    ensures FitsTables(es[..k])
  {
    if k < |es| {
      RoomFor(es[..|es| - 1], k);
      assert es[..|es| - 1][..k] == es[..k];
    } else {
      assert es[..k] == es;
    }
  }

  /** An entry's bytes lie in the table at p. */
  predicate EntryAt(table: seq<Byte>, p: nat, e: Entry) {
    EntryOk(e) && p + Size(e) <= |table| && table[p..p + Size(e)] == EntryBytes(e)
  }

  lemma ReadHead(table: seq<Byte>, p: nat, e: Entry)
    requires EntryAt(table, p, e)
    ensures table[p] == Kind(e.body) && table[p + 1] == Size(e)
  {
    var b := table[p..p + Size(e)];
    assert table[p] == b[0] && table[p + 1] == b[1];
  }

  lemma Inner(table: seq<Byte>, p: nat, kind: Byte, middle: seq<Byte>, t: seq<Byte>, at: nat, n: nat)
    requires at + n <= |middle| && p + 2 + |middle| + |t| <= |table| && 2 + |middle| + |t| < 128
    requires table[p..p + 2 + |middle| + |t|] == [kind, 2 + |middle| + |t|] + middle + t
    ensures table[p + 2 + at..p + 2 + at + n] == middle[at..at + n]
  {
    var b := table[p..p + 2 + |middle| + |t|];
    assert b[2..2 + |middle|] == middle;
    Slice(table, p, p + 2 + |middle| + |t|, 2, 2 + |middle|);
    Slice(table, p + 2, p + 2 + |middle|, at, at + n);
    assert table[p + 2..p + 2 + |middle|] == middle;
    assert table[p + 2 + at..p + 2 + at + n] == table[p + 2..p + 2 + |middle|][at..at + n];
  }

  lemma ReadField(table: seq<Byte>, p: nat, e: Entry, at: nat, v: nat, n: nat)
    requires EntryAt(table, p, e) && v < Pow256(n)
    requires at + n <= |Payload(e.body)| && Payload(e.body)[at..at + n] == Little(v, n)
    ensures Number(table[p + 2 + at..p + 2 + at + n]) == v
  {
    Inner(table, p, Kind(e.body), Payload(e.body), e.tail, at, n);
    NumberLittle(v, n);
  }

  lemma ReadByte(table: seq<Byte>, p: nat, e: Entry, at: nat)
    requires EntryAt(table, p, e) && at < |Payload(e.body)|
    ensures table[p + 2 + at] == Payload(e.body)[at]
  {
    var b := table[p..p + Size(e)];
    assert table[p + 2 + at] == b[2 + at];
  }

  // The records of the table as the walk reads them.

  function LapicAt(table: seq<Byte>, p: nat): Lapic
    requires p + 8 <= |table|
  {
    Lapic(table[p + 2], table[p + 3], Number(table[p + 4..p + 8]))
  }

  function IoApicAt(table: seq<Byte>, p: nat): IoApic
    requires p + 12 <= |table|
  {
    IoApic(table[p + 1], Number(table[p + 4..p + 8]), Number(table[p + 8..p + 12]))
  }

  function OverrideAt(table: seq<Byte>, p: nat): Override
    requires p + 10 <= |table|
  {
    Override(table[p + 2], table[p + 3], Number(table[p + 4..p + 8]), Number(table[p + 8..p + 10]))
  }

  function NmiAt(table: seq<Byte>, p: nat): Nmi
    requires p + 6 <= |table|
  {
    Nmi(table[p + 2], Number(table[p + 3..p + 5]), table[p + 5])
  }

  // ---------------------------------------------------------------- the walk

  class ApicInfo {
    const lapics: array<Lapic>
    const overrides: array<Override>
    const nmis: array<Nmi>
    var cores: nat
    var overrideCount: nat
    var nmiCount: nat
    var ioapic: IoApic
    var address: nat

    ghost predicate Valid()
      reads this
    {
      && lapics.Length == MAX_CORE && overrides.Length == MAX_CORE && nmis.Length == MAX_NMI
      && cores <= MAX_CORE && overrideCount <= MAX_CORE && nmiCount <= MAX_NMI
    }

    /** What has been collected is what a list of entries holds. */
    ghost predicate Holds(es: seq<Entry>, ioapic0: IoApic, address0: nat)
      requires Valid()
      reads this, lapics, overrides, nmis
    {
      && lapics[..cores] == Lapics(es) && overrides[..overrideCount] == Overrides(es)
      && nmis[..nmiCount] == Nmis(es)
      && ioapic == LastIoApic(es, ioapic0) && address == LastAddress(es, address0)
    }

    constructor ()
      ensures Valid() && fresh(lapics) && fresh(overrides) && fresh(nmis)
      ensures cores == 0 && overrideCount == 0 && nmiCount == 0
    {
      lapics := new Lapic[MAX_CORE](_ => Lapic(0, 0, 0));
      overrides := new Override[MAX_CORE](_ => Override(0, 0, 0, 0));
      nmis := new Nmi[MAX_NMI](_ => Nmi(0, 0, 0));
      cores, overrideCount, nmiCount, ioapic, address := 0, 0, 0, IoApic(0, 0, 0), 0;
    }

    /** One turn of the loop: the entry at p is the last of `es`. */
    method Visit(table: seq<Byte>, p: nat, ghost es: seq<Entry>, ghost ioapic0: IoApic, ghost address0: nat)
      requires Valid() && es != [] && EntryAt(table, p, es[|es| - 1]) && FitsTables(es)
      requires Holds(es[..|es| - 1], ioapic0, address0)
      modifies this, lapics, overrides, nmis
      ensures Valid() && Holds(es, ioapic0, address0)
    {
      ReadHead(table, p, es[|es| - 1]);
      ReadBody(table, p, es[|es| - 1]);
      if table[p] == 0 {
        if table[p + 4] % 2 == 1 {
          lapics[cores] := LapicAt(table, p);
          cores := cores + 1;
        }
      } else if table[p] == 1 {
        ioapic := IoApicAt(table, p);
      } else if table[p] == 2 {
        overrides[overrideCount] := OverrideAt(table, p);
        overrideCount := overrideCount + 1;
      } else if table[p] == 5 {
        address := Number(table[p + 4..p + 12]);
      } else if table[p] == 4 {
        nmis[nmiCount] := NmiAt(table, p);
        nmiCount := nmiCount + 1;
      }
    }

    /** For every well-formed table: the walk ends and has collected exactly what was laid out. */
    method ParseMadt(table: seq<Byte>, ghost address0: nat, ghost es: seq<Entry>)
      requires Valid() && IsTable(table, address0, es) && FitsTables(es)
      requires cores == 0 && overrideCount == 0 && nmiCount == 0
      modifies this, lapics, overrides, nmis
      ensures Valid() && Holds(es, old(ioapic), address0)
    {
      Header(table, address0, es);
      hide IsTable, FitsTables, EntryAt, AllBytes, Number;
      var p := START;
      address := Number(table[36..40]);
      ghost var k := 0;
      while p < Number(table[4..8])
        invariant k <= |es| && p == START + |AllBytes(es[..k])| <= |table|
        invariant Valid() && Holds(es[..k], old(ioapic), address0)
        decreases |es| - k
      {
        Turn(table, address0, es, k);
        Visit(table, p, es[..k + 1], old(ioapic), address0);
        p := p + table[p + 1];
        k := k + 1;
      }
      AtEnd(es, k);
      assert es[..|es|] == es;
    }
  }

  /** What the walk reads at an entry is what was laid out there. */
  lemma ReadBody(table: seq<Byte>, p: nat, e: Entry)
    requires EntryAt(table, p, e)
    ensures match e.body
      case LocalApic(a) => LapicAt(table, p) == a && table[p + 4] % 2 == a.flags % 2
      case InputOutput(_, _, place, base) => IoApicAt(table, p) == IoApic(Size(e), place, base)
      case SourceOverride(o) => OverrideAt(table, p) == o
      case NonMaskable(n) => NmiAt(table, p) == n
      case AddressOverride(a, _) => p + 12 <= |table| && Number(table[p + 4..p + 12]) == a
      case Other(_, _) => true
  {
    ReadHead(table, p, e);
    match e.body
    case LocalApic(_) => ReadLapic(table, p, e);
    case InputOutput(_, _, place, base) =>
      ReadField(table, p, e, 2, place, 4);
      ReadField(table, p, e, 6, base, 4);
    case SourceOverride(_) => ReadOverride(table, p, e);
    case NonMaskable(_) => ReadNmi(table, p, e);
    case AddressOverride(a, _) => ReadField(table, p, e, 2, a, 8);
    case Other(_, _) =>
  }

  lemma ReadLapic(table: seq<Byte>, p: nat, e: Entry)
    requires EntryAt(table, p, e) && e.body.LocalApic?
    ensures LapicAt(table, p) == e.body.lapic && table[p + 4] % 2 == e.body.lapic.flags % 2
  {
    ReadByte(table, p, e, 0);
    ReadByte(table, p, e, 1);
    ReadByte(table, p, e, 2);
    ReadField(table, p, e, 2, e.body.lapic.flags, 4);
    LowByteParity(e.body.lapic.flags);
  }

  lemma LowByteParity(v: nat)
    ensures Little(v, 4)[0] % 2 == v % 2
  {
    SameParity(v / 0x100, v % 0x100);
  }

  lemma SameParity(q: nat, r: nat)
    ensures (0x100 * q + r) % 2 == r % 2
  {}

  lemma ReadOverride(table: seq<Byte>, p: nat, e: Entry)
    requires EntryAt(table, p, e) && e.body.SourceOverride?
    ensures OverrideAt(table, p) == e.body.source
  {
    ReadByte(table, p, e, 0);
    ReadByte(table, p, e, 1);
    ReadField(table, p, e, 2, e.body.source.interrupt, 4);
    ReadField(table, p, e, 6, e.body.source.flags, 2);
  }

  lemma ReadNmi(table: seq<Byte>, p: nat, e: Entry)
    requires EntryAt(table, p, e) && e.body.NonMaskable?
    ensures NmiAt(table, p) == e.body.nmi
  {
    ReadByte(table, p, e, 0);
    ReadField(table, p, e, 1, e.body.nmi.flags, 2);
    ReadByte(table, p, e, 3);
  }

  lemma EntryWithin(table: seq<Byte>, entries: seq<Byte>, q: nat, e: Entry)
    requires EntryOk(e) && |table| >= START && table[START..] == entries && q + Size(e) <= |entries|
    requires entries[q..q + Size(e)] == EntryBytes(e)
    ensures EntryAt(table, START + q, e) && START + q + Size(e) <= |table|
  {
    hide EntryOk, EntryBytes, Size;
    assert table[START..|table|] == entries;
    Slice(table, START, |table|, q, q + Size(e));
  }

  lemma EntryIsThere(table: seq<Byte>, address: nat, es: seq<Entry>, k: nat)
    requires IsTable(table, address, es) && k < |es|
    ensures EntryAt(table, START + |AllBytes(es[..k])|, es[k])
    ensures START + |AllBytes(es[..k + 1])| == START + |AllBytes(es[..k])| + Size(es[k]) <= |table|
  {
    assert EntryOk(es[k]);
    hide EntryOk, AllBytes, Size, EntryBytes, EntryAt;
    Position(es, k);
    EntryWithin(table, AllBytes(es), |AllBytes(es[..k])|, es[k]);
  }

  /** The walk reaches the declared length exactly after the last entry. */
  lemma AtEnd(es: seq<Entry>, k: nat)
    requires EntriesOk(es) && k <= |es|
    ensures |AllBytes(es[..k])| < |AllBytes(es)| <==> k < |es|
  {
    if k < |es| {
      Position(es, k);
    } else {
      assert es[..k] == es;
    }
  }

  lemma Header(table: seq<Byte>, address: nat, es: seq<Entry>)
    requires IsTable(table, address, es)
    ensures |table| >= START && Number(table[4..8]) == |table| == START + |AllBytes(es)|
    ensures Number(table[36..40]) == address
    ensures AllBytes(es[..0]) == []
  {
    NumberLittle(|table|, 4);
    NumberLittle(address, 4);
  }

  /** What a turn of the loop relies on. */
  lemma Turn(table: seq<Byte>, address: nat, es: seq<Entry>, k: nat)
    requires IsTable(table, address, es) && k <= |es| && FitsTables(es)
    requires |AllBytes(es[..k])| < |AllBytes(es)|
    ensures k < |es| && es[..k + 1][..k] == es[..k] && FitsTables(es[..k + 1])
    ensures var p := START + |AllBytes(es[..k])|;
      && EntryAt(table, p, es[k]) && p + 1 < |table|
      && p + table[p + 1] == START + |AllBytes(es[..k + 1])| <= |table|
  {
    assert EntriesOk(es);
    hide IsTable, FitsTables, AllBytes, EntryOk, EntryBytes, Payload;
    AtEnd(es, k);
    EntryIsThere(table, address, es, k);
    RoomFor(es, k + 1);
    assert es[..k + 1][..k] == es[..k];
    ReadHead(table, START + |AllBytes(es[..k])|, es[k]);
  }

  /** The id that is kept for the last I/O controller, wherever in the table it is, is the one laid
      out exactly when that equals the length of its entry, so not for the standard twelve bytes
      and an id of zero. */
  lemma {:induction false} IoApicIdIsLength(es: seq<Entry>, none: IoApic, k: nat)
    requires k < |es| && es[k].body.InputOutput?
    requires forall i | k < i < |es| :: !es[i].body.InputOutput?
    ensures var b := es[k].body;
      && LastIoApic(es, none) == IoApic(Size(es[k]), b.place, b.base)
      && (LastIoApic(es, none) == IoApic(b.id, b.place, b.base) <==> b.id == 12 + |es[k].tail|)
  {
    if k < |es| - 1 {
      IoApicIdIsLength(es[..|es| - 1], none, k);
    }
  }

  // ---------------------------------------------------------------- the checksum

  function Sum(bytes: seq<Byte>): nat {
    if bytes == [] then 0 else Sum(bytes[..|bytes| - 1]) + bytes[|bytes| - 1]
  }

  /** Adds up in eight bits. */
  method Checksum(table: seq<Byte>) returns (ok: bool)
    requires 8 <= |table| && Number(table[4..8]) == |table|
    ensures ok <==> Sum(table) % 0x100 == 0
  {
    var sum: nat := 0;
    var i := 0;
    while i < Number(table[4..8])
      invariant i <= |table| && sum == Sum(table[..i]) % 0x100
    {
      assert table[..i + 1][..i] == table[..i];
      sum := (sum + table[i] as int) % 0x100;
      i := i + 1;
    }
    assert table[..i] == table;
    return sum == 0;
  }

  lemma {:induction false} SumUpdate(bytes: seq<Byte>, i: nat, b: Byte)
    requires i < |bytes|
    ensures Sum(bytes[i := b]) == Sum(bytes) - bytes[i] + b
  {
    var n := |bytes| - 1;
    if i == n {
      assert bytes[i := b][..n] == bytes[..n];
    } else {
      assert bytes[i := b][..n] == bytes[..n][i := b];
      SumUpdate(bytes[..n], i, b);
    }
  }

  /** A table with one damaged byte fails the checksum its original passes. */
  lemma DamageIsSeen(bytes: seq<Byte>, i: nat, b: Byte)
    requires i < |bytes| && Sum(bytes) % 0x100 == 0
    ensures Sum(bytes[i := b]) % 0x100 == 0 <==> b == bytes[i]
  {
    SumUpdate(bytes, i, b);
    var d: int := b as int - bytes[i] as int;
    assert Sum(bytes[i := b]) == Sum(bytes) + d;
    assert (Sum(bytes) + d) % 0x100 == d % 0x100;
  }
}
