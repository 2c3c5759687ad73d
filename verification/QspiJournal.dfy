/** The ping-pong metadata journal in sectors 0 and 1 (metadata_append and metadata_recover of
    qspi_buffer.c): entries are appended to one sector, the other one is erased when it is
    full, and a reboot takes the entry with the largest sequence number. */
module QspiJournal {
  import opened Words
  import opened Records
  import opened QspiLayout

  const META_MAGIC: u32 := 0x4D45_5433
  const BODY: nat := 24
  const ENTRY: nat := 28
  const SLOTS: nat := 9362                        // SECTOR / ENTRY
  const MAX_POSSIBLE_RECORDS: nat := 5570560      // REGION / 12

  datatype Entry = Entry(seqNo: u32, head: u32, tail: u32, count: u32, totalWrites: u32)

  function Body(e: Entry): (b: seq<byte>)
    ensures |b| == BODY
  {
    Le32(META_MAGIC) + Le32(e.seqNo) + Le32(e.head) + Le32(e.tail) + Le32(e.count) + Le32(e.totalWrites)
  }

  function EncodeEntry(crc: Checksum, e: Entry): (b: seq<byte>)
    ensures |b| == ENTRY
  {
    Body(e) + Le32(crc(Body(e)))
  }

  function Slot(sector: nat, i: nat): nat {
    sector * SECTOR + ENTRY * i
  }

  function EntryAt(mem: seq<byte>, a: nat): Entry
    requires a + ENTRY <= |mem|
  {
    Entry(U32At(mem, a + 4), U32At(mem, a + 8), U32At(mem, a + 12), U32At(mem, a + 16), U32At(mem, a + 20))
  }

  predicate Placed(e: Entry) {
    DATA_START <= e.head < REGION && DATA_START <= e.tail < REGION
  }

  /** The sanity bounds of recovery. */
  predicate Sane(e: Entry) {
    Placed(e) && e.count <= MAX_POSSIBLE_RECORDS
  }

  /** A slot that recovery is willing to believe. */
  predicate Accepted(crc: Checksum, mem: seq<byte>, a: nat)
    requires a + ENTRY <= |mem|
  {
    && U32At(mem, a) == META_MAGIC
    && U32At(mem, a + BODY) == crc(mem[a..a + BODY])
    && Sane(EntryAt(mem, a))
  }

  lemma EntryRoundTrip(crc: Checksum, mem: seq<byte>, a: nat, e: Entry)
    requires a + ENTRY <= |mem| && mem[a..a + ENTRY] == EncodeEntry(crc, e) && Sane(e)
    ensures Accepted(crc, mem, a) && EntryAt(mem, a) == e
  {
    var b := EncodeEntry(crc, e);
    SubSlice(mem, a, ENTRY, 0, BODY);
    assert b[0..BODY] == Body(e);
    SixWords(Le32(META_MAGIC), Le32(e.seqNo), Le32(e.head), Le32(e.tail), Le32(e.count), Le32(e.totalWrites),
             Le32(crc(Body(e))));
    Word(mem, a, 0, META_MAGIC, b);
    Word(mem, a, 4, e.seqNo, b);
    Word(mem, a, 8, e.head, b);
    Word(mem, a, 12, e.tail, b);
    Word(mem, a, 16, e.count, b);
    Word(mem, a, 20, e.totalWrites, b);
    Word(mem, a, 24, crc(Body(e)), b);
  }

  lemma SixWords(a: seq<byte>, b: seq<byte>, c: seq<byte>, d: seq<byte>, e: seq<byte>, f: seq<byte>, g: seq<byte>)
    requires |a| == |b| == |c| == |d| == |e| == |f| == |g| == 4
    ensures var all := a + b + c + d + e + f + g;
            && all[0..4] == a && all[4..8] == b && all[8..12] == c && all[12..16] == d
            && all[16..20] == e && all[20..24] == f && all[24..28] == g
  {
  }

  lemma Word(mem: seq<byte>, a: nat, k: nat, x: u32, b: seq<byte>)
    requires k + 4 <= |b| && a + |b| <= |mem| && mem[a..a + |b|] == b && b[k..k + 4] == Le32(x)
    ensures U32At(mem, a + k) == x
  {
    SubSlice(mem, a, |b|, k, k + 4);
    Le32RoundTrip(mem, a + k, x);
  }

  // ---------------------------------------------------------------- recovery

  datatype Best = Nothing | Best(entry: Entry, sector: nat, index: nat)

  function BestSeq(best: Best): nat {
    if best.Nothing? then 0 else best.entry.seqNo
  }

  /** One slot of the scan. */
  function Consider(crc: Checksum, mem: seq<byte>, sector: nat, i: nat, best: Best): Best
    requires |mem| == DEVICE && sector < 2 && i < SLOTS
  {
    var a := Slot(sector, i);
    if Accepted(crc, mem, a) && EntryAt(mem, a).seqNo > BestSeq(best)
    then Best(EntryAt(mem, a), sector, i) else best
  }

  /** The scan of one journal sector from slot `i` on; it stops at the first blank slot. */
  function Scan(crc: Checksum, mem: seq<byte>, sector: nat, i: nat, best: Best): Best
    requires |mem| == DEVICE && sector < 2 && i <= SLOTS
    decreases SLOTS - i
  {
    if i == SLOTS || U32At(mem, Slot(sector, i)) == BLANK_WORD then best
    else Scan(crc, mem, sector, i + 1, Consider(crc, mem, sector, i, best))
  }

  function Recover(crc: Checksum, mem: seq<byte>): Best
    requires |mem| == DEVICE
  {
    Scan(crc, mem, 1, 0, Scan(crc, mem, 0, 0, Nothing))
  }

  lemma {:induction false} ScanBounds(crc: Checksum, mem: seq<byte>, sector: nat, i: nat, best: Best)
    requires |mem| == DEVICE && sector < 2 && i <= SLOTS
    requires best.Best? ==> Sane(best.entry) && best.sector < 2 && best.index < SLOTS
    ensures var r := Scan(crc, mem, sector, i, best); r.Best? ==> Sane(r.entry) && r.sector < 2 && r.index < SLOTS
    decreases SLOTS - i
  {
    if i < SLOTS && U32At(mem, Slot(sector, i)) != BLANK_WORD {
      ScanBounds(crc, mem, sector, i + 1, Consider(crc, mem, sector, i, best));
    }
  }

  /** Whatever the flash holds, what recovery takes up is within bounds. */
  lemma RecoverBounds(crc: Checksum, mem: seq<byte>)
    requires |mem| == DEVICE
    ensures var r := Recover(crc, mem); r.Best? ==> Sane(r.entry) && r.sector < 2 && r.index < SLOTS
  {
    ScanBounds(crc, mem, 0, 0, Nothing);
    ScanBounds(crc, mem, 1, 0, Scan(crc, mem, 0, 0, Nothing));
  }

  // ---------------------------------------------------------------- what the journal says

  /** All that matters about a slot: whether the scan stops there, whether it can be programmed,
      and the entry recovery would believe. */
  datatype View = View(stop: bool, erased: bool, believed: Option<Entry>)

  ghost function ViewOf(crc: Checksum, mem: seq<byte>, a: nat): (v: View)
    requires a + ENTRY <= |mem|
    ensures v.believed.Some? ==> !v.stop
  {
    View(U32At(mem, a) == BLANK_WORD, BlankRange(mem, a, ENTRY),
         if Accepted(crc, mem, a) then Some(EntryAt(mem, a)) else None)
  }

  /** A journal as the views of its two sectors. */
  type Journal = seq<seq<View>>

  ghost predicate Shaped(j: Journal) {
    |j| == 2 && |j[0]| == SLOTS && |j[1]| == SLOTS
  }

  ghost function SectorViews(crc: Checksum, mem: seq<byte>, sector: nat): (vs: seq<View>)
    requires |mem| == DEVICE && sector < 2
    ensures |vs| == SLOTS && forall i :: 0 <= i < SLOTS ==> vs[i] == ViewOf(crc, mem, Slot(sector, i))
  {
    seq(SLOTS, i requires 0 <= i < SLOTS => ViewOf(crc, mem, Slot(sector, i)))
  }

  ghost function JournalOf(crc: Checksum, mem: seq<byte>): (j: Journal)
    requires |mem| == DEVICE
    ensures Shaped(j) && j[0] == SectorViews(crc, mem, 0) && j[1] == SectorViews(crc, mem, 1)
  {
    seq(2, s requires 0 <= s < 2 => SectorViews(crc, mem, s))
  }

  ghost predicate Older(v: View, bound: nat) {
    v.believed.Some? ==> v.believed.value.seqNo < bound
  }

  ghost predicate AllOlder(vs: seq<View>, bound: nat) {
    forall i :: 0 <= i < |vs| ==> Older(vs[i], bound)
  }

  /** Entry `e` is in a slot the scan reaches, and every other believable slot is older. */
  ghost predicate Newest(j: Journal, sector: nat, index: nat, e: Entry) {
    && Shaped(j) && sector < 2 && index < SLOTS && e.seqNo > 0
    && j[sector][index].believed == Some(e)
    && (forall i :: 0 <= i < index ==> !j[sector][i].stop)
    && (forall i :: 0 <= i < SLOTS && i != index ==> Older(j[sector][i], e.seqNo))
    && AllOlder(j[1 - sector], e.seqNo)
  }

  /** An entry numbered `bound` may be appended at `index`: the sector is filled without gaps up
      to there and blank from there, and everything believable is older. */
  ghost predicate Ready(j: Journal, sector: nat, index: nat, bound: nat) {
    && Shaped(j) && sector < 2 && index <= SLOTS
    && (forall i :: 0 <= i < index ==> !j[sector][i].stop)
    && (forall i :: index <= i < SLOTS ==> j[sector][i].erased)
    && AllOlder(j[sector], bound)
    && AllOlder(j[1 - sector], bound)
  }

  /** The journal at rest: `e` is the newest entry and the slot at `index` is the next one. */
  ghost predicate Holds(j: Journal, sector: nat, index: nat, e: Entry) {
    0 < index && Newest(j, sector, index - 1, e) && Ready(j, sector, index, e.seqNo + 1)
  }

  // ---------------------------------------------------------------- recovery is exact

  /** One step of the scan, in terms of the slot's view. */
  lemma ScanStep(crc: Checksum, mem: seq<byte>, sector: nat, i: nat, best: Best)
    requires |mem| == DEVICE && sector < 2 && i < SLOTS
    ensures var v := SectorViews(crc, mem, sector)[i];
            Scan(crc, mem, sector, i, best) ==
            if v.stop then best
            else Scan(crc, mem, sector, i + 1,
                      if v.believed.Some? && v.believed.value.seqNo > BestSeq(best)
                      then Best(v.believed.value, sector, i) else best)
  {
  }

  /** The scan of a sector never finds anything newer than `bound`, and keeps a newest find. */
  lemma {:induction false} ScanBelow(crc: Checksum, mem: seq<byte>, sector: nat, i: nat, best: Best, bound: nat)
    requires |mem| == DEVICE && sector < 2 && i <= SLOTS && BestSeq(best) <= bound
    requires forall k :: i <= k < SLOTS ==> Older(SectorViews(crc, mem, sector)[k], bound)
    ensures BestSeq(best) < bound ==> BestSeq(Scan(crc, mem, sector, i, best)) < bound
    ensures BestSeq(best) == bound ==> Scan(crc, mem, sector, i, best) == best
    decreases SLOTS - i
  {
    if i < SLOTS {
      ScanStep(crc, mem, sector, i, best);
      var v := SectorViews(crc, mem, sector)[i];
      assert Older(v, bound);
      if !v.stop {
        var newer := v.believed.Some? && v.believed.value.seqNo > BestSeq(best);
        var best' := if newer then Best(v.believed.value, sector, i) else best;
        ScanBelow(crc, mem, sector, i + 1, best', bound);
      }
    }
  }

  lemma {:induction false} ScanFinds(crc: Checksum, mem: seq<byte>, sector: nat, index: nat, e: Entry, i: nat,
                                     best: Best)
    requires |mem| == DEVICE && Newest(JournalOf(crc, mem), sector, index, e) && i <= index && BestSeq(best) < e.seqNo
    ensures Scan(crc, mem, sector, i, best) == Best(e, sector, index)
    decreases index - i
  {
    ScanStep(crc, mem, sector, i, best);
    assert JournalOf(crc, mem)[sector] == SectorViews(crc, mem, sector);
    var v := SectorViews(crc, mem, sector)[i];
    if i == index {
      ScanBelow(crc, mem, sector, i + 1, Best(e, sector, i), e.seqNo);
    } else {
      assert Older(v, e.seqNo) && !v.stop;
      var newer := v.believed.Some? && v.believed.value.seqNo > BestSeq(best);
      var best' := if newer then Best(v.believed.value, sector, i) else best;
      ScanFinds(crc, mem, sector, index, e, i + 1, best');
    }
  }

  /** RECOVERY IS EXACT: it rebuilds the newest entry, its sector and its slot. */
  lemma RecoverExact(crc: Checksum, mem: seq<byte>, sector: nat, index: nat, e: Entry)
    requires |mem| == DEVICE && Newest(JournalOf(crc, mem), sector, index, e)
    ensures Recover(crc, mem) == Best(e, sector, index)
  {
    if sector == 0 {
      ScanFinds(crc, mem, 0, index, e, 0, Nothing);
      ScanBelow(crc, mem, 1, 0, Best(e, 0, index), e.seqNo);
    } else {
      ScanBelow(crc, mem, 0, 0, Nothing, e.seqNo);
      ScanFinds(crc, mem, 1, index, e, 0, Scan(crc, mem, 0, 0, Nothing));
    }
  }

  // ---------------------------------------------------------------- slots that do not change

  lemma SameWord(m: seq<byte>, mem: seq<byte>, a: nat, k: nat)
    requires |m| == |mem| && a + ENTRY <= |mem| && k + 4 <= ENTRY && m[a..a + ENTRY] == mem[a..a + ENTRY]
    ensures U32At(m, a + k) == U32At(mem, a + k)
  {
    SubSlice(m, a, ENTRY, k, k + 4);
    SubSlice(mem, a, ENTRY, k, k + 4);
    SameNumber(m, mem, a + k, a + k, 4);
  }

  lemma SameBytesSameView(crc: Checksum, m: seq<byte>, mem: seq<byte>, a: nat)
    requires |m| == |mem| && a + ENTRY <= |mem|
    requires m[a..a + ENTRY] == mem[a..a + ENTRY]
    ensures ViewOf(crc, m, a) == ViewOf(crc, mem, a)
  {
    var b := m[a..a + ENTRY];
    assert forall k :: a <= k < a + ENTRY ==> m[k] == b[k - a] && mem[k] == b[k - a];
    assert m[a..a + BODY] == mem[a..a + BODY];
    SameWord(m, mem, a, 0);
    SameWord(m, mem, a, 4);
    SameWord(m, mem, a, 8);
    SameWord(m, mem, a, 12);
    SameWord(m, mem, a, 16);
    SameWord(m, mem, a, 20);
    SameWord(m, mem, a, BODY);
  }

  lemma UntouchedView(crc: Checksum, m: seq<byte>, mem: seq<byte>, a: nat, n: nat, slot: nat)
    requires SameOutside(m, mem, a, n) && slot + ENTRY <= |mem|
    requires slot + ENTRY <= a || a + n <= slot
    ensures ViewOf(crc, m, slot) == ViewOf(crc, mem, slot)
  {
    assert m[slot..slot + ENTRY] == mem[slot..slot + ENTRY];
    SameBytesSameView(crc, m, mem, slot);
  }

  /** A change outside a journal sector leaves its views alone. */
  lemma SectorFrame(crc: Checksum, m: seq<byte>, mem: seq<byte>, a: nat, n: nat, sector: nat)
    requires |mem| == DEVICE && sector < 2 && SameOutside(m, mem, a, n)
    requires a + n <= sector * SECTOR || (sector + 1) * SECTOR <= a
    ensures SectorViews(crc, m, sector) == SectorViews(crc, mem, sector)
  {
    forall i | 0 <= i < SLOTS ensures ViewOf(crc, m, Slot(sector, i)) == ViewOf(crc, mem, Slot(sector, i)) {
      UntouchedView(crc, m, mem, a, n, Slot(sector, i));
    }
  }

  /** A change that keeps to one slot changes one view. */
  lemma SlotFrame(crc: Checksum, m: seq<byte>, mem: seq<byte>, sector: nat, index: nat)
    requires |mem| == DEVICE && sector < 2 && index < SLOTS && SameOutside(m, mem, Slot(sector, index), ENTRY)
    ensures SectorViews(crc, m, sector) == SectorViews(crc, mem, sector)[index := SectorViews(crc, m, sector)[index]]
    ensures SectorViews(crc, m, 1 - sector) == SectorViews(crc, mem, 1 - sector)
  {
    SectorFrame(crc, m, mem, Slot(sector, index), ENTRY, 1 - sector);
    forall i | 0 <= i < SLOTS && i != index
      ensures ViewOf(crc, m, Slot(sector, i)) == ViewOf(crc, mem, Slot(sector, i))
    {
      UntouchedView(crc, m, mem, Slot(sector, index), ENTRY, Slot(sector, i));
    }
  }

  lemma JournalFrame(crc: Checksum, mem: seq<byte>, m: seq<byte>, a: nat, n: nat)
    requires |mem| == DEVICE && SameOutside(m, mem, a, n) && DATA_START <= a
    ensures JournalOf(crc, m) == JournalOf(crc, mem)
  {
    SectorFrame(crc, m, mem, a, n, 0);
    SectorFrame(crc, m, mem, a, n, 1);
  }

  lemma CompleteEntry(crc: Checksum, m: seq<byte>, a: nat, e: Entry)
    requires a + ENTRY <= |m| && Sane(e) && m[a..a + ENTRY] == EncodeEntry(crc, e)
    ensures ViewOf(crc, m, a).believed == Some(e)
  {
    EntryRoundTrip(crc, m, a, e);
  }

  // ---------------------------------------------------------------- appending

  lemma AddView(j: Journal, j': Journal, sector: nat, index: nat, e: Entry, v: View)
    requires Ready(j, sector, index, e.seqNo) && index < SLOTS && e.seqNo > 0
    requires Shaped(j') && j'[sector] == j[sector][index := v] && j'[1 - sector] == j[1 - sector]
    requires v.believed == Some(e) && !v.stop
    ensures Holds(j', sector, index + 1, e)
  {
  }

  lemma ProgrammedEntry(crc: Checksum, mem: seq<byte>, a: nat, e: Entry)
    requires a + ENTRY <= |mem| && Sane(e) && ViewOf(crc, mem, a).erased
    ensures ViewOf(crc, Programmed(mem, a, EncodeEntry(crc, e)), a).believed == Some(e)
  {
    ProgramBlank(mem, a, EncodeEntry(crc, e));
    CompleteEntry(crc, Programmed(mem, a, EncodeEntry(crc, e)), a, e);
  }

  lemma ProgrammedView(crc: Checksum, mem: seq<byte>, m: seq<byte>, sector: nat, index: nat, e: Entry) returns (v: View)
    requires |mem| == DEVICE && sector < 2 && index < SLOTS && SectorViews(crc, mem, sector)[index].erased && Sane(e)
    requires m == Programmed(mem, Slot(sector, index), EncodeEntry(crc, e))
    ensures |m| == DEVICE && v.believed == Some(e) && !v.stop
    ensures SectorViews(crc, m, sector) == SectorViews(crc, mem, sector)[index := v]
    ensures SectorViews(crc, m, 1 - sector) == SectorViews(crc, mem, 1 - sector)
  {
    v := ViewOf(crc, m, Slot(sector, index));
    ProgrammedEntry(crc, mem, Slot(sector, index), e);
    SlotFrame(crc, m, mem, sector, index);
  }

  /** The journal before and after a change to one slot. */
  lemma OneSlot(crc: Checksum, mem: seq<byte>, m: seq<byte>, sector: nat, index: nat, v: View)
    returns (j: Journal, j': Journal)
    requires |mem| == |m| == DEVICE && sector < 2 && index < SLOTS
    requires SectorViews(crc, m, sector) == SectorViews(crc, mem, sector)[index := v]
    requires SectorViews(crc, m, 1 - sector) == SectorViews(crc, mem, 1 - sector)
    ensures j == JournalOf(crc, mem) && j' == JournalOf(crc, m) && Shaped(j) && Shaped(j')
    ensures j'[sector] == j[sector][index := v] && j'[1 - sector] == j[1 - sector]
  {
    j, j' := JournalOf(crc, mem), JournalOf(crc, m);
  }

  /** Appending in the active sector. */
  lemma AppendHere(crc: Checksum, mem: seq<byte>, m: seq<byte>, sector: nat, index: nat, e: Entry)
    requires |mem| == DEVICE && Ready(JournalOf(crc, mem), sector, index, e.seqNo)
    requires index < SLOTS && Sane(e) && e.seqNo > 0
    requires m == Programmed(mem, Slot(sector, index), EncodeEntry(crc, e))
    ensures Holds(JournalOf(crc, m), sector, index + 1, e)
  {
    var v := ProgrammedView(crc, mem, m, sector, index, e);
    var j, j' := OneSlot(crc, mem, m, sector, index, v);
    AddView(j, j', sector, index, e, v);
  }

  lemma BlankSector(crc: Checksum, m: seq<byte>, sector: nat)
    requires |m| == DEVICE && sector < 2 && BlankRange(m, sector * SECTOR, SECTOR)
    ensures forall i :: 0 <= i < SLOTS ==>
            SectorViews(crc, m, sector)[i].erased && SectorViews(crc, m, sector)[i].believed == None
  {
    forall i | 0 <= i < SLOTS
      ensures SectorViews(crc, m, sector)[i].erased && SectorViews(crc, m, sector)[i].believed == None
    {
      var a := Slot(sector, i);
      BlankWord(m, a);
    }
  }

  /** Erasing the other sector makes it ready for the next entry, and loses nothing newest. */
  lemma EraseOther(crc: Checksum, mem: seq<byte>, sector: nat, index: nat, bound: nat)
    requires |mem| == DEVICE && Ready(JournalOf(crc, mem), sector, index, bound)
    ensures var m := Erased(mem, (1 - sector) * SECTOR, SECTOR);
            && Ready(JournalOf(crc, m), 1 - sector, 0, bound)
            && forall i, e :: Newest(JournalOf(crc, mem), sector, i, e) ==> Newest(JournalOf(crc, m), sector, i, e)
  {
    var m := Erased(mem, (1 - sector) * SECTOR, SECTOR);
    BlankSector(crc, m, 1 - sector);
    SectorFrame(crc, m, mem, (1 - sector) * SECTOR, SECTOR, sector);
  }

  // ---------------------------------------------------------------- power loss

  /** What an interrupted program operation may leave: anything in its own range, except that a
      torn journal entry is not believed unless it is complete. */
  ghost predicate TornWrite(crc: Checksum, mem: seq<byte>, m: seq<byte>, a: nat, data: seq<byte>) {
    && SameOutside(m, mem, a, |data|)
    && (a < DATA_START ==> a + ENTRY <= |m| && (Accepted(crc, m, a) ==> |data| == ENTRY && m[a..a + ENTRY] == data))
  }

  /** What an interrupted erase may leave: anything in its own sector, except that a journal slot
      it has damaged is not believed. */
  ghost predicate TornErase(crc: Checksum, mem: seq<byte>, m: seq<byte>, a: nat) {
    && |mem| == DEVICE && SameOutside(m, mem, a, SECTOR)
    && (forall s, i :: 0 <= s < 2 && a == s * SECTOR && 0 <= i < SLOTS
          ==> SectorViews(crc, m, s)[i].believed == None
              || SectorViews(crc, m, s)[i].believed == SectorViews(crc, mem, s)[i].believed)
  }

  lemma TornView(j: Journal, j': Journal, sector: nat, index: nat, e0: Entry, at: nat, slot: nat, e: Entry, v: View)
    requires Newest(j, sector, index, e0) && e.seqNo > e0.seqNo
    requires at < 2 && slot < SLOTS && (at == sector ==> index < slot)
    requires Shaped(j') && j'[at] == j[at][slot := v] && j'[1 - at] == j[1 - at]
    requires forall i :: 0 <= i < slot ==> !j[at][i].stop
    requires v.believed == None || v.believed == Some(e)
    ensures Newest(j', sector, index, e0) || Newest(j', at, slot, e)
  {
  }

  lemma TornSlot(crc: Checksum, mem: seq<byte>, m: seq<byte>, at: nat, slot: nat, e: Entry) returns (v: View)
    requires |mem| == DEVICE && at < 2 && slot < SLOTS && Sane(e)
    requires TornWrite(crc, mem, m, Slot(at, slot), EncodeEntry(crc, e))
    ensures |m| == DEVICE && (v.believed == None || v.believed == Some(e))
    ensures SectorViews(crc, m, at) == SectorViews(crc, mem, at)[slot := v]
    ensures SectorViews(crc, m, 1 - at) == SectorViews(crc, mem, 1 - at)
  {
    SlotFrame(crc, m, mem, at, slot);
    v := ViewOf(crc, m, Slot(at, slot));
    if v.believed.Some? {
      CompleteEntry(crc, m, Slot(at, slot), e);
    }
  }

  /** A torn append leaves the previous entry the newest, or the new one. */
  lemma TornAppend(crc: Checksum, mem: seq<byte>, m: seq<byte>, sector: nat, index: nat, e0: Entry, at: nat,
                   slot: nat, e: Entry)
    requires |mem| == DEVICE && Newest(JournalOf(crc, mem), sector, index, e0) && Sane(e) && e.seqNo > e0.seqNo
    requires slot < SLOTS && (at == sector ==> index < slot)
    requires Ready(JournalOf(crc, mem), at, slot, e.seqNo)
    requires TornWrite(crc, mem, m, Slot(at, slot), EncodeEntry(crc, e))
    ensures Newest(JournalOf(crc, m), sector, index, e0) || Newest(JournalOf(crc, m), at, slot, e)
  {
    var v := TornSlot(crc, mem, m, at, slot, e);
    var j, j' := OneSlot(crc, mem, m, at, slot, v);
    TornView(j, j', sector, index, e0, at, slot, e, v);
  }

  /** A torn erase of the other sector leaves the newest entry what it was. */
  lemma TornJournalErase(crc: Checksum, mem: seq<byte>, m: seq<byte>, sector: nat, index: nat, e: Entry)
    requires |mem| == DEVICE && Newest(JournalOf(crc, mem), sector, index, e)
    requires TornErase(crc, mem, m, (1 - sector) * SECTOR)
    ensures Newest(JournalOf(crc, m), sector, index, e)
  {
    SectorFrame(crc, m, mem, (1 - sector) * SECTOR, SECTOR, sector);
    var was, torn := SectorViews(crc, mem, 1 - sector), SectorViews(crc, m, 1 - sector);
    forall i | 0 <= i < SLOTS ensures Older(torn[i], e.seqNo) {
      assert Older(was[i], e.seqNo);
    }
  }

  // ---------------------------------------------------------------- metadata_append as a whole

  datatype Appended = Appended(mem: seq<byte>, sector: nat, index: nat)

  /** The device and the cursor after appending an entry, when every flash operation succeeds. */
  function Append(crc: Checksum, mem: seq<byte>, sector: nat, index: nat, e: Entry): (r: Appended)
    requires |mem| == DEVICE && sector < 2 && index <= SLOTS
    ensures |r.mem| == DEVICE && r.sector < 2 && 0 < r.index <= SLOTS
    ensures forall i :: DATA_START <= i < DEVICE ==> r.mem[i] == mem[i]
  {
    if index >= SLOTS then
      var next := 1 - sector;
      Appended(Programmed(Erased(mem, next * SECTOR, SECTOR), next * SECTOR, EncodeEntry(crc, e)), next, 1)
    else
      Appended(Programmed(mem, Slot(sector, index), EncodeEntry(crc, e)), sector, index + 1)
  }

  /** What a power loss during the append may leave. */
  ghost function AppendTears(crc: Checksum, mem: seq<byte>, sector: nat, index: nat, e: Entry): iset<seq<byte>>
    requires |mem| == DEVICE && sector < 2 && index <= SLOTS
  {
    if index >= SLOTS then
      var next := 1 - sector;
      (iset m | TornErase(crc, mem, m, next * SECTOR))
      + (iset m | TornWrite(crc, Erased(mem, next * SECTOR, SECTOR), m, next * SECTOR, EncodeEntry(crc, e)))
    else
      iset m | TornWrite(crc, mem, m, Slot(sector, index), EncodeEntry(crc, e))
  }

  /** A reboot on this device takes up entry `e`. */
  ghost predicate RebootsTo(crc: Checksum, m: seq<byte>, e: Entry) {
    |m| == DEVICE && exists s, i :: Newest(JournalOf(crc, m), s, i, e)
  }

  ghost predicate SameData(m: seq<byte>, mem: seq<byte>) {
    |m| == |mem| == DEVICE && forall i :: DATA_START <= i < DEVICE ==> m[i] == mem[i]
  }

  lemma RollOver(crc: Checksum, mem: seq<byte>, m: seq<byte>, sector: nat, e: Entry, next: nat)
    requires |mem| == DEVICE && Ready(JournalOf(crc, mem), sector, SLOTS, e.seqNo) && Sane(e) && e.seqNo > 0
    requires next == 1 - sector
    requires m == Programmed(Erased(mem, next * SECTOR, SECTOR), next * SECTOR, EncodeEntry(crc, e))
    ensures Holds(JournalOf(crc, m), next, 1, e)
  {
    EraseOther(crc, mem, sector, SLOTS, e.seqNo);
    AppendHere(crc, Erased(mem, next * SECTOR, SECTOR), m, next, 0, e);
  }

  /** JOURNAL INVARIANT.  After every append, rollovers included, the appended entry is what a
      reboot recovers, and the journal is ready for the next one. */
  lemma AppendHolds(crc: Checksum, mem: seq<byte>, sector: nat, index: nat, e: Entry, r: Appended)
    requires |mem| == DEVICE && Ready(JournalOf(crc, mem), sector, index, e.seqNo) && Sane(e) && e.seqNo > 0
    requires r == Append(crc, mem, sector, index, e)
    ensures Holds(JournalOf(crc, r.mem), r.sector, r.index, e)
  {
    if index >= SLOTS {
      RollOver(crc, mem, r.mem, sector, e, r.sector);
    } else {
      AppendHere(crc, mem, r.mem, sector, index, e);
    }
  }

  lemma TornRollOver(crc: Checksum, mem: seq<byte>, m: seq<byte>, sector: nat, e0: Entry, e: Entry, next: nat)
    requires |mem| == DEVICE && Holds(JournalOf(crc, mem), sector, SLOTS, e0)
    requires Sane(e) && e.seqNo == e0.seqNo + 1 && next == 1 - sector
    requires TornWrite(crc, Erased(mem, next * SECTOR, SECTOR), m, next * SECTOR, EncodeEntry(crc, e))
    ensures RebootsTo(crc, m, e0) || RebootsTo(crc, m, e)
  {
    EraseOther(crc, mem, sector, SLOTS, e.seqNo);
    TornAppend(crc, Erased(mem, next * SECTOR, SECTOR), m, sector, SLOTS - 1, e0, next, 0, e);
  }

  lemma AppendTearsData(crc: Checksum, mem: seq<byte>, sector: nat, index: nat, e: Entry, m: seq<byte>)
    requires |mem| == DEVICE && sector < 2 && index <= SLOTS && m in AppendTears(crc, mem, sector, index, e)
    ensures SameData(m, mem)
  {
  }

  /** JOURNAL CRASH SAFETY.  A power loss anywhere inside an append, between erasing the new sector
      and writing its first entry included, leaves the previous entry or the new one to recover. */
  lemma AppendTearsReboot(crc: Checksum, mem: seq<byte>, sector: nat, index: nat, e0: Entry, e: Entry, m: seq<byte>)
    requires |mem| == DEVICE && Holds(JournalOf(crc, mem), sector, index, e0)
    requires Sane(e) && e.seqNo == e0.seqNo + 1 && m in AppendTears(crc, mem, sector, index, e)
    ensures RebootsTo(crc, m, e0) || RebootsTo(crc, m, e)
  {
    var next := 1 - sector;
    if index < SLOTS {
      TornAppend(crc, mem, m, sector, index - 1, e0, sector, index, e);
    } else if TornErase(crc, mem, m, next * SECTOR) {
      TornJournalErase(crc, mem, m, sector, SLOTS - 1, e0);
    } else {
      TornRollOver(crc, mem, m, sector, e0, e, next);
    }
  }
}
