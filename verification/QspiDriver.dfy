/** The statics and functions of qspi_buffer.c, proved to compute the functions of QspiBuffer.

    Flash operations may fail: `faulted` remembers that one has, and nothing is then said about
    the device.  `crashed` collects every device content that a power loss during the calls
    made so far could have left. */
module QspiDriver {
  import opened Words
  import opened Records
  import opened QspiLayout
  import opened QspiJournal
  import opened QspiBuffer

  class QspiDriver {
    const crc: Checksum
    var mem: seq<byte>          // the flash device
    var meta: Entry             // s_meta_cache
    var active: nat             // s_meta_active_sector
    var index: nat              // s_meta_index
    var initialized: bool
    var enqueued: nat
    var dequeued: nat
    var dropped: nat
    ghost var faulted: bool
    ghost var crashed: iset<seq<byte>>

    function State(): Ring
      reads this
    {
      Ring(mem, meta, active, index)
    }

    /** Records in the ring plus records counted out minus records counted in. */
    function Balance(): int
      reads this
    {
      meta.count + dequeued + dropped - enqueued
    }

    ghost predicate Valid()
      reads this
    {
      |mem| == DEVICE && active < 2 && index <= SLOTS && (initialized ==> Bounded(State()))
    }

    constructor (crc: Checksum, device: seq<byte>)
      requires |device| == DEVICE
      ensures Valid() && !initialized && !faulted && mem == device && this.crc == crc
    {
      this.crc := crc;
      mem := device;
      meta := Entry(0, 0, 0, 0, 0);
      active, index := 0, 0;
      initialized := false;
      enqueued, dequeued, dropped := 0, 0, 0;
      faulted := false;
      crashed := iset{};
    }

    // -------------------------------------------------------------- the device

    method EraseSync(a: nat) returns (ok: bool)
      requires |mem| == DEVICE && a + SECTOR <= DEVICE
      modifies `mem, `faulted, `crashed
      ensures |mem| == DEVICE
      ensures crashed == old(crashed) + (iset m | TornErase(crc, old(mem), m, a))
      ensures if ok then mem == Erased(old(mem), a, SECTOR) && faulted == old(faulted) else faulted
    {
      crashed := crashed + (iset m | TornErase(crc, mem, m, a));
      ok := *;
      if ok {
        mem := Erased(mem, a, SECTOR);
      } else {
        faulted := true;
        var left: seq<byte> := *;
        if |left| == DEVICE {
          mem := left;
        }
      }
    }

    method WriteSync(a: nat, data: seq<byte>) returns (ok: bool)
      requires |mem| == DEVICE && a + |data| <= DEVICE
      modifies `mem, `faulted, `crashed
      ensures |mem| == DEVICE
      ensures crashed == old(crashed) + (iset m | TornWrite(crc, old(mem), m, a, data))
      ensures if ok then mem == Programmed(old(mem), a, data) && faulted == old(faulted) else faulted
    {
      crashed := crashed + (iset m | TornWrite(crc, mem, m, a, data));
      ok := *;
      if ok {
        mem := Programmed(mem, a, data);
      } else {
        faulted := true;
        var left: seq<byte> := *;
        if |left| == DEVICE {
          mem := left;
        }
      }
    }

    // -------------------------------------------------------------- the journal

    method MetadataAppend() returns (ok: bool)
      requires Bounded(State())
      modifies `mem, `faulted, `crashed, `index, `active
      ensures Bounded(State()) && (old(faulted) || !ok ==> faulted)
      ensures !faulted ==> State() == Journaled(crc, old(State()), meta)
      ensures !faulted ==> crashed == old(crashed) + AppendTears(crc, old(mem), old(active), old(index), meta)
    {
      if index >= SLOTS {
        var next := 1 - active;
        ok := EraseSync(next * SECTOR);
        if !ok {
          return false;
        }
        ok := WriteSync(next * SECTOR, EncodeEntry(crc, meta));
        if !ok {
          return false;
        }
        active := next;
        index := 1;
        return true;
      }
      ok := WriteSync(Slot(active, index), EncodeEntry(crc, meta));
      if !ok {
        return false;
      }
      index := index + 1;
      return true;
    }

    method MetadataReset() returns (ok: bool)
      requires |mem| == DEVICE && active < 2 && index <= SLOTS
      modifies `mem, `faulted, `crashed, `meta, `index, `active
      ensures |mem| == DEVICE && active < 2 && index <= SLOTS && (old(faulted) || !ok ==> faulted)
      ensures ok ==> Bounded(State())
      ensures !faulted ==> State() == Reset(crc, old(mem))
    {
      ok := EraseSync(0);
      if !ok {
        return false;
      }
      ok := EraseSync(SECTOR);
      if !ok {
        return false;
      }
      ok := EraseSync(DATA_START);
      if !ok {
        return false;
      }
      meta := Entry(1, DATA_START, DATA_START, 0, 0);
      active := 0;
      index := 0;
      ok := MetadataAppend();
    }

    /** The scan of both sectors for the newest believable entry. */
    method ScanJournal() returns (best: Best)
      requires |mem| == DEVICE
      ensures best == Recover(crc, mem)
    {
      best := Nothing;
      var sec := 0;
      while sec < 2
        invariant 0 <= sec <= 2
        invariant Recover(crc, mem) == if sec == 0 then Scan(crc, mem, 1, 0, Scan(crc, mem, 0, 0, best))
                                       else if sec == 1 then Scan(crc, mem, 1, 0, best) else best
      {
        var i := 0;
        ghost var before := best;
        while i < SLOTS
          invariant 0 <= i <= SLOTS
          invariant Scan(crc, mem, sec, i, best) == Scan(crc, mem, sec, 0, before)
        {
          var a := Slot(sec, i);
          if U32At(mem, a) == BLANK_WORD {
            break;
          }
          if Accepted(crc, mem, a) && EntryAt(mem, a).seqNo > BestSeq(best) {
            best := Best(EntryAt(mem, a), sec, i);
          }
          i := i + 1;
        }
        sec := sec + 1;
      }
    }

    method MetadataRecover() returns (ok: bool)
      requires |mem| == DEVICE && active < 2 && index <= SLOTS
      modifies `mem, `faulted, `crashed, `meta, `index, `active
      ensures |mem| == DEVICE && active < 2 && index <= SLOTS && (old(faulted) ==> faulted)
      ensures match Recover(crc, old(mem))
              case Best(e, s, i) =>
                ok && State() == Ring(old(mem), e, s, i + 1) && faulted == old(faulted) && crashed == old(crashed)
              case Nothing => (!ok ==> faulted) && (!faulted ==> State() == Reset(crc, old(mem)))
      ensures ok ==> Bounded(State())
    {
      var best := ScanJournal();
      if best.Best? {
        RecoverBounds(crc, mem);
        meta, active, index := best.entry, best.sector, best.index + 1;
        return true;
      }
      ok := MetadataReset();
    }

    /** qspi_buffer_init */
    method Init() returns (ok: bool)
      requires Valid()
      modifies this
      ensures Valid() && initialized == ok
      ensures match Recover(crc, old(mem))
              case Best(e, s, i) => ok && State() == Ring(old(mem), e, s, i + 1) && faulted == old(faulted)
              case Nothing => (!ok ==> faulted) && (!faulted ==> State() == Reset(crc, old(mem)))
    {
      ok := MetadataRecover();
      initialized := ok;
    }

    // -------------------------------------------------------------- put, peek, consume

    method ConsumeInternal(isDrop: bool) returns (ok: bool)
      requires Valid()
      modifies this
      ensures Valid() && initialized == old(initialized) && (old(faulted) ==> faulted)
      ensures ok == (old(initialized) && old(meta.count) > 0)
      ensures !ok ==> State() == old(State()) && crashed == old(crashed) && faulted == old(faulted)
      ensures ok ==> meta == ConsumedEntry(old(State()))
      ensures ok && !faulted ==>
                State() == Consumed(crc, old(State())) && crashed == old(crashed) + ConsumeTears(crc, old(State()))
      ensures Balance() == old(Balance()) && enqueued == old(enqueued)
      ensures dequeued == old(dequeued) + (if ok && !isDrop then 1 else 0)
    {
      if !initialized || meta.count == 0 {
        return false;
      }
      meta := ConsumedEntry(State());
      var _ := MetadataAppend();
      if isDrop {
        dropped := dropped + 1;
      } else {
        dequeued := dequeued + 1;
      }
      return true;
    }

    /** qspi_buffer_consume */
    method Consume() returns (ok: bool)
      requires Valid()
      modifies this
      ensures Valid() && initialized == old(initialized) && (old(faulted) ==> faulted)
      ensures ok == (old(initialized) && old(meta.count) > 0)
      ensures !ok ==> State() == old(State())
      ensures ok && !faulted ==> State() == Consumed(crc, old(State()))
      ensures Balance() == old(Balance())
    {
      ok := ConsumeInternal(false);
    }

    /** qspi_buffer_peek: a corrupted oldest record is dropped. */
    method Peek() returns (out: Option<Record>)
      requires Valid()
      modifies this
      ensures Valid() && initialized == old(initialized) && (old(faulted) ==> faulted)
      ensures !old(initialized) || old(meta.count) == 0 ==> out == None && State() == old(State())
      ensures old(initialized) && old(meta.count) > 0 ==>
                match ReadRecord(crc, old(mem), old(meta.tail))
                case Some(found) => out == Some(found.rec) && State() == old(State()) && faulted == old(faulted)
                case None => out == None && (!faulted ==> State() == Consumed(crc, old(State())))
      ensures Balance() == old(Balance())
    {
      if !initialized || meta.count == 0 {
        return None;
      }
      match ReadRecord(crc, mem, meta.tail)
      case Some(found) =>
        return Some(found.rec);
      case None =>
        var _ := ConsumeInternal(true);
        return None;
    }

    /** The drop loop of qspi_buffer_put_record.  It never reaches the source's failure return. */
    method MakeRoomFor(req: nat)
      requires Valid() && initialized
      modifies this
      ensures Valid() && initialized && (old(faulted) ==> faulted) && Room(State(), req)
      ensures meta.count <= old(meta.count) && Balance() == old(Balance())
      ensures !faulted ==> State() == MakeRoom(crc, old(State()), req)
      ensures !faulted ==> crashed == old(crashed) + RoomTears(crc, old(State()), req)
    {
      ghost var left := RoomTears(crc, State(), req);
      while !RoomAvailable(meta.count, meta.head, meta.tail, req)
        invariant Valid() && initialized && (old(faulted) ==> faulted)
        invariant meta.count <= old(meta.count) && Balance() == old(Balance())
        invariant !faulted ==> MakeRoom(crc, State(), req) == MakeRoom(crc, old(State()), req)
        invariant !faulted ==>
                    left == RoomTears(crc, State(), req)
                        && crashed + left == old(crashed) + RoomTears(crc, old(State()), req)
        decreases meta.count
      {
        ghost var s, before := State(), crashed;
        var ok := ConsumeInternal(true);
        if !ok {
          assert false;
        }
        ghost var next := RoomTears(crc, State(), req);
        if !faulted {
          assert left == ConsumeTears(crc, s) + next;
          assert before + left == crashed + next;
        }
        left := next;
      }
    }

    /** Where the record goes, in a sector erased when it is a new one. */
    method EnterSector(req: nat) returns (ok: bool, h: nat)
      requires Valid() && initialized && 0 < req < SECTOR
      modifies this
      ensures Valid() && initialized && (old(faulted) || !ok ==> faulted)
      ensures h == Target(old(meta.head), req) && meta == old(meta) && Balance() == old(Balance())
      ensures !faulted ==> State() == Entered(old(State()), req)
      ensures !faulted ==> crashed == old(crashed) + EnterTears(crc, old(State()), req)
    {
      ok, h := true, meta.head;
      if h % SECTOR + req > SECTOR {
        h := NextSector(h);
        ok := EraseSync(h);
      }
    }

    /** The rest of qspi_buffer_put_record: entering the next sector when the record does not fit
        in this one, the record, its metadata. */
    method WriteRecord(rec: Record) returns (ok: bool)
      requires Valid() && initialized
      modifies this
      ensures Valid() && initialized && (old(faulted) || !ok ==> faulted)
      ensures !faulted ==> State() == PutRest(crc, old(State()), rec)
      ensures !faulted ==> crashed == old(crashed) + RestTears(crc, old(State()), rec)
      ensures !ok ==> meta == old(meta) && Balance() == old(Balance())
      ensures old(meta.count) < 0xFFFF_FFFF ==> Balance() == old(Balance())
    {
      var req := Size(rec);
      var entered, h := EnterSector(req);
      if !entered {
        return false;
      }
      var written := WriteSync(h, Encode(crc, rec));
      if !written {
        return false;
      }
      meta := PutEntry(State(), req);
      var _ := MetadataAppend();
      enqueued := enqueued + 1;
      return true;
    }

    /** qspi_buffer_put_record */
    method PutRecord(rec: Record) returns (ok: bool)
      requires Valid()
      modifies this
      ensures Valid() && initialized == old(initialized) && (old(faulted) ==> faulted)
      ensures !old(initialized) || PayloadLen(rec.kind) == 0 ==> !ok && State() == old(State())
      ensures old(initialized) && PayloadLen(rec.kind) != 0 && !faulted ==>
                && ok && State() == Put(crc, old(State()), rec)
                && crashed == old(crashed) + PutTears(crc, old(State()), rec)
      ensures old(meta.count) < 0xFFFF_FFFF ==> Balance() == old(Balance())
    {
      if !initialized || PayloadLen(rec.kind) == 0 {
        return false;
      }
      MakeRoomFor(Size(rec));
      ok := WriteRecord(rec);
    }

    /** qspi_buffer_depth */
    method Depth() returns (n: nat)
      ensures n == if initialized then meta.count else 0
    {
      n := if initialized then meta.count else 0;
    }
  }
}
