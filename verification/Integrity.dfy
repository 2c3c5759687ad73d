/** The storage modules are proved for any checksum.  With the CRC-32 the firmware uses, damage to anything
    stored that is confined to four consecutive bytes is always found, also where it reaches the stored
    checksum. */
module Integrity {
  import opened Words
  import opened Records
  import opened Crc
  import FlashBuffer
  import PersistentSeq
  import QspiJournal
  import QspiLayout

  /** Two byte strings that differ, and only inside the `k` bytes from `a` on. */
  predicate DifferWithin(m: seq<byte>, n: seq<byte>, a: nat, k: nat) {
    && |m| == |n| && m != n && a + k <= |m|
    && m[..a] == n[..a] && m[a + k..] == n[a + k..]
  }

  lemma {:induction false} BitsAppend(x: seq<byte>, y: seq<byte>)
    ensures MessageBits(x + y) == MessageBits(x) + MessageBits(y)
    decreases |x|
  {
    if x == [] {
      assert x + y == y;
    } else {
      assert (x + y)[1..] == x[1..] + y;
      BitsAppend(x[1..], y);
    }
  }

  lemma {:induction false} BitsInjective(x: seq<byte>, y: seq<byte>)
    requires |x| == |y| && x != y
    ensures MessageBits(x) != MessageBits(y)
    decreases |x|
  {
    if x[0] != y[0] {
      Pow2Values();
      if MessageBits(x) == MessageBits(y) {
        assert MessageBits(x)[..8] == Digits(x[0], 8) && MessageBits(y)[..8] == Digits(y[0], 8);
        DigitsInjective(x[0], y[0], 8);
      }
    } else {
      assert x == [x[0]] + x[1..] && y == [y[0]] + y[1..];
      BitsInjective(x[1..], y[1..]);
      assert MessageBits(x)[8..] == MessageBits(x[1..]) && MessageBits(y)[8..] == MessageBits(y[1..]);
    }
  }

  /** The register tells a message from one that differs within four consecutive bytes. */
  lemma FourBytesRegisters(c: u32, m: seq<byte>, n: seq<byte>, a: nat, k: nat)
    requires DifferWithin(m, n, a, k) && k <= 4
    ensures Bytes32(c, m) != Bytes32(c, n)
  {
    var x, y := m[a..a + k], n[a..a + k];
    Parts(m, a, k);
    Parts(n, a, k);
    if x == y {
      SamePieces(m, n, a, k);
    }
    BitsInjective(x, y);
    RegistersDiffer(c, m, n, MessageBits(m[..a]), MessageBits(x), MessageBits(y), MessageBits(m[a + k..]));
  }

  /** A change confined to four consecutive bytes, of a message of any length, changes its CRC-32. */
  lemma FourBytesDetected(m: seq<byte>, n: seq<byte>, a: nat, k: nat)
    requires DifferWithin(m, n, a, k) && k <= 4
    ensures Crc32(m) != Crc32(n)
  {
    FourBytesRegisters(ONES32, m, n, a, k);
    Complement(Bytes32(ONES32, m));
    Complement(Bytes32(ONES32, n));
  }

  /** `m` is a message of `len` bytes followed by its CRC-32. */
  predicate Checked(m: seq<byte>, len: nat) {
    |m| == len + 4 && U32At(m, len) == Crc32(m[..len])
  }

  lemma CheckedParts(m: seq<byte>, len: nat)
    requires Checked(m, len)
    ensures m == m[..len] + Le32(Crc32(m[..len]))
  {
    NumberOnly(m, len, 4);
    Cut(m, len);
  }

  lemma Cut<T>(m: seq<T>, len: nat)
    requires |m| == len + 4
    ensures m == m[..len] + m[len..len + 4]
  {
  }

  lemma IsChecked(body: seq<byte>)
    ensures Checked(body + Le32(Crc32(body)), |body|)
  {
    var m := body + Le32(Crc32(body));
    assert m[..|body|] == body && m[|body|..|body| + 4] == Le32(Crc32(body));
    Le32RoundTrip(m, |body|, Crc32(body));
  }

  /** STORED CHECKSUMS.  After damage within four consecutive bytes, anywhere in a message and the CRC-32 stored
      behind it, the two do not agree any more. */
  lemma DamageFound(m: seq<byte>, n: seq<byte>, len: nat, a: nat, k: nat)
    requires Checked(m, len) && DifferWithin(m, n, a, k) && k <= 4
    ensures !Checked(n, len)
  {
    FourBytesRegisters(ONES32, m, n, a, k);
    if Checked(n, len) {
      CheckedParts(m, len);
      CheckedParts(n, len);
      Crc32Residue(m[..len], Crc32(m[..len]), n[..len]);
      assert false;
    }
  }

  lemma SamePieces(m: seq<byte>, n: seq<byte>, a: nat, k: nat)
    requires |m| == |n| && a + k <= |m| && m[..a] == n[..a] && m[a..a + k] == n[a..a + k] && m[a + k..] == n[a + k..]
    ensures m == n
  {
    Pieces(m, a, k);
    Pieces(n, a, k);
  }

  lemma Pieces<T>(m: seq<T>, a: nat, k: nat)
    requires a + k <= |m|
    ensures m == m[..a] + m[a..a + k] + m[a + k..]
  {
    var front := m[..a] + m[a..a + k];
    assert front == m[..a + k];
    assert m == front + m[a + k..];
  }

  lemma Parts(m: seq<byte>, a: nat, k: nat)
    requires a + k <= |m|
    ensures MessageBits(m) == MessageBits(m[..a]) + MessageBits(m[a..a + k]) + MessageBits(m[a + k..])
    ensures |MessageBits(m[a..a + k])| == 8 * k
  {
    BitsAppend(m[..a] + m[a..a + k], m[a + k..]);
    BitsAppend(m[..a], m[a..a + k]);
    Pieces(m, a, k);
  }

  /** What a longer row says of its first bytes. */
  lemma FrontChecked(row: seq<byte>, len: nat)
    requires |row| >= len + 4
    ensures Checked(row[..len + 4], len) <==> U32At(row, len) == Crc32(row[..len])
  {
    var front := row[..len + 4];
    assert front[..len] == row[..len] && front[len..len + 4] == row[len..len + 4];
    SameNumber(front, row, len, len, 4);
  }

  // ---------------------------------------------------------------- everything that is stored

  /** A data row of the Em_EEPROM ring is rejected after such damage. */
  lemma DamagedRowRejected(r: Record, row: Row, a: nat, k: nat)
    requires DifferWithin(FlashBuffer.EncodeRow(Crc32, r), row, a, k) && k <= 4
    ensures FlashBuffer.RowRecord(Crc32, row) == None
  {
    IsChecked(FlashBuffer.RowBody(r));
    DamageFound(FlashBuffer.EncodeRow(Crc32, r), row, 508, a, k);
  }

  /** The metadata row is rejected after such damage to the bytes that are read of it. */
  lemma DamagedMetaRejected(m: FlashBuffer.Meta, row: Row, a: nat, k: nat)
    requires DifferWithin(FlashBuffer.EncodeMeta(Crc32, m)[..20], row[..20], a, k) && k <= 4
    ensures FlashBuffer.MetaOf(Crc32, row) == None
  {
    var body := FlashBuffer.MetaBody(m);
    IsChecked(body);
    assert FlashBuffer.EncodeMeta(Crc32, m)[..20] == body + Le32(Crc32(body));
    DamageFound(FlashBuffer.EncodeMeta(Crc32, m)[..20], row[..20], 16, a, k);
    FrontChecked(row, 16);
  }

  /** A sequence bank is rejected after such damage to the bytes that are read of it. */
  lemma DamagedBankRejected(p: PersistentSeq.Pair, row: Row, a: nat, k: nat)
    requires DifferWithin(PersistentSeq.Prepare(Crc32, p)[..16], row[..16], a, k) && k <= 4
    ensures PersistentSeq.Held(Crc32, row) == None
  {
    var body := PersistentSeq.BankBody(p);
    IsChecked(body);
    assert PersistentSeq.Prepare(Crc32, p)[..16] == body + Le32(Crc32(body));
    DamageFound(PersistentSeq.Prepare(Crc32, p)[..16], row[..16], 12, a, k);
    FrontChecked(row, 12);
  }

  /** What is read at `s` of a device is checked exactly when that slice is. */
  lemma SliceChecked(mem: seq<byte>, s: nat, len: nat)
    requires s + len + 4 <= |mem|
    ensures Checked(mem[s..s + (len + 4)], len) <==> U32At(mem, s + len) == Crc32(mem[s..s + len])
  {
    var part := mem[s..s + (len + 4)];
    SubSlice(mem, s, len + 4, 0, len);
    SubSlice(mem, s, len + 4, len, len + 4);
    SameNumber(part, mem, len, s + len, 4);
  }

  /** A journal entry is not accepted after such damage. */
  lemma DamagedEntryRejected(e: QspiJournal.Entry, mem: seq<byte>, s: nat, a: nat, k: nat)
    requires s + QspiJournal.ENTRY <= |mem| && k <= 4
    requires DifferWithin(QspiJournal.EncodeEntry(Crc32, e), mem[s..s + QspiJournal.ENTRY], a, k)
    ensures !QspiJournal.Accepted(Crc32, mem, s)
  {
    IsChecked(QspiJournal.Body(e));
    DamageFound(QspiJournal.EncodeEntry(Crc32, e), mem[s..s + QspiJournal.ENTRY], QspiJournal.BODY, a, k);
    SliceChecked(mem, s, QspiJournal.BODY);
  }

  /** A record found at `s` agrees with the checksum behind it. */
  lemma FoundIsChecked(crc: Checksum, mem: seq<byte>, s: nat, kind: byte)
    requires |mem| == QspiLayout.DEVICE && s + HEADER + PayloadLen(kind) + 4 <= |mem| && mem[s + 6] == kind
    ensures var found, e := QspiLayout.ReadRecord(crc, mem, s), s + HEADER + PayloadLen(kind);
            found.Some? && found.value.start == s ==> U32At(mem, e) == crc(mem[s..e])
  {
  }

  /** Kind and length of the record at `s` are those of a record of another kind. */
  predicate AnotherKind(mem: seq<byte>, s: nat, kind: byte)
    requires s + HEADER <= |mem|
  {
    mem[s + 6] != kind && mem[s + 6] <= EVENT && U16At(mem, s + 4) == PayloadLen(mem[s + 6])
  }

  lemma SameKindRejected(r: Record, mem: seq<byte>, s: nat, a: nat, k: nat)
    requires |mem| == QspiLayout.DEVICE && s + QspiLayout.Size(r) <= |mem| && k <= 4
    requires DifferWithin(QspiLayout.Encode(Crc32, r), mem[s..s + QspiLayout.Size(r)], a, k) && mem[s + 6] == r.kind
    ensures var found := QspiLayout.ReadRecord(Crc32, mem, s); found.Some? ==> found.value.start != s
  {
    var body := Header(QspiLayout.RECORD_MAGIC, r) + r.payload;
    IsChecked(body);
    DamageFound(QspiLayout.Encode(Crc32, r), mem[s..s + QspiLayout.Size(r)], |body|, a, k);
    SliceChecked(mem, s, |body|);
    FoundIsChecked(Crc32, mem, s, r.kind);
  }

  lemma OddKindRejected(crc: Checksum, mem: seq<byte>, s: nat, kind: byte)
    requires |mem| == QspiLayout.DEVICE && s + HEADER <= |mem| && !AnotherKind(mem, s, kind) && mem[s + 6] != kind
    ensures var found := QspiLayout.ReadRecord(crc, mem, s); found.Some? ==> found.value.start != s
  {
  }

  /** A record of the QSPI ring is not found at its place after such damage, unless that makes both its kind byte and
      its length those of another kind: the kind decides how many bytes are checked. */
  lemma DamagedRecordRejected(r: Record, mem: seq<byte>, s: nat, a: nat, k: nat)
    requires |mem| == QspiLayout.DEVICE && s + QspiLayout.Size(r) <= |mem| && k <= 4
    requires DifferWithin(QspiLayout.Encode(Crc32, r), mem[s..s + QspiLayout.Size(r)], a, k)
    requires !AnotherKind(mem, s, r.kind)
    ensures var found := QspiLayout.ReadRecord(Crc32, mem, s); found.Some? ==> found.value.start != s
  {
    if mem[s + 6] == r.kind {
      SameKindRejected(r, mem, s, a, k);
    } else {
      OddKindRejected(Crc32, mem, s, r.kind);
    }
  }
}
