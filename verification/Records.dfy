/** The compact binary record of buffer_record.h and the header both persistent tiers put in
    front of its payload. */
module Records {
  import opened Words

  datatype Option<+T> = None | Some(value: T)

  const TELEMETRY: byte := 0
  const STATUS: byte := 1
  const EVENT: byte := 2

  /** Size of the packed payload struct of a kind; 0 for a kind there is no payload for. */
  function PayloadLen(kind: byte): u16 {
    if kind == TELEMETRY then 55 else if kind == STATUS then 20 else if kind == EVENT then 59 else 0
  }

  const MAX_PAYLOAD: u16 := 59

  datatype RecordFields = Record(kind: byte, originMs: u32, bootGen: u32, payload: seq<byte>)

  /** A buffer_record_t: the union member its kind selects is its payload. */
  type Record = r: RecordFields | |r.payload| == PayloadLen(r.kind) witness Record(3, 0, 0, [])

  /** A row of the internal Em_EEPROM flash, written as a whole. */
  type Row = r: seq<byte> | |r| == 512 witness seq(512, _ => 0xFF)

  const HEADER: nat := 16

  function Header(magic: u32, r: Record): (b: seq<byte>)
    ensures |b| == HEADER
  {
    Le32(magic) + (Le16(PayloadLen(r.kind)) + ([r.kind, 0] + (Le32(r.originMs) + Le32(r.bootGen))))
  }

  lemma SubSlice(mem: seq<byte>, a: nat, n: nat, i: nat, j: nat)
    requires a + n <= |mem| && i <= j <= n
    ensures mem[a..a + n][i..j] == mem[a + i..a + j]
  {
    var part, whole := mem[a..a + n][i..j], mem[a + i..a + j];
    forall k | 0 <= k < j - i ensures part[k] == whole[k] {
      assert part[k] == mem[a..a + n][i + k] == mem[a + (i + k)];
    }
  }

  /** Every field of a header can be read back from where it was written. */
  lemma HeaderRoundTrip(mem: seq<byte>, a: nat, magic: u32, r: Record)
    requires a + HEADER <= |mem| && mem[a..a + HEADER] == Header(magic, r)
    ensures U32At(mem, a) == magic && U16At(mem, a + 4) == PayloadLen(r.kind) && mem[a + 6] == r.kind
    ensures U32At(mem, a + 8) == r.originMs && U32At(mem, a + 12) == r.bootGen
  {
    var h := Header(magic, r);
    var len, ms, gen := Le16(PayloadLen(r.kind)), Le32(r.originMs), Le32(r.bootGen);
    SubSlice(mem, a, HEADER, 0, 4);
    SubSlice(mem, a, HEADER, 4, 6);
    SubSlice(mem, a, HEADER, 6, 7);
    SubSlice(mem, a, HEADER, 8, 12);
    SubSlice(mem, a, HEADER, 12, 16);
    assert h[0..4] == Le32(magic);
    assert h[4..] == len + ([r.kind, 0] + (ms + gen));
    assert h[4..6] == len;
    assert mem[a + 6] == mem[a + 6..a + 7][0] == h[6..7][0] == r.kind;
    assert h[8..] == ms + gen;
    assert h[8..12] == ms && h[12..16] == gen;
    Le32RoundTrip(mem, a, magic);
    Le16RoundTrip(mem, a + 4, PayloadLen(r.kind));
    Le32RoundTrip(mem, a + 8, r.originMs);
    Le32RoundTrip(mem, a + 12, r.bootGen);
  }
}
