/** PEC framing of a generic PMBus transfer (pmbus_generic_transfer of pmbus_master.c; section 5.4 of the
    SMBus Specification, version 2.0).  The I2C hardware is a line that delivers bytes. */
module Pec {
  import opened Words
  import opened ShiftRegister
  import opened Crc

  const MAX_WRITE: nat := 32
  const MAX_READ: nat := 32

  /** The address byte of a write; a read sets its lowest bit. */
  function AddressByte(addr: byte): byte {
    addr * 2 % 0x100
  }

  /** The bytes before the first one received that the PEC covers. */
  function Lead(addr: byte, wr: seq<byte>): seq<byte> {
    if wr == [] then [AddressByte(addr) + 1]
    else [AddressByte(addr)] + wr + [AddressByte(addr) + 1]
  }

  method Fill(buf: array<byte>, at: nat, data: seq<byte>)
    requires at + |data| <= buf.Length
    modifies buf
    ensures buf[..at] == old(buf[..at]) && buf[at..at + |data|] == data && buf[at + |data|..] == old(buf[at + |data|..])
  {
    for i := 0 to |data|
      invariant buf[..at] == old(buf[..at]) && buf[at..at + i] == data[..i]
      invariant buf[at + |data|..] == old(buf[at + |data|..])
    {
      buf[at + i] := data[i];
    }
  }

  /** Write-only transfer: what is put on the line after the address byte.  With a PEC, the whole
      frame checks to zero. */
  method FrameWrite(addr: byte, wr: seq<byte>, pec: bool) returns (tx: seq<byte>)
    requires 0 < |wr| <= MAX_WRITE
    ensures !pec ==> tx == wr
    ensures pec ==> |tx| == |wr| + 1 && tx[..|wr|] == wr && Crc8([AddressByte(addr)] + tx) == 0
  {
    var txBuf := new byte[MAX_WRITE + 1];
    Fill(txBuf, 0, wr);
    var total := |wr|;
    if pec {
      var pecBuf := new byte[1 + MAX_WRITE];
      pecBuf[0] := AddressByte(addr);
      Fill(pecBuf, 1, wr);
      assert pecBuf[..1 + |wr|] == [AddressByte(addr)] + wr;
      txBuf[total] := Crc8ByLoop(pecBuf[..1 + |wr|]);
      PecResidue([AddressByte(addr)] + wr, txBuf[total]);
      assert txBuf[..total + 1] == wr + [txBuf[total]];
      assert [AddressByte(addr)] + txBuf[..total + 1] == ([AddressByte(addr)] + wr) + [txBuf[total]];
      total := total + 1;
    }
    tx := txBuf[..total];
  }

  /** The check of a read, bare or after a write, on the bytes the line delivered: accepted exactly
      when the whole transaction checks to zero. */
  method CheckRead(addr: byte, wr: seq<byte>, line: seq<byte>) returns (ok: bool, rd: seq<byte>)
    requires |wr| <= MAX_WRITE && 0 < |line| <= MAX_READ + 1
    ensures ok == (Crc8(Lead(addr, wr) + line) == 0)
    ensures ok ==> rd == line[..|line| - 1]
  {
    var n := |line| - 1;
    var buf := new byte[1 + MAX_WRITE + 1 + MAX_READ];
    var len := FillLead(buf, addr, wr);
    Fill(buf, len, line[..n]);
    assert buf[..len + n] == buf[..len] + buf[len..len + n];
    var computed := Crc8ByLoop(buf[..len + n]);
    Residue(Lead(addr, wr), line);
    ok := computed == line[n];
    rd := if ok then line[..n] else [];
  }

  lemma Residue(lead: seq<byte>, line: seq<byte>)
    requires line != []
    ensures Crc8(lead + line) == 0 <==> line[|line| - 1] == Crc8(lead + line[..|line| - 1])
  {
    var n := |line| - 1;
    PecResidue(lead + line[..n], line[n]);
    assert (lead + line[..n]) + [line[n]] == lead + line;
  }

  method FillLead(buf: array<byte>, addr: byte, wr: seq<byte>) returns (len: nat)
    requires |wr| <= MAX_WRITE && buf.Length >= MAX_WRITE + 2
    modifies buf
    ensures len == |Lead(addr, wr)| <= buf.Length && buf[..len] == Lead(addr, wr)
  {
    len := 0;
    if |wr| > 0 {
      buf[0] := AddressByte(addr);
      Fill(buf, 1, wr);
      len := 1 + |wr|;
      assert buf[..len] == [AddressByte(addr)] + wr;
    }
    ghost var front := buf[..len];
    buf[len] := AddressByte(addr) + 1;
    len := len + 1;
    assert buf[..len] == front + [AddressByte(addr) + 1];
  }

  /** What a device that supports PEC answers. */
  function Answer(addr: byte, wr: seq<byte>, rd: seq<byte>): (line: seq<byte>)
    ensures Crc8(Lead(addr, wr) + line) == 0
  {
    var pec := Crc8(Lead(addr, wr) + rd);
    PecResidue(Lead(addr, wr) + rd, pec);
    assert (Lead(addr, wr) + rd) + [pec] == Lead(addr, wr) + (rd + [pec]);
    rd + [pec]
  }

  /** LINE ERRORS.  An answer, PEC included, that arrives with a change confined to 8 consecutive
      bits is never accepted: its check is not zero. */
  lemma LineBurstRejected(addr: byte, wr: seq<byte>, rd: seq<byte>, got: seq<byte>, before: seq<bool>,
                          x: seq<bool>, y: seq<bool>, after: seq<bool>)
    requires Message8Bits(Answer(addr, wr, rd)) == before + x + after && Message8Bits(got) == before + y + after
    requires |x| == |y| <= 8 && x != y
    ensures Crc8(Lead(addr, wr) + got) != 0
  {
    var lead, sent := Lead(addr, wr), Answer(addr, wr, rd);
    Message8Append(lead, sent);
    Message8Append(lead, got);
    var front := Message8Bits(lead) + before;
    assert Message8Bits(lead + sent) == front + x + after;
    assert Message8Bits(lead + got) == front + y + after;
    Crc8DetectsBurst(lead + sent, lead + got, front, x, y, after);
  }

  lemma {:induction false} Message8Append(a: seq<byte>, b: seq<byte>)
    ensures Message8Bits(a + b) == Message8Bits(a) + Message8Bits(b)
    decreases |a|
  {
    if a == [] {
      assert a + b == b;
    } else {
      assert (a + b)[1..] == a[1..] + b;
      Message8Append(a[1..], b);
    }
  }
}
