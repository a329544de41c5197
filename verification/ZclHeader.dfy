// The header of a ZCL frame (zcl.c).
module ZclHeader {
  import opened Bits
  import opened ZclData

  // The manufacturer code is part of the frame only when manuSpecific is set.
  datatype Header = Header(frameType: nat, manuSpecific: bool, direction: bool, disableDefaultRsp: bool, manuCode: nat,
                           transSeqNum: byte, commandId: byte)

  function Bit(b: bool): nat { if b then 1 else 0 }

  // The values that the header structure takes after it has been parsed.
  predicate Proper(h: Header) { h.frameType < 4 && h.manuCode < 65536 && (!h.manuSpecific ==> h.manuCode == 0) }

  function FrameControl(h: Header): (fc: byte)
    requires h.frameType < 4
    ensures fc < 32
  { h.frameType + 4 * Bit(h.manuSpecific) + 8 * Bit(h.direction) + 16 * Bit(h.disableDefaultRsp) }

  // zclBuildHdr; it takes as many bytes as zclCalcHdrSize says
  function Build(h: Header): (s: seq<byte>)
    requires Proper(h)
    ensures |s| == if h.manuSpecific then 5 else 3
  { [FrameControl(h)] + (if h.manuSpecific then LittleEndian(h.manuCode) else []) + [h.transSeqNum, h.commandId] }

  // zclParseHdr: the header, and how many bytes it took
  function Parse(s: seq<byte>): (r: (Header, nat))
    ensures Proper(r.0)
  {
    var fc := At(s, 0);
    var manu := fc / 4 % 2 == 1;
    var p := if manu then 3 else 1;
    var code := if manu then Word(At(s, 1), At(s, 2)) else 0;
    (Header(fc % 4, manu, fc / 8 % 2 == 1, fc / 16 % 2 == 1, code, At(s, p), At(s, p + 1)), p + 2)
  }

  // The header on the air: the bits of the frame control, the manufacturer code low byte first, the sequence number and
  // the command.
  lemma Layout(h: Header)
    requires Proper(h)
    ensures var s := Build(h);
      And(s[0], 0x03) == h.frameType && (And(s[0], 0x04) != 0 <==> h.manuSpecific) &&
      (And(s[0], 0x08) != 0 <==> h.direction) && (And(s[0], 0x10) != 0 <==> h.disableDefaultRsp) &&
      s[1..] == (if h.manuSpecific then [h.manuCode % 256, h.manuCode / 256] else []) + [h.transSeqNum, h.commandId]
  {
    hide And;
    FrameControlBits(h);
  }

  lemma FrameControlBits(h: Header)
    requires h.frameType < 4
    ensures var fc := FrameControl(h);
      And(fc, 0x03) == h.frameType && (And(fc, 0x04) != 0 <==> h.manuSpecific) &&
      (And(fc, 0x08) != 0 <==> h.direction) && (And(fc, 0x10) != 0 <==> h.disableDefaultRsp)
  {
    hide And;
    var fc := FrameControl(h);
    assert Pow2(2) == 4 && Pow2(3) == 8 && Pow2(4) == 16;
    AndMask(fc, 2);
    AndBit(fc, 2);
    AndBit(fc, 3);
    AndBit(fc, 4);
  }

  // What was built is parsed back, and the payload begins behind it.
  lemma BuildThenParse(h: Header, payload: seq<byte>)
    requires Proper(h)
    ensures Parse(Build(h) + payload) == (h, |Build(h)|)
  {
    var s := Build(h) + payload;
    assert s[0] == FrameControl(h);
    if h.manuSpecific {
      assert s[1] == LittleEndian(h.manuCode)[0] && s[2] == LittleEndian(h.manuCode)[1];
      assert s[3] == h.transSeqNum && s[4] == h.commandId;
    } else {
      assert s[1] == h.transSeqNum && s[2] == h.commandId;
    }
  }

  // What was parsed is built back exactly when the reserved bits of the frame control were clear.
  lemma ParseThenBuild(s: seq<byte>)
    requires |s| >= 1 && |s| == Parse(s).1
    ensures Build(Parse(s).0) == s <==> s[0] < 32
  {
    var h := Parse(s).0;
    if h.manuSpecific {
      LittleEndianOfWord(s[1], s[2]);
    }
    assert s[0] < 32 ==> FrameControl(h) == s[0];
    assert Build(h)[0] == FrameControl(h) < 32;
  }
}
