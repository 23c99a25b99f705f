/**
 * The Internet checksum (RFC 1071) of IPv4 headers (section 3.1 of RFC 791)
 * and TCP segments, computed over headers packed again from decoded fields.
 */
module Checksum {
  import opened Common

  /** A 32-bit field in network order. */
  function Pack32(w: nat): (r: Bytes)
    requires w < 0x1_0000_0000
    ensures |r| == 4
  {
    TwoBytes(w / 65536) + TwoBytes(w % 65536)
  }

  lemma {:induction false} PackWord(b: Bytes, i: nat)
    requires i + 2 <= |b|
    ensures TwoBytes(Word(b, i)) == b[i..i + 2]
  { }

  lemma {:induction false} PackLongWord(b: Bytes, i: nat)
    requires i + 4 <= |b|
    ensures Word(b, i) * 65536 + Word(b, i + 2) < 0x1_0000_0000
    ensures Pack32(Word(b, i) * 65536 + Word(b, i + 2)) == b[i..i + 4]
  {
    PackWord(b, i);
    PackWord(b, i + 2);
    assert b[i..i + 4] == b[i..i + 2] + b[i + 2..i + 4];
  }

  /** The sum of the 16-bit words. */
  function WordSum(b: Bytes): (r: nat)
    requires |b| % 2 == 0
  {
    if b == [] then 0 else WordSum(b[..|b| - 2]) + Word(b, |b| - 2)
  }

  lemma {:induction false} WordSumConcat(a: Bytes, b: Bytes)
    requires |a| % 2 == 0 && |b| % 2 == 0
    ensures WordSum(a + b) == WordSum(a) + WordSum(b)
  {
    if b == [] {
      assert a + b == a;
    } else {
      assert (a + b)[..|a + b| - 2] == a + b[..|b| - 2];
      WordSumConcat(a, b[..|b| - 2]);
    }
  }

  /** Clearing an aligned field takes exactly its value out of the sum. */
  lemma {:induction false} WordSumClear(b: Bytes, i: nat)
    requires |b| % 2 == 0 && i % 2 == 0 && i + 2 <= |b|
    ensures WordSum(b) == WordSum(b[i := 0][i + 1 := 0]) + Word(b, i)
  {
    var c := b[i := 0][i + 1 := 0];
    assert b == b[..i] + b[i..i + 2] + b[i + 2..] && c == b[..i] + [0, 0] + b[i + 2..];
    WordSumConcat(b[..i] + b[i..i + 2], b[i + 2..]);
    WordSumConcat(b[..i], b[i..i + 2]);
    WordSumConcat(b[..i] + [0, 0], b[i + 2..]);
    WordSumConcat(b[..i], [0, 0]);
    assert b[i..i + 2][..0] == [] && [0, 0][..0] == [];
    assert WordSum([0, 0]) == 0;
  }

  // ---------------------------------------------------------------- folding

  /** Carries come back in: the sum modulo 65535 stays, and only a sum of zero folds to zero. */
  method FoldCarries(sum: nat) returns (total: nat)
    ensures total <= 0xFFFF && total % 65535 == sum % 65535 && (sum > 0 ==> total > 0)
  {
    total := sum;
    while total > 0xFFFF
      invariant total % 65535 == sum % 65535 && (sum > 0 ==> total > 0)
      decreases total
    {
      CarryKeepsRemainder(total);
      total := total % 65536 + total / 65536;
    }
  }

  lemma {:induction false} CarryKeepsRemainder(t: nat)
    ensures (t % 65536 + t / 65536) % 65535 == t % 65535
  {
    var q, r := t / 65536, t % 65536;
    assert t == q * 65535 + (q + r);
    RemainderShift(q + r, q);
  }

  lemma {:induction false} RemainderShift(x: nat, q: nat)
    ensures (q * 65535 + x) % 65535 == x % 65535
  { }

  /** The words, the field among them, sum to zero modulo 65535, and the field is not all ones. */
  predicate Passes(sum: nat, field: nat) { field != 0xFFFF && sum % 65535 == 0 }

  /**
   * The complement of a folded sum matches a field if and only if sum and field cancel,
   * and the field is not all ones.
   */
  lemma {:induction false} ComplementMatches(sum: nat, total: nat, field: nat)
    requires sum > 0 && 0 < total <= 0xFFFF && total % 65535 == sum % 65535 && field <= 0xFFFF
    ensures 0xFFFF - total == field <==> Passes(sum + field, field)
  {
    AddRemainders(sum, total, field);
    assert total + field < 2 * 0xFFFF + 1;
  }

  lemma {:induction false} AddRemainders(a: nat, b: nat, c: nat)
    requires a % 65535 == b % 65535
    ensures (a + c) % 65535 == (b + c) % 65535
  {
    var p, q := a / 65535, b / 65535;
    assert a == p * 65535 + a % 65535 && b == q * 65535 + b % 65535;
    RemainderShift(a % 65535 + c, p);
    RemainderShift(b % 65535 + c, q);
  }

  // ---------------------------------------------------------------- IPv4

  datatype DecodeError =
    | WrongEtherType | HeaderTooShort | WrongVersion | HeaderLengthTooSmall | HeaderExceedsBytes
    | TotalBelowHeader | TotalExceedsBytes
    | WrongProtocol | NotInitialFragment | SegmentTooLong

  datatype Ipv4 = Ipv4(
    version: nat, ihl: nat, dscp: nat, ecn: nat, totalLength: nat, identification: nat, flags: nat, fragmentOffset: nat,
    ttl: nat, protocol: nat, checksum: nat, source: Bytes, destination: Bytes, options: Bytes, payload: Bytes)
  {
    /** What the packet's own constructor checks; its second length clause follows from the last one here. */
    predicate Valid()
    {
      && version == 4 && 5 <= ihl <= 15 && dscp < 64 && ecn < 4 && totalLength < 65536 && identification < 65536
      && flags < 8 && fragmentOffset < 8192 && ttl < 256 && protocol < 256 && checksum < 65536
      && |source| == 4 && |destination| == 4 && |options| == ihl * 4 - 20
      && totalLength == ihl * 4 + |payload|
    }
  }

  /** `decode_ipv4`, of a frame's type and payload. */
  function DecodeIpv4(etherType: nat, raw: Bytes): (r: Result<Ipv4, DecodeError>)
    ensures r.Ok? ==> r.value.Valid() && |raw| >= r.value.ihl * 4
  {
    if etherType != 0x0800 then Err(WrongEtherType)
    else if |raw| < 20 then Err(HeaderTooShort)
    else
      var ihl, headerLength, total := raw[0] % 16, raw[0] % 16 * 4, Word(raw, 2);
      if raw[0] / 16 != 4 then Err(WrongVersion)
      else if ihl < 5 then Err(HeaderLengthTooSmall)
      else if |raw| < headerLength then Err(HeaderExceedsBytes)
      else if total < headerLength then Err(TotalBelowHeader)
      else if total > |raw| then Err(TotalExceedsBytes)
      else
        Ok(Ipv4(raw[0] / 16, ihl, raw[1] / 4, raw[1] % 4, total, Word(raw, 4), Word(raw, 6) / 8192, Word(raw, 6) % 8192,
                raw[8], raw[9], Word(raw, 10), raw[12..16], raw[16..20], raw[20..headerLength],
                raw[headerLength..total]))
  }

  /** The header as the validation packs it, its checksum field zero. */
  function PackIpv4(p: Ipv4): (r: Bytes)
    requires p.Valid()
    ensures |r| == p.ihl * 4
  {
    [(p.version * 16 + p.ihl) as Byte, (p.dscp * 4 + p.ecn) as Byte] + TwoBytes(p.totalLength)
    + TwoBytes(p.identification)
    + TwoBytes(p.flags * 8192 + p.fragmentOffset) + [p.ttl as Byte, p.protocol as Byte] + TwoBytes(0) + p.source
      + p.destination + p.options
  }

  lemma {:induction false} Ipv4Bytes(p: Ipv4)
    requires p.Valid()
    ensures var r := PackIpv4(p);
            && r[0] == p.version * 16 + p.ihl && r[1] == p.dscp * 4 + p.ecn && r[2..4] == TwoBytes(p.totalLength)
            && r[4..6] == TwoBytes(p.identification) && r[6..8] == TwoBytes(p.flags * 8192 + p.fragmentOffset)
            && r[8] == p.ttl && r[9] == p.protocol && r[10] == 0 && r[11] == 0
            && r[12..16] == p.source && r[16..20] == p.destination && r[20..] == p.options
  {
    assert TwoBytes(0) == [0, 0];
    hide TwoBytes;
  }

  /** Packing what was decoded gives the bytes that came in, but for the checksum. */
  lemma {:induction false} PackIsRaw(etherType: nat, raw: Bytes)
    requires DecodeIpv4(etherType, raw).Ok?
    ensures var p := DecodeIpv4(etherType, raw).value;
            PackIpv4(p) == raw[..p.ihl * 4][10 := 0][11 := 0]
  {
    var p := DecodeIpv4(etherType, raw).value;
    var r, h := PackIpv4(p), raw[..p.ihl * 4][10 := 0][11 := 0];
    Ipv4Bytes(p);
    PackWord(raw, 2);
    PackWord(raw, 4);
    PackWord(raw, 6);
    assert p.flags * 8192 + p.fragmentOffset == Word(raw, 6);
    assert r[2..4] == raw[2..4] && r[4..6] == raw[4..6] && r[6..8] == raw[6..8];
    hide PackIpv4, DecodeIpv4, TwoBytes;
    forall i | 0 <= i < |r| ensures r[i] == h[i] {
      if 2 <= i < 4 { assert r[i] == r[2..4][i - 2] == raw[2..4][i - 2]; }
      else if 4 <= i < 6 { assert r[i] == r[4..6][i - 4] == raw[4..6][i - 4]; }
      else if 6 <= i < 8 { assert r[i] == r[6..8][i - 6] == raw[6..8][i - 6]; }
      else if 12 <= i < 16 { assert r[i] == r[12..16][i - 12] == p.source[i - 12]; }
      else if 16 <= i < 20 { assert r[i] == r[16..20][i - 16] == p.destination[i - 16]; }
      else if 20 <= i { assert r[i] == r[20..][i - 20] == p.options[i - 20]; }
    }
  }

  /** `validate_ipv4_checksum`. */
  method ValidateIpv4(p: Ipv4) returns (valid: bool)
    requires p.Valid()
    ensures valid <==> Passes(WordSum(PackIpv4(p)) + p.checksum, p.checksum)
  {
    hide PackIpv4, WordSum, Passes;
    var header := PackIpv4(p);
    var sum := WordSum(header);
    Ipv4SumIsPositive(p);
    var total := FoldCarries(sum);
    ComplementMatches(sum, total, p.checksum);
    valid := 0xFFFF - total == p.checksum;
  }

  lemma {:induction false} Ipv4SumIsPositive(p: Ipv4)
    requires p.Valid()
    ensures WordSum(PackIpv4(p)) > 0
  {
    var r := PackIpv4(p);
    Ipv4Bytes(p);
    assert r == r[..2] + r[2..];
    WordSumConcat(r[..2], r[2..]);
    assert r[..2][..0] == [];
  }

  /**
   * A received packet passes if and only if its own header words sum to zero modulo
   * 65535 and its field is not all ones.
   */
  lemma {:induction false} ValidationJudgesTheWire(etherType: nat, raw: Bytes)
    requires DecodeIpv4(etherType, raw).Ok?
    ensures var p := DecodeIpv4(etherType, raw).value;
            Passes(WordSum(PackIpv4(p)) + p.checksum, p.checksum) <==> Passes(WordSum(raw[..p.ihl * 4]), Word(raw, 10))
  {
    var p := DecodeIpv4(etherType, raw).value;
    PackIsRaw(etherType, raw);
    WordSumClear(raw[..p.ihl * 4], 10);
    hide PackIpv4, WordSum, Passes;
  }

  // ---------------------------------------------------------------- TCP

  datatype Tcp = Tcp(
    sourcePort: nat, destinationPort: nat, sequence: nat, acknowledgment: nat, dataOffset: nat, reserved: nat,
    ns: bool, cwr: bool, ece: bool, urg: bool, ack: bool, psh: bool, rst: bool, syn: bool, fin: bool,
    window: nat, checksum: nat, urgent: nat, options: Bytes, payload: Bytes)
  {
    predicate Valid()
    {
      && sourcePort < 65536 && destinationPort < 65536 && sequence < 0x1_0000_0000 && acknowledgment < 0x1_0000_0000
      && 5 <= dataOffset <= 15 && reserved < 8 && window < 65536 && checksum < 65536 && urgent < 65536
      && |options| == dataOffset * 4 - 20
    }
  }

  predicate Set(control: nat, mask: nat)
    requires mask > 0
  {
    control / mask % 2 == 1
  }

  function At(set_: bool, mask: nat): nat { if set_ then mask else 0 }

  /** The bytes of a segment as fields. */
  function ReadTcp(raw: Bytes): (r: Result<Tcp, DecodeError>)
    ensures r.Ok? ==> r.value.Valid() && |raw| >= r.value.dataOffset * 4
  {
    if |raw| < 20 then Err(HeaderTooShort)
    else
      var control := Word(raw, 12);
      var offset := control / 4096;
      if offset < 5 then Err(HeaderLengthTooSmall)
      else if offset * 4 > |raw| then Err(HeaderExceedsBytes)
      else
        Ok(Tcp(Word(raw, 0), Word(raw, 2), Word(raw, 4) * 65536 + Word(raw, 6), Word(raw, 8) * 65536 + Word(raw, 10),
               offset, control / 512 % 8,
               Set(control, 0x100), Set(control, 0x80), Set(control, 0x40), Set(control, 0x20), Set(control, 0x10),
               Set(control, 8), Set(control, 4), Set(control, 2), Set(control, 1),
               Word(raw, 14), Word(raw, 16), Word(raw, 18), raw[20..offset * 4], raw[offset * 4..]))
  }

  /** `decode_tcp` of an IPv4 packet. */
  function DecodeTcp(p: Ipv4): Result<Tcp, DecodeError>
  {
    if p.protocol != 6 then Err(WrongProtocol) else if p.fragmentOffset != 0 then Err(NotInitialFragment)
       else ReadTcp(p.payload)
  }

  function HighFlags(s: Tcp): (r: nat)
    ensures r <= 0x1E0
  {
    At(s.ns, 0x100) + At(s.cwr, 0x80) + At(s.ece, 0x40) + At(s.urg, 0x20)
  }

  function LowFlags(s: Tcp): (r: nat)
    ensures r <= 0x1F
  {
    At(s.ack, 0x10) + At(s.psh, 8) + At(s.rst, 4) + At(s.syn, 2) + At(s.fin, 1)
  }

  function Control(s: Tcp): (r: nat)
    requires s.Valid()
    ensures r < 65536
  {
    s.dataOffset * 4096 + s.reserved * 512 + HighFlags(s) + LowFlags(s)
  }

  /** The header as the validation packs it, its checksum field zero. */
  function PackTcp(s: Tcp): (r: Bytes)
    requires s.Valid()
    ensures |r| == s.dataOffset * 4
  {
    TwoBytes(s.sourcePort) + TwoBytes(s.destinationPort) + Pack32(s.sequence) + Pack32(s.acknowledgment)
      + TwoBytes(Control(s))
    + TwoBytes(s.window) + TwoBytes(0) + TwoBytes(s.urgent) + s.options
  }

  lemma {:induction false} TcpBytes(s: Tcp)
    requires s.Valid()
    ensures var r := PackTcp(s);
            && r[0..2] == TwoBytes(s.sourcePort) && r[2..4] == TwoBytes(s.destinationPort)
            && r[4..8] == Pack32(s.sequence) && r[8..12] == Pack32(s.acknowledgment)
            && r[12..14] == TwoBytes(Control(s)) && r[14..16] == TwoBytes(s.window)
            && r[16..18] == TwoBytes(0) && r[18..20] == TwoBytes(s.urgent) && r[20..] == s.options
  {
    hide TwoBytes, Pack32, Control;
  }

  /** A word without its bits below `mask`. */
  ghost function Above(w: nat, mask: nat): nat
    requires mask > 0
  {
    w / mask * mask
  }

  /** The lowest bit of what is left, and the rest. */
  lemma {:induction false} BitOff(w: nat, mask: nat, next: nat)
    requires mask > 0 && next == 2 * mask
    ensures Above(w, mask) == Above(w, next) + At(Set(w, mask), mask)
  {
    var q := w / mask;
    var h := q / 2;
    assert q == 2 * h + q % 2;
    assert q * mask == h * next + (q % 2) * mask;
    assert w == h * next + ((q % 2) * mask + w % mask);
    DivisionIs(w, next, h, (q % 2) * mask + w % mask);
  }

  lemma {:induction false} MultiplesInOrder(a: nat, b: nat, d: nat)
    ensures a <= b ==> a * d <= b * d
  { }

  lemma {:induction false} DivisionIs(w: nat, d: nat, q: nat, r: nat)
    requires w == q * d + r && r < d
    ensures w / d == q && w % d == r
  {
    MultiplesInOrder(w / d + 1, q, d);
    MultiplesInOrder(q + 1, w / d, d);
  }

  lemma {:induction false} ReadFields(raw: Bytes)
    requires ReadTcp(raw).Ok?
    ensures var s, w := ReadTcp(raw).value, Word(raw, 12);
            && s.dataOffset == w / 4096 && s.reserved == w / 512 % 8
            && s.ns == Set(w, 0x100) && s.cwr == Set(w, 0x80) && s.ece == Set(w, 0x40) && s.urg == Set(w, 0x20)
            && s.ack == Set(w, 0x10) && s.psh == Set(w, 8) && s.rst == Set(w, 4) && s.syn == Set(w, 2)
               && s.fin == Set(w, 1)
  { }

  lemma {:induction false} AboveEnds(w: nat)
    ensures Above(w, 1) == w && Above(w, 0x200) == w / 4096 * 4096 + w / 512 % 8 * 512
  { }

  /** The control field is put together as it was taken apart. */
  lemma {:induction false} ControlIsWord(raw: Bytes)
    requires ReadTcp(raw).Ok?
    ensures Control(ReadTcp(raw).value) == Word(raw, 12)
  {
    hide Set, At, Word, ReadTcp, Above;
    var w := Word(raw, 12);
    ReadFields(raw);
    AboveEnds(w);
    BitOff(w, 1, 2);
    BitOff(w, 2, 4);
    BitOff(w, 4, 8);
    BitOff(w, 8, 0x10);
    BitOff(w, 0x10, 0x20);
    BitOff(w, 0x20, 0x40);
    BitOff(w, 0x40, 0x80);
    BitOff(w, 0x80, 0x100);
    BitOff(w, 0x100, 0x200);
  }

  /** Two byte strings that agree up to a place and from there to another. */
  lemma {:induction false} Glue(a: Bytes, b: Bytes, i: nat, j: nat)
    requires i <= j <= |a| && j <= |b| && a[..i] == b[..i] && a[i..j] == b[i..j]
    ensures a[..j] == b[..j]
  {
    assert a[..j] == a[..i] + a[i..j] && b[..j] == b[..i] + b[i..j];
  }

  lemma {:induction false} ClearedSlice(raw: Bytes, i: nat, j: nat)
    requires 18 <= |raw| && i <= j <= |raw| && (j <= 16 || 18 <= i)
    ensures raw[16 := 0][17 := 0][i..j] == raw[i..j]
  { }

  /** Packing what was decoded gives the segment's bytes, but for the checksum. */
  lemma {:induction false} PackIsSegment(raw: Bytes)
    requires ReadTcp(raw).Ok?
    ensures var s := ReadTcp(raw).value;
            PackTcp(s) == raw[16 := 0][17 := 0][..s.dataOffset * 4] && s.payload == raw[s.dataOffset * 4..]
  {
    var s := ReadTcp(raw).value;
    var r, h, n := PackTcp(s), raw[16 := 0][17 := 0], s.dataOffset * 4;
    TcpBytes(s);
    ControlIsWord(raw);
    PackWord(raw, 0);
    PackWord(raw, 2);
    PackLongWord(raw, 4);
    PackLongWord(raw, 8);
    PackWord(raw, 12);
    PackWord(raw, 14);
    PackWord(raw, 18);
    ClearedSlice(raw, 0, 2);
    ClearedSlice(raw, 2, 4);
    ClearedSlice(raw, 4, 8);
    ClearedSlice(raw, 8, 12);
    ClearedSlice(raw, 12, 14);
    ClearedSlice(raw, 14, 16);
    ClearedSlice(raw, 18, 20);
    ClearedSlice(raw, 20, n);
    assert TwoBytes(0) == h[16..18] && r[20..n] == r[20..];
    hide PackTcp, TwoBytes, Pack32, Control, Word, ReadTcp;
    Glue(r, h, 0, 2);
    Glue(r, h, 2, 4);
    Glue(r, h, 4, 8);
    Glue(r, h, 8, 12);
    Glue(r, h, 12, 14);
    Glue(r, h, 14, 16);
    Glue(r, h, 16, 18);
    Glue(r, h, 18, 20);
    Glue(r, h, 20, n);
    assert r[..n] == r;
  }

  function PadEven(b: Bytes): (r: Bytes)
    ensures |r| % 2 == 0
  {
    if |b| % 2 == 1 then b + [0] else b
  }

  /** The pseudo-header in front of a segment of this length. */
  function Pseudo(p: Ipv4, length: nat): (r: Bytes)
    requires p.Valid() && length < 65536
    ensures |r| == 12
  {
    p.source + p.destination + [0, p.protocol as Byte] + TwoBytes(length)
  }

  /** Its words: both addresses, the protocol and the length (section 3.1 of RFC 9293). */
  lemma {:induction false} PseudoHeaderSum(p: Ipv4, length: nat)
    requires p.Valid() && length < 65536
    ensures WordSum(Pseudo(p, length))
         == Word(p.source, 0) + Word(p.source, 2) + Word(p.destination, 0) + Word(p.destination, 2) + p.protocol
           + length
  {
    var a, b, c, d := p.source, p.destination, [0, p.protocol as Byte], TwoBytes(length);
    WordSumConcat(a + b + c, d);
    WordSumConcat(a + b, c);
    WordSumConcat(a, b);
    FourBytes(a);
    FourBytes(b);
    assert c[..0] == [] && d[..0] == [];
  }

  lemma {:induction false} FourBytes(b: Bytes)
    requires |b| == 4
    ensures WordSum(b) == Word(b, 0) + Word(b, 2)
  {
    assert b[..2][..0] == [];
    assert WordSum(b[..2]) == Word(b[..2], 0);
  }

  function CheckedBytes(p: Ipv4, s: Tcp): Bytes
    requires p.Valid() && s.Valid() && s.dataOffset * 4 + |s.payload| < 65536
  {
    Pseudo(p, s.dataOffset * 4 + |s.payload|) + PackTcp(s) + s.payload
  }

  /** `validate_tcp_checksum`. */
  method ValidateTcp(p: Ipv4, s: Tcp) returns (r: Result<bool, DecodeError>)
    requires p.Valid() && s.Valid()
    ensures r.Err? <==> p.protocol != 6 || p.fragmentOffset != 0 || s.dataOffset * 4 + |s.payload| > 65535
    ensures r.Err? ==> r.error == if p.protocol != 6 then WrongProtocol
                       else if p.fragmentOffset != 0 then NotInitialFragment else SegmentTooLong
    ensures r.Ok? ==> (r.value <==> Passes(WordSum(PadEven(CheckedBytes(p, s))) + s.checksum, s.checksum))
  {
    hide WordSum, PackTcp, Pseudo, Control, Passes;
    if p.protocol != 6 { return Err(WrongProtocol); }
    if p.fragmentOffset != 0 { return Err(NotInitialFragment); }
    var length := s.dataOffset * 4 + |s.payload|;
    if length > 65535 { return Err(SegmentTooLong); }
    var checked := Pseudo(p, length) + PackTcp(s) + s.payload;
    if |checked| % 2 == 1 { checked := checked + [0]; }
    var sum := WordSum(checked);
    TcpSumIsPositive(p, s);
    var total := FoldCarries(sum);
    ComplementMatches(sum, total, s.checksum);
    r := Ok(0xFFFF - total == s.checksum);
  }

  lemma {:induction false} TcpSumIsPositive(p: Ipv4, s: Tcp)
    requires p.Valid() && s.Valid() && p.protocol == 6 && s.dataOffset * 4 + |s.payload| < 65536
    ensures WordSum(PadEven(CheckedBytes(p, s))) > 0
  {
    var r, pseudo := PadEven(CheckedBytes(p, s)), Pseudo(p, s.dataOffset * 4 + |s.payload|);
    assert r == r[..10] + r[10..];
    assert r[..10] == pseudo[..10] && pseudo[..10][8..10] == [0, 6];
    WordSumConcat(r[..10], r[10..]);
    assert Word(pseudo[..10], 8) == 6;
  }

  /**
   * A received segment passes if and only if the words of pseudo-header and
   * segment as received sum to zero modulo 65535, and its field is not all ones.
   */
  lemma {:induction false} ValidationJudgesTheSegment(p: Ipv4, s: Tcp)
    requires p.Valid() && s.Valid() && DecodeTcp(p) == Ok(s) && |p.payload| < 65536
    ensures s.dataOffset * 4 + |s.payload| == |p.payload| >= 20
    ensures Passes(WordSum(PadEven(CheckedBytes(p, s))) + s.checksum, s.checksum)
       <==> Passes(WordSum(PadEven(Pseudo(p, |p.payload|) + p.payload)), Word(p.payload, 16))
  {
    hide *;
    SegmentSum(p, s);
  }

  lemma {:induction false} SegmentSum(p: Ipv4, s: Tcp)
    requires p.Valid() && s.Valid() && DecodeTcp(p) == Ok(s) && |p.payload| < 65536
    ensures s.dataOffset * 4 + |s.payload| == |p.payload| >= 20 && s.checksum == Word(p.payload, 16)
    ensures WordSum(PadEven(Pseudo(p, |p.payload|) + p.payload)) == WordSum(PadEven(CheckedBytes(p, s))) + s.checksum
  {
    hide WordSum, PackTcp, Pseudo, Control, ReadTcp, Ipv4.Valid, Tcp.Valid, PadEven, Word;
    var raw := p.payload;
    ReadLengths(raw);
    PackIsSegment(raw);
    var pseudo := Pseudo(p, |raw|);
    ClearedParts(pseudo, raw, s.dataOffset * 4);
    ClearedSum(pseudo, raw);
  }

  lemma {:induction false} ClearedParts(pseudo: Bytes, raw: Bytes, n: nat)
    requires 18 <= n <= |raw|
    ensures pseudo + raw[16 := 0][17 := 0][..n] + raw[n..] == pseudo + raw[16 := 0][17 := 0]
  {
    var cleared := raw[16 := 0][17 := 0];
    assert cleared == cleared[..n] + raw[n..];
  }

  lemma {:induction false} ClearedSum(pseudo: Bytes, raw: Bytes)
    requires |pseudo| == 12 && |raw| >= 20
    ensures WordSum(PadEven(pseudo + raw)) == WordSum(PadEven(pseudo + raw[16 := 0][17 := 0])) + Word(raw, 16)
  {
    hide WordSum;
    var whole := PadEven(pseudo + raw);
    assert PadEven(pseudo + raw[16 := 0][17 := 0]) == whole[28 := 0][29 := 0];
    WordSumClear(whole, 28);
    assert whole[28] == raw[16] && whole[29] == raw[17];
  }

  lemma {:induction false} ReadLengths(raw: Bytes)
    requires ReadTcp(raw).Ok?
    ensures var s := ReadTcp(raw).value;
            s.dataOffset * 4 + |s.payload| == |raw| && s.checksum == Word(raw, 16) && 20 <= s.dataOffset * 4
  { }
}
